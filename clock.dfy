/**
  Minute-resolution clock values: the `Time` class of the scheduler.

  A time is nothing but a signed count of minutes. There is no range check,
  so negative counts and counts past one day are ordinary values.
 */
module Clock {

  datatype Time = Time(mins: int)

  /** `Time(hours, mins)`, both defaulting to zero: the hours are folded into the minute count. */
  function Make(hours: int := 0, mins: int := 0): Time
  {
    Time(hours * 60 + mins)
  }

  /** `a + b`: minute-wise sum, built through the constructor from minutes alone. */
  function Add(a: Time, b: Time): (r: Time)
    ensures r.mins == a.mins + b.mins
  {
    Make(mins := a.mins + b.mins)
  }

  /** `a * i`: minute-wise product with an integer factor. */
  function Scale(a: Time, i: int): (r: Time)
    ensures r.mins == a.mins * i
  {
    Make(mins := a.mins * i)
  }

  /** `a < b`. */
  predicate Less(a: Time, b: Time)
  {
    a.mins < b.mins
  }

  /** `a == b`: equal minute counts. */
  predicate Equal(a: Time, b: Time)
  {
    a.mins == b.mins
  }

  /** `a <= b`, written as the source writes it: less, or equal. */
  predicate LessEq(a: Time, b: Time)
  {
    Less(a, b) || Equal(a, b)
  }

  /**
    `a >= b`. The class defines no `>=`; the language then falls back to the
    reflected operator of the right operand, so `a >= b` is `b <= a`.
   */
  predicate GreaterEq(a: Time, b: Time)
  {
    LessEq(b, a)
  }

  /**
    The hours and minutes that the text rendering prints: floor division and
    remainder by 60. For a positive divisor the floor convention and Dafny's
    Euclidean one agree, so this holds for negative counts too.
   */
  function Split(t: Time): (hm: (int, int))
    ensures 0 <= hm.1 < 60
    ensures Make(hm.0, hm.1) == t
  {
    (t.mins / 60, t.mins % 60)
  }

  /** Splitting a constructed time gives back its components when the minutes are below 60. */
  lemma SplitMake(hours: int, mins: int)
    requires 0 <= mins < 60
    ensures Split(Make(hours, mins)) == (hours, mins)
  {
  }

  /** Adding constructed times adds their hour and minute components separately. */
  lemma AddMake(h1: int, m1: int, h2: int, m2: int)
    ensures Add(Make(h1, m1), Make(h2, m2)) == Make(h1 + h2, m1 + m2)
  {
  }

  /** Scaling a constructed time scales both of its components. */
  lemma ScaleMake(hours: int, mins: int, i: int)
    ensures Scale(Make(hours, mins), i) == Make(hours * i, mins * i)
  {
  }

  /** Scaling distributes over addition, and zero minutes is the unit of addition. */
  lemma AddScaleAlgebra(a: Time, b: Time, i: int)
    ensures Scale(Add(a, b), i) == Add(Scale(a, i), Scale(b, i))
    ensures Add(a, Make()) == a
    ensures Add(a, b) == Add(b, a)
  {
  }

  /** The comparison operators agree with integer order on the minute counts. */
  lemma ComparisonsFollowMinutes(a: Time, b: Time)
    ensures Less(a, b) <==> a.mins < b.mins
    ensures LessEq(a, b) <==> a.mins <= b.mins
    ensures GreaterEq(a, b) <==> a.mins >= b.mins
    ensures Equal(a, b) <==> a == b
  {
  }

  /** `<=` is a total order whose tie is structural equality. */
  lemma LessEqIsTotalOrder(a: Time, b: Time, c: Time)
    ensures LessEq(a, a)
    ensures LessEq(a, b) && LessEq(b, a) ==> a == b
    ensures LessEq(a, b) && LessEq(b, c) ==> LessEq(a, c)
    ensures LessEq(a, b) || LessEq(b, a)
    ensures Less(a, b) <==> LessEq(a, b) && a != b
  {
  }
}
