/**
  Blocks of class time (`ClassTime`) and the overlap test the builder uses,
  with the two helpers that generate option lists from start times.
 */
module ClassTimes {
  import opened Clock

  /** A weekday name. Days are only ever compared for equality. */
  type Day = string

  /** One contiguous block of class time on one day. */
  datatype ClassTime = ClassTime(day: Day, startTime: Time, endTime: Time)

  /** A block that does not end before it starts. Callers are expected to keep to this; nothing checks it. */
  predicate WellFormed(b: ClassTime)
  {
    LessEq(b.startTime, b.endTime)
  }

  /**
    `block.overlaps(other)`: on the same day, the start or the end of `block`
    lies in the closed range of `other`. Touching endpoints count. The test
    looks only at `block`'s endpoints, so it is one-directional.
   */
  function Overlaps(block: ClassTime, other: ClassTime): (r: bool)
    ensures r <==> (block.day == other.day &&
                    ((other.startTime.mins <= block.startTime.mins <= other.endTime.mins) ||
                     (other.startTime.mins <= block.endTime.mins <= other.endTime.mins)))
  {
    var sameDay := block.day == other.day;
    var startInOther := GreaterEq(block.startTime, other.startTime) && LessEq(block.startTime, other.endTime);
    var endInOther := GreaterEq(block.endTime, other.startTime) && LessEq(block.endTime, other.endTime);
    sameDay && (startInOther || endInOther)
  }

  /** Ordinary intersection of closed ranges on the same day: the two blocks share a minute. */
  predicate Intersect(a: ClassTime, b: ClassTime)
  {
    a.day == b.day && a.startTime.mins <= b.endTime.mins && b.startTime.mins <= a.endTime.mins
  }

  /** Blocks on different days never overlap, whatever their times. */
  lemma DifferentDaysNeverOverlap(a: ClassTime, b: ClassTime)
    requires a.day != b.day
    ensures !Overlaps(a, b) && !Overlaps(b, a)
  {
  }

  /** A block ending exactly when another starts on the same day overlaps it, in both directions. */
  lemma TouchingOverlaps(a: ClassTime, b: ClassTime)
    requires a.day == b.day && WellFormed(a) && WellFormed(b)
    requires a.endTime == b.startTime
    ensures Overlaps(a, b) && Overlaps(b, a)
  {
  }

  /** A block overlaps itself exactly when it is well formed. */
  lemma SelfOverlap(a: ClassTime)
    ensures Overlaps(a, a) <==> WellFormed(a)
  {
  }

  /**
    The test is not symmetric: when `a` strictly contains `b`, neither end of
    `a` lies inside `b`, while `b`'s start lies inside `a`.
   */
  lemma ContainmentIsOneSided(a: ClassTime, b: ClassTime)
    requires a.day == b.day && WellFormed(b)
    requires Less(a.startTime, b.startTime) && Less(b.endTime, a.endTime)
    ensures Intersect(a, b)
    ensures !Overlaps(a, b) && Overlaps(b, a)
  {
  }

  /** For well-formed blocks, testing both directions is exactly closed-range intersection. */
  lemma EitherDirectionIsIntersection(a: ClassTime, b: ClassTime)
    requires WellFormed(a) && WellFormed(b)
    ensures Overlaps(a, b) || Overlaps(b, a) <==> Intersect(a, b)
  {
  }

  /**
    `multi_day_same_time(days, start_times, duration)`: one option per start
    time, holding one block per day, each lasting `duration`.
   */
  function MultiDaySameTime(days: seq<Day>, startTimes: seq<Time>, duration: Time): (options: seq<seq<ClassTime>>)
    ensures |options| == |startTimes|
    ensures forall i | 0 <= i < |options| ::
      |options[i]| == |days| &&
      forall j | 0 <= j < |days| ::
        options[i][j].day == days[j] && options[i][j].startTime == startTimes[i] &&
        options[i][j].endTime.mins - options[i][j].startTime.mins == duration.mins
  {
    seq(|startTimes|, i requires 0 <= i < |startTimes| => SameTimeOn(days, startTimes[i], duration))
  }

  /** The inner comprehension: one block per day, all starting at `start`. */
  function SameTimeOn(days: seq<Day>, start: Time, duration: Time): (blocks: seq<ClassTime>)
    ensures |blocks| == |days|
    ensures forall j | 0 <= j < |days| :: blocks[j] == ClassTime(days[j], start, Add(start, duration))
  {
    seq(|days|, j requires 0 <= j < |days| => ClassTime(days[j], start, Add(start, duration)))
  }

  /** `multi_times(day, start_times, duration)`: one single-block option per start time. */
  function MultiTimes(day: Day, startTimes: seq<Time>, duration: Time): (options: seq<seq<ClassTime>>)
    ensures |options| == |startTimes|
    ensures forall i | 0 <= i < |options| ::
      |options[i]| == 1 && options[i][0].day == day && options[i][0].startTime == startTimes[i] &&
      options[i][0].endTime.mins - options[i][0].startTime.mins == duration.mins
  {
    seq(|startTimes|, i requires 0 <= i < |startTimes| =>
      [ClassTime(day, startTimes[i], Add(startTimes[i], duration))])
  }

  /** `multi_times` is `multi_day_same_time` over a single day. */
  lemma MultiTimesIsOneDay(day: Day, startTimes: seq<Time>, duration: Time)
    ensures MultiTimes(day, startTimes, duration) == MultiDaySameTime([day], startTimes, duration)
  {
    var single, multi := MultiTimes(day, startTimes, duration), MultiDaySameTime([day], startTimes, duration);
    forall i | 0 <= i < |startTimes|
      ensures single[i] == multi[i]
    {
      assert |multi[i]| == 1;
    }
  }

  /**
    With a non-negative duration every generated block is well formed, and
    when the days are distinct no two blocks of one option overlap.
   */
  lemma MultiDaySameTimeBlocks(days: seq<Day>, startTimes: seq<Time>, duration: Time)
    requires duration.mins >= 0
    requires forall j, k | 0 <= j < k < |days| :: days[j] != days[k]
    ensures var options := MultiDaySameTime(days, startTimes, duration);
      (forall i, j | 0 <= i < |options| && 0 <= j < |options[i]| :: WellFormed(options[i][j])) &&
      (forall i, j, k | 0 <= i < |options| && 0 <= j < |options[i]| && 0 <= k < |options[i]| && j != k ::
        !Overlaps(options[i][j], options[i][k]))
  {
  }
}
