/**
  An independent description of what `build_schedules` returns: take every
  tuple of option indices, one index per request, in lexicographic order
  with the last request varying fastest; keep the tuples whose schedule is
  conflict-free; realise each kept tuple as a schedule. The builder's stage
  by stage expansion is proved to produce exactly this list.
 */
module Enumeration {
  import opened ClassTimes
  import opened Builder

  /** The number of options of each request. */
  function Counts(classOptions: seq<UnrealizedClass>): (counts: seq<nat>)
    ensures |counts| == |classOptions|
    ensures forall i | 0 <= i < |classOptions| :: counts[i] == |classOptions[i].timeOptions|
  {
    seq(|classOptions|, i requires 0 <= i < |classOptions| => |classOptions[i].timeOptions|)
  }

  /** The product of a list of counts: the size of the full cartesian product. */
  function Product(counts: seq<nat>): nat
    decreases |counts|
  {
    if counts == [] then 1 else Product(counts[..|counts| - 1]) * counts[|counts| - 1]
  }

  /** `t` picks, for each position, an index below that position's count. */
  predicate InRange(t: seq<nat>, counts: seq<nat>)
  {
    |t| == |counts| && forall i | 0 <= i < |t| :: t[i] < counts[i]
  }

  /**
    Lexicographic order on tuples of equal length, first position most
    significant: `t` comes first when its prefix does, or when the prefixes
    agree and its last index is smaller.
   */
  predicate LexLess(t: seq<nat>, u: seq<nat>)
    decreases |t|
  {
    |t| == |u| && |t| > 0 &&
    (LexLess(t[..|t| - 1], u[..|u| - 1]) ||
     (t[..|t| - 1] == u[..|u| - 1] && t[|t| - 1] < u[|u| - 1]))
  }

  /** Every tuple strictly precedes each later one. */
  predicate LexSorted(ts: seq<seq<nat>>)
  {
    forall a, b | 0 <= a < b < |ts| :: LexLess(ts[a], ts[b])
  }

  /** `t` followed by each index below `n`, in increasing order. */
  function Suffixed(t: seq<nat>, n: nat): seq<seq<nat>>
    decreases n
  {
    if n == 0 then [] else Suffixed(t, n - 1) + [t + [n - 1]]
  }

  /** Each tuple of `ts`, in order, followed by each index below `n`. */
  function ExtendTuples(ts: seq<seq<nat>>, n: nat): seq<seq<nat>>
    decreases |ts|
  {
    if ts == [] then [] else ExtendTuples(ts[..|ts| - 1], n) + Suffixed(ts[|ts| - 1], n)
  }

  /** All index tuples for `counts`, in lexicographic order. */
  function Tuples(counts: seq<nat>): seq<seq<nat>>
    decreases |counts|
  {
    if counts == [] then [[]] else ExtendTuples(Tuples(counts[..|counts| - 1]), counts[|counts| - 1])
  }

  /** The schedule an index tuple stands for: request `i` with its option `t[i]`. */
  function Realize(classOptions: seq<UnrealizedClass>, t: seq<nat>): Schedule
    requires InRange(t, Counts(classOptions))
  {
    seq(|classOptions|, i requires 0 <= i < |classOptions| =>
      Class(classOptions[i].name, classOptions[i].timeOptions[t[i]]))
  }

  /** `t` stands for a schedule, and that schedule is conflict-free. */
  predicate Valid(classOptions: seq<UnrealizedClass>, t: seq<nat>)
  {
    InRange(t, Counts(classOptions)) && ConflictFree(Realize(classOptions, t))
  }

  /** The valid tuples of `ts`, in order. */
  function Chosen(classOptions: seq<UnrealizedClass>, ts: seq<seq<nat>>): seq<seq<nat>>
    decreases |ts|
  {
    if ts == [] then []
    else
      var t := ts[|ts| - 1];
      Chosen(classOptions, ts[..|ts| - 1]) + (if Valid(classOptions, t) then [t] else [])
  }

  /** The schedules of the valid tuples of `ts`, in order. */
  function Selected(classOptions: seq<UnrealizedClass>, ts: seq<seq<nat>>): seq<Schedule>
    decreases |ts|
  {
    if ts == [] then []
    else
      var t := ts[|ts| - 1];
      Selected(classOptions, ts[..|ts| - 1]) + (if Valid(classOptions, t) then [Realize(classOptions, t)] else [])
  }

  /** The index tuples whose schedules the builder is to return, in the order it is to return them. */
  function ValidTuples(classOptions: seq<UnrealizedClass>): seq<seq<nat>>
  {
    Chosen(classOptions, Tuples(Counts(classOptions)))
  }

  // ---------------------------------------------------------------------------
  // The lexicographic order

  /** No tuple precedes itself. */
  lemma {:induction false} LexLessIrreflexive(t: seq<nat>)
    ensures !LexLess(t, t)
    decreases |t|
  {
    if |t| > 0 {
      LexLessIrreflexive(t[..|t| - 1]);
    }
  }

  /** A strictly sorted list of tuples holds no tuple twice. */
  lemma LexSortedDistinct(ts: seq<seq<nat>>)
    requires LexSorted(ts)
    ensures forall a, b | 0 <= a < b < |ts| :: ts[a] != ts[b]
  {
    forall a, b | 0 <= a < b < |ts|
      ensures ts[a] != ts[b]
    {
      LexLessIrreflexive(ts[a]);
    }
  }

  /**
    The prefix-wise definition is the textbook one: at the first position
    where the tuples differ, the first tuple has the smaller index.
   */
  lemma {:induction false} LexLessFirstDifference(t: seq<nat>, u: seq<nat>)
    requires |t| == |u|
    ensures LexLess(t, u) <==> exists p | 0 <= p < |t| :: t[..p] == u[..p] && t[p] < u[p]
    decreases |t|
  {
    if |t| > 0 {
      var n := |t| - 1;
      var t', u' := t[..n], u[..n];
      LexLessFirstDifference(t', u');
      if LexLess(t, u) {
        if LexLess(t', u') {
          var p :| 0 <= p < n && t'[..p] == u'[..p] && t'[p] < u'[p];
          assert t[..p] == t'[..p] && u[..p] == u'[..p];
        } else {
          assert t[..n] == u[..n] && t[n] < u[n];
        }
      } else {
        forall p | 0 <= p < |t| && t[..p] == u[..p]
          ensures !(t[p] < u[p])
        {
          if p < n {
            assert t'[..p] == t[..p] && u'[..p] == u[..p];
            assert t'[p] == t[p] && u'[p] == u[p];
          }
        }
      }
    }
  }

  /** Appending one index to each of two tuples: the prefixes decide first. */
  lemma LexLessSnoc(t: seq<nat>, x: nat, u: seq<nat>, y: nat)
    requires |t| == |u|
    ensures LexLess(t + [x], u + [y]) <==> LexLess(t, u) || (t == u && x < y)
  {
    assert (t + [x])[..|t|] == t && (u + [y])[..|u|] == u;
  }

  /** Two sorted lists stay sorted when joined, if everything in the first precedes everything in the second. */
  lemma LexSortedAppend(a: seq<seq<nat>>, b: seq<seq<nat>>)
    requires LexSorted(a) && LexSorted(b)
    requires forall x, y | x in a && y in b :: LexLess(x, y)
    ensures LexSorted(a + b)
  {
    var ab := a + b;
    forall i, j | 0 <= i < j < |ab|
      ensures LexLess(ab[i], ab[j])
    {
      if j < |a| {
        assert ab[i] == a[i] && ab[j] == a[j];
      } else if i >= |a| {
        assert ab[i] == b[i - |a|] && ab[j] == b[j - |a|];
      } else {
        assert ab[i] in a && ab[j] in b;
      }
    }
  }

  // ---------------------------------------------------------------------------
  // The index tuples

  /** `Suffixed(t, n)` is `t + [0]`, ..., `t + [n - 1]`. */
  lemma {:induction false} SuffixedAt(t: seq<nat>, n: nat)
    ensures |Suffixed(t, n)| == n
    ensures forall k | 0 <= k < n :: Suffixed(t, n)[k] == t + [k]
    decreases n
  {
    if n > 0 {
      SuffixedAt(t, n - 1);
    }
  }

  /** The suffixed tuples of one tuple are sorted. */
  lemma SuffixedSorted(t: seq<nat>, n: nat)
    ensures LexSorted(Suffixed(t, n))
  {
    SuffixedAt(t, n);
    forall a, b | 0 <= a < b < n
      ensures LexLess(Suffixed(t, n)[a], Suffixed(t, n)[b])
    {
      LexLessSnoc(t, a, t, b);
    }
  }

  /** Extending gives `n` tuples per tuple of `ts`. */
  lemma {:induction false} ExtendTuplesLength(ts: seq<seq<nat>>, n: nat)
    ensures |ExtendTuples(ts, n)| == |ts| * n
    decreases |ts|
  {
    if ts != [] {
      var m := |ts| - 1;
      ExtendTuplesLength(ts[..m], n);
      SuffixedAt(ts[m], n);
      assert |ExtendTuples(ts, n)| == m * n + n;
      MultiplySuccessor(m, n);
    }
  }

  /** Each extended tuple is a tuple of `ts` followed by an index below `n`. */
  lemma {:induction false} ExtendTuplesSound(ts: seq<seq<nat>>, n: nat)
    ensures forall x | x in ExtendTuples(ts, n) :: |x| > 0 && x[..|x| - 1] in ts && x[|x| - 1] < n
    decreases |ts|
  {
    if ts != [] {
      var m := |ts| - 1;
      var init, last := ts[..m], ts[m];
      ExtendTuplesSound(init, n);
      SuffixedAt(last, n);
      assert forall t | t in init :: t in ts;
      forall x | x in Suffixed(last, n)
        ensures |x| > 0 && x[..|x| - 1] in ts && x[|x| - 1] < n
      {
        var k :| 0 <= k < n && Suffixed(last, n)[k] == x;
        assert x[..|x| - 1] == last;
      }
    }
  }

  /** Each tuple of `ts` followed by each index below `n` is among the extended tuples. */
  lemma {:induction false} ExtendTuplesComplete(ts: seq<seq<nat>>, n: nat, t: seq<nat>, k: nat)
    requires t in ts && k < n
    ensures t + [k] in ExtendTuples(ts, n)
    decreases |ts|
  {
    var m := |ts| - 1;
    var init, last := ts[..m], ts[m];
    if t == last {
      SuffixedAt(last, n);
      assert Suffixed(last, n)[k] == t + [k];
    } else {
      assert t in init;
      ExtendTuplesComplete(init, n, t, k);
    }
  }

  lemma MultiplySuccessor(m: nat, n: nat)
    ensures (m + 1) * n == m * n + n
  {
  }

  /** Every tuple enumerated is in range. */
  lemma {:induction false} TuplesInRange(counts: seq<nat>)
    ensures forall t | t in Tuples(counts) :: InRange(t, counts)
    decreases |counts|
  {
    if counts != [] {
      var m := |counts| - 1;
      TuplesInRange(counts[..m]);
      ExtendTuplesSound(Tuples(counts[..m]), counts[m]);
      forall x | x in Tuples(counts)
        ensures InRange(x, counts)
      {
        var prefix := x[..|x| - 1];
        assert prefix in Tuples(counts[..m]) && x[|x| - 1] < counts[m];
        SplitLastIndex(x);
        InRangeSnoc(prefix, x[|x| - 1], counts);
      }
    }
  }

  /** An in-range tuple for all but the last count, with an index below the last count appended, is in range. */
  lemma InRangeSnoc(t: seq<nat>, k: nat, counts: seq<nat>)
    requires |counts| > 0 && InRange(t, counts[..|counts| - 1]) && k < counts[|counts| - 1]
    ensures InRange(t + [k], counts)
  {
  }

  /** Every tuple in range is enumerated. */
  lemma {:induction false} TuplesComplete(counts: seq<nat>, t: seq<nat>)
    requires InRange(t, counts)
    ensures t in Tuples(counts)
    decreases |counts|
  {
    if counts != [] {
      var m := |counts| - 1;
      var prefix := t[..m];
      TuplesComplete(counts[..m], prefix);
      ExtendTuplesComplete(Tuples(counts[..m]), counts[m], prefix, t[m]);
      assert t == prefix + [t[m]];
    }
  }

  /** There are as many tuples as the product of the counts. */
  lemma {:induction false} TuplesCount(counts: seq<nat>)
    ensures |Tuples(counts)| == Product(counts)
    decreases |counts|
  {
    if counts != [] {
      var m := |counts| - 1;
      TuplesCount(counts[..m]);
      ExtendTuplesLength(Tuples(counts[..m]), counts[m]);
    }
  }

  /** Extending a sorted list of equal-length tuples keeps it sorted. */
  lemma {:induction false} ExtendTuplesSorted(ts: seq<seq<nat>>, n: nat, width: nat)
    requires LexSorted(ts)
    requires forall t | t in ts :: |t| == width
    ensures LexSorted(ExtendTuples(ts, n))
    decreases |ts|
  {
    if ts != [] {
      var m := |ts| - 1;
      var init, last := ts[..m], ts[m];
      assert LexSorted(init) by {
        forall a, b | 0 <= a < b < |init|
          ensures LexLess(init[a], init[b])
        {
          assert init[a] == ts[a] && init[b] == ts[b];
        }
      }
      ExtendTuplesSorted(init, n, width);
      SuffixedSorted(last, n);
      ExtendedBeforeSuffixed(ts, n, width);
      LexSortedAppend(ExtendTuples(init, n), Suffixed(last, n));
    }
  }

  /** In a sorted list, the extensions of earlier tuples precede those of the last one. */
  lemma ExtendedBeforeSuffixed(ts: seq<seq<nat>>, n: nat, width: nat)
    requires ts != [] && LexSorted(ts)
    requires forall t | t in ts :: |t| == width
    ensures forall x, y | x in ExtendTuples(ts[..|ts| - 1], n) && y in Suffixed(ts[|ts| - 1], n) :: LexLess(x, y)
  {
    forall x, y | x in ExtendTuples(ts[..|ts| - 1], n) && y in Suffixed(ts[|ts| - 1], n)
      ensures LexLess(x, y)
    {
      ExtendedBeforeOne(ts, n, width, x, y);
    }
  }

  /** One extension of an earlier tuple precedes one extension of the last tuple. */
  lemma ExtendedBeforeOne(ts: seq<seq<nat>>, n: nat, width: nat, x: seq<nat>, y: seq<nat>)
    requires ts != [] && LexSorted(ts)
    requires forall t | t in ts :: |t| == width
    requires x in ExtendTuples(ts[..|ts| - 1], n) && y in Suffixed(ts[|ts| - 1], n)
    ensures LexLess(x, y)
  {
    var m := |ts| - 1;
    var init, last := ts[..m], ts[m];
    ExtendTuplesSound(init, n);
    SuffixedAt(last, n);
    var prefix := x[..|x| - 1];
    assert prefix in init;
    var a :| 0 <= a < m && init[a] == prefix;
    assert ts[a] == prefix && LexLess(ts[a], ts[m]);
    var k :| 0 <= k < n && Suffixed(last, n)[k] == y;
    assert y == last + [k];
    SplitLastIndex(x);
    LexLessSnoc(prefix, x[|x| - 1], last, k);
  }

  /** A non-empty tuple is its prefix with its last index appended. */
  lemma SplitLastIndex(t: seq<nat>)
    requires |t| > 0
    ensures t == t[..|t| - 1] + [t[|t| - 1]]
  {
  }

  /** The tuples are enumerated in strictly increasing lexicographic order. */
  lemma {:induction false} TuplesSorted(counts: seq<nat>)
    ensures LexSorted(Tuples(counts))
    decreases |counts|
  {
    if counts != [] {
      var m := |counts| - 1;
      TuplesSorted(counts[..m]);
      TuplesInRange(counts[..m]);
      ExtendTuplesSorted(Tuples(counts[..m]), counts[m], m);
    }
  }

  // ---------------------------------------------------------------------------
  // Filtering the tuples

  /** A tuple is chosen exactly when it is one of `ts` and valid; no more tuples than `ts` holds. */
  lemma {:induction false} ChosenMembers(classOptions: seq<UnrealizedClass>, ts: seq<seq<nat>>)
    ensures |Chosen(classOptions, ts)| <= |ts|
    ensures forall t :: t in Chosen(classOptions, ts) <==> t in ts && Valid(classOptions, t)
    decreases |ts|
  {
    if ts != [] {
      var m := |ts| - 1;
      ChosenMembers(classOptions, ts[..m]);
      assert ts == ts[..m] + [ts[m]];
    }
  }

  /** Filtering keeps a sorted list sorted. */
  lemma {:induction false} ChosenSorted(classOptions: seq<UnrealizedClass>, ts: seq<seq<nat>>)
    requires LexSorted(ts)
    ensures LexSorted(Chosen(classOptions, ts))
    decreases |ts|
  {
    if ts != [] {
      var m := |ts| - 1;
      var init := ts[..m];
      assert LexSorted(init) by {
        forall a, b | 0 <= a < b < |init|
          ensures LexLess(init[a], init[b])
        {
          assert init[a] == ts[a] && init[b] == ts[b];
        }
      }
      ChosenSorted(classOptions, init);
      ChosenMembers(classOptions, init);
      if Valid(classOptions, ts[m]) {
        forall x, y | x in Chosen(classOptions, init) && y in [ts[m]]
          ensures LexLess(x, y)
        {
          var a :| 0 <= a < m && init[a] == x;
          assert ts[a] == x;
        }
        LexSortedAppend(Chosen(classOptions, init), [ts[m]]);
      }
    }
  }

  /** The selected schedules are the schedules of the chosen tuples, position by position. */
  lemma {:induction false} SelectedIsChosen(classOptions: seq<UnrealizedClass>, ts: seq<seq<nat>>)
    ensures |Selected(classOptions, ts)| == |Chosen(classOptions, ts)|
    ensures forall k | 0 <= k < |Chosen(classOptions, ts)| ::
      InRange(Chosen(classOptions, ts)[k], Counts(classOptions)) &&
      Selected(classOptions, ts)[k] == Realize(classOptions, Chosen(classOptions, ts)[k])
    decreases |ts|
  {
    if ts != [] {
      SelectedIsChosen(classOptions, ts[..|ts| - 1]);
    }
  }

  /** Selecting from a concatenation selects from each part. */
  lemma {:induction false} SelectedAppend(classOptions: seq<UnrealizedClass>, a: seq<seq<nat>>, b: seq<seq<nat>>)
    ensures Selected(classOptions, a + b) == Selected(classOptions, a) + Selected(classOptions, b)
    decreases |b|
  {
    if b == [] {
      assert a + b == a;
    } else {
      var m := |b| - 1;
      SelectedAppend(classOptions, a, b[..m]);
      assert (a + b)[..|a + b| - 1] == a + b[..m];
    }
  }

  // ---------------------------------------------------------------------------
  // The builder enumerates the valid tuples

  /** A stage of a concatenation is the concatenation of the stages. */
  lemma {:induction false} StageAppend(a: seq<Schedule>, b: seq<Schedule>, c: UnrealizedClass)
    ensures Stage(a + b, c) == Stage(a, c) + Stage(b, c)
    decreases |b|
  {
    if b == [] {
      assert a + b == a;
    } else {
      var m := |b| - 1;
      var ab, last := a + b, b[m];
      var added := Extend(last, Fitting(last, c.name, c.timeOptions));
      StageAppend(a, b[..m], c);
      assert ab[..|ab| - 1] == a + b[..m] && ab[|ab| - 1] == last;
      assert Stage(ab, c) == Stage(a + b[..m], c) + added;
      assert Stage(b, c) == Stage(b[..m], c) + added;
    }
  }

  /** The counts of one more request: the earlier counts, then that request's. */
  lemma CountsSnoc(prior: seq<UnrealizedClass>, c: UnrealizedClass)
    ensures Counts(prior + [c]) == Counts(prior) + [|c.timeOptions|]
  {
  }

  /** A tuple with one more index stands for the earlier schedule with one more class. */
  lemma RealizeSnoc(prior: seq<UnrealizedClass>, c: UnrealizedClass, t: seq<nat>, k: nat)
    requires InRange(t, Counts(prior)) && k < |c.timeOptions|
    ensures InRange(t + [k], Counts(prior + [c]))
    ensures Realize(prior + [c], t + [k]) == Realize(prior, t) + [Class(c.name, c.timeOptions[k])]
  {
    CountsSnoc(prior, c);
    var all := prior + [c];
    assert forall i | 0 <= i < |prior| :: all[i] == prior[i];
  }

  /** Keeping one option more: the option is kept when it fits. */
  lemma FittingStep(schedule: Schedule, name: string, options: seq<TimeOption>, m: nat)
    requires m < |options|
    ensures Fitting(schedule, name, options[..m + 1]) ==
      Fitting(schedule, name, options[..m]) + (if Fits(schedule, options[m]) then [Class(name, options[m])] else [])
  {
    assert options[..m + 1][..m] == options[..m];
  }

  /**
    The tuples that extend one tuple `t` with the first `m` options of the
    next request select what the builder makes of `t`'s schedule from those
    options.
   */
  lemma {:induction false} SuffixedSelection(prior: seq<UnrealizedClass>, c: UnrealizedClass, t: seq<nat>, m: nat)
    requires InRange(t, Counts(prior)) && m <= |c.timeOptions|
    ensures Selected(prior + [c], Suffixed(t, m)) ==
      if ConflictFree(Realize(prior, t))
      then Extend(Realize(prior, t), Fitting(Realize(prior, t), c.name, c.timeOptions[..m]))
      else []
    decreases m
  {
    var s, all := Realize(prior, t), prior + [c];
    if m == 0 {
      assert c.timeOptions[..0] == [];
      assert Fitting(s, c.name, c.timeOptions[..0]) == [];
    } else {
      var k := m - 1;
      var u, next := t + [k], Class(c.name, c.timeOptions[k]);
      var before := Fitting(s, c.name, c.timeOptions[..k]);
      SuffixedSelection(prior, c, t, k);
      assert Suffixed(t, m) == Suffixed(t, k) + [u];
      SelectedAppend(all, Suffixed(t, k), [u]);
      RealizeSnoc(prior, c, t, k);
      ConflictFreeSnoc(s, next);
      assert [u][..0] == [];
      assert Selected(all, [u]) == if Valid(all, u) then [s + [next]] else [];
      FittingStep(s, c.name, c.timeOptions, k);
      var lhs := Selected(all, Suffixed(t, m));
      assert lhs == Selected(all, Suffixed(t, k)) + Selected(all, [u]);
      if !ConflictFree(s) {
        assert lhs == [];
      } else if Fits(s, c.timeOptions[k]) {
        assert (before + [next])[..|before|] == before;
        assert Extend(s, before + [next]) == Extend(s, before) + [s + [next]];
        assert lhs == Extend(s, before) + [s + [next]];
      } else {
        assert lhs == Extend(s, before);
        assert Fitting(s, c.name, c.timeOptions[..k + 1]) == before;
      }
    }
  }

  /** One stage of the builder applied to the selection for `prior` is the selection for `prior + [c]`. */
  lemma {:induction false} StageSelection(prior: seq<UnrealizedClass>, c: UnrealizedClass, ts: seq<seq<nat>>)
    requires forall t | t in ts :: InRange(t, Counts(prior))
    ensures Selected(prior + [c], ExtendTuples(ts, |c.timeOptions|)) == Stage(Selected(prior, ts), c)
    decreases |ts|
  {
    if ts != [] {
      var m, n := |ts| - 1, |c.timeOptions|;
      var init, t := ts[..m], ts[m];
      assert forall u | u in init :: u in ts;
      StageSelection(prior, c, init);
      SelectedAppend(prior + [c], ExtendTuples(init, n), Suffixed(t, n));
      SelectedSnoc(prior, ts);
      var extra := if Valid(prior, t) then [Realize(prior, t)] else [];
      StageAppend(Selected(prior, init), extra, c);
      StageOfOneTuple(prior, c, t);
    }
  }

  /** The stage applied to the selection of one tuple is the selection of that tuple's extensions. */
  lemma StageOfOneTuple(prior: seq<UnrealizedClass>, c: UnrealizedClass, t: seq<nat>)
    requires InRange(t, Counts(prior))
    ensures Stage(if Valid(prior, t) then [Realize(prior, t)] else [], c) ==
      Selected(prior + [c], Suffixed(t, |c.timeOptions|))
  {
    var n := |c.timeOptions|;
    SuffixedSelection(prior, c, t, n);
    assert c.timeOptions[..n] == c.timeOptions;
    if Valid(prior, t) {
      assert [Realize(prior, t)][..0] == [];
    }
  }

  /** Selecting from a non-empty list: the selection of all but the last tuple, then the last one's schedule if it is valid. */
  lemma SelectedSnoc(classOptions: seq<UnrealizedClass>, ts: seq<seq<nat>>)
    requires ts != []
    ensures var t := ts[|ts| - 1];
      Selected(classOptions, ts) ==
        Selected(classOptions, ts[..|ts| - 1]) + (if Valid(classOptions, t) then [Realize(classOptions, t)] else [])
  {
  }

  /** `build_schedules` returns the schedules of the valid tuples, in lexicographic order. */
  lemma {:induction false} BuildIsSelection(classOptions: seq<UnrealizedClass>)
    ensures Build(classOptions) == Selected(classOptions, Tuples(Counts(classOptions)))
    decreases |classOptions|
  {
    if classOptions == [] {
      assert Realize([], []) == [];
    } else {
      var m := |classOptions| - 1;
      var prior, c := classOptions[..m], classOptions[m];
      assert classOptions == prior + [c];
      BuildIsSelection(prior);
      CountsSnoc(prior, c);
      assert Counts(classOptions)[..m] == Counts(prior);
      TuplesInRange(Counts(prior));
      StageSelection(prior, c, Tuples(Counts(prior)));
    }
  }

  /**
    The main theorem. The valid index tuples are listed in strictly
    increasing lexicographic order, so each at most once; a tuple is listed
    exactly when it is in range and its schedule is conflict-free; and the
    builder returns their schedules, one for one and in that order.
   */
  lemma BuildEnumeratesValidTuples(classOptions: seq<UnrealizedClass>)
    ensures var v := ValidTuples(classOptions);
      LexSorted(v) &&
      (forall a, b | 0 <= a < b < |v| :: v[a] != v[b]) &&
      (forall t :: t in v <==> InRange(t, Counts(classOptions)) && ConflictFree(Realize(classOptions, t))) &&
      |Build(classOptions)| == |v| &&
      (forall k | 0 <= k < |v| ::
        InRange(v[k], Counts(classOptions)) && Build(classOptions)[k] == Realize(classOptions, v[k]))
  {
    var all := Tuples(Counts(classOptions));
    TuplesSorted(Counts(classOptions));
    ChosenSorted(classOptions, all);
    LexSortedDistinct(ValidTuples(classOptions));
    ChosenMembers(classOptions, all);
    forall t | InRange(t, Counts(classOptions))
      ensures t in all
    {
      TuplesComplete(Counts(classOptions), t);
    }
    BuildIsSelection(classOptions);
    SelectedIsChosen(classOptions, all);
  }

  /** Completeness: every conflict-free combination of one option per request is built. */
  lemma BuildComplete(classOptions: seq<UnrealizedClass>, t: seq<nat>)
    requires InRange(t, Counts(classOptions)) && ConflictFree(Realize(classOptions, t))
    ensures Realize(classOptions, t) in Build(classOptions)
  {
    BuildEnumeratesValidTuples(classOptions);
    var v := ValidTuples(classOptions);
    var k :| 0 <= k < |v| && v[k] == t;
    assert Build(classOptions)[k] == Realize(classOptions, t);
  }

  /** No more schedules than the product of the option counts. */
  lemma BuildBound(classOptions: seq<UnrealizedClass>)
    ensures |Build(classOptions)| <= Product(Counts(classOptions))
  {
    BuildEnumeratesValidTuples(classOptions);
    ChosenMembers(classOptions, Tuples(Counts(classOptions)));
    TuplesCount(Counts(classOptions));
  }
}
