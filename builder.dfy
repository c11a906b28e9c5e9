/**
  The schedule builder: `new_class_time_fits`, `get_fitting_classes` and
  `build_schedules`. Each is a method with the loops of the source, proved
  equal to a specification function; the functions carry the properties.
 */
module Builder {
  import opened ClassTimes

  /** One way to take a course: blocks that are scheduled together or not at all. */
  type TimeOption = seq<ClassTime>

  /** `UnrealizedClass`: a course and its mutually exclusive options. */
  datatype UnrealizedClass = UnrealizedClass(name: string, timeOptions: seq<TimeOption>)

  /** `Class`: a course together with the option chosen for it. */
  datatype Class = Class(name: string, times: seq<ClassTime>)

  /** A partial or finished schedule: one class per request handled so far. */
  type Schedule = seq<Class>

  /**
    No block already in `schedule` overlaps a block of `newTimes`, with the
    test applied as the source applies it: scheduled block first.
   */
  predicate Fits(schedule: Schedule, newTimes: seq<ClassTime>)
  {
    forall k, i, j | 0 <= k < |newTimes| && 0 <= i < |schedule| && 0 <= j < |schedule[i].times| ::
      !Overlaps(schedule[i].times[j], newTimes[k])
  }

  /**
    Every earlier class of `s` is clear of every later one: for `i < j`, no
    block of entry `i` overlaps (in that direction) a block of entry `j`.
   */
  predicate ConflictFree(s: Schedule)
  {
    forall i, j, a, b | 0 <= i < j < |s| && 0 <= a < |s[i].times| && 0 <= b < |s[j].times| ::
      !Overlaps(s[i].times[a], s[j].times[b])
  }

  /** The options of `options` that fit `schedule`, in their order, each paired with `name`. */
  function Fitting(schedule: Schedule, name: string, options: seq<TimeOption>): seq<Class>
    decreases |options|
  {
    if options == [] then []
    else
      var last := options[|options| - 1];
      Fitting(schedule, name, options[..|options| - 1]) + (if Fits(schedule, last) then [Class(name, last)] else [])
  }

  /** `schedule` extended by each of `classes`, in order. */
  function Extend(schedule: Schedule, classes: seq<Class>): seq<Schedule>
    decreases |classes|
  {
    if classes == [] then []
    else Extend(schedule, classes[..|classes| - 1]) + [schedule + [classes[|classes| - 1]]]
  }

  /**
    One stage of the builder: every partial schedule, in order, extended by
    each option of `c` that fits it, in option order.
   */
  function Stage(schedules: seq<Schedule>, c: UnrealizedClass): seq<Schedule>
    decreases |schedules|
  {
    if schedules == [] then []
    else
      var last := schedules[|schedules| - 1];
      Stage(schedules[..|schedules| - 1], c) + Extend(last, Fitting(last, c.name, c.timeOptions))
  }

  /** What `build_schedules` returns: stages applied in request order, starting from one empty schedule. */
  function Build(classOptions: seq<UnrealizedClass>): seq<Schedule>
    decreases |classOptions|
  {
    if classOptions == [] then [[]]
    else Stage(Build(classOptions[..|classOptions| - 1]), classOptions[|classOptions| - 1])
  }

  /** `new_class_time_fits`: the triple loop with its early exit. */
  method NewClassTimeFits(schedule: Schedule, newTimes: seq<ClassTime>) returns (fits: bool)
    ensures fits == Fits(schedule, newTimes)
  {
    for k := 0 to |newTimes|
      invariant forall k', i, j | 0 <= k' < k && 0 <= i < |schedule| && 0 <= j < |schedule[i].times| ::
        !Overlaps(schedule[i].times[j], newTimes[k'])
    {
      for i := 0 to |schedule|
        invariant forall i', j | 0 <= i' < i && 0 <= j < |schedule[i'].times| ::
          !Overlaps(schedule[i'].times[j], newTimes[k])
      {
        for j := 0 to |schedule[i].times|
          invariant forall j' | 0 <= j' < j :: !Overlaps(schedule[i].times[j'], newTimes[k])
        {
          if Overlaps(schedule[i].times[j], newTimes[k]) {
            return false;
          }
        }
      }
    }
    return true;
  }

  /** `get_fitting_classes`: appends each fitting option, paired with the course name. */
  method GetFittingClasses(schedule: Schedule, newClass: UnrealizedClass) returns (fittingClasses: seq<Class>)
    ensures fittingClasses == Fitting(schedule, newClass.name, newClass.timeOptions)
  {
    fittingClasses := [];
    for n := 0 to |newClass.timeOptions|
      invariant fittingClasses == Fitting(schedule, newClass.name, newClass.timeOptions[..n])
    {
      var timeOption := newClass.timeOptions[n];
      assert newClass.timeOptions[..n + 1][..n] == newClass.timeOptions[..n];
      var fits := NewClassTimeFits(schedule, timeOption);
      if fits {
        fittingClasses := fittingClasses + [Class(newClass.name, timeOption)];
      }
    }
    assert newClass.timeOptions[..|newClass.timeOptions|] == newClass.timeOptions;
  }

  /** `build_schedules`: breadth-first expansion, one stage per request. */
  method BuildSchedules(classOptions: seq<UnrealizedClass>) returns (schedules: seq<Schedule>)
    ensures schedules == Build(classOptions)
  {
    schedules := [[]];
    for n := 0 to |classOptions|
      invariant schedules == Build(classOptions[..n])
    {
      var c := classOptions[n];
      var newSchedules := [];
      for i := 0 to |schedules|
        invariant newSchedules == Stage(schedules[..i], c)
      {
        var schedule := schedules[i];
        var fittingClasses := GetFittingClasses(schedule, c);
        for j := 0 to |fittingClasses|
          invariant newSchedules == Stage(schedules[..i], c) + Extend(schedule, fittingClasses[..j])
        {
          ExtendStep(schedule, fittingClasses, j);
          newSchedules := newSchedules + [schedule + [fittingClasses[j]]];
        }
        StageStep(schedules, c, i);
        assert fittingClasses[..|fittingClasses|] == fittingClasses;
      }
      assert schedules[..|schedules|] == schedules;
      BuildStep(classOptions, n);
      schedules := newSchedules;
    }
    assert classOptions[..|classOptions|] == classOptions;
  }

  lemma ExtendStep(schedule: Schedule, classes: seq<Class>, j: nat)
    requires j < |classes|
    ensures Extend(schedule, classes[..j + 1]) == Extend(schedule, classes[..j]) + [schedule + [classes[j]]]
  {
    assert classes[..j + 1][..j] == classes[..j];
  }

  lemma StageStep(schedules: seq<Schedule>, c: UnrealizedClass, i: nat)
    requires i < |schedules|
    ensures Stage(schedules[..i + 1], c) ==
      Stage(schedules[..i], c) + Extend(schedules[i], Fitting(schedules[i], c.name, c.timeOptions))
  {
    assert schedules[..i + 1][..i] == schedules[..i];
  }

  lemma BuildStep(classOptions: seq<UnrealizedClass>, n: nat)
    requires n < |classOptions|
    ensures Build(classOptions[..n + 1]) == Stage(Build(classOptions[..n]), classOptions[n])
  {
    assert classOptions[..n + 1][..n] == classOptions[..n];
  }

  /** A new option always fits an empty schedule, and an empty option fits any schedule. */
  lemma FitsVacuously(schedule: Schedule, newTimes: seq<ClassTime>)
    ensures Fits([], newTimes)
    ensures Fits(schedule, [])
  {
  }

  /** A schedule with a class appended: each earlier block must stay clear of each new one, and no more. */
  lemma ConflictFreeSnoc(s: Schedule, c: Class)
    ensures ConflictFree(s + [c]) <==> ConflictFree(s) && Fits(s, c.times)
  {
    var t := s + [c];
    assert forall i | 0 <= i < |s| :: t[i] == s[i];
    assert t[|s|] == c;
  }

  /**
    `get_fitting_classes` keeps exactly the options that fit, in their
    original order, each paired with the course name: the returned `idx`
    lists the positions of the kept options, strictly increasing.
   */
  lemma FittingIsFilter(schedule: Schedule, name: string, options: seq<TimeOption>)
    returns (idx: seq<nat>)
    ensures |idx| == |Fitting(schedule, name, options)|
    ensures forall k | 0 <= k < |idx| ::
      idx[k] < |options| && Fitting(schedule, name, options)[k] == Class(name, options[idx[k]])
    ensures forall k, l | 0 <= k < l < |idx| :: idx[k] < idx[l]
    ensures forall i | 0 <= i < |options| :: i in idx <==> Fits(schedule, options[i])
  {
    idx := KeptPositions(schedule, options);
    KeptPositionsPick(schedule, name, options);
    KeptPositionsIncrease(schedule, options);
    KeptPositionsExact(schedule, options);
  }

  /** The positions of the options that fit `schedule`, in order. */
  function KeptPositions(schedule: Schedule, options: seq<TimeOption>): seq<nat>
    decreases |options|
  {
    if options == [] then []
    else
      var n := |options| - 1;
      KeptPositions(schedule, options[..n]) + (if Fits(schedule, options[n]) then [n] else [])
  }

  /** The kept classes are the options at the kept positions. */
  lemma {:induction false} KeptPositionsPick(schedule: Schedule, name: string, options: seq<TimeOption>)
    ensures |KeptPositions(schedule, options)| == |Fitting(schedule, name, options)|
    ensures forall k | 0 <= k < |KeptPositions(schedule, options)| ::
      KeptPositions(schedule, options)[k] < |options| &&
      Fitting(schedule, name, options)[k] == Class(name, options[KeptPositions(schedule, options)[k]])
    decreases |options|
  {
    if options != [] {
      var n := |options| - 1;
      KeptPositionsPick(schedule, name, options[..n]);
      var prior, idx := KeptPositions(schedule, options[..n]), KeptPositions(schedule, options);
      var before, after := Fitting(schedule, name, options[..n]), Fitting(schedule, name, options);
      forall k | 0 <= k < |idx|
        ensures idx[k] < |options| && after[k] == Class(name, options[idx[k]])
      {
        if k < |prior| {
          assert idx[k] == prior[k] && after[k] == before[k];
          assert options[..n][prior[k]] == options[prior[k]];
        }
      }
    }
  }

  /** The kept positions are in range and strictly increasing. */
  lemma {:induction false} KeptPositionsIncrease(schedule: Schedule, options: seq<TimeOption>)
    ensures forall k | 0 <= k < |KeptPositions(schedule, options)| :: KeptPositions(schedule, options)[k] < |options|
    ensures forall k, l | 0 <= k < l < |KeptPositions(schedule, options)| ::
      KeptPositions(schedule, options)[k] < KeptPositions(schedule, options)[l]
    decreases |options|
  {
    if options != [] {
      var n := |options| - 1;
      KeptPositionsIncrease(schedule, options[..n]);
      var prior, idx := KeptPositions(schedule, options[..n]), KeptPositions(schedule, options);
      assert forall k | 0 <= k < |prior| :: idx[k] == prior[k];
    }
  }

  /** A position is kept exactly when its option fits. */
  lemma {:induction false} KeptPositionsExact(schedule: Schedule, options: seq<TimeOption>)
    ensures forall i | 0 <= i < |options| :: i in KeptPositions(schedule, options) <==> Fits(schedule, options[i])
    decreases |options|
  {
    if options != [] {
      var n := |options| - 1;
      var init := options[..n];
      KeptPositionsExact(schedule, init);
      KeptPositionsIncrease(schedule, init);
      var prior, idx := KeptPositions(schedule, init), KeptPositions(schedule, options);
      var added := if Fits(schedule, options[n]) then [n] else [];
      assert idx == prior + added;
      assert n !in prior;
      forall i | 0 <= i < |options|
        ensures i in idx <==> Fits(schedule, options[i])
      {
        if i < n {
          assert options[i] == init[i];
          assert i !in added;
        }
      }
    }
  }

  /** At most one class is kept per option. */
  lemma {:induction false} FittingLength(schedule: Schedule, name: string, options: seq<TimeOption>)
    ensures |Fitting(schedule, name, options)| <= |options|
    decreases |options|
  {
    if options != [] {
      FittingLength(schedule, name, options[..|options| - 1]);
    }
  }

  /** Every class kept carries the course name and an option of the course that fits the schedule. */
  lemma {:induction false} FittingMembers(schedule: Schedule, name: string, options: seq<TimeOption>)
    ensures forall c | c in Fitting(schedule, name, options) ::
      c.name == name && c.times in options && Fits(schedule, c.times)
    decreases |options|
  {
    if options != [] {
      var n := |options| - 1;
      FittingMembers(schedule, name, options[..n]);
      assert forall o | o in options[..n] :: o in options;
    }
  }

  /** The schedules produced by extending `schedule`: one per class, each `schedule` plus that class. */
  lemma {:induction false} ExtendMembers(schedule: Schedule, classes: seq<Class>)
    ensures |Extend(schedule, classes)| == |classes|
    ensures forall x | x in Extend(schedule, classes) ::
      |x| == |schedule| + 1 && x[..|schedule|] == schedule && x[|schedule|] in classes
    decreases |classes|
  {
    if classes != [] {
      var n := |classes| - 1;
      ExtendMembers(schedule, classes[..n]);
      assert forall c | c in classes[..n] :: c in classes;
      var x := schedule + [classes[n]];
      assert x[..|schedule|] == schedule;
    }
  }

  /**
    Every schedule a stage produces is one of the earlier partial schedules
    with a fitting class of the request appended.
   */
  lemma {:induction false} StageMembers(schedules: seq<Schedule>, c: UnrealizedClass)
    ensures forall x | x in Stage(schedules, c) ::
      |x| > 0 && x[..|x| - 1] in schedules && x[|x| - 1] in Fitting(x[..|x| - 1], c.name, c.timeOptions)
    decreases |schedules|
  {
    if schedules != [] {
      var n := |schedules| - 1;
      var last := schedules[n];
      StageMembers(schedules[..n], c);
      ExtendMembers(last, Fitting(last, c.name, c.timeOptions));
      assert forall s | s in schedules[..n] :: s in schedules;
    }
  }

  /** A stage yields at most one schedule per pair of partial schedule and option. */
  lemma {:induction false} StageSize(schedules: seq<Schedule>, c: UnrealizedClass)
    ensures |Stage(schedules, c)| <= |schedules| * |c.timeOptions|
    decreases |schedules|
  {
    if schedules != [] {
      var n, m := |schedules| - 1, |c.timeOptions|;
      var fitting := Fitting(schedules[n], c.name, c.timeOptions);
      StageSize(schedules[..n], c);
      ExtendMembers(schedules[n], fitting);
      FittingLength(schedules[n], c.name, c.timeOptions);
      var earlier, added := |Stage(schedules[..n], c)|, |Extend(schedules[n], fitting)|;
      assert |Stage(schedules, c)| == earlier + added;
      BoundStep(earlier, added, n, m);
    }
  }

  lemma BoundStep(earlier: nat, added: nat, n: nat, m: nat)
    requires earlier <= n * m && added <= m
    ensures earlier + added <= (n + 1) * m
  {
  }

  /** Schedule `s` takes, for each request in order, that request's name and one of its options. */
  predicate Chooses(classOptions: seq<UnrealizedClass>, s: Schedule)
  {
    |s| == |classOptions| &&
    forall i | 0 <= i < |s| :: s[i].name == classOptions[i].name && s[i].times in classOptions[i].timeOptions
  }

  /**
    Every schedule built has one entry per request, in request order, each an
    option of its request, and no earlier entry's block overlaps a later one's.
   */
  lemma {:induction false} BuildSound(classOptions: seq<UnrealizedClass>)
    ensures forall s | s in Build(classOptions) :: Chooses(classOptions, s) && ConflictFree(s)
    decreases |classOptions|
  {
    if classOptions != [] {
      var n := |classOptions| - 1;
      var prior, c := classOptions[..n], classOptions[n];
      assert classOptions == prior + [c];
      BuildSound(prior);
      StageSound(prior, c, Build(prior));
    }
  }

  /** A stage on sound partial schedules for the earlier requests gives sound schedules for one more. */
  lemma StageSound(prior: seq<UnrealizedClass>, c: UnrealizedClass, schedules: seq<Schedule>)
    requires forall p | p in schedules :: Chooses(prior, p) && ConflictFree(p)
    ensures forall s | s in Stage(schedules, c) :: Chooses(prior + [c], s) && ConflictFree(s)
  {
    forall s | s in Stage(schedules, c)
      ensures Chooses(prior + [c], s) && ConflictFree(s)
    {
      StagedSound(prior, c, schedules, s);
    }
  }

  /** One schedule of such a stage is sound. */
  lemma StagedSound(prior: seq<UnrealizedClass>, c: UnrealizedClass, schedules: seq<Schedule>, s: Schedule)
    requires forall p | p in schedules :: Chooses(prior, p) && ConflictFree(p)
    requires s in Stage(schedules, c)
    ensures Chooses(prior + [c], s) && ConflictFree(s)
  {
    StageMembers(schedules, c);
    var p, next := s[..|s| - 1], s[|s| - 1];
    assert p in schedules && next in Fitting(p, c.name, c.timeOptions);
    SplitLast(s);
    ExtendSound(prior, c, p, next);
  }

  /** A non-empty schedule is its prefix with its last class appended. */
  lemma SplitLast(s: Schedule)
    requires |s| > 0
    ensures s == s[..|s| - 1] + [s[|s| - 1]]
  {
  }

  /** Appending a fitting class of the next request to a sound partial schedule keeps it sound. */
  lemma ExtendSound(prior: seq<UnrealizedClass>, c: UnrealizedClass, p: Schedule, next: Class)
    requires Chooses(prior, p) && ConflictFree(p)
    requires next in Fitting(p, c.name, c.timeOptions)
    ensures Chooses(prior + [c], p + [next]) && ConflictFree(p + [next])
  {
    FittingMembers(p, c.name, c.timeOptions);
    ConflictFreeSnoc(p, next);
    var all, s := prior + [c], p + [next];
    assert forall i | 0 <= i < |p| :: s[i] == p[i] && all[i] == prior[i];
  }

  /**
    Each built schedule keeps a schedule of the previous stage, unchanged, as
    its prefix, and its last entry is a class that fits that prefix.
   */
  lemma BuildKeepsPrefixes(classOptions: seq<UnrealizedClass>, c: UnrealizedClass)
    ensures forall s | s in Build(classOptions + [c]) ::
      |s| == |classOptions| + 1 && s[..|classOptions|] in Build(classOptions) &&
      s[|classOptions|] in Fitting(s[..|classOptions|], c.name, c.timeOptions)
  {
    var all := classOptions + [c];
    assert all[..|classOptions|] == classOptions;
    StageMembers(Build(classOptions), c);
    BuildSound(all);
  }

  /** With no requests, the result is exactly one schedule, the empty one. */
  lemma BuildNoRequests()
    ensures Build([]) == [[]]
  {
  }

  /** A stage for a request without options drops every partial schedule. */
  lemma {:induction false} StageNoOptions(schedules: seq<Schedule>, c: UnrealizedClass)
    requires c.timeOptions == []
    ensures Stage(schedules, c) == []
    decreases |schedules|
  {
    if schedules != [] {
      StageNoOptions(schedules[..|schedules| - 1], c);
    }
  }

  /** If any request has no options, no schedule is built at all. */
  lemma {:induction false} BuildEmptyOptions(classOptions: seq<UnrealizedClass>, i: nat)
    requires i < |classOptions| && classOptions[i].timeOptions == []
    ensures Build(classOptions) == []
    decreases |classOptions|
  {
    var n := |classOptions| - 1;
    var prior := classOptions[..n];
    if i == n {
      StageNoOptions(Build(prior), classOptions[n]);
    } else {
      BuildEmptyOptions(prior, i);
    }
  }
}
