/**
  Small timetables worked through the builder: the closed-endpoint policy,
  a request without options, and what the one-directional overlap test
  lets through.
 */
module Scenarios {
  import opened Clock
  import opened ClassTimes
  import opened Builder

  function Block(day: Day, startHours: int, startMins: int, endHours: int, endMins: int): ClassTime
  {
    ClassTime(day, Make(startHours, startMins), Make(endHours, endMins))
  }

  /** Mon 09:00-10:00 and Mon 10:00-11:00 touch, and touching counts as overlapping. */
  lemma TouchingBlocksOverlap()
    ensures Overlaps(Block("Mon", 9, 0, 10, 0), Block("Mon", 10, 0, 11, 0))
    ensures Overlaps(Block("Mon", 10, 0, 11, 0), Block("Mon", 9, 0, 10, 0))
  {
  }

  /** A stage on a single partial schedule extends it by its fitting options. */
  lemma StageOfOne(s: Schedule, c: UnrealizedClass)
    ensures Stage([s], c) == Extend(s, Fitting(s, c.name, c.timeOptions))
  {
    assert [s][..0] == [];
  }

  /** A stage on two partial schedules, the first one's extensions first. */
  lemma StageOfTwo(s: Schedule, s': Schedule, c: UnrealizedClass)
    ensures Stage([s, s'], c) ==
      Extend(s, Fitting(s, c.name, c.timeOptions)) + Extend(s', Fitting(s', c.name, c.timeOptions))
  {
    assert [s, s'][..1] == [s];
    StageOfOne(s, c);
  }

  /** One option is kept when it fits. */
  lemma FittingOfOne(s: Schedule, name: string, o: TimeOption)
    ensures Fitting(s, name, [o]) == if Fits(s, o) then [Class(name, o)] else []
  {
    assert [o][..0] == [];
  }

  /** Two options are kept or dropped one by one, in order. */
  lemma FittingOfTwo(s: Schedule, name: string, o: TimeOption, o': TimeOption)
    ensures Fitting(s, name, [o, o']) ==
      (if Fits(s, o) then [Class(name, o)] else []) + (if Fits(s, o') then [Class(name, o')] else [])
  {
    assert [o, o'][..1] == [o];
    FittingOfOne(s, name, o);
  }

  /** Extending by one or two classes. */
  lemma ExtendSmall(s: Schedule, c: Class, c': Class)
    ensures Extend(s, []) == []
    ensures Extend(s, [c]) == [s + [c]]
    ensures Extend(s, [c, c']) == [s + [c], s + [c']]
  {
    assert [c][..0] == [];
    assert [c, c'][..1] == [c];
  }

  /** A single new block against a schedule of one single-block class. */
  lemma FitsOneBlock(name: string, x: ClassTime, y: ClassTime)
    ensures Fits([Class(name, [x])], [y]) <==> !Overlaps(x, y)
  {
    var s, n := [Class(name, [x])], [y];
    assert s[0].times[0] == x && n[0] == y;
    if Overlaps(x, y) {
      assert Overlaps(s[0].times[0], n[0]);
    }
  }

  /** Building for one request with one or two options: each option on its own, in order. */
  lemma BuildOne(c: UnrealizedClass)
    requires 1 <= |c.timeOptions| <= 2
    ensures |c.timeOptions| == 1 ==> Build([c]) == [[Class(c.name, c.timeOptions[0])]]
    ensures |c.timeOptions| == 2 ==>
      Build([c]) == [[Class(c.name, c.timeOptions[0])], [Class(c.name, c.timeOptions[1])]]
  {
    assert [c][..0] == [];
    StageOfOne([], c);
    var first := Class(c.name, c.timeOptions[0]);
    if |c.timeOptions| == 1 {
      assert c.timeOptions == [c.timeOptions[0]];
      FittingOfOne([], c.name, c.timeOptions[0]);
      ExtendSmall([], first, first);
      assert [] + [first] == [first];
    } else {
      assert c.timeOptions == [c.timeOptions[0], c.timeOptions[1]];
      var second := Class(c.name, c.timeOptions[1]);
      FitsVacuously([], c.timeOptions[0]);
      FitsVacuously([], c.timeOptions[1]);
      FittingOfTwo([], c.name, c.timeOptions[0], c.timeOptions[1]);
      assert Fitting([], c.name, c.timeOptions) == [first, second];
      ExtendSmall([], first, second);
      assert [] + [first] == [first] && [] + [second] == [second];
    }
  }

  /** Building for two requests is one more stage on the first request's schedules. */
  lemma BuildTwo(c: UnrealizedClass, c': UnrealizedClass)
    ensures Build([c, c']) == Stage(Build([c]), c')
  {
    assert [c, c'][..1] == [c];
  }

  /** A stage step for a request with a single option: the schedule is extended by it when it fits. */
  lemma ExtendBySingleOption(s: Schedule, c: UnrealizedClass)
    requires |c.timeOptions| == 1
    ensures Extend(s, Fitting(s, c.name, c.timeOptions)) ==
      if Fits(s, c.timeOptions[0]) then [s + [Class(c.name, c.timeOptions[0])]] else []
  {
    var o := c.timeOptions[0];
    assert c.timeOptions == [o];
    FittingOfOne(s, c.name, o);
    ExtendSmall(s, Class(c.name, o), Class(c.name, o));
  }

  /**
    Two requests, the first with two single-block options, the second with
    one: each option of the first is kept exactly when the scheduled block
    does not overlap the second's block.
   */
  lemma TwoOptionsThenOne(nameA: string, x: ClassTime, x': ClassTime, nameB: string, y: ClassTime)
    ensures Build([UnrealizedClass(nameA, [[x], [x']]), UnrealizedClass(nameB, [[y]])]) ==
      (if Overlaps(x, y) then [] else [[Class(nameA, [x]), Class(nameB, [y])]]) +
      (if Overlaps(x', y) then [] else [[Class(nameA, [x']), Class(nameB, [y])]])
  {
    var a, b := UnrealizedClass(nameA, [[x], [x']]), UnrealizedClass(nameB, [[y]]);
    var s, s', chosen := [Class(nameA, [x])], [Class(nameA, [x'])], Class(nameB, [y]);
    BuildOne(a);
    BuildTwo(a, b);
    StageOfTwo(s, s', b);
    assert Build([a, b]) == Extend(s, Fitting(s, nameB, [[y]])) + Extend(s', Fitting(s', nameB, [[y]]));
    KeptWhenClear(nameA, x, nameB, y);
    KeptWhenClear(nameA, x', nameB, y);
  }

  /** The stage step for one single-block class already scheduled and one single-block option. */
  lemma KeptWhenClear(nameA: string, x: ClassTime, nameB: string, y: ClassTime)
    ensures Extend([Class(nameA, [x])], Fitting([Class(nameA, [x])], nameB, [[y]])) ==
      if Overlaps(x, y) then [] else [[Class(nameA, [x]), Class(nameB, [y])]]
  {
    var s, chosen := [Class(nameA, [x])], Class(nameB, [y]);
    FitsOneBlock(nameA, x, y);
    ExtendBySingleOption(s, UnrealizedClass(nameB, [[y]]));
    assert s + [chosen] == [Class(nameA, [x]), chosen];
  }

  /** Two requests with one single-block option each: kept exactly when the first block does not overlap the second. */
  lemma OneThenOne(nameA: string, x: ClassTime, nameB: string, y: ClassTime)
    ensures Build([UnrealizedClass(nameA, [[x]]), UnrealizedClass(nameB, [[y]])]) ==
      if Overlaps(x, y) then [] else [[Class(nameA, [x]), Class(nameB, [y])]]
  {
    var a, b := UnrealizedClass(nameA, [[x]]), UnrealizedClass(nameB, [[y]]);
    var s := [Class(nameA, [x])];
    BuildOne(a);
    BuildTwo(a, b);
    StageOfOne(s, b);
    KeptWhenClear(nameA, x, nameB, y);
  }

  /**
    Both options of the first course meet Mon 09:30-10:30 of the second
    (one straddles its start, one its end), so nothing can be built.
   */
  lemma BothOptionsBlocked()
    ensures Build([
      UnrealizedClass("A", [[Block("Mon", 9, 0, 10, 0)], [Block("Mon", 10, 0, 11, 0)]]),
      UnrealizedClass("B", [[Block("Mon", 9, 30, 10, 30)]])
    ]) == []
  {
    TwoOptionsThenOne("A", Block("Mon", 9, 0, 10, 0), Block("Mon", 10, 0, 11, 0), "B", Block("Mon", 9, 30, 10, 30));
  }

  /**
    Of Mon 09:00-10:00 and Tues 09:00-10:00 for the first course, only the
    Tuesday option survives Mon 10:00-11:00 of the second course.
   */
  lemma OnlyTuesdaySurvives()
    ensures Build([
      UnrealizedClass("A", [[Block("Mon", 9, 0, 10, 0)], [Block("Tues", 9, 0, 10, 0)]]),
      UnrealizedClass("B", [[Block("Mon", 10, 0, 11, 0)]])
    ]) == [[Class("A", [Block("Tues", 9, 0, 10, 0)]), Class("B", [Block("Mon", 10, 0, 11, 0)])]]
  {
    assert "Tues" != "Mon";
    TwoOptionsThenOne("A", Block("Mon", 9, 0, 10, 0), Block("Tues", 9, 0, 10, 0), "B", Block("Mon", 10, 0, 11, 0));
  }

  /** A request without options, beside one with an option, leaves no schedule. */
  lemma EmptyOptionsCollapse()
    ensures Build([UnrealizedClass("A", []), UnrealizedClass("B", [[Block("Mon", 9, 0, 10, 0)]])]) == []
  {
    BuildEmptyOptions([UnrealizedClass("A", []), UnrealizedClass("B", [[Block("Mon", 9, 0, 10, 0)]])], 0);
  }

  /**
    The builder tests `existing.overlaps(new)` only. A block nested strictly
    inside an already scheduled one is therefore accepted, although the two
    share an hour.
   */
  lemma NestedBlockAccepted()
    ensures Intersect(Block("Mon", 9, 0, 12, 0), Block("Mon", 10, 0, 11, 0))
    ensures Build([
      UnrealizedClass("A", [[Block("Mon", 9, 0, 12, 0)]]),
      UnrealizedClass("B", [[Block("Mon", 10, 0, 11, 0)]])
    ]) == [[Class("A", [Block("Mon", 9, 0, 12, 0)]), Class("B", [Block("Mon", 10, 0, 11, 0)])]]
  {
    OneThenOne("A", Block("Mon", 9, 0, 12, 0), "B", Block("Mon", 10, 0, 11, 0));
  }

  /** Listed the other way round, the same pair of courses is rejected: the result depends on request order. */
  lemma NestedBlockRejectedWhenFirst()
    ensures Build([
      UnrealizedClass("B", [[Block("Mon", 10, 0, 11, 0)]]),
      UnrealizedClass("A", [[Block("Mon", 9, 0, 12, 0)]])
    ]) == []
  {
    OneThenOne("B", Block("Mon", 10, 0, 11, 0), "A", Block("Mon", 9, 0, 12, 0));
  }
}
