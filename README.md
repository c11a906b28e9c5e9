# Weekly class schedule enumeration, in Dafny

This project models `scheduler.py`, a small tool that lists every weekly
timetable that takes one option of each requested course without a time
conflict. It models and proves:

- **`Time`**: a signed count of minutes. It has a constructor from hours and
  minutes, `+`, `*` by an integer, and `<`, `==`, `<=`. The source defines no
  `>=`, so `a >= b` falls back to the reflected `b <= a`.
- **`ClassTime.overlaps`**: a closed-endpoint test. It is true when the days
  are equal and the start or the end of `self` lies in
  `[other.start, other.end]`. Touching well-formed blocks overlap (a block
  is well formed when it does not end before it starts; nothing in the
  source checks this).
- **The builder**:
  - `new_class_time_fits` tests one option against a partial schedule.
  - `get_fitting_classes` filters a course's options.
  - `build_schedules` expands the partial schedules breadth-first, one stage
    per course.
  - Each is a method with the source's loops, proved equal to a specification
    function (`Fits`, `Fitting`, `Build`).
- **`multi_day_same_time` and `multi_times`**, the helpers that turn start
  times into option lists.

The main theorem (`Enumeration.BuildEnumeratesValidTuples`) describes the
result of `build_schedules` independently of the loop:

- Take every tuple of option indices, one per course. The first course varies
  slowest.
- Keep the tuples whose schedule passes the pairwise check: for `i < j`, no
  block of entry `i` overlaps, in that direction, a block of entry `j`.
- Realise each kept tuple as a schedule. The builder returns exactly these
  schedules, in strictly increasing lexicographic order of their tuples. So
  no tuple is listed twice.

The order is defined prefix by prefix. `Enumeration.LexLessFirstDifference`
proves it is the usual lexicographic order: at the first position where two
tuples differ, the earlier tuple has the smaller index.

The overlap test is one-directional, and the builder calls it as
`existing.overlaps(new)`. The model keeps both facts as written. An overlap
test is usually expected to be symmetric; this one is not, and the model
follows the code:

- When block `a` strictly contains the well-formed block `b`, `a.overlaps(b)` is false while
  `b.overlaps(a)` is true (`ClassTimes.ContainmentIsOneSided`).
- So a course whose block lies strictly inside an already scheduled block is
  accepted (`Scenarios.NestedBlockAccepted`).
- Listing the same two courses in the other order rejects the pair
  (`Scenarios.NestedBlockRejectedWhenFirst`).
- For well-formed blocks, testing both directions is ordinary closed-range
  intersection (`ClassTimes.EitherDirectionIsIntersection`).

Modules, one per component: `Clock` (clock.dfy), `ClassTimes`
(class_time.dfy), `Builder` (builder.dfy), `Enumeration` (enumeration.dfy,
the index-tuple description and the theorems relating it to the builder) and
`Scenarios` (scenarios.dfy, worked timetables).

## Model

| member | source | states |
|---|---|---|
| Clock.Add | scheduler.py:10-11 | `a + b` has the sum of the two minute counts |
| Clock.Scale | scheduler.py:13-14 | `a * i` has the minute count multiplied by `i` |
| Clock.Split | scheduler.py:16-19 | the hours and minutes the rendering prints (floor division and remainder by 60) give a minute part in `[0, 60)`, and rebuilding a `Time` from them gives back the original, for negative counts too |
| Clock.SplitMake | scheduler.py:7-8 | the constructor and the split are inverse when the minutes are in `[0, 60)` |
| Clock.AddMake | scheduler.py:7-11 | adding two constructed times adds their hours and their minutes separately |
| Clock.ScaleMake | scheduler.py:7-14 | scaling a constructed time scales both of its components |
| Clock.AddScaleAlgebra | scheduler.py:10-14 | `*` distributes over `+`; `+` is commutative with zero minutes as unit |
| Clock.ComparisonsFollowMinutes | scheduler.py:21-28 | `<`, `<=` and the reflected `>=` agree with integer order on minutes; `==` is equality of the values |
| Clock.LessEqIsTotalOrder | scheduler.py:21-28 | `<=` is reflexive, antisymmetric, transitive and total; `<` is `<=` without equality |
| ClassTimes.Overlaps | scheduler.py:52-58 | true exactly when the days are equal and `self`'s start or `self`'s end lies in `other`'s closed range, by minute count |
| ClassTimes.DifferentDaysNeverOverlap | scheduler.py:55-58 | blocks on different days never overlap, in either direction |
| ClassTimes.TouchingOverlaps | scheduler.py:53-58 | for well-formed blocks, a block ending exactly when another starts overlaps it, in both directions |
| ClassTimes.SelfOverlap | scheduler.py:56-58 | a block overlaps itself exactly when it does not end before it starts |
| ClassTimes.ContainmentIsOneSided | scheduler.py:56-58 | if `a` strictly contains the well-formed block `b` on the same day, they intersect, `a.overlaps(b)` is false and `b.overlaps(a)` is true |
| ClassTimes.EitherDirectionIsIntersection | scheduler.py:52-58 | for well-formed blocks, `overlaps(a, b) or overlaps(b, a)` is exactly closed-interval intersection |
| ClassTimes.MultiDaySameTime | scheduler.py:73-74 | one option per start time; option `i` holds one block per day, in day order, on that day, starting at start time `i` and lasting `duration` |
| ClassTimes.MultiTimes | scheduler.py:77-78 | one single-block option per start time, on the given day, lasting `duration` |
| ClassTimes.MultiTimesIsOneDay | scheduler.py:73-78 | `multi_times(day, ...)` equals `multi_day_same_time((day,), ...)` |
| ClassTimes.MultiDaySameTimeBlocks | scheduler.py:73-74 | with a non-negative duration every generated block is well formed, and with distinct days no two blocks of one option overlap |
| Builder.NewClassTimeFits | scheduler.py:112-118 | returns true exactly when no block `t` of any class in the schedule and block `u` of the new option have `t.overlaps(u)` |
| Builder.FitsVacuously | scheduler.py:112-118 | every option fits an empty schedule, and an empty option fits every schedule |
| Builder.ConflictFreeSnoc | scheduler.py:96-99 | appending a class keeps the schedule conflict-free exactly when the schedule was conflict-free and the class's option fits it |
| Builder.GetFittingClasses | scheduler.py:104-109 | returns `Fitting`, the fitting options in order, each paired with the course name |
| Builder.FittingIsFilter | scheduler.py:104-109 | the result is the options at a strictly increasing list of positions, each paired with the course name; a position is listed exactly when its option fits |
| Builder.FittingLength | scheduler.py:104-109 | at most one class per option is returned |
| Builder.FittingMembers | scheduler.py:104-109 | every returned class has the course's name and one of its options, and that option fits |
| Builder.BuildSchedules | scheduler.py:92-101 | returns `Build`: the stages applied in course order, starting from one empty schedule |
| Builder.StageMembers | scheduler.py:96-99 | every schedule of a stage is an earlier partial schedule with one fitting class of the course appended |
| Builder.StageSize | scheduler.py:96-99 | a stage yields at most (partial schedules) times (options) schedules |
| Builder.BuildSound | scheduler.py:92-101 | every built schedule has one entry per course, in input order; entry `i` has course `i`'s name and one of its options; for `i < j` no block of entry `i` overlaps a block of entry `j` |
| Builder.ExtendSound | scheduler.py:97-99 | appending a fitting class of the next course to a sound partial schedule gives a sound schedule |
| Builder.BuildKeepsPrefixes | scheduler.py:94-100 | each schedule after a stage keeps a schedule of the previous stage, unchanged, as its prefix, and its new entry fits that prefix |
| Builder.BuildNoRequests | scheduler.py:93-101 | with no courses the result is exactly one empty schedule |
| Builder.StageNoOptions | scheduler.py:96-100 | a course without options ends every branch at its stage |
| Builder.BuildEmptyOptions | scheduler.py:92-101 | if any course has no options, the result is empty |
| Enumeration.StageSelection | scheduler.py:94-100 | one stage applied to the schedules of the valid tuples for the earlier courses gives the schedules of the valid extended tuples, in order |
| Enumeration.BuildIsSelection | scheduler.py:92-101 | the builder's result is the schedules of the valid index tuples, taken in lexicographic order |
| Enumeration.BuildEnumeratesValidTuples | scheduler.py:92-101 | the valid tuples are strictly lexicographically sorted, so distinct; a tuple is listed exactly when it is in range and its schedule is conflict-free; the builder returns their schedules one for one, in that order |
| Enumeration.BuildComplete | scheduler.py:92-101 | every conflict-free choice of one option per course is among the built schedules |
| Enumeration.BuildBound | scheduler.py:92-101 | the number of schedules is at most the product of the option counts |
| Enumeration.LexLessFirstDifference | scheduler.py:94-100 | the order the stages produce, defined prefix by prefix, is the usual lexicographic order: `t` precedes `u` exactly when, at the first position where they differ, `t` has the smaller index |
| Enumeration.TuplesSorted | scheduler.py:94-100 | the nested expansion lists index tuples in strictly increasing lexicographic order, the last course varying fastest |
| Scenarios.TouchingBlocksOverlap | scheduler.py:53-58 | Mon 09:00-10:00 and Mon 10:00-11:00 overlap both ways |
| Scenarios.BothOptionsBlocked | scheduler.py:92-118 | options Mon 09:00-10:00 and Mon 10:00-11:00 against Mon 09:30-10:30 give no schedule |
| Scenarios.OnlyTuesdaySurvives | scheduler.py:92-118 | options Mon 09:00-10:00 and Tues 09:00-10:00 against Mon 10:00-11:00 give the one schedule with the Tuesday option |
| Scenarios.EmptyOptionsCollapse | scheduler.py:92-101 | a course without options beside a course with one option gives no schedule |
| Scenarios.NestedBlockAccepted | scheduler.py:112-118 | Mon 10:00-11:00 after Mon 09:00-12:00 is accepted although the blocks intersect |
| Scenarios.NestedBlockRejectedWhenFirst | scheduler.py:112-118 | the same two courses in the other order give no schedule |

## Left out

- `print_schedule` (scheduler.py:121-127): it writes to standard output, and its per-day ordering is the library's `list.sort`.
- The `__str__` methods (scheduler.py:16-19, 49-50, 68-70, 88-89): text rendering only. The hours and minutes that `Time.__str__` prints are modelled by `Clock.Split`; the zero-padded text is not.
- The `__main__` block (scheduler.py:130-192): hard-coded sample courses and printing.
- The dataclass machinery and the `Day` constants (scheduler.py:31-38): a day is a string compared with `==`. The fixed day order is used only by the printer.
- Start times: the source passes tuples or generators as `start_times`, and `multi_day_same_time` and `multi_times` read them once, so a sequence stands for either.
- One-shot iterators as `days` or as a request's `time_options`: the source reads `days` again for each start time (scheduler.py:74) and `time_options` again for each partial schedule (scheduler.py:96-97, 106). A generator there would be used up after the first pass; the model takes both as sequences, which is what the source passes (lists and tuples), and does not model a used-up iterator.
- Object identity: the source's `Class` and `ClassTime` objects may be shared between schedules. Here they are immutable values, which is equivalent because nothing mutates them after creation.
