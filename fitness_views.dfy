/**
 * The read views of backend/app/fitness/service.py: one day's detail with its
 * sets grouped by exercise, the training log filtered, ordered newest first
 * and grouped by date, and the unit list. Each reads a snapshot of the tables
 * and changes nothing.
 */
module FitnessViews {
  import opened Outcomes
  import opened Text
  import opened Grouping
  import opened Sorting
  import opened Tables
  import opened MasterdataModels
  import opened FitnessModels
  import opened MuscleTags
  import opened Database

  // ---------------------------------------------------------------- day detail

  datatype NamedRef = NamedRef(id: int, name: string)

  /** One set as the day view shows it. */
  datatype SetDetail = SetDetail(id: int, setType: string, weight: Weight, reps: int, unit: NamedRef, remark: Option<string>)

  /** An exercise of the day with its sets. */
  datatype ExerciseGroup = ExerciseGroup(exercise: NamedRef, sets: seq<SetDetail>)

  datatype DayDetail = DayDetail(
    id: int, timezone: string, primaryMuscles: seq<string>,
    startTime: Option<Instant>, endTime: Option<Instant>, exercises: seq<ExerciseGroup>)

  /** Every exercise and unit the sets name exists. */
  predicate DetailRefs(sets: seq<Row<FitnessSet>>, exercises: seq<Row<Exercise>>, units: seq<Row<Unit>>)
  {
    forall i :: 0 <= i < |sets| ==> sets[i].val.exerciseId in Ids(exercises) && sets[i].val.unitId in Ids(units)
  }

  function ExerciseRef(exercises: seq<Row<Exercise>>, id: int): (r: NamedRef)
    requires id in Ids(exercises)
    ensures r.id == id
  {
    var i := Find(exercises, id).value;
    NamedRef(id, exercises[i].val.name)
  }

  function UnitRef(units: seq<Row<Unit>>, id: int): NamedRef
    requires id in Ids(units)
  {
    NamedRef(id, units[Find(units, id).value].val.name)
  }

  function SetDetailOf(s: Row<FitnessSet>, units: seq<Row<Unit>>): SetDetail
    requires s.val.unitId in Ids(units)
  {
    SetDetail(s.id, SetTypeValue(s.val.setType), s.val.weight, s.val.reps, UnitRef(units, s.val.unitId), s.val.remark)
  }

  /** The day's sets, each keyed by its exercise id. */
  function DetailItems(sets: seq<Row<FitnessSet>>, units: seq<Row<Unit>>): (items: seq<(int, SetDetail)>)
    requires forall i :: 0 <= i < |sets| ==> sets[i].val.unitId in Ids(units)
    ensures |items| == |sets|
    ensures forall i :: 0 <= i < |sets| ==> items[i] == (sets[i].val.exerciseId, SetDetailOf(sets[i], units))
  {
    seq(|sets|, i requires 0 <= i < |sets| => (sets[i].val.exerciseId, SetDetailOf(sets[i], units)))
  }

  /** The number of sets the groups hold together. */
  function CountSets(groups: seq<ExerciseGroup>): nat
  {
    if groups == [] then 0 else |groups[0].sets| + CountSets(groups[1..])
  }

  lemma {:induction false} CountSetsOfMembers(groups: seq<ExerciseGroup>, items: seq<(int, SetDetail)>, ks: seq<int>)
    requires |groups| == |ks|
    requires forall g :: 0 <= g < |groups| ==> groups[g].sets == Members(items, ks[g])
    ensures CountSets(groups) == TotalMembers(items, ks)
  {
    if groups != [] {
      CountSetsOfMembers(groups[1..], items, ks[1..]);
    }
  }

  /** The groups of exercise ids and sets, each exercise id resolved to the exercise. */
  function ExerciseGroupsOf(exercises: seq<Row<Exercise>>, groups: seq<(int, seq<SetDetail>)>): (r: seq<ExerciseGroup>)
    requires forall g :: 0 <= g < |groups| ==> groups[g].0 in Ids(exercises)
    ensures |r| == |groups|
    ensures forall g :: 0 <= g < |groups| ==> r[g] == ExerciseGroup(ExerciseRef(exercises, groups[g].0), groups[g].1)
  {
    seq(|groups|, g requires 0 <= g < |groups| => ExerciseGroup(ExerciseRef(exercises, groups[g].0), groups[g].1))
  }

  /** A day's sets refer to existing rows when all sets do. */
  lemma DaySetsRefer(sets: seq<Row<FitnessSet>>, dayId: int, exercises: seq<Row<Exercise>>, units: seq<Row<Unit>>)
    requires DetailRefs(sets, exercises, units)
    ensures DetailRefs(SetsOfDay(sets, dayId), exercises, units)
  {
    var daySets := SetsOfDay(sets, dayId);
    forall i | 0 <= i < |daySets| ensures daySets[i].val.exerciseId in Ids(exercises) && daySets[i].val.unitId in Ids(units) {
      assert daySets[i] in sets;
      var j :| 0 <= j < |sets| && sets[j] == daySets[i];
    }
  }

  /** The exercises a day's sets name all exist. */
  lemma DetailKeysExist(sets: seq<Row<FitnessSet>>, dayId: int, exercises: seq<Row<Exercise>>, units: seq<Row<Unit>>)
    requires DetailRefs(sets, exercises, units)
    ensures DetailRefs(SetsOfDay(sets, dayId), exercises, units)
    ensures var items := DetailItems(SetsOfDay(sets, dayId), units);
      forall g :: 0 <= g < |Distinct(Keys(items))| ==> Distinct(Keys(items))[g] in Ids(exercises)
  {
    var daySets := SetsOfDay(sets, dayId);
    DaySetsRefer(sets, dayId, exercises, units);
    var items := DetailItems(daySets, units);
    var ks := Distinct(Keys(items));
    forall g | 0 <= g < |ks| ensures ks[g] in Ids(exercises) {
      var i :| 0 <= i < |Keys(items)| && Keys(items)[i] == ks[g];
      assert daySets[i].val.exerciseId == ks[g];
    }
  }

  /**
   * `serialize_fitness_day_detail`: the day's fields, its tags parsed, and its
   * sets (in table order) grouped by exercise. There is one group per
   * exercise, in the order each exercise first appears; a group holds exactly
   * that exercise's sets, in their original order; the groups hold every set
   * of the day once.
   */
  method SerializeFitnessDayDetail(day: Row<FitnessDay>, sets: seq<Row<FitnessSet>>,
                                   exercises: seq<Row<Exercise>>, units: seq<Row<Unit>>)
    returns (detail: DayDetail)
    requires DetailRefs(sets, exercises, units)
    ensures detail.id == day.id && detail.timezone == day.val.timezone
    ensures detail.primaryMuscles == ParsePrimaryMuscles(day.val.primaryMuscles)
    ensures detail.startTime == Some(day.val.startTime) && detail.endTime == day.val.endTime
    ensures DetailRefs(SetsOfDay(sets, day.id), exercises, units)
    ensures var items := DetailItems(SetsOfDay(sets, day.id), units);
      && |detail.exercises| == |Distinct(Keys(items))|
      && (forall g :: 0 <= g < |detail.exercises| ==> Distinct(Keys(items))[g] in Ids(exercises))
      && (forall g :: 0 <= g < |detail.exercises| ==>
            && detail.exercises[g].exercise == ExerciseRef(exercises, Distinct(Keys(items))[g])
            && detail.exercises[g].sets == Members(items, Distinct(Keys(items))[g]))
    ensures CountSets(detail.exercises) == |SetsOfDay(sets, day.id)|
  {
    var daySets := SetsOfDay(sets, day.id);
    DetailKeysExist(sets, day.id, exercises, units);
    var items := DetailItems(daySets, units);
    var groups := GroupInOrder(items);
    var exerciseGroups := ExerciseGroupsOf(exercises, groups);
    GroupsCoverItems(items);
    CountSetsOfMembers(exerciseGroups, items, Distinct(Keys(items)));
    detail := DayDetail(day.id, day.val.timezone, ParsePrimaryMuscles(day.val.primaryMuscles),
                        Some(day.val.startTime), day.val.endTime, exerciseGroups);
  }

  // ---------------------------------------------------------------- log view

  /** One set as the log shows it. */
  datatype LogSet = LogSet(
    id: int, exercise: string, setType: string, weight: Weight, reps: int,
    unit: string, remark: Option<string>, createdAt: Option<Instant>)

  /** The sets of one date, newest first. */
  datatype LogGroup = LogGroup(date: Date, timezone: string, sets: seq<LogSet>)

  /** A set joined with its day, exercise and unit. */
  datatype LogRow = LogRow(date: Date, timezone: string, exerciseName: string, entry: LogSet)

  /** The optional query parameters: an inclusive date range and an exercise-name fragment. */
  datatype LogFilter = LogFilter(from: Option<Date>, to: Option<Date>, exerciseName: Option<string>)

  /** The WHERE clause: each bound present is inclusive; an empty name fragment filters nothing. */
  predicate Matches(row: LogRow, f: LogFilter)
    ensures f.from.None? && f.to.None? && (f.exerciseName.None? || f.exerciseName == Some("")) ==> Matches(row, f)
    ensures f == LogFilter(Some(row.date), Some(row.date), Some(row.exerciseName)) ==> Matches(row, f)
  {
    && (f.from.None? || DateLe(f.from.value, row.date))
    && (f.to.None? || DateLe(row.date, f.to.value))
    && (f.exerciseName.None? || f.exerciseName.value == "" || ContainsIgnoreCase(row.exerciseName, f.exerciseName.value))
  }

  function JoinRow(s: Row<FitnessSet>, days: seq<Row<FitnessDay>>, exercises: seq<Row<Exercise>>, units: seq<Row<Unit>>)
    : (r: LogRow)
    requires s.val.dayId in Ids(days) && s.val.exerciseId in Ids(exercises) && s.val.unitId in Ids(units)
    ensures r.entry.id == s.id
    ensures var d := days[Find(days, s.val.dayId).value];
      d.id == s.val.dayId && r.date == d.val.date && r.timezone == d.val.timezone
    ensures var e := exercises[Find(exercises, s.val.exerciseId).value];
      e.id == s.val.exerciseId && r.exerciseName == e.val.name && r.entry.exercise == e.val.name
    ensures var u := units[Find(units, s.val.unitId).value];
      u.id == s.val.unitId && r.entry.unit == u.val.name
    ensures r.entry == LogSet(s.id, r.exerciseName, SetTypeValue(s.val.setType), s.val.weight, s.val.reps,
                              r.entry.unit, s.val.remark, Some(s.val.createdAt))
  {
    var day := days[Find(days, s.val.dayId).value].val;
    var name := exercises[Find(exercises, s.val.exerciseId).value].val.name;
    var unit := units[Find(units, s.val.unitId).value].val.name;
    LogRow(day.date, day.timezone, name,
           LogSet(s.id, name, SetTypeValue(s.val.setType), s.val.weight, s.val.reps, unit, s.val.remark, Some(s.val.createdAt)))
  }

  /** The join of every set with its day, exercise and unit, in set-table order. */
  function Joined(sets: seq<Row<FitnessSet>>, days: seq<Row<FitnessDay>>, exercises: seq<Row<Exercise>>,
                  units: seq<Row<Unit>>): (r: seq<LogRow>)
    requires SetsReferToRows(sets, days, exercises, units)
    ensures |r| == |sets|
    ensures forall i :: 0 <= i < |sets| ==> r[i] == JoinRow(sets[i], days, exercises, units)
  {
    seq(|sets|, i requires 0 <= i < |sets| => JoinRow(sets[i], days, exercises, units))
  }

  predicate IdsIncreasing(rows: seq<LogRow>)
  {
    forall i, j :: 0 <= i < j < |rows| ==> rows[i].entry.id < rows[j].entry.id
  }

  /** The rows the filter keeps, in their order. */
  function Selected(rows: seq<LogRow>, f: LogFilter): (r: seq<LogRow>)
    ensures forall x :: x in r <==> x in rows && Matches(x, f)
    ensures IdsIncreasing(rows) ==> IdsIncreasing(r)
  {
    if rows == [] then []
    else
      var init, last := rows[..|rows| - 1], rows[|rows| - 1];
      assert rows == init + [last];
      var rest := Selected(init, f);
      if Matches(last, f) then
        assert IdsIncreasing(rows) ==> forall i :: 0 <= i < |rest| ==> rest[i].entry.id < last.entry.id by {
          if IdsIncreasing(rows) {
            forall i | 0 <= i < |rest| ensures rest[i].entry.id < last.entry.id {
              assert rest[i] in rest;
              var j :| 0 <= j < |init| && init[j] == rest[i];
            }
          }
        }
        rest + [last]
      else rest
  }

  /** ORDER BY date DESC, set id DESC: `a` may come ahead of `b`. */
  predicate NewerFirst(a: LogRow, b: LogRow)
    ensures DateLe(a.date, b.date) && a.date != b.date ==> !NewerFirst(a, b)
    ensures a.date == b.date && a.entry.id < b.entry.id ==> !NewerFirst(a, b)
  {
    if a.date == b.date then a.entry.id >= b.entry.id else DateLe(b.date, a.date)
  }

  /** Two rows that may each come ahead of the other share the sort key. */
  lemma NewerFirstSameKey(a: LogRow, b: LogRow)
    requires NewerFirst(a, b) && NewerFirst(b, a)
    ensures a.date == b.date && a.entry.id == b.entry.id
  {
    DateLeTotalOrder(a.date, b.date, a.date);
  }

  lemma NewerFirstIsTotal()
    ensures TotalPreorder(NewerFirst)
  {
    forall a, b ensures NewerFirst(a, b) || NewerFirst(b, a) {
      DateLeTotalOrder(a.date, b.date, a.date);
    }
    forall a, b, c | NewerFirst(a, b) && NewerFirst(b, c) ensures NewerFirst(a, c) {
      DateLeTotalOrder(c.date, b.date, a.date);
      DateLeTotalOrder(a.date, b.date, c.date);
    }
  }

  /** Each row keyed by its date. */
  function DateItems(rows: seq<LogRow>): (items: seq<(Date, LogRow)>)
    ensures |items| == |rows|
    ensures forall i :: 0 <= i < |rows| ==> items[i] == (rows[i].date, rows[i])
  {
    seq(|rows|, i requires 0 <= i < |rows| => (rows[i].date, rows[i]))
  }

  function Entries(rows: seq<LogRow>): (es: seq<LogSet>)
    ensures |es| == |rows|
    ensures forall i :: 0 <= i < |rows| ==> es[i] == rows[i].entry
  {
    seq(|rows|, i requires 0 <= i < |rows| => rows[i].entry)
  }

  /** The number of sets the log groups hold together. */
  function CountLogSets(groups: seq<LogGroup>): nat
  {
    if groups == [] then 0 else |groups[0].sets| + CountLogSets(groups[1..])
  }

  /** A set that the query selects, dated `date`, shows as `e`. */
  predicate SelectedAs(e: LogSet, date: Date, joined: seq<LogRow>, f: LogFilter)
  {
    exists k :: 0 <= k < |joined| && joined[k].entry == e && joined[k].date == date && Matches(joined[k], f)
  }

  /** The zone of a selected set's day dated `date`. */
  predicate ZoneOfSelected(tz: string, date: Date, joined: seq<LogRow>, f: LogFilter)
  {
    exists k :: 0 <= k < |joined| && joined[k].timezone == tz && joined[k].date == date && Matches(joined[k], f)
  }

  /** The groups of dated rows as the log shows them: each zone taken from the group's first set. */
  function LogGroupsOf(grouped: seq<(Date, seq<LogRow>)>): (r: seq<LogGroup>)
    requires forall g :: 0 <= g < |grouped| ==> |grouped[g].1| >= 1
    ensures |r| == |grouped|
    ensures forall g :: 0 <= g < |grouped| ==>
              r[g] == LogGroup(grouped[g].0, grouped[g].1[0].timezone, Entries(grouped[g].1))
  {
    seq(|grouped|, g requires 0 <= g < |grouped| =>
      LogGroup(grouped[g].0, grouped[g].1[0].timezone, Entries(grouped[g].1)))
  }

  /** `grouped` is what grouping `items` by key gives. */
  ghost predicate GroupedBy<K, V>(grouped: seq<(K, seq<V>)>, items: seq<(K, V)>)
  {
    && |grouped| == |Distinct(Keys(items))|
    && forall g :: 0 <= g < |grouped| ==>
         grouped[g].0 == Distinct(Keys(items))[g] && grouped[g].1 == Members(items, grouped[g].0)
  }

  /**
   * `list_fitness_logs`: the sets whose date lies in the range and whose
   * exercise name contains the fragment (ASCII case-insensitively), grouped by
   * date. Dates come strictly newest first and each once; within a date, set
   * ids strictly decrease; every set shown is a selected set of that date, and
   * a group's zone is that of a selected set's day of that date; the groups
   * hold as many sets as the query selects.
   */
  method ListFitnessLogs(days: seq<Row<FitnessDay>>, sets: seq<Row<FitnessSet>>,
                         exercises: seq<Row<Exercise>>, units: seq<Row<Unit>>, f: LogFilter)
    returns (groups: seq<LogGroup>)
    requires Consistent(days, sets, exercises, units)
    ensures forall g, h :: 0 <= g < h < |groups| ==>
              DateLe(groups[h].date, groups[g].date) && groups[g].date != groups[h].date
    ensures forall g, i, j :: 0 <= g < |groups| && 0 <= i < j < |groups[g].sets| ==>
              groups[g].sets[i].id > groups[g].sets[j].id
    ensures forall g, i :: 0 <= g < |groups| && 0 <= i < |groups[g].sets| ==>
              SelectedAs(groups[g].sets[i], groups[g].date, Joined(sets, days, exercises, units), f)
    ensures forall g :: 0 <= g < |groups| ==>
              ZoneOfSelected(groups[g].timezone, groups[g].date, Joined(sets, days, exercises, units), f)
    ensures CountLogSets(groups) == |Selected(Joined(sets, days, exercises, units), f)|
  {
    var joined := Joined(sets, days, exercises, units);
    var selected := Selected(joined, f);
    NewerFirstIsTotal();
    var sorted := SortBy(selected, NewerFirst);
    var items := DateItems(sorted);
    var grouped := GroupInOrder(items);
    NonEmptyGroups(items, grouped);
    groups := LogGroupsOf(grouped);
    JoinedIdsIncrease(sets, days, exercises, units);
    LogDatesDescending(sorted, items, grouped, groups);
    LogIdsDescending(selected, sorted, items, grouped, groups);
    LogSetsSelected(joined, selected, sorted, items, grouped, groups, f);
    LogGroupsCount(sorted, items, grouped, groups);
  }

  lemma NonEmptyGroups<K, V>(items: seq<(K, V)>, grouped: seq<(K, seq<V>)>)
    requires GroupedBy(grouped, items)
    ensures forall g :: 0 <= g < |grouped| ==> |grouped[g].1| >= 1
  {
    forall g | 0 <= g < |grouped| ensures |grouped[g].1| >= 1 {
      MembersOfKey(items, grouped[g].0);
    }
  }

  lemma JoinedIdsIncrease(sets: seq<Row<FitnessSet>>, days: seq<Row<FitnessDay>>,
                          exercises: seq<Row<Exercise>>, units: seq<Row<Unit>>)
    requires WellFormed(sets) && SetsReferToRows(sets, days, exercises, units)
    ensures IdsIncreasing(Joined(sets, days, exercises, units))
  {
  }

  predicate DateGe(a: Date, b: Date)
  {
    DateLe(b, a)
  }

  lemma LogDatesDescending(sorted: seq<LogRow>, items: seq<(Date, LogRow)>,
                           grouped: seq<(Date, seq<LogRow>)>, groups: seq<LogGroup>)
    requires Sorted(sorted, NewerFirst) && items == DateItems(sorted)
    requires GroupedBy(grouped, items)
    requires |groups| == |grouped| && forall g :: 0 <= g < |groups| ==> groups[g].date == grouped[g].0
    ensures forall g, h :: 0 <= g < h < |groups| ==>
              DateLe(groups[h].date, groups[g].date) && groups[g].date != groups[h].date
  {
    var ks := Keys(items);
    forall i, j | 0 <= i < j < |ks| ensures DateGe(ks[i], ks[j]) {
      assert NewerFirst(sorted[i], sorted[j]);
    }
    DistinctOfOrdered(ks, DateGe);
  }

  predicate IdAbove(a: LogRow, b: LogRow)
  {
    a.entry.id > b.entry.id
  }

  lemma LogIdsDescending(selected: seq<LogRow>, sorted: seq<LogRow>, items: seq<(Date, LogRow)>,
                         grouped: seq<(Date, seq<LogRow>)>, groups: seq<LogGroup>)
    requires IdsIncreasing(selected)
    requires Sorted(sorted, NewerFirst) && multiset(sorted) == multiset(selected)
    requires items == DateItems(sorted)
    requires GroupedBy(grouped, items)
    requires |groups| == |grouped| && forall g :: 0 <= g < |groups| ==> groups[g].sets == Entries(grouped[g].1)
    ensures forall g, i, j :: 0 <= g < |groups| && 0 <= i < j < |groups[g].sets| ==>
              groups[g].sets[i].id > groups[g].sets[j].id
  {
    IdsUniqueAfterSort(selected, sorted);
    forall p, q | 0 <= p < q < |items| && items[p].0 == items[q].0 ensures IdAbove(items[p].1, items[q].1) {
      assert NewerFirst(sorted[p], sorted[q]);
    }
    forall g | 0 <= g < |groups|
      ensures forall i, j :: 0 <= i < j < |groups[g].sets| ==> groups[g].sets[i].id > groups[g].sets[j].id
    {
      MembersKeepOrder(items, grouped[g].0, IdAbove);
    }
  }

  /** Reordering rows whose ids increase leaves rows whose ids are all different. */
  lemma IdsUniqueAfterSort(selected: seq<LogRow>, sorted: seq<LogRow>)
    requires IdsIncreasing(selected) && multiset(sorted) == multiset(selected)
    ensures forall p, q :: 0 <= p < q < |sorted| ==> sorted[p].entry.id != sorted[q].entry.id
  {
    forall p, q | 0 <= p < q < |sorted| ensures sorted[p].entry.id != sorted[q].entry.id {
      if sorted[p].entry.id == sorted[q].entry.id {
        TwiceInSeq(sorted, p, q);
        assert sorted[p] in multiset(selected) && sorted[q] in multiset(selected);
        var a :| 0 <= a < |selected| && selected[a] == sorted[p];
        var b :| 0 <= b < |selected| && selected[b] == sorted[q];
        CountInSeq(selected, a);
      }
    }
  }

  /** In a list whose ids increase, each row occurs once. */
  lemma {:induction false} CountInSeq(rows: seq<LogRow>, a: nat)
    requires IdsIncreasing(rows) && a < |rows|
    ensures multiset(rows)[rows[a]] == 1
  {
    var init, last := rows[..|rows| - 1], rows[|rows| - 1];
    assert rows == init + [last];
    if a < |rows| - 1 {
      CountInSeq(init, a);
      assert rows[a] != last;
    } else {
      assert last !in init;
    }
  }

  lemma LogSetsSelected(joined: seq<LogRow>, selected: seq<LogRow>, sorted: seq<LogRow>,
                        items: seq<(Date, LogRow)>, grouped: seq<(Date, seq<LogRow>)>,
                        groups: seq<LogGroup>, f: LogFilter)
    requires selected == Selected(joined, f)
    requires multiset(sorted) == multiset(selected)
    requires items == DateItems(sorted)
    requires GroupedBy(grouped, items)
    requires forall g :: 0 <= g < |grouped| ==> |grouped[g].1| >= 1
    requires groups == LogGroupsOf(grouped)
    ensures forall g, i :: 0 <= g < |groups| && 0 <= i < |groups[g].sets| ==>
              SelectedAs(groups[g].sets[i], groups[g].date, joined, f)
    ensures forall g :: 0 <= g < |groups| ==> ZoneOfSelected(groups[g].timezone, groups[g].date, joined, f)
  {
    forall g, i | 0 <= g < |grouped| && 0 <= i < |grouped[g].1|
      ensures grouped[g].1[i] in joined && grouped[g].1[i].date == grouped[g].0 && Matches(grouped[g].1[i], f)
    {
      MemberSelected(joined, selected, sorted, items, grouped[g].0, i, f);
    }
    forall g, i | 0 <= g < |groups| && 0 <= i < |groups[g].sets|
      ensures SelectedAs(groups[g].sets[i], groups[g].date, joined, f)
    {
      var m := grouped[g].1[i];
      var k :| 0 <= k < |joined| && joined[k] == m;
    }
    forall g | 0 <= g < |groups| ensures ZoneOfSelected(groups[g].timezone, groups[g].date, joined, f) {
      var m := grouped[g].1[0];
      var k :| 0 <= k < |joined| && joined[k] == m;
    }
  }

  lemma MemberSelected(joined: seq<LogRow>, selected: seq<LogRow>, sorted: seq<LogRow>,
                       items: seq<(Date, LogRow)>, k: Date, i: nat, f: LogFilter)
    requires selected == Selected(joined, f)
    requires multiset(sorted) == multiset(selected)
    requires items == DateItems(sorted)
    requires i < |Members(items, k)|
    ensures Members(items, k)[i].date == k && Members(items, k)[i] in joined && Matches(Members(items, k)[i], f)
  {
    MembersFromItems(items, k);
    var m := Members(items, k)[i];
    var p :| 0 <= p < |items| && items[p] == (k, m);
    assert sorted[p] == m;
    assert m in multiset(selected);
  }

  lemma LogGroupsCount(sorted: seq<LogRow>, items: seq<(Date, LogRow)>,
                       grouped: seq<(Date, seq<LogRow>)>, groups: seq<LogGroup>)
    requires items == DateItems(sorted)
    requires GroupedBy(grouped, items)
    requires |groups| == |grouped|
    requires forall g :: 0 <= g < |groups| ==> |groups[g].sets| == |grouped[g].1|
    ensures CountLogSets(groups) == |sorted|
  {
    GroupsCoverItems(items);
    CountLogSetsOfMembers(groups, items, Distinct(Keys(items)));
  }

  lemma {:induction false} CountLogSetsOfMembers(groups: seq<LogGroup>, items: seq<(Date, LogRow)>, ks: seq<Date>)
    requires |groups| == |ks|
    requires forall g :: 0 <= g < |groups| ==> |groups[g].sets| == |Members(items, ks[g])|
    ensures CountLogSets(groups) == TotalMembers(items, ks)
  {
    if groups != [] {
      CountLogSetsOfMembers(groups[1..], items, ks[1..]);
    }
  }

  // ---------------------------------------------------------------- units

  predicate UnitNameLe(a: Row<Unit>, b: Row<Unit>)
  {
    StrLe(a.val.name, b.val.name)
  }

  lemma UnitNameOrderIsTotal()
    ensures TotalPreorder(UnitNameLe)
  {
    forall a, b ensures UnitNameLe(a, b) || UnitNameLe(b, a) {
      StrLeTotal(a.val.name, b.val.name);
    }
    forall a, b, c | UnitNameLe(a, b) && UnitNameLe(b, c) ensures UnitNameLe(a, c) {
      StrLeTransitive(a.val.name, b.val.name, c.val.name);
    }
  }

  /** `list_units`: every unit, ordered by name. */
  function ListUnits(units: seq<Row<Unit>>): (r: seq<Row<Unit>>)
    ensures Sorted(r, UnitNameLe)
    ensures multiset(r) == multiset(units)
  {
    UnitNameOrderIsTotal();
    SortBy(units, UnitNameLe)
  }
}
