/**
 * Training days and the sets logged in them (backend/app/fitness/models.py).
 * The weight is a float the core only stores and hands back, so it is kept as
 * an uninterpreted number; instants are UTC timestamps supplied by the clock.
 */
module FitnessModels {
  import opened Outcomes
  import opened Tables
  import opened MasterdataModels

  /** The four kinds of set; no other value is accepted. */
  datatype SetType = Warmup | Working | Drop | Failure

  const AllSetTypes: seq<SetType> := [Warmup, Working, Drop, Failure]

  /** The text each set type shows as (`SetType.X.value`). */
  function SetTypeValue(t: SetType): (v: string)
    ensures |v| == 3 && v[2] == '组'
  {
    match t
    case Warmup => "热身组"
    case Working => "正式组"
    case Drop => "递减组"
    case Failure => "失败组"
  }

  /** `SetType(value)`: the set type whose value is `v`, if any. */
  function SetTypeOf(v: string): (t: Option<SetType>)
    ensures t.Some? ==> SetTypeValue(t.value) == v
  {
    if v == "热身组" then Some(Warmup)
    else if v == "正式组" then Some(Working)
    else if v == "递减组" then Some(Drop)
    else if v == "失败组" then Some(Failure)
    else None
  }

  /** Every set type is listed once, and its value reads back as that type. */
  lemma SetTypesClosed(t: SetType)
    ensures t in AllSetTypes && |AllSetTypes| == 4
    ensures SetTypeOf(SetTypeValue(t)) == Some(t)
    ensures forall u :: SetTypeValue(u) == SetTypeValue(t) ==> u == t
  {
  }

  /** A calendar date. */
  datatype Date = Date(year: int, month: int, day: int)

  /** Calendar order on dates. */
  predicate DateLe(a: Date, b: Date)
  {
    || a.year < b.year
    || (a.year == b.year && a.month < b.month)
    || (a.year == b.year && a.month == b.month && a.day <= b.day)
  }

  lemma DateLeTotalOrder(a: Date, b: Date, c: Date)
    ensures DateLe(a, b) || DateLe(b, a)
    ensures DateLe(a, b) && DateLe(b, a) ==> a == b
    ensures DateLe(a, b) && DateLe(b, c) ==> DateLe(a, c)
  {
  }

  /** A UTC instant, as the clock reports it. */
  type Instant = int

  /** A set's weight: stored and returned as given, never computed with. */
  type Weight = real


  /**
   * One calendar day of training. `date`, `timezone` and `startTime` are
   * required; `primaryMuscles` (the comma-joined tag text) and `endTime`
   * (absent while the session is open) are nullable.
   */
  datatype FitnessDay = FitnessDay(
    date: Date,
    timezone: string,
    primaryMuscles: Option<string>,
    startTime: Instant,
    endTime: Option<Instant>)

  /**
   * One performed set. The day, exercise and unit references, the set type,
   * weight and reps are required; the remark is nullable. `createdAt` is the
   * audit timestamp the log view reports.
   */
  datatype FitnessSet = FitnessSet(
    dayId: int,
    exerciseId: int,
    setType: SetType,
    weight: Weight,
    unitId: int,
    reps: int,
    remark: Option<string>,
    createdAt: Instant)

  /**
   * At most one day per calendar date. The `date` column is only indexed, not
   * unique, so this is the service's invariant rather than the database's.
   */
  predicate OneDayPerDate(days: seq<Row<FitnessDay>>)
  {
    forall i, j :: 0 <= i < j < |days| ==> days[i].val.date != days[j].val.date
  }

  /** Each set's day, exercise and unit exist (the three foreign keys). */
  predicate SetsReferToRows(
    sets: seq<Row<FitnessSet>>, days: seq<Row<FitnessDay>>,
    exercises: seq<Row<Exercise>>, units: seq<Row<Unit>>)
  {
    forall i :: 0 <= i < |sets| ==>
      && sets[i].val.dayId in Ids(days)
      && sets[i].val.exerciseId in Ids(exercises)
      && sets[i].val.unitId in Ids(units)
  }

  /** The `FitnessDay.sets` relationship: the day's sets, in table order. */
  function SetsOfDay(sets: seq<Row<FitnessSet>>, dayId: int): (r: seq<Row<FitnessSet>>)
    ensures |r| <= |sets|
    ensures forall i :: 0 <= i < |r| ==> r[i].val.dayId == dayId
    ensures forall s :: s in r <==> s in sets && s.val.dayId == dayId
  {
    if sets == [] then []
    else
      var init, last := SetsOfDay(sets[..|sets| - 1], dayId), sets[|sets| - 1];
      if last.val.dayId == dayId then init + [last] else init
  }

  /** The sets that survive when the day `dayId` is deleted with `cascade="all, delete-orphan"`. */
  function SetsNotOfDay(sets: seq<Row<FitnessSet>>, dayId: int): (r: seq<Row<FitnessSet>>)
    ensures |r| <= |sets|
    ensures forall i :: 0 <= i < |r| ==> r[i].val.dayId != dayId
    ensures forall s :: s in r <==> s in sets && s.val.dayId != dayId
  {
    if sets == [] then []
    else
      var init, last := SetsNotOfDay(sets[..|sets| - 1], dayId), sets[|sets| - 1];
      if last.val.dayId != dayId then init + [last] else init
  }

  /** Every set a cascade keeps was there before, and the cascade keeps the table well formed. */
  lemma SetsNotOfDayKeepsRows(sets: seq<Row<FitnessSet>>, dayId: int)
    ensures forall i :: 0 <= i < |SetsNotOfDay(sets, dayId)| ==> SetsNotOfDay(sets, dayId)[i] in sets
    ensures WellFormed(sets) ==> WellFormed(SetsNotOfDay(sets, dayId))
  {
    if WellFormed(sets) {
      SetsNotOfDayWellFormed(sets, dayId);
    }
  }

  lemma {:induction false} SetsNotOfDayWellFormed(sets: seq<Row<FitnessSet>>, dayId: int)
    requires WellFormed(sets)
    ensures WellFormed(SetsNotOfDay(sets, dayId))
  {
    if sets != [] {
      var init, last := sets[..|sets| - 1], sets[|sets| - 1];
      assert sets == init + [last];
      SetsNotOfDayWellFormed(init, dayId);
      var rest := SetsNotOfDay(init, dayId);
      if last.val.dayId != dayId {
        forall i | 0 <= i < |rest| ensures rest[i].id < last.id {
          assert rest[i] in init;
        }
      }
    }
  }

  /**
   * Deleting a day whose only set is the set `setId` removes exactly that set:
   * the cascade and a plain delete of the set leave the same set table.
   */
  lemma {:induction false} CascadeOfLastSet(sets: seq<Row<FitnessSet>>, dayId: int, setId: int)
    requires WellFormed(sets)
    requires |SetsOfDay(sets, dayId)| == 1 && SetsOfDay(sets, dayId)[0].id == setId
    ensures SetsNotOfDay(sets, dayId) == Remove(sets, setId)
  {
    var init, last := sets[..|sets| - 1], sets[|sets| - 1];
    assert sets == init + [last];
    assert WellFormed(init);
    if last.val.dayId == dayId {
      assert last.id == setId;
      assert SetsOfDay(init, dayId) == [];
      NoSetsOfDay(init, dayId);
      RemoveAbsentLater(init, setId);
    } else {
      assert last.id != setId by {
        var j :| 0 <= j < |init| && init[j] == SetsOfDay(init, dayId)[0];
        assert init[j].id < last.id;
      }
      CascadeOfLastSet(init, dayId, setId);
    }
  }

  /** A day without sets loses nothing in a cascade. */
  lemma {:induction false} NoSetsOfDay(sets: seq<Row<FitnessSet>>, dayId: int)
    requires SetsOfDay(sets, dayId) == []
    ensures SetsNotOfDay(sets, dayId) == sets
  {
    if sets != [] {
      var init := sets[..|sets| - 1];
      NoSetsOfDay(init, dayId);
      assert sets == init + [sets[|sets| - 1]];
    }
  }

  lemma RemoveAbsentLater(t: seq<Row<FitnessSet>>, id: int)
    requires WellFormed(t)
    requires forall i :: 0 <= i < |t| ==> t[i].id < id
    ensures Remove(t, id) == t
  {
    RemoveAbsent(t, id);
  }
}
