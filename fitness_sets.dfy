/**
 * The set lifecycle of backend/app/fitness/service.py: creating a set (on a
 * given day, or on today's day, started on demand), the partial update, and
 * deletion, which removes the whole day together with its last set.
 *
 * The schema's foreign keys are enforced here: a set whose day, exercise or
 * unit does not exist is refused with `ForeignKeyViolation` and the commit
 * that would have stored it changes nothing.
 */
module FitnessSets {
  import opened Outcomes
  import opened Tables
  import opened MasterdataModels
  import opened FitnessModels
  import opened FitnessSchemas
  import opened MuscleTags
  import opened TimeZones
  import opened Database
  import opened FitnessDays

  /** `not data.fitness_day_id`: no day given, or the falsy id 0. */
  predicate NoDayGiven(data: FitnessSetCreate)
  {
    data.fitnessDayId.None? || data.fitnessDayId.value == 0
  }

  /** The row `create_fitness_set` builds, every field copied from the request. */
  function NewSet(dayId: int, data: FitnessSetCreate, now: Instant): FitnessSet
  {
    FitnessSet(dayId, data.exerciseId, data.setType, data.weight, data.unitId, data.reps, data.remark, now)
  }

  /** The three references of a set resolve. */
  predicate RefsExist(s: FitnessSet, days: seq<Row<FitnessDay>>, exercises: seq<Row<Exercise>>, units: seq<Row<Unit>>)
  {
    s.dayId in Ids(days) && s.exerciseId in Ids(exercises) && s.unitId in Ids(units)
  }

  /**
   * The day a new set goes to, and the day table afterwards: the given day
   * untouched, or, when none is given, today's day from get-or-create with the
   * request's muscle groups passed through.
   */
  function TargetDay(days: seq<Row<FitnessDay>>, data: FitnessSetCreate, tz: string, zones: ZoneDb, clock: Clock)
    : (r: Result<(int, seq<Row<FitnessDay>>)>)
    requires WellFormed(days) && OneDayPerDate(days)
    ensures !NoDayGiven(data) ==> r == Ok((data.fitnessDayId.value, days))
    ensures NoDayGiven(data) ==> (r.Ok? <==> ResolveTimezone(tz, zones).Ok?)
    ensures NoDayGiven(data) && r.Ok? ==>
      var on := DayOn(r.value.1, LocalToday(tz, zones, clock).value);
      on.Some? && r.value.1[on.value].id == r.value.0
  {
    if !NoDayGiven(data) then Ok((data.fitnessDayId.value, days))
    else
      match LocalToday(tz, zones, clock)
      case Err(e) => Err(e)
      case Ok(today) =>
        var o := StartDay(days, today, tz, clock.now, SelectionOf(data.primaryMuscles));
        StartDayKeepsOneDayPerDate(days, today, tz, clock.now, SelectionOf(data.primaryMuscles));
        assert DayOn(o.days, today).Some? by {
          var k :| 0 <= k < |o.days| && o.days[k] == o.day;
        }
        Ok((o.day.id, o.days))
  }

  /**
   * `create_fitness_set`. The day is settled (and committed) first; then the
   * set is appended under the next id, or refused when a reference does not
   * resolve, in which case a day started on the way stays.
   */
  method CreateFitnessSet(db: Database, data: FitnessSetCreate, tz: string, zones: ZoneDb, clock: Clock)
    returns (r: Result<Row<FitnessSet>>)
    requires db.Valid()
    modifies db
    ensures db.Valid()
    ensures db.exercises == old(db.exercises) && db.units == old(db.units)
    ensures match TargetDay(old(db.days), data, tz, zones, clock)
      case Err(e) => r == Err(e) && db.days == old(db.days) && db.sets == old(db.sets)
      case Ok((dayId, days)) =>
        && db.days == days
        && var s := NewSet(dayId, data, clock.now);
           if RefsExist(s, days, db.exercises, db.units) then
             r == Ok(Row(NextId(old(db.sets)), s)) && db.sets == old(db.sets) + [r.value]
           else
             r == Err(ForeignKeyViolation) && db.sets == old(db.sets)
  {
    var dayId: int;
    if NoDayGiven(data) {
      var day := GetOrCreateTodayFitnessDay(db, tz, zones, clock, SelectionOf(data.primaryMuscles));
      if day.Err? {
        return Err(day.error);
      }
      dayId := day.value.id;
    } else {
      dayId := data.fitnessDayId.value;
    }
    var s := NewSet(dayId, data, clock.now);
    if !RefsExist(s, db.days, db.exercises, db.units) {
      return Err(ForeignKeyViolation);
    }
    var row := Row(NextId(db.sets), s);
    AppendKeepsWellFormed(db.sets, s);
    db.sets := db.sets + [row];
    return Ok(row);
  }

  /** `update_fitness_set` on one row: each field the request sets is taken, the others kept. */
  function ApplyUpdate(s: FitnessSet, u: FitnessSetUpdate): (r: FitnessSet)
    ensures r.dayId == s.dayId && r.createdAt == s.createdAt
    ensures r.exerciseId == (if u.exerciseId.Some? then u.exerciseId.value else s.exerciseId)
    ensures r.weight == (if u.weight.Some? then u.weight.value else s.weight)
    ensures r.reps == (if u.reps.Some? then u.reps.value else s.reps)
    ensures r.unitId == (if u.unitId.Some? then u.unitId.value else s.unitId)
    ensures r.setType == (if u.setType.Some? then u.setType.value else s.setType)
    ensures r.remark == (if u.remark.Some? then u.remark else s.remark)
  {
    s.(exerciseId := if u.exerciseId.Some? then u.exerciseId.value else s.exerciseId,
       weight := if u.weight.Some? then u.weight.value else s.weight,
       reps := if u.reps.Some? then u.reps.value else s.reps,
       unitId := if u.unitId.Some? then u.unitId.value else s.unitId,
       setType := if u.setType.Some? then u.setType.value else s.setType,
       remark := if u.remark.Some? then u.remark else s.remark)
  }

  /** An update that sets no field changes no data field. */
  lemma EmptyUpdateChangesNothing(s: FitnessSet)
    ensures ApplyUpdate(s, FitnessSetUpdate()) == s
  {
  }

  /** Sending the same update twice has the effect of sending it once. */
  lemma UpdateIdempotent(s: FitnessSet, u: FitnessSetUpdate)
    ensures ApplyUpdate(ApplyUpdate(s, u), u) == ApplyUpdate(s, u)
  {
  }

  /** Two updates in a row: every field `v` sets wins, the others come from `u`. */
  function Then(u: FitnessSetUpdate, v: FitnessSetUpdate): FitnessSetUpdate
  {
    FitnessSetUpdate(
      exerciseId := if v.exerciseId.Some? then v.exerciseId else u.exerciseId,
      weight := if v.weight.Some? then v.weight else u.weight,
      reps := if v.reps.Some? then v.reps else u.reps,
      unitId := if v.unitId.Some? then v.unitId else u.unitId,
      setType := if v.setType.Some? then v.setType else u.setType,
      remark := if v.remark.Some? then v.remark else u.remark)
  }

  /** Applying `u` and then `v` is applying their combination once. */
  lemma UpdatesCompose(s: FitnessSet, u: FitnessSetUpdate, v: FitnessSetUpdate)
    ensures ApplyUpdate(ApplyUpdate(s, u), v) == ApplyUpdate(s, Then(u, v))
  {
  }

  /**
   * `update_fitness_set`: an unknown id is `NotFound` and changes nothing;
   * otherwise the set becomes `ApplyUpdate` of itself, unless the new exercise
   * or unit does not exist, which changes nothing.
   */
  method UpdateFitnessSet(db: Database, setId: int, data: FitnessSetUpdate) returns (r: Result<Row<FitnessSet>>)
    requires db.Valid()
    modifies db
    ensures db.Valid()
    ensures db.days == old(db.days) && db.exercises == old(db.exercises) && db.units == old(db.units)
    ensures match Find(old(db.sets), setId)
      case None => r == Err(NotFound) && db.sets == old(db.sets)
      case Some(i) =>
        var row := Row(setId, ApplyUpdate(old(db.sets)[i].val, data));
        if RefsExist(row.val, db.days, db.exercises, db.units) then
          r == Ok(row) && db.sets == old(db.sets)[i := row]
        else
          r == Err(ForeignKeyViolation) && db.sets == old(db.sets)
  {
    var i := Find(db.sets, setId);
    if i.None? {
      return Err(NotFound);
    }
    var s := db.sets[i.value].val;
    if data.exerciseId.Some? {
      s := s.(exerciseId := data.exerciseId.value);
    }
    if data.weight.Some? {
      s := s.(weight := data.weight.value);
    }
    if data.reps.Some? {
      s := s.(reps := data.reps.value);
    }
    if data.unitId.Some? {
      s := s.(unitId := data.unitId.value);
    }
    if data.setType.Some? {
      s := s.(setType := data.setType.value);
    }
    if data.remark.Some? {
      s := s.(remark := data.remark);
    }
    assert s == ApplyUpdate(db.sets[i.value].val, data);
    if !RefsExist(s, db.days, db.exercises, db.units) {
      return Err(ForeignKeyViolation);
    }
    var row := Row(setId, s);
    KeepValidAfterSetUpdate(db, i.value, row);
    db.sets := db.sets[i.value := row];
    return Ok(row);
  }

  lemma KeepValidAfterSetUpdate(db: Database, i: nat, row: Row<FitnessSet>)
    requires db.Valid() && i < |db.sets| && db.sets[i].id == row.id
    requires RefsExist(row.val, db.days, db.exercises, db.units)
    ensures Consistent(db.days, db.sets[i := row], db.exercises, db.units)
  {
    ReplaceAt(db.sets, i, row);
    ReplaceKeepsIds(db.sets, row);
  }

  /** The effect of `delete_fitness_set` on the two fitness tables. */
  datatype Deletion = Deletion(deleted: bool, days: seq<Row<FitnessDay>>, sets: seq<Row<FitnessSet>>)

  /**
   * `delete_fitness_set`: an unknown id deletes nothing; the only set of its
   * day takes the day with it (the cascade removes the day's sets); any
   * other set goes alone.
   */
  function DeleteSet(days: seq<Row<FitnessDay>>, sets: seq<Row<FitnessSet>>, setId: int): (d: Deletion)
    ensures d.deleted <==> setId in Ids(sets)
    ensures !d.deleted ==> d.days == days && d.sets == sets
    ensures |d.days| <= |days| && |d.sets| <= |sets|
  {
    match Find(sets, setId)
    case None => Deletion(false, days, sets)
    case Some(i) =>
      var dayId := sets[i].val.dayId;
      if |SetsOfDay(sets, dayId)| == 1 then Deletion(true, Remove(days, dayId), SetsNotOfDay(sets, dayId))
      else Deletion(true, days, Remove(sets, setId))
  }

  /** The set is among its day's sets. */
  lemma {:induction false} SetInItsDay(sets: seq<Row<FitnessSet>>, i: nat)
    requires i < |sets|
    ensures sets[i] in SetsOfDay(sets, sets[i].val.dayId)
  {
    var init := sets[..|sets| - 1];
    if i < |sets| - 1 {
      SetInItsDay(init, i);
      assert init[i] == sets[i];
    }
  }

  /**
   * The business rule of deletion. Deleting an unknown id changes nothing.
   * Deleting a known set always removes exactly that set from the set table;
   * the day goes too exactly when that set was the day's only one, and
   * otherwise the day and its other sets stay.
   */
  lemma DeleteSetEffect(days: seq<Row<FitnessDay>>, sets: seq<Row<FitnessSet>>, setId: int)
    requires WellFormed(sets)
    ensures var d := DeleteSet(days, sets, setId);
      && (d.deleted <==> setId in Ids(sets))
      && (!d.deleted ==> d.days == days && d.sets == sets)
      && (d.deleted ==> d.sets == Remove(sets, setId))
      && (d.deleted ==>
            var dayId := sets[Find(sets, setId).value].val.dayId;
            if |SetsOfDay(sets, dayId)| == 1 then d.days == Remove(days, dayId) else d.days == days)
  {
    match Find(sets, setId)
    case None =>
    case Some(i) =>
      var dayId := sets[i].val.dayId;
      if |SetsOfDay(sets, dayId)| == 1 {
        SetInItsDay(sets, i);
        CascadeOfLastSet(sets, dayId, setId);
      }
  }

  /**
   * `delete_fitness_set` on the database: the tables become `DeleteSet`'s,
   * and the result says whether the id was known.
   */
  method DeleteFitnessSet(db: Database, setId: int) returns (deleted: bool)
    requires db.Valid()
    modifies db
    ensures db.Valid()
    ensures db.exercises == old(db.exercises) && db.units == old(db.units)
    ensures DeleteSet(old(db.days), old(db.sets), setId) == Deletion(deleted, db.days, db.sets)
  {
    var i := Find(db.sets, setId);
    if i.None? {
      return false;
    }
    var dayId := db.sets[i.value].val.dayId;
    var setCount := |SetsOfDay(db.sets, dayId)|;
    if setCount == 1 {
      SetsNotOfDayKeepsRows(db.sets, dayId);
      KeepValidAfterDayDeletion(db, dayId);
      db.sets := SetsNotOfDay(db.sets, dayId);
      db.days := Remove(db.days, dayId);
    } else {
      KeepValidAfterSetDeletion(db, setId);
      db.sets := Remove(db.sets, setId);
    }
    return true;
  }

  lemma KeepValidAfterDayDeletion(db: Database, dayId: int)
    requires db.Valid()
    ensures Consistent(Remove(db.days, dayId), SetsNotOfDay(db.sets, dayId), db.exercises, db.units)
  {
    var days, sets := Remove(db.days, dayId), SetsNotOfDay(db.sets, dayId);
    RemoveKeepsWellFormed(db.days, dayId);
    RemoveKeepsRows(db.days, dayId);
    RemoveIds(db.days, dayId);
    SetsNotOfDayKeepsRows(db.sets, dayId);
    OneDayPerDateOfRowsFrom(db.days, days);
    forall k | 0 <= k < |sets|
      ensures sets[k].val.dayId in Ids(days)
      ensures sets[k].val.exerciseId in Ids(db.exercises) && sets[k].val.unitId in Ids(db.units)
    {
      var j :| 0 <= j < |db.sets| && db.sets[j] == sets[k];
    }
  }

  lemma KeepValidAfterSetDeletion(db: Database, setId: int)
    requires db.Valid()
    ensures Consistent(db.days, Remove(db.sets, setId), db.exercises, db.units)
  {
    var sets := Remove(db.sets, setId);
    RemoveKeepsWellFormed(db.sets, setId);
    RemoveKeepsRows(db.sets, setId);
    forall k | 0 <= k < |sets|
      ensures sets[k].val.dayId in Ids(db.days)
      ensures sets[k].val.exerciseId in Ids(db.exercises) && sets[k].val.unitId in Ids(db.units)
    {
      var j :| 0 <= j < |db.sets| && db.sets[j] == sets[k];
    }
  }
}
