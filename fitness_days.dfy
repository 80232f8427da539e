/**
 * The day lifecycle of backend/app/fitness/service.py: looking up today's
 * day, starting it (get or create) and finishing it, plus the lookups by id
 * and by month. "Today" is the date of the clock's instant in the client's
 * zone.
 */
module FitnessDays {
  import opened Outcomes
  import opened Tables
  import opened FitnessModels
  import opened MuscleTags
  import opened TimeZones
  import opened Database

  /** `select(FitnessDay).where(FitnessDay.date == d).first()`: the first day dated `d`. */
  function DayOn(days: seq<Row<FitnessDay>>, d: Date): (i: Option<nat>)
    ensures i.Some? ==> i.value < |days| && days[i.value].val.date == d
    ensures i.Some? ==> forall j :: 0 <= j < i.value ==> days[j].val.date != d
    ensures i.None? <==> forall j :: 0 <= j < |days| ==> days[j].val.date != d
  {
    if days == [] then None
    else if days[0].val.date == d then Some(0)
    else
      var i := DayOn(days[1..], d);
      assert forall j :: 1 <= j < |days| ==> days[j] == days[1..][j - 1];
      if i.None? then None else Some(i.value + 1)
  }

  /** `get_fitness_day_by_id`: the day with primary key `id`, if there is one. */
  function GetFitnessDayById(days: seq<Row<FitnessDay>>, id: int): (r: Option<Row<FitnessDay>>)
    ensures r.Some? <==> id in Ids(days)
    ensures r.Some? ==> r.value in days && r.value.id == id
  {
    match Find(days, id)
    case None => None
    case Some(i) => Some(days[i])
  }

  /**
   * `get_today_fitness_day`: the zone's error, or the day dated today if
   * there is one.
   */
  function GetTodayFitnessDay(days: seq<Row<FitnessDay>>, tz: string, zones: ZoneDb, clock: Clock)
    : (r: Result<Option<Row<FitnessDay>>>)
    ensures r.Err? <==> ResolveTimezone(tz, zones).Err?
    ensures r.Ok? && r.value.Some? ==>
      r.value.value in days && r.value.value.val.date == LocalToday(tz, zones, clock).value
    ensures r.Ok? && r.value.None? ==>
      forall j :: 0 <= j < |days| ==> days[j].val.date != LocalToday(tz, zones, clock).value
  {
    match LocalToday(tz, zones, clock)
    case Err(e) => Err(e)
    case Ok(today) =>
      match DayOn(days, today)
      case None => Ok(None)
      case Some(i) => Ok(Some(days[i]))
  }

  /**
   * `list_fitness_days_by_month`: the days of the given month, in table
   * order.
   */
  function DaysInMonth(days: seq<Row<FitnessDay>>, year: int, month: int): (r: seq<Row<FitnessDay>>)
    ensures forall row :: row in r <==> row in days && row.val.date.year == year && row.val.date.month == month
    ensures RowsFrom(r, days)
  {
    if days == [] then []
    else
      var init, last := days[..|days| - 1], days[|days| - 1];
      assert days == init + [last];
      var rest := DaysInMonth(init, year, month);
      if last.val.date.year == year && last.val.date.month == month then rest + [last] else rest
  }

  /** The month's days keep the table's id order, so each is listed once. */
  lemma DaysInMonthListsOnce(days: seq<Row<FitnessDay>>, year: int, month: int)
    requires WellFormed(days)
    ensures WellFormed(DaysInMonth(days, year, month))
    ensures forall i, j :: 0 <= i < j < |DaysInMonth(days, year, month)| ==>
              DaysInMonth(days, year, month)[i] != DaysInMonth(days, year, month)[j]
  {
    DaysInMonthOrdered(days, year, month);
    var r := DaysInMonth(days, year, month);
    assert forall i, j :: 0 <= i < j < |r| ==> r[i].id < r[j].id;
  }

  lemma {:induction false} DaysInMonthOrdered(days: seq<Row<FitnessDay>>, year: int, month: int)
    requires WellFormed(days)
    ensures WellFormed(DaysInMonth(days, year, month))
  {
    if days != [] {
      var init, last := days[..|days| - 1], days[|days| - 1];
      assert forall i :: 0 <= i < |init| ==> init[i] == days[i];
      DaysInMonthOrdered(init, year, month);
      var rest := DaysInMonth(init, year, month);
      if last.val.date.year == year && last.val.date.month == month {
        assert DaysInMonth(days, year, month) == rest + [last];
        forall i | 0 <= i < |rest| ensures rest[i].id < last.id {
          assert rest[i] in init;
        }
      }
    }
  }

  /** The day get-or-create hands back, and the day table it leaves. */
  datatype DayOutcome = DayOutcome(day: Row<FitnessDay>, days: seq<Row<FitnessDay>>)

  /**
   * What `get_or_create_today_fitness_day` does once today is known: an
   * existing day dated today is returned, its tags replaced only when a
   * selection is passed; otherwise a new day is appended with today's date,
   * the zone name as sent, the normalised tags, the current instant as start
   * and no end.
   */
  function StartDay(days: seq<Row<FitnessDay>>, today: Date, tz: string, now: Instant,
                    muscles: Option<MuscleSelection>): (o: DayOutcome)
    requires WellFormed(days)
    ensures o.day.val.date == today && o.day in o.days
    ensures DayOn(days, today).Some? ==>
      o.day.id == days[DayOn(days, today).value].id && |o.days| == |days|
    ensures DayOn(days, today).None? ==> o.days == days + [o.day] && o.day.id !in Ids(days)
  {
    match DayOn(days, today)
    case Some(i) =>
      var day := if muscles.Some? then Row(days[i].id, days[i].val.(primaryMuscles := NormalizedSelection(muscles)))
                 else days[i];
      DayOutcome(day, Replace(days, day))
    case None =>
      var day := Row(NextId(days), FitnessDay(today, tz, NormalizedSelection(muscles), now, None));
      DayOutcome(day, days + [day])
  }

  /**
   * When a day is dated today, get-or-create returns that day and creates
   * nothing: the table keeps its ids and rows, except that this day's tags
   * become the normalised selection when one is passed (so an empty list
   * clears them) and stay as they were otherwise.
   */
  lemma StartDayExisting(days: seq<Row<FitnessDay>>, today: Date, tz: string, now: Instant,
                         muscles: Option<MuscleSelection>)
    requires WellFormed(days) && DayOn(days, today).Some?
    ensures var i, o := DayOn(days, today).value, StartDay(days, today, tz, now, muscles);
      && o.day.id == days[i].id
      && o.day.val.(primaryMuscles := days[i].val.primaryMuscles) == days[i].val
      && (muscles.None? ==> o.day == days[i] && o.days == days)
      && (muscles.Some? ==> o.day.val.primaryMuscles == NormalizedSelection(muscles))
      && (muscles == Some(TagList([])) ==> o.day.val.primaryMuscles == None)
      && o.days == days[i := o.day]
  {
    var i, o := DayOn(days, today).value, StartDay(days, today, tz, now, muscles);
    if muscles.None? {
      assert Replace(days, days[i]) == days;
    }
  }

  /**
   * When no day is dated today, get-or-create appends exactly one day: dated
   * today, in the given zone, with the normalised tags, started now and not
   * finished.
   */
  lemma StartDayNew(days: seq<Row<FitnessDay>>, today: Date, tz: string, now: Instant,
                    muscles: Option<MuscleSelection>)
    requires WellFormed(days) && DayOn(days, today).None?
    ensures var o := StartDay(days, today, tz, now, muscles);
      && o.days == days + [o.day]
      && o.day.id !in Ids(days)
      && o.day.val == FitnessDay(today, tz, NormalizedSelection(muscles), now, None)
  {
  }

  /**
   * Get-or-create keeps the day table ordered with at most one day per date,
   * and afterwards the returned day is the one day dated today.
   */
  lemma StartDayKeepsOneDayPerDate(days: seq<Row<FitnessDay>>, today: Date, tz: string, now: Instant,
                                   muscles: Option<MuscleSelection>)
    requires WellFormed(days) && OneDayPerDate(days)
    ensures var o := StartDay(days, today, tz, now, muscles);
      && WellFormed(o.days) && OneDayPerDate(o.days)
      && Ids(o.days) == Ids(days) + {o.day.id}
      && o.day in o.days && o.day.val.date == today
      && forall j :: 0 <= j < |o.days| && o.days[j].val.date == today ==> o.days[j] == o.day
  {
    match DayOn(days, today)
    case Some(i) => StartOnExistingDay(days, i, today, tz, now, muscles);
    case None => StartOnNewDay(days, today, tz, now, muscles);
  }

  /**
   * The day table `o.days` is ordered, has one day per date, gained at most
   * the id of `o.day`, and `o.day` is its only day dated `today`.
   */
  predicate StartedToday(days: seq<Row<FitnessDay>>, today: Date, o: DayOutcome)
  {
    && WellFormed(o.days) && OneDayPerDate(o.days)
    && Ids(o.days) == Ids(days) + {o.day.id}
    && o.day in o.days && o.day.val.date == today
    && forall j :: 0 <= j < |o.days| && o.days[j].val.date == today ==> o.days[j] == o.day
  }

  lemma StartOnExistingDay(days: seq<Row<FitnessDay>>, i: nat, today: Date, tz: string, now: Instant,
                           muscles: Option<MuscleSelection>)
    requires WellFormed(days) && OneDayPerDate(days) && DayOn(days, today) == Some(i)
    ensures StartedToday(days, today, StartDay(days, today, tz, now, muscles))
  {
    var o := StartDay(days, today, tz, now, muscles);
    ReplaceKeepsIds(days, o.day);
    assert days[i].id == o.day.id && days[i].val.date == o.day.val.date;
    ReplaceKeepsDates(days, o.day);
    assert o.days[i] == o.day;
  }

  lemma StartOnNewDay(days: seq<Row<FitnessDay>>, today: Date, tz: string, now: Instant,
                      muscles: Option<MuscleSelection>)
    requires WellFormed(days) && OneDayPerDate(days) && DayOn(days, today).None?
    ensures StartedToday(days, today, StartDay(days, today, tz, now, muscles))
  {
    var o := StartDay(days, today, tz, now, muscles);
    AppendKeepsWellFormed(days, o.day.val);
    assert o.days[|days|] == o.day;
  }

  /** The day table after a change that keeps every id has the same set references. */
  lemma RefsWhenDaysGrow(db: Database, newDays: seq<Row<FitnessDay>>)
    requires db.Valid()
    requires Ids(db.days) <= Ids(newDays)
    ensures SetsReferToRows(db.sets, newDays, db.exercises, db.units)
  {
  }

  /**
   * `get_or_create_today_fitness_day`: an unusable zone changes nothing;
   * otherwise the day table becomes `StartDay`'s and its day is returned.
   */
  method GetOrCreateTodayFitnessDay(db: Database, tz: string, zones: ZoneDb, clock: Clock,
                                    muscles: Option<MuscleSelection>) returns (r: Result<Row<FitnessDay>>)
    requires db.Valid()
    modifies db
    ensures db.Valid()
    ensures db.sets == old(db.sets) && db.exercises == old(db.exercises) && db.units == old(db.units)
    ensures match LocalToday(tz, zones, clock)
      case Err(e) => r == Err(e) && db.days == old(db.days)
      case Ok(today) =>
        var o := StartDay(old(db.days), today, tz, clock.now, muscles);
        r == Ok(o.day) && db.days == o.days
  {
    var today := LocalToday(tz, zones, clock);
    if today.Err? {
      return Err(today.error);
    }
    ghost var o := StartDay(db.days, today.value, tz, clock.now, muscles);
    StartKeepsConsistent(db, today.value, tz, clock.now, muscles);
    var existing := DayOn(db.days, today.value);
    var day: Row<FitnessDay>;
    if existing.Some? {
      StartDayExisting(db.days, today.value, tz, clock.now, muscles);
      day := db.days[existing.value];
      if muscles.Some? {
        var tags := NormalizePrimaryMuscleSelection(muscles);
        day := Row(day.id, day.val.(primaryMuscles := tags));
        db.days := Replace(db.days, day);
      }
    } else {
      var tags := NormalizePrimaryMuscleSelection(muscles);
      day := Row(NextId(db.days), FitnessDay(today.value, tz, tags, clock.now, None));
      db.days := db.days + [day];
    }
    assert day == o.day && db.days == o.days;
    return Ok(day);
  }

  /** The tables stay consistent when the day table becomes `StartDay`'s. */
  lemma StartKeepsConsistent(db: Database, today: Date, tz: string, now: Instant, muscles: Option<MuscleSelection>)
    requires db.Valid()
    ensures Consistent(StartDay(db.days, today, tz, now, muscles).days, db.sets, db.exercises, db.units)
  {
    var o := StartDay(db.days, today, tz, now, muscles);
    StartDayKeepsOneDayPerDate(db.days, today, tz, now, muscles);
    RefsWhenDaysGrow(db, o.days);
  }

  /**
   * `finish_today_fitness_day`: with a usable zone and a day dated today, that
   * day's end time becomes now and nothing else changes; otherwise nothing
   * changes.
   */
  method FinishTodayFitnessDay(db: Database, tz: string, zones: ZoneDb, clock: Clock)
    returns (r: Result<Option<Row<FitnessDay>>>)
    requires db.Valid()
    modifies db
    ensures db.Valid()
    ensures db.sets == old(db.sets) && db.exercises == old(db.exercises) && db.units == old(db.units)
    ensures match GetTodayFitnessDay(old(db.days), tz, zones, clock)
      case Err(e) => r == Err(e) && db.days == old(db.days)
      case Ok(None) => r == Ok(None) && db.days == old(db.days)
      case Ok(Some(day)) =>
        var done := Row(day.id, day.val.(endTime := Some(clock.now)));
        r == Ok(Some(done)) && db.days == Replace(old(db.days), done)
  {
    var today := GetTodayFitnessDay(db.days, tz, zones, clock);
    if today.Err? {
      return Err(today.error);
    }
    if today.value.None? {
      return Ok(None);
    }
    var day := today.value.value;
    var done := Row(day.id, day.val.(endTime := Some(clock.now)));
    ReplaceKeepsIds(db.days, done);
    ReplaceKeepsDates(db.days, done);
    db.days := Replace(db.days, done);
    return Ok(Some(done));
  }

  /** Replacing a day by one with the same id and date keeps one day per date. */
  lemma ReplaceKeepsDates(days: seq<Row<FitnessDay>>, row: Row<FitnessDay>)
    requires WellFormed(days) && OneDayPerDate(days)
    requires exists i :: 0 <= i < |days| && days[i].id == row.id && days[i].val.date == row.val.date
    ensures OneDayPerDate(Replace(days, row))
  {
    var u := Replace(days, row);
    assert forall j :: 0 <= j < |days| ==> u[j].val.date == days[j].val.date;
  }
}
