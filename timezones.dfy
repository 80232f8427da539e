/**
 * `resolve_timezone` (backend/app/fitness/service.py): a client-supplied zone
 * name becomes UTC or a named IANA zone. The zone database is outside the
 * model: `ZoneDb` says which names it knows.
 */
module TimeZones {
  import opened Outcomes
  import opened Text
  import opened FitnessModels

  datatype Zone = Utc | Named(key: string)

  /** Which keys the zone database can load. */
  type ZoneDb = string -> bool

  /**
   * The name is stripped; any spelling of "UTC" is UTC without consulting the
   * database; an empty name, or one the database does not know, is invalid.
   */
  function ResolveTimezone(tz: string, zones: ZoneDb): (z: Result<Zone>)
    ensures z.Ok? && z.value.Named? ==> z.value.key == Strip(tz) && zones(Strip(tz))
    ensures UpperAscii(Strip(tz)) != "UTC" && Strip(tz) != "" && zones(Strip(tz)) ==> z == Ok(Named(Strip(tz)))
    ensures z.Err? <==> UpperAscii(Strip(tz)) != "UTC" && (Strip(tz) == "" || !zones(Strip(tz)))
    ensures z.Err? ==> z.error == InvalidTimezone
  {
    var clean := Strip(tz);
    if UpperAscii(clean) == "UTC" then Ok(Utc)
    else if clean == "" || !zones(clean) then Err(InvalidTimezone)
    else Ok(Named(clean))
  }

  /**
   * The UTC shortcut: the result is UTC exactly when the stripped name spells
   * "utc" in any mix of cases, whatever the zone database holds.
   */
  lemma UtcShortcut(tz: string, zones: ZoneDb)
    ensures ResolveTimezone(tz, zones) == Ok(Utc) <==>
      var c := Strip(tz);
      |c| == 3 && c[0] in "uU" && c[1] in "tT" && c[2] in "cC"
  {
    SpellsUtc(Strip(tz));
  }

  lemma SpellsUtc(c: string)
    ensures UpperAscii(c) == "UTC" <==> |c| == 3 && c[0] in "uU" && c[1] in "tT" && c[2] in "cC"
  {
    var u := UpperAscii(c);
    if |c| == 3 {
      assert u == "UTC" <==> u[0] == 'U' && u[1] == 'T' && u[2] == 'C';
    }
  }

  /** Surrounding white space never changes the outcome. */
  lemma ResolveIgnoresPadding(tz: string, pad1: string, pad2: string, zones: ZoneDb)
    requires AllSpace(pad1) && AllSpace(pad2)
    ensures ResolveTimezone(pad1 + tz + pad2, zones) == ResolveTimezone(tz, zones)
  {
    StripPadding(tz, pad1, pad2);
  }

  /**
   * The wall clock, read once per request: the current UTC instant and the
   * calendar date it falls on in each zone (`datetime.now(tz).date()`).
   */
  datatype Clock = Clock(now: Instant, dateIn: Zone -> Date)

  /** `local_today`: today's date in the client's zone, or the zone's error. */
  function LocalToday(tz: string, zones: ZoneDb, clock: Clock): (d: Result<Date>)
    ensures d.Ok? <==> ResolveTimezone(tz, zones).Ok?
  {
    match ResolveTimezone(tz, zones)
    case Ok(z) => Ok(clock.dateIn(z))
    case Err(e) => Err(e)
  }
}
