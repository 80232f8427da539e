# Fitness log core in Dafny

This project models the core of a small training log. It is a FastAPI service
over SQLAlchemy and SQLite. A user starts a **fitness day** for today's date in
their own time zone and tags it with the muscle groups they train. They log
**fitness sets** against it: an exercise, a weight in a unit, reps, a set type
and a remark. They finish the day, look at one day's detail with its sets
grouped by exercise, and browse a training log filtered by date range and
exercise name, newest first and grouped by date. Exercises are reference data
that can be listed, created, renamed and deleted. Units can be listed.

The model keeps the service layer's shape:

- **The database.** `Database.Database` is a class holding the four tables.
  Each table is a sequence of `Row(id, val)` in ascending id order. Every
  state-changing service function becomes a method that receives the database
  (the `db: Session` argument) and updates its fields. `Valid()` is the
  invariant every method keeps:
  - ids increase along each table;
  - at most one day per date;
  - every set's day, exercise and unit exist;
  - exercise names are unique, and so are unit names.
- **Specification functions.** Each method is proved against a function of the
  old tables:
  - `StartDay` for get-or-create;
  - `TargetDay` for the day a new set goes to;
  - `ApplyUpdate` for the partial set update;
  - `DeleteSet` for deletion.

  The promises of the source are lemmas about those functions. The main one is
  that deleting a day's only set deletes the day and nothing else
  (`DeleteSetEffect`).
- **Muscle tags.** The codec is written the way the source is written. The
  normaliser's two loops are methods proved equal to a function. The parser is
  a function. Round-trip and idempotence lemmas connect them.
- **Read views.** These are methods over a snapshot of the tables. The day
  detail and the log group their rows with an insertion-ordered grouping loop
  (`Grouping.GroupInOrder`), which stands in for the source's `dict`. The log
  sorts with an insertion sort proved sorted and a permutation; that sort
  stands in for `ORDER BY`.
- **Outside inputs become parameters.**
  - The wall clock is a `Clock`: the current instant and the calendar date it
    falls on in each zone.
  - The IANA zone database is a `ZoneDb` predicate saying which zone names
    exist.
  - Failures the source raises are values of `Outcomes.Result`:
    - an unknown zone gives `InvalidTimezone`;
    - a missing row gives `NotFound`;
    - a broken reference gives `ForeignKeyViolation`;
    - a duplicate exercise name gives `UniqueViolation`.

Three behaviours of the code shape the model:

- **Failed create leaves the new day.** `create_fitness_set` commits
  get-or-create's new day before it inserts the set. If the insert then fails,
  the new day stays behind. `FitnessSets.CreateFitnessSet` keeps that day.
- **Deletion is counted on the day.** The day of a deleted set goes away
  exactly when the set count of that day was 1. The cascade on
  `FitnessDay.sets` then deletes the set with it.
- **Empty tag list.** A present but empty tag list replaces an existing day's
  tags with nothing. The normaliser maps `[]` to `None`, and get-or-create
  tests only `is not None`.

## Model

| member | source | states |
|---|---|---|
| MasterdataModels.MuscleGroupsClosed | backend/app/masterdata/models.py:9-16 | there are exactly six muscle groups; each group's value parses back to that group, and no two groups share a value |
| MasterdataModels.MuscleGroupValue | backend/app/masterdata/models.py:9-16 | each muscle group's value is one character that is neither a comma nor white space, so it survives the tag codec |
| FitnessModels.SetTypesClosed | backend/app/fitness/models.py:10-14 | there are exactly four set types; each type's value parses back to that type, and no two types share a value |
| FitnessModels.DateLeTotalOrder | backend/app/fitness/models.py:20 | calendar order on the `date` column is total, antisymmetric and transitive |
| FitnessModels.CascadeOfLastSet | backend/app/fitness/models.py:25-28 | when a day's only set is `setId`, the cascade that deletes the day leaves the same set table as deleting that set alone |
| FitnessModels.SetsOfDay | backend/app/fitness/models.py:25-28 | the `sets` relationship holds exactly the table's sets that name the day, and no more sets than the table |
| FitnessModels.SetsNotOfDay | backend/app/fitness/models.py:25-28 | the cascade keeps exactly the table's sets of other days |
| FitnessModels.SetsNotOfDayKeepsRows | backend/app/fitness/models.py:25-28 | the set table a day's cascade leaves stays ordered by id |
| FitnessSchemas.SchemaDefaults | backend/app/fitness/schemas.py:7-28 | an omitted create field means today's day, 1 rep, a working set, no remark and no muscles; an omitted update field means "leave as is" |
| Database.Database.constructor | backend/app/masterdata/models.py:29-33 | a new database has no days, sets or exercises, holds the given units numbered from 1, and satisfies the invariant (unit names must be distinct) |
| Database.OneDayPerDateOfRowsFrom | backend/app/fitness/models.py:17-28 | dropping days from a table with one day per date keeps one day per date |
| TimeZones.ResolveTimezone | backend/app/fitness/service.py:12-19 | a failure, always `InvalidTimezone`, exactly when the stripped name is not "utc" in any case and is empty or unknown to the zone database; a known non-UTC name resolves to itself, stripped |
| TimeZones.UtcShortcut | backend/app/fitness/service.py:13-15 | the result is UTC exactly when the stripped name is "utc" in any mix of cases, whatever the zone database holds |
| TimeZones.ResolveIgnoresPadding | backend/app/fitness/service.py:13 | white space around the zone name never changes the outcome |
| TimeZones.LocalToday | backend/app/fitness/service.py:51-53 | today is known exactly when the zone resolves |
| MuscleTags.NormalizedSelection | backend/app/fitness/service.py:22-42 | a falsy selection gives nothing; otherwise nothing exactly when no tag is non-blank, else the non-blank tags without repeats joined with "," |
| MuscleTags.CollectNonBlank | backend/app/fitness/service.py:28-32 | the loop collects exactly the non-blank list items, unstripped and in order |
| MuscleTags.DropRepeats | backend/app/fitness/service.py:36-41 | the `seen`-set loop yields the list without repeats, each kept at its first occurrence |
| MuscleTags.NormalizePrimaryMuscleSelection | backend/app/fitness/service.py:22-42 | the normaliser returns what `NormalizedSelection` specifies, for text and for lists |
| MuscleTags.NonBlankStripped | backend/app/fitness/service.py:26 | every tag kept is non-empty and stripped, and there are no more tags than parts |
| MuscleTags.NonBlankStrippedKeepsParts | backend/app/fitness/service.py:48 | every part that is not blank once stripped is kept, stripped |
| MuscleTags.NonBlankStrippedFromParts | backend/app/fitness/service.py:48 | every tag kept is the stripped form of one of the parts |
| MuscleTags.ParsePrimaryMuscles | backend/app/fitness/service.py:45-48 | a missing value gives no tags; every tag returned is non-empty, stripped and comma-free |
| MuscleTags.ParseJoin | backend/app/fitness/service.py:42-48 | parsing the ","-join of clean tags gives the tags back |
| MuscleTags.TagListRoundTrip | backend/app/fitness/service.py:22-48 | for tags without commas or surrounding white space, parse(normalise(list)) is the non-blank tags without repeats, in first-seen order |
| MuscleTags.MuscleGroupsRoundTrip | backend/app/fitness/service.py:22-48 | the muscle groups a request sends come back from the stored text as their values, without repeats |
| MuscleTags.CommaTextRoundTrip | backend/app/fitness/service.py:22-48 | parse(normalise(text)) is parse(text) with repeats removed |
| MuscleTags.NormalizeTextIdempotent | backend/app/fitness/service.py:22-42 | normalising stored tag text again leaves it unchanged |
| FitnessDays.DayOn | backend/app/fitness/service.py:116-117 | the first day dated `d`; none exactly when no day has that date |
| FitnessDays.GetFitnessDayById | backend/app/fitness/service.py:56-65 | a day is found exactly when the id exists, and it is the row with that id |
| FitnessDays.GetTodayFitnessDay | backend/app/fitness/service.py:114-117 | an error exactly when the zone does not resolve; otherwise the day dated today, or nothing when no day has today's date |
| FitnessDays.DaysInMonth | backend/app/fitness/service.py:106-111 | a day is listed exactly when it is in the table and dated in that year and month |
| FitnessDays.DaysInMonthListsOnce | backend/app/fitness/service.py:106-111 | the month's days stay in id order, so no day is listed twice |
| FitnessDays.StartDayExisting | backend/app/fitness/service.py:127-135 | an existing day dated today is returned and nothing is created; only its tags change, and only when a selection is passed (an empty list clears them) |
| FitnessDays.StartDayNew | backend/app/fitness/service.py:137-148 | with no day today, exactly one day is appended under a new id: today, the zone as sent, normalised tags, started now, not finished |
| FitnessDays.StartDay | backend/app/fitness/service.py:120-148 | the day returned is dated today and is in the new table; an existing day keeps its id and the table its size; otherwise the day is appended under an id not yet used |
| FitnessDays.StartDayKeepsOneDayPerDate | backend/app/fitness/service.py:120-148 | get-or-create keeps one day per date and ids ordered, and the day returned is the only day dated today |
| FitnessDays.GetOrCreateTodayFitnessDay | backend/app/fitness/service.py:120-148 | an unusable zone changes nothing; otherwise the day table and the returned day are `StartDay`'s; the other tables are unchanged and the invariant holds |
| FitnessDays.FinishTodayFitnessDay | backend/app/fitness/service.py:151-159 | with today's day present, only its end time changes, to now; without one, or with a bad zone, nothing changes |
| FitnessSets.TargetDay | backend/app/fitness/service.py:163-166 | a given (truthy) day id is used as is; otherwise the zone must resolve, and the day used is the one get-or-create leaves dated today |
| FitnessSets.CreateFitnessSet | backend/app/fitness/service.py:162-182 | one set with every request field is appended under the next id when its day, exercise and unit exist; otherwise `ForeignKeyViolation` and no set is added, while a day started on the way stays |
| FitnessSets.ApplyUpdate | backend/app/fitness/service.py:193-204 | each field the update sets is taken and every other field (day, creation time included) is kept |
| FitnessSets.EmptyUpdateChangesNothing | backend/app/fitness/service.py:193-204 | an update that sets nothing leaves the set as it was |
| FitnessSets.UpdateIdempotent | backend/app/fitness/service.py:193-204 | sending the same update twice has the effect of sending it once |
| FitnessSets.UpdatesCompose | backend/app/fitness/service.py:193-204 | two updates in a row equal one update in which the later update's fields win |
| FitnessSets.UpdateFitnessSet | backend/app/fitness/service.py:185-209 | an unknown id is `NotFound` and changes nothing; otherwise only that row changes, to `ApplyUpdate` of itself, unless a new reference does not exist |
| FitnessSets.DeleteSetEffect | backend/app/fitness/service.py:212-231 | a set is deleted exactly when its id exists; an unknown id changes nothing; exactly that set leaves the set table; its day leaves exactly when the set was the day's only one |
| FitnessSets.DeleteFitnessSet | backend/app/fitness/service.py:212-231 | the tables become `DeleteSet`'s, the result says whether the id existed, and the invariant holds |
| FitnessSets.DeleteSet | backend/app/fitness/service.py:212-231 | something is deleted exactly when the id exists; an unknown id leaves both tables as they were; neither table grows |
| FitnessViews.SerializeFitnessDayDetail | backend/app/fitness/service.py:68-103 | the day's fields and parsed tags; one group per exercise in first-appearance order, holding exactly that exercise's sets in table order; the groups hold every set of the day |
| FitnessViews.JoinRow | backend/app/fitness/service.py:266-291 | a log row takes its date and zone from the set's own day row, its exercise and unit names from the rows the set names, and the rest from the set |
| FitnessViews.Matches | backend/app/fitness/service.py:256-261 | with no bounds and no (or an empty) name fragment every row passes; both date bounds are inclusive, and a row's own exercise name matches it |
| FitnessViews.Selected | backend/app/fitness/service.py:256-261 | a joined row is kept exactly when it passes every filter given, and id order is preserved |
| FitnessViews.NewerFirst | backend/app/fitness/service.py:263 | a row from an earlier date, or from the same date with a smaller id, never comes first |
| FitnessViews.NewerFirstSameKey | backend/app/fitness/service.py:263 | two rows that may each come ahead of the other share their date and id |
| FitnessViews.NewerFirstIsTotal | backend/app/fitness/service.py:263 | date descending, then set id descending, is a total preorder |
| FitnessViews.ListFitnessLogs | backend/app/fitness/service.py:239-293 | dates strictly newest first, each once; ids strictly decreasing within a date; each set shown is a selected set of that date, with that date's zone; as many sets as the query selects |
| FitnessViews.ListUnits | backend/app/fitness/service.py:234-236 | every unit once, sorted by name |
| MasterdataService.ListExercises | backend/app/masterdata/service.py:7-9 | every exercise once, sorted by name |
| MasterdataService.ListedNamesIncrease | backend/app/masterdata/service.py:7-9 | because names are unique, the listed names strictly increase |
| MasterdataService.CreateExercise | backend/app/masterdata/service.py:12-21 | a taken name is `UniqueViolation` and changes nothing; otherwise exactly one exercise with that name and muscle is appended under the next id |
| MasterdataService.UpdateExercise | backend/app/masterdata/service.py:24-35 | an unknown id is `NotFound`; a name another exercise holds is `UniqueViolation`; otherwise only that row changes, to the new name and muscle |
| MasterdataService.DeleteExercise | backend/app/masterdata/service.py:38-45 | an unknown id gives false and changes nothing; an exercise a set still names is `ForeignKeyViolation`; otherwise exactly that exercise is removed and the result is true |
| Text.SplitJoin | backend/app/fitness/service.py:42-48 | `",".join` followed by `split(",")` gives the comma-free parts back |
| Text.StripPadding | backend/app/fitness/service.py:13 | stripping ignores any white space added around a string |
| Grouping.GroupInOrder | backend/app/fitness/service.py:69-94 | the insertion-ordered dict: one group per key in first-seen order, each holding that key's items in order |
| Sorting.SortBy | backend/app/fitness/service.py:263 | the result is sorted by the given total preorder and is a permutation of the input |

## Left out

- HTTP routing, request validation and response codes are not modelled. This includes the router's check for a blank `X-Timezone` header and its 404 for `None`. The model returns `NotFound` or `None` where the service returns `None`.
- The wall clock and the IANA zone database are parameters. One `Clock` value stands for one request. The source reads `datetime.now` twice in `get_or_create_today_fitness_day` (once for the date, once for `start_time`), and the model takes both from the same instant.
- The log takes the date range as `Date`s. The router's conversion from query strings to `datetime` and `.date()` is not modelled.
- ISO-8601 formatting of timestamps and `strftime("%Y-%m-%d")` of dates are not modelled. The views return the `Instant` and `Date` values, and the log groups by the date itself rather than its text. The two are one-to-one, so the grouping is the same.
- FitnessViews.SerializeFitnessDayDetail: `start_time` is `Some(...)`, because the column is not nullable. The source's `if day.start_time` guard is therefore always true.
- FitnessViews.ListFitnessLogs: `ilike` is modelled as an ASCII case-insensitive substring test. `%` and `_` inside the fragment are wildcards in the source (they are not escaped), and the model does not give them that meaning. SQLite's `LIKE` folds only ASCII case.
- ORDER BY on names uses code-point order (`Text.StrLe`). SQLite's default BINARY collation compares UTF-8 bytes, which gives the same order.
- Audit columns are left out except `created_at` of a set, which the log shows: `created_by`, `updated_by`, `updated_at` and `created_at` of days and exercises. A new set's `created_at` is the clock's instant.
- The weight is a float that the core only stores and returns. It is modelled as an uninterpreted `real`, with no rounding.
- Column length limits are not enforced: `String(64)` on names and zones, and `String(16)` on unit names.
- Enum columns are modelled as their Dafny datatypes. SQLAlchemy's `SAEnum` stores the member name, and the views show the value text (`SetTypeValue`, `MuscleGroupValue`).
- The column default `"UTC"` for `fitness_day.timezone` is not modelled: the service always passes the zone name as sent, so the default never applies.
- Foreign keys are enforced as the schema declares them (`ondelete="RESTRICT"`, refused with `ForeignKeyViolation`). SQLite enforces foreign keys only when `PRAGMA foreign_keys=ON` is set, and backend/app/core/database.py does not set it. On the real database, a set pointing at a missing day, exercise or unit would be stored, and an exercise still in use could be deleted. The model follows the declared schema so that `Valid()` can hold.
- `delete_fitness_set` re-reads the day and guards with `if day:`. Under the foreign-key invariant the day always exists, so the model has no separate branch for a missing day.
- Transactions, concurrent requests and races between the read and the commit are not modelled. Each method is one atomic step on the tables.
- `get_or_create_today_fitness_day` accepts an untyped `primary_muscles`. The model takes a `MuscleSelection`: either comma-separated text or a list of tag strings. Muscle-group enums reach it as their values (`SelectionOf`). Other Python values, such as numbers or non-string items, are not modelled.
- `str.strip` removes the characters Python's `str.isspace` accepts (`Text.IsSpace`). `str.upper` is modelled for ASCII letters only (`Text.UpperAscii`). A non-ASCII character that Python upper-cases to an ASCII letter is not treated as that letter in the `"UTC"` comparison.
- `ZoneInfo` rejecting keys with path components is part of the `ZoneDb` parameter. An empty key gives `InvalidTimezone` like any unknown key. In the source, `ZoneInfo("")` raises `ValueError` directly instead of a wrapped `ZoneInfoNotFoundError`, which is the same error class to callers.
- Mass assignment from an ORM instance, `db.refresh` and lazy loading are not modelled. The model reads rows directly from the tables.
- The frontend, the static file serving in backend/app/main.py and the master-data schema module are not part of this model.
