/**
 * Exercise maintenance (backend/app/masterdata/service.py): the list ordered
 * by name, creation, full overwrite and deletion. The unique name constraint
 * refuses a clash with `UniqueViolation`; deleting an exercise a set still
 * names is refused with `ForeignKeyViolation` (the set's RESTRICT key).
 */
module MasterdataService {
  import opened Outcomes
  import opened Text
  import opened Grouping
  import opened Sorting
  import opened Tables
  import opened MasterdataModels
  import opened FitnessModels
  import opened Database

  predicate ExerciseNameLe(a: Row<Exercise>, b: Row<Exercise>)
  {
    StrLe(a.val.name, b.val.name)
  }

  lemma ExerciseNameOrderIsTotal()
    ensures TotalPreorder(ExerciseNameLe)
  {
    forall a, b ensures ExerciseNameLe(a, b) || ExerciseNameLe(b, a) {
      StrLeTotal(a.val.name, b.val.name);
    }
    forall a, b, c | ExerciseNameLe(a, b) && ExerciseNameLe(b, c) ensures ExerciseNameLe(a, c) {
      StrLeTransitive(a.val.name, b.val.name, c.val.name);
    }
  }

  /** `list_exercises`: every exercise, ordered by name. */
  function ListExercises(exercises: seq<Row<Exercise>>): (r: seq<Row<Exercise>>)
    ensures Sorted(r, ExerciseNameLe)
    ensures multiset(r) == multiset(exercises)
  {
    ExerciseNameOrderIsTotal();
    SortBy(exercises, ExerciseNameLe)
  }

  /** With unique names, the name order is strict: the listed names increase. */
  lemma ListedNamesIncrease(exercises: seq<Row<Exercise>>)
    requires UniqueExerciseNames(exercises)
    ensures var r := ListExercises(exercises);
      forall i, j :: 0 <= i < j < |r| ==> StrLe(r[i].val.name, r[j].val.name) && r[i].val.name != r[j].val.name
  {
    var r := ListExercises(exercises);
    forall i, j | 0 <= i < j < |r| ensures r[i].val.name != r[j].val.name {
      if r[i].val.name == r[j].val.name {
        TwiceInSeq(r, i, j);
        assert r[i] in multiset(exercises) && r[j] in multiset(exercises);
        var a :| 0 <= a < |exercises| && exercises[a] == r[i];
        var b :| 0 <= b < |exercises| && exercises[b] == r[j];
        OnceInList(exercises, a);
      }
    }
  }

  /** In a table with unique names, each row occurs once. */
  lemma {:induction false} OnceInList(t: seq<Row<Exercise>>, a: nat)
    requires UniqueExerciseNames(t) && a < |t|
    ensures multiset(t)[t[a]] == 1
  {
    var init, last := t[..|t| - 1], t[|t| - 1];
    assert t == init + [last];
    if a < |t| - 1 {
      OnceInList(init, a);
      assert t[a] != last;
    } else {
      assert last !in init;
    }
  }

  /**
   * `create_exercise`: a taken name is refused and changes nothing; otherwise
   * exactly one exercise is appended, under the next id, and every other
   * table and row stays as it was.
   */
  method CreateExercise(db: Database, name: string, targetMuscle: Option<MuscleGroup>)
    returns (r: Result<Row<Exercise>>)
    requires db.Valid()
    modifies db
    ensures db.Valid()
    ensures db.days == old(db.days) && db.sets == old(db.sets) && db.units == old(db.units)
    ensures NameTaken(old(db.exercises), name, None) ==> r == Err(UniqueViolation) && db.exercises == old(db.exercises)
    ensures !NameTaken(old(db.exercises), name, None) ==>
      && r == Ok(Row(NextId(old(db.exercises)), Exercise(name, targetMuscle)))
      && db.exercises == old(db.exercises) + [r.value]
  {
    if NameTaken(db.exercises, name, None) {
      return Err(UniqueViolation);
    }
    var row := Row(NextId(db.exercises), Exercise(name, targetMuscle));
    AppendKeepsWellFormed(db.exercises, row.val);
    db.exercises := db.exercises + [row];
    return Ok(row);
  }

  /**
   * `update_exercise`: an unknown id is `NotFound` and changes nothing; a name
   * another exercise has is refused and changes nothing; otherwise both the
   * name and the target muscle are overwritten (an absent muscle clears it).
   */
  method UpdateExercise(db: Database, id: int, name: string, targetMuscle: Option<MuscleGroup>)
    returns (r: Result<Row<Exercise>>)
    requires db.Valid()
    modifies db
    ensures db.Valid()
    ensures db.days == old(db.days) && db.sets == old(db.sets) && db.units == old(db.units)
    ensures match Find(old(db.exercises), id)
      case None => r == Err(NotFound) && db.exercises == old(db.exercises)
      case Some(i) =>
        if NameTaken(old(db.exercises), name, Some(id)) then
          r == Err(UniqueViolation) && db.exercises == old(db.exercises)
        else
          r == Ok(Row(id, Exercise(name, targetMuscle))) && db.exercises == old(db.exercises)[i := r.value]
  {
    var i := Find(db.exercises, id);
    if i.None? {
      return Err(NotFound);
    }
    if NameTaken(db.exercises, name, Some(id)) {
      return Err(UniqueViolation);
    }
    var row := Row(id, Exercise(name, targetMuscle));
    RenameKeepsValid(db, i.value, row);
    db.exercises := db.exercises[i.value := row];
    return Ok(row);
  }

  lemma RenameKeepsValid(db: Database, i: nat, row: Row<Exercise>)
    requires db.Valid() && i < |db.exercises| && db.exercises[i].id == row.id
    requires !NameTaken(db.exercises, row.val.name, Some(row.id))
    ensures Consistent(db.days, db.sets, db.exercises[i := row], db.units)
  {
    ReplaceAt(db.exercises, i, row);
    ReplaceKeepsIds(db.exercises, row);
    var t := db.exercises[i := row];
    forall a, b | 0 <= a < b < |t| ensures t[a].val.name != t[b].val.name {
      if a == i || b == i {
        assert t[a].id != t[b].id;
      }
    }
  }

  /** Some set still names the exercise `id`. */
  predicate Referenced(sets: seq<Row<FitnessSet>>, id: int)
  {
    exists i :: 0 <= i < |sets| && sets[i].val.exerciseId == id
  }

  /**
   * `delete_exercise`: `Ok(false)` and no change for an unknown id; refused
   * while a set names it; otherwise `Ok(true)` with exactly that exercise
   * removed.
   */
  method DeleteExercise(db: Database, id: int) returns (r: Result<bool>)
    requires db.Valid()
    modifies db
    ensures db.Valid()
    ensures db.days == old(db.days) && db.sets == old(db.sets) && db.units == old(db.units)
    ensures id !in Ids(old(db.exercises)) ==> r == Ok(false) && db.exercises == old(db.exercises)
    ensures id in Ids(old(db.exercises)) && Referenced(old(db.sets), id) ==>
      r == Err(ForeignKeyViolation) && db.exercises == old(db.exercises)
    ensures id in Ids(old(db.exercises)) && !Referenced(old(db.sets), id) ==>
      r == Ok(true) && db.exercises == Remove(old(db.exercises), id)
    ensures r == Ok(true) ==> Ids(db.exercises) == Ids(old(db.exercises)) - {id}
  {
    var i := Find(db.exercises, id);
    if i.None? {
      return Ok(false);
    }
    if Referenced(db.sets, id) {
      return Err(ForeignKeyViolation);
    }
    RemoveKeepsValid(db, id);
    RemoveIds(db.exercises, id);
    db.exercises := Remove(db.exercises, id);
    return Ok(true);
  }

  lemma RemoveKeepsValid(db: Database, id: int)
    requires db.Valid() && !Referenced(db.sets, id)
    ensures Consistent(db.days, db.sets, Remove(db.exercises, id), db.units)
  {
    var t := Remove(db.exercises, id);
    RemoveKeepsWellFormed(db.exercises, id);
    RemoveKeepsRows(db.exercises, id);
    RemoveIds(db.exercises, id);
    UniqueNamesOfRowsFrom(db.exercises, t);
  }
}
