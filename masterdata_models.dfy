/**
 * Reference data: the closed set of muscle groups, exercises and units
 * (backend/app/masterdata/models.py).
 */
module MasterdataModels {
  import opened Outcomes
  import opened Text
  import opened Tables

  /** The six muscle groups; no other value is accepted. */
  datatype MuscleGroup = Chest | Back | Shoulder | Arm | Leg | Abs

  const AllMuscleGroups: seq<MuscleGroup> := [Chest, Back, Shoulder, Arm, Leg, Abs]

  /** The tag text of each muscle group (`MuscleGroup.X.value`). */
  function MuscleGroupValue(g: MuscleGroup): (v: string)
    ensures |v| == 1 && v[0] != ',' && !IsSpace(v[0])
  {
    match g
    case Chest => "胸"
    case Back => "背"
    case Shoulder => "肩"
    case Arm => "臂"
    case Leg => "腿"
    case Abs => "腹"
  }

  /** `MuscleGroup(value)`: the group whose value is `v`, if any. */
  function MuscleGroupOf(v: string): (g: Option<MuscleGroup>)
    ensures g.Some? ==> MuscleGroupValue(g.value) == v
  {
    if v == "胸" then Some(Chest)
    else if v == "背" then Some(Back)
    else if v == "肩" then Some(Shoulder)
    else if v == "臂" then Some(Arm)
    else if v == "腿" then Some(Leg)
    else if v == "腹" then Some(Abs)
    else None
  }

  /** Every group is listed once, and its value reads back as that group. */
  lemma MuscleGroupsClosed(g: MuscleGroup)
    ensures g in AllMuscleGroups && |AllMuscleGroups| == 6
    ensures MuscleGroupOf(MuscleGroupValue(g)) == Some(g)
    ensures forall h :: MuscleGroupValue(h) == MuscleGroupValue(g) ==> h == g
  {
  }

  /** An exercise: a required, unique name and an optional target muscle. */
  datatype Exercise = Exercise(name: string, targetMuscle: Option<MuscleGroup>)

  /** A measurement unit for weights, such as kg; the name is required and unique. */
  datatype Unit = Unit(name: string)

  /** The `unique=True` constraint on `exercise.name`. */
  predicate UniqueExerciseNames(t: seq<Row<Exercise>>)
  {
    forall i, j :: 0 <= i < j < |t| ==> t[i].val.name != t[j].val.name
  }

  /** The `unique=True` constraint on `unit.name`. */
  predicate UniqueUnitNames(t: seq<Row<Unit>>)
  {
    forall i, j :: 0 <= i < j < |t| ==> t[i].val.name != t[j].val.name
  }

  /**
   * Whether an exercise called `name` exists, not counting the one whose id
   * is `except` (the row being renamed).
   */
  predicate NameTaken(t: seq<Row<Exercise>>, name: string, except: Option<int>)
  {
    exists i :: 0 <= i < |t| && t[i].val.name == name && except != Some(t[i].id)
  }
}
