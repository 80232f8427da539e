/**
 * The request bodies the fitness service accepts (backend/app/fitness/schemas.py).
 * Pydantic's field defaults become default values of the datatype constructors;
 * `nameonly` marks the fields a caller may leave out.
 */
module FitnessSchemas {
  import opened Outcomes
  import opened MasterdataModels
  import opened FitnessModels

  /** Body of "start today": an optional list of muscle groups. */
  datatype FitnessDayStart = FitnessDayStart(nameonly primaryMuscles: Option<seq<MuscleGroup>> := None)

  /**
   * Body of "create set". The exercise, weight and unit are required; the day
   * defaults to "today", reps to 1, the set type to WORKING.
   */
  datatype FitnessSetCreate = FitnessSetCreate(
    exerciseId: int,
    weight: Weight,
    unitId: int,
    nameonly fitnessDayId: Option<int> := None,
    nameonly reps: int := 1,
    nameonly setType: SetType := Working,
    nameonly remark: Option<string> := None,
    nameonly primaryMuscles: Option<seq<MuscleGroup>> := None)

  /** Body of "update set": every field optional, `None` meaning "leave as is". */
  datatype FitnessSetUpdate = FitnessSetUpdate(
    nameonly exerciseId: Option<int> := None,
    nameonly weight: Option<Weight> := None,
    nameonly reps: Option<int> := None,
    nameonly unitId: Option<int> := None,
    nameonly setType: Option<SetType> := None,
    nameonly remark: Option<string> := None)

  /** What an omitted field of a create or update body holds. */
  lemma SchemaDefaults(exerciseId: int, weight: Weight, unitId: int)
    ensures var c := FitnessSetCreate(exerciseId, weight, unitId);
      && c.fitnessDayId == None && c.reps == 1 && c.setType == Working
      && c.remark == None && c.primaryMuscles == None
    ensures var u := FitnessSetUpdate();
      && u.exerciseId == None && u.weight == None && u.reps == None
      && u.unitId == None && u.setType == None && u.remark == None
    ensures FitnessDayStart().primaryMuscles == None
  {
  }
}
