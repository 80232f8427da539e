/**
 * The SQLite database the services share, as one object holding the four
 * tables of the core. Every service operation receives it (`db: Session`)
 * and commits its changes to it.
 */
module Database {
  import opened Tables
  import opened MasterdataModels
  import opened FitnessModels

  /**
   * The invariant every operation keeps: tables ordered by id, at most one
   * day per date, every set's references resolve, names unique.
   */
  predicate Consistent(
    days: seq<Row<FitnessDay>>, sets: seq<Row<FitnessSet>>,
    exercises: seq<Row<Exercise>>, units: seq<Row<Unit>>)
  {
    && WellFormed(days) && WellFormed(sets) && WellFormed(exercises) && WellFormed(units)
    && OneDayPerDate(days)
    && SetsReferToRows(sets, days, exercises, units)
    && UniqueExerciseNames(exercises) && UniqueUnitNames(units)
  }

  /** Every row of `sub` is a row of `t`. */
  predicate RowsFrom<T(==)>(sub: seq<Row<T>>, t: seq<Row<T>>)
  {
    forall i :: 0 <= i < |sub| ==> sub[i] in t
  }

  /** The unit table seeded with `names`, numbered from 1. */
  function UnitTable(names: seq<string>): (t: seq<Row<Unit>>)
    ensures |t| == |names|
    ensures forall i :: 0 <= i < |names| ==> t[i] == Row(i + 1, Unit(names[i]))
  {
    seq(|names|, i requires 0 <= i < |names| => Row(i + 1, Unit(names[i])))
  }

  class Database {
    var days: seq<Row<FitnessDay>>
    var sets: seq<Row<FitnessSet>>
    var exercises: seq<Row<Exercise>>
    var units: seq<Row<Unit>>

    predicate Valid()
      reads this
    {
      Consistent(days, sets, exercises, units)
    }

    /** A fresh database: no days, sets or exercises, and the given units. */
    constructor(unitNames: seq<string>)
      requires forall i, j :: 0 <= i < j < |unitNames| ==> unitNames[i] != unitNames[j]
      ensures Valid()
      ensures days == [] && sets == [] && exercises == [] && units == UnitTable(unitNames)
    {
      days, sets, exercises := [], [], [];
      units := UnitTable(unitNames);
    }
  }

  /** A well-formed table drawn from a table with one day per date has one day per date. */
  lemma OneDayPerDateOfRowsFrom(days: seq<Row<FitnessDay>>, sub: seq<Row<FitnessDay>>)
    requires WellFormed(days) && OneDayPerDate(days)
    requires WellFormed(sub) && RowsFrom(sub, days)
    ensures OneDayPerDate(sub)
  {
    forall i, j | 0 <= i < j < |sub| ensures sub[i].val.date != sub[j].val.date {
      var a :| 0 <= a < |days| && days[a] == sub[i];
      var b :| 0 <= b < |days| && days[b] == sub[j];
      assert a != b;
    }
  }

  /** A well-formed table drawn from a table with unique exercise names has unique names. */
  lemma UniqueNamesOfRowsFrom(exercises: seq<Row<Exercise>>, sub: seq<Row<Exercise>>)
    requires WellFormed(exercises) && UniqueExerciseNames(exercises)
    requires WellFormed(sub) && RowsFrom(sub, exercises)
    ensures UniqueExerciseNames(sub)
  {
    forall i, j | 0 <= i < j < |sub| ensures sub[i].val.name != sub[j].val.name {
      var a :| 0 <= a < |exercises| && exercises[a] == sub[i];
      var b :| 0 <= b < |exercises| && exercises[b] == sub[j];
      assert a != b;
    }
  }
}
