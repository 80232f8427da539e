/**
 * A database table as the core sees it: rows carrying the integer primary key
 * every model inherits from `BaseModel` (backend/app/core/models.py), kept in
 * ascending id order. SQLite gives a new row of an `INTEGER PRIMARY KEY` table
 * one more than the largest id present, so appending keeps that order and an
 * unordered `SELECT` returns rows in it.
 */
module Tables {
  import opened Outcomes

  datatype Row<T> = Row(id: int, val: T)

  /** Ids are positive and strictly increasing, hence unique. */
  predicate WellFormed<T>(t: seq<Row<T>>)
  {
    && (forall i :: 0 <= i < |t| ==> t[i].id >= 1)
    && (forall i, j :: 0 <= i < j < |t| ==> t[i].id < t[j].id)
  }

  function Ids<T>(t: seq<Row<T>>): set<int>
  {
    set i | 0 <= i < |t| :: t[i].id
  }

  lemma IdsAppend<T>(t: seq<Row<T>>, row: Row<T>)
    ensures Ids(t + [row]) == Ids(t) + {row.id}
  {
    var u := t + [row];
    forall x | x in Ids(u) ensures x in Ids(t) + {row.id} {
      var i :| 0 <= i < |u| && u[i].id == x;
      if i < |t| { assert t[i].id == x; }
    }
    forall x | x in Ids(t) + {row.id} ensures x in Ids(u) {
      if x in Ids(t) {
        var i :| 0 <= i < |t| && t[i].id == x;
        assert u[i].id == x;
      } else {
        assert u[|t|].id == x;
      }
    }
  }

  /** The id the database gives the next row: one past the largest id, 1 for an empty table. */
  function NextId<T>(t: seq<Row<T>>): (id: int)
    requires WellFormed(t)
    ensures id >= 1 && id !in Ids(t)
    ensures forall i :: 0 <= i < |t| ==> t[i].id < id
  {
    if t == [] then 1
    else
      assert forall i :: 0 <= i < |t| - 1 ==> t[i].id < t[|t| - 1].id;
      t[|t| - 1].id + 1
  }

  /** The position of the row with primary key `id`: `select(...).where(id == ...).first()`. */
  function Find<T>(t: seq<Row<T>>, id: int): (r: Option<nat>)
    ensures r.Some? ==> r.value < |t| && t[r.value].id == id
    ensures r.None? <==> id !in Ids(t)
  {
    if t == [] then None
    else if t[0].id == id then Some(0)
    else
      var r := Find(t[1..], id);
      assert Ids(t) == {t[0].id} + Ids(t[1..]) by {
        forall x | x in Ids(t) ensures x in {t[0].id} + Ids(t[1..]) {
          var i :| 0 <= i < |t| && t[i].id == x;
          if i > 0 { assert t[1..][i - 1].id == x; }
        }
      }
      if r.None? then None else Some(r.value + 1)
  }

  /** The table without the row whose primary key is `id`: `db.delete(row)`. */
  function Remove<T>(t: seq<Row<T>>, id: int): (r: seq<Row<T>>)
    ensures |r| <= |t|
  {
    if t == [] then []
    else if t[|t| - 1].id == id then Remove(t[..|t| - 1], id)
    else Remove(t[..|t| - 1], id) + [t[|t| - 1]]
  }

  /** Removing a row drops exactly its id. */
  lemma {:induction false} RemoveIds<T>(t: seq<Row<T>>, id: int)
    ensures Ids(Remove(t, id)) == Ids(t) - {id}
  {
    if t != [] {
      var init, last := t[..|t| - 1], t[|t| - 1];
      assert t == init + [last];
      RemoveIds(init, id);
      IdsAppend(init, last);
      if last.id != id {
        IdsAppend(Remove(init, id), last);
      }
    }
  }

  /** Every row left after a removal was in the table before. */
  lemma {:induction false} RemoveKeepsRows<T>(t: seq<Row<T>>, id: int)
    ensures forall i :: 0 <= i < |Remove(t, id)| ==> Remove(t, id)[i] in t
  {
    if t != [] {
      var init, last := t[..|t| - 1], t[|t| - 1];
      assert t == init + [last];
      RemoveKeepsRows(init, id);
    }
  }

  lemma {:induction false} RemoveKeepsWellFormed<T>(t: seq<Row<T>>, id: int)
    requires WellFormed(t)
    ensures WellFormed(Remove(t, id))
  {
    if t != [] {
      var init, last := t[..|t| - 1], t[|t| - 1];
      assert t == init + [last];
      RemoveKeepsWellFormed(init, id);
      RemoveKeepsRows(init, id);
      var rest := Remove(init, id);
      if last.id != id {
        forall i | 0 <= i < |rest| ensures rest[i].id < last.id {
          var j :| 0 <= j < |init| && init[j] == rest[i];
        }
      }
    }
  }

  /** Removing an id the table does not hold changes nothing. */
  lemma {:induction false} RemoveAbsent<T>(t: seq<Row<T>>, id: int)
    requires id !in Ids(t)
    ensures Remove(t, id) == t
  {
    if t != [] {
      var init, last := t[..|t| - 1], t[|t| - 1];
      assert t == init + [last];
      IdsAppend(init, last);
      RemoveAbsent(init, id);
    }
  }

  /** The table with the row whose id is `row.id` replaced by `row`: an UPDATE by primary key. */
  function Replace<T>(t: seq<Row<T>>, row: Row<T>): (r: seq<Row<T>>)
    ensures |r| == |t|
    ensures forall i :: 0 <= i < |t| ==> r[i] == (if t[i].id == row.id then row else t[i])
  {
    seq(|t|, i requires 0 <= i < |t| => if t[i].id == row.id then row else t[i])
  }

  /** Replacing a row keeps the ids, hence the order, and leaves every other row as it was. */
  lemma ReplaceKeepsIds<T>(t: seq<Row<T>>, row: Row<T>)
    ensures Ids(Replace(t, row)) == Ids(t)
    ensures WellFormed(t) ==> WellFormed(Replace(t, row))
  {
    var u := Replace(t, row);
    assert forall j :: 0 <= j < |t| ==> u[j].id == t[j].id;
    forall x | x in Ids(t) ensures x in Ids(u) {
      var j :| 0 <= j < |t| && t[j].id == x;
      assert u[j].id == x;
    }
  }

  /** In a well-formed table, replacing the row at position `i` is an update at that index. */
  lemma ReplaceAt<T>(t: seq<Row<T>>, i: nat, row: Row<T>)
    requires WellFormed(t) && i < |t| && t[i].id == row.id
    ensures Replace(t, row) == t[i := row]
  {
  }

  /** Appending a row under `NextId` keeps the table well formed and adds exactly that id. */
  lemma AppendKeepsWellFormed<T>(t: seq<Row<T>>, v: T)
    requires WellFormed(t)
    ensures WellFormed(t + [Row(NextId(t), v)])
    ensures Ids(t + [Row(NextId(t), v)]) == Ids(t) + {NextId(t)}
  {
    IdsAppend(t, Row(NextId(t), v));
    var u := t + [Row(NextId(t), v)];
    assert u[|t|].id == NextId(t);
  }
}
