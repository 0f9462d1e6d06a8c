/** One SQLite table declared with `id INTEGER PRIMARY KEY AUTOINCREMENT` plus
    `created_at` and `updated_at` columns, as all four tables of the backend are.
    The remaining columns of a row are the type parameter `F`.

    The rows are kept in rowid order, which is the order in which SQLite scans
    such a table when a query has no ORDER BY; `lastId` is the table's entry in
    `sqlite_sequence`, the largest id ever handed out (0 before the first
    insert), so an id is never reused even after its row is deleted. */
module Tables {
  import opened Results

  /** An ISO-8601 text produced by the caller's clock; the model makes no claim about it. */
  type Timestamp = string

  datatype Row<F> = Row(id: int, fields: F, createdAt: Timestamp, updatedAt: Timestamp)

  datatype Table<F> = Table(rows: seq<Row<F>>, lastId: nat)

  function Empty<F>(): Table<F>
  {
    Table([], 0)
  }

  /** Ids strictly increase along the sequence. */
  ghost predicate Increasing<F>(rows: seq<Row<F>>)
  {
    forall i, j :: 0 <= i < j < |rows| ==> rows[i].id < rows[j].id
  }

  /** The shape every reachable table has: rows in ascending id order, every id
      between 1 and the AUTOINCREMENT high-water mark. */
  ghost predicate WellFormed<F>(t: Table<F>)
  {
    && Increasing(t.rows)
    && (forall x :: x in t.rows ==> 0 < x.id <= t.lastId)
  }

  predicate HasId<F(==)>(rows: seq<Row<F>>, id: int)
  {
    exists x :: x in rows && x.id == id
  }

  /** The rows a `WHERE id = ?` clause selects, in table order. */
  function Select<F(==, !new)>(rows: seq<Row<F>>, id: int): (r: seq<Row<F>>)
    ensures forall x :: x in r <==> x in rows && x.id == id
    ensures |r| <= |rows|
  {
    if |rows| == 0 then []
    else if rows[0].id == id then [rows[0]] + Select(rows[1..], id)
    else Select(rows[1..], id)
  }

  /** The `changes` count an UPDATE or DELETE with `WHERE id = ?` reports. */
  function Count<F(==, !new)>(rows: seq<Row<F>>, id: int): nat
  {
    |Select(rows, id)|
  }

  /** The row `WHERE id = ?` finds when ids are unique. */
  function Lookup<F(==, !new)>(rows: seq<Row<F>>, id: int): (r: Option<Row<F>>)
    ensures r.Some? <==> HasId(rows, id)
    ensures r.Some? ==> r.value in rows && r.value.id == id
  {
    var s := Select(rows, id);
    if |s| == 0 then None
    else
      assert s[0] in s;
      Some(s[0])
  }

  /** `SELECT ... LIMIT 1` with no ORDER BY: the first row of the scan. */
  function First<F>(t: Table<F>): (r: Option<Row<F>>)
    ensures r.None? <==> |t.rows| == 0
    ensures r.Some? ==> r.value in t.rows
    ensures r.Some? && WellFormed(t) ==> forall x :: x in t.rows ==> r.value.id <= x.id
  {
    if |t.rows| == 0 then None else Some(t.rows[0])
  }

  /** INSERT: the new row takes the next AUTOINCREMENT id and is appended. */
  function Insert<F>(t: Table<F>, f: F, now: Timestamp): (r: (Table<F>, int))
    ensures r.0.rows == t.rows + [Row(r.1, f, now, now)]
    ensures r.0.lastId == r.1 > t.lastId
    ensures WellFormed(t) ==> WellFormed(r.0) && !HasId(t.rows, r.1)
  {
    var id := t.lastId + 1;
    (Table(t.rows + [Row(id, f, now, now)], id), id)
  }

  /** UPDATE ... SET <columns>, updated_at = now WHERE id = ?: every selected row
      gets the fields `f` computes from its old fields; nothing else moves. */
  function SetWhere<F>(rows: seq<Row<F>>, id: int, f: F -> F, now: Timestamp): (r: seq<Row<F>>)
    ensures |r| == |rows|
    ensures forall i :: 0 <= i < |rows| && rows[i].id != id ==> r[i] == rows[i]
    ensures forall i :: 0 <= i < |rows| && rows[i].id == id ==>
      r[i] == Row(id, f(rows[i].fields), rows[i].createdAt, now)
    ensures Increasing(rows) ==> Increasing(r)
  {
    seq(|rows|, i requires 0 <= i < |rows| =>
      if rows[i].id == id then rows[i].(fields := f(rows[i].fields), updatedAt := now) else rows[i])
  }

  /** DELETE ... WHERE id = ?: the unselected rows, in their original order. */
  function DeleteWhere<F(==, !new)>(rows: seq<Row<F>>, id: int): (r: seq<Row<F>>)
    ensures forall x :: x in r <==> x in rows && x.id != id
    ensures |r| == |rows| - Count(rows, id)
    ensures Increasing(rows) ==> Increasing(r)
  {
    if |rows| == 0 then []
    else if rows[0].id == id then DeleteWhere(rows[1..], id)
    else
      var rest := DeleteWhere(rows[1..], id);
      assert forall k :: 0 <= k < |rest| ==> rest[k] in rows[1..];
      [rows[0]] + rest
  }

  /** In a valid table an id selects at most one row, so `changes` is 0 or 1. */
  lemma {:induction false} CountAtMostOne<F(!new)>(rows: seq<Row<F>>, id: int)
    requires Increasing(rows)
    ensures Count(rows, id) == (if HasId(rows, id) then 1 else 0)
    ensures HasId(rows, id) ==> Select(rows, id) == [Lookup(rows, id).value]
  {
    if |rows| > 0 {
      assert Increasing(rows[1..]);
      CountAtMostOne(rows[1..], id);
      if rows[0].id == id {
        assert !HasId(rows[1..], id) by {
          forall x | x in rows[1..] ensures x.id != id {
            var k :| 0 <= k < |rows[1..]| && rows[1..][k] == x;
            assert rows[k + 1] == x;
          }
        }
      } else {
        assert HasId(rows, id) <==> HasId(rows[1..], id) by {
          if HasId(rows, id) {
            var x :| x in rows && x.id == id;
            assert x in rows[1..];
          }
        }
      }
    }
  }

  /** The ids a SetWhere leaves behind are the ids it found, so well-formedness survives. */
  lemma SetWherePreservesWellFormed<F>(t: Table<F>, id: int, f: F -> F, now: Timestamp)
    ensures WellFormed(t) ==> WellFormed(Table(SetWhere(t.rows, id, f, now), t.lastId))
  {
    var r := SetWhere(t.rows, id, f, now);
    assert forall i :: 0 <= i < |r| ==> r[i].id == t.rows[i].id;
    if WellFormed(t) {
      forall x | x in r ensures 0 < x.id <= t.lastId {
        var k :| 0 <= k < |r| && r[k] == x;
        assert t.rows[k] in t.rows;
      }
    }
  }
}
