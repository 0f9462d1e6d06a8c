/** The staff part of the service layer: list, create, update and delete. */
module StaffService {
  import opened Results
  import opened Tables
  import opened Schema

  /** The request body of add-staff and update-staff. */
  datatype StaffData = StaffData(name: Field, department: Field, position: Field, status: Field)

  /** `SELECT * FROM staff`: every row, in table order. */
  function GetAllStaff(db: Db): seq<Row<StaffFields>>
  {
    db.staff.rows
  }

  /** The row an INSERT by createStaff writes: position falls back to "" and
      status to "active" when missing or empty. */
  function NewStaff(data: StaffData): StaffFields
    requires data.name.Some? && data.department.Some?
  {
    StaffFields(data.name.value, data.department.value, Some(Or(data.position, "")), Some(Or(data.status, "active")))
  }

  /** createStaff: one INSERT; the callback receives the new row's id (`this.lastID`). */
  function CreateStaff(db: Db, data: StaffData, now: Timestamp): (r: Step<int>)
    ensures data.name.None? ==> r == Step(Err(NotNull("staff.name")), db)
    ensures data.name.Some? && data.department.None? ==> r == Step(Err(NotNull("staff.department")), db)
    ensures r.result.Ok? <==> data.name.Some? && data.department.Some?
    ensures r.result.Ok? ==>
      && r.db.staff.rows == db.staff.rows + [Row(r.result.value, NewStaff(data), now, now)]
      && r.result.value > db.staff.lastId
      && (Valid(db) ==> !HasId(db.staff.rows, r.result.value))
    ensures r.db.admin == db.admin && r.db.hospital == db.hospital && r.db.duty == db.duty
    ensures Valid(db) ==> Valid(r.db)
  {
    if data.name.None? then Step(Err(NotNull("staff.name")), db)
    else if data.department.None? then Step(Err(NotNull("staff.department")), db)
    else
      var (t, id) := Insert(db.staff, NewStaff(data), now);
      Step(Ok(id), db.(staff := t))
  }

  /** Listing staff after a successful create shows the new row, with position
      "" and status "active" whenever the request left them out or empty. */
  lemma CreateThenList(db: Db, data: StaffData, now: Timestamp)
    requires data.name.Some? && data.department.Some?
    ensures var r := CreateStaff(db, data, now);
      && r.result.Ok?
      && |GetAllStaff(r.db)| == |GetAllStaff(db)| + 1
      && (exists x :: x in GetAllStaff(r.db) && x.id == r.result.value
           && x.fields.name == data.name.value && x.fields.department == data.department.value
           && x.fields.position == Some(if data.position.None? || data.position.value == "" then "" else data.position.value)
           && x.fields.status == Some(if data.status.None? || data.status.value == "" then "active" else data.status.value))
  {
    var r := CreateStaff(db, data, now);
    assert r.db.staff.rows[|db.staff.rows|] in GetAllStaff(r.db);
  }

  /** updateStaff: `UPDATE staff SET name, department, position, status, updated_at
      WHERE id = ?` with the values exactly as given; the callback receives the
      number of rows changed. A NULL name or department only fails when some
      row is selected. */
  function UpdateStaff(db: Db, id: int, data: StaffData, now: Timestamp): (r: Step<nat>)
    ensures Count(db.staff.rows, id) == 0 ==> r == Step(Ok(0), db)
    ensures Count(db.staff.rows, id) > 0 && data.name.None? ==> r == Step(Err(NotNull("staff.name")), db)
    ensures Count(db.staff.rows, id) > 0 && data.name.Some? && data.department.None? ==>
      r == Step(Err(NotNull("staff.department")), db)
    ensures r.result.Err? ==> r.db == db
    ensures r.result.Ok? <==> Count(db.staff.rows, id) == 0 || (data.name.Some? && data.department.Some?)
    ensures r.result.Ok? ==> r.result.value == Count(db.staff.rows, id)
    ensures r.result.Ok? && r.result.value > 0 ==>
      && |r.db.staff.rows| == |db.staff.rows|
      && forall i :: 0 <= i < |db.staff.rows| ==>
        r.db.staff.rows[i] ==
          if db.staff.rows[i].id == id
          then Row(id, StaffFields(data.name.value, data.department.value, data.position, data.status),
                   db.staff.rows[i].createdAt, now)
          else db.staff.rows[i]
    ensures r.db.staff.lastId == db.staff.lastId
    ensures r.db.admin == db.admin && r.db.hospital == db.hospital && r.db.duty == db.duty
    ensures Valid(db) ==> Valid(r.db)
  {
    var n := Count(db.staff.rows, id);
    if n == 0 then Step(Ok(0), db)
    else if data.name.None? then Step(Err(NotNull("staff.name")), db)
    else if data.department.None? then Step(Err(NotNull("staff.department")), db)
    else
      var f := StaffFields(data.name.value, data.department.value, data.position, data.status);
      SetWherePreservesWellFormed(db.staff, id, _ => f, now);
      Step(Ok(n), db.(staff := Table(SetWhere(db.staff.rows, id, _ => f, now), db.staff.lastId)))
  }

  /** Updating an existing staff member reports one change, and reading the row
      back gives exactly the last update's values, with no defaulting. */
  lemma {:induction false} UpdateThenRead(db: Db, id: int, data: StaffData, now: Timestamp)
    requires Valid(db)
    requires HasId(db.staff.rows, id)
    requires data.name.Some? && data.department.Some?
    ensures var r := UpdateStaff(db, id, data, now);
      && r.result == Ok(1)
      && |r.db.staff.rows| == |db.staff.rows|
      && Lookup(r.db.staff.rows, id).Some?
      && Lookup(r.db.staff.rows, id).value.fields
        == StaffFields(data.name.value, data.department.value, data.position, data.status)
  {
    CountAtMostOne(db.staff.rows, id);
    var r := UpdateStaff(db, id, data, now);
    var k :| 0 <= k < |db.staff.rows| && db.staff.rows[k].id == id;
    assert r.db.staff.rows[k] in r.db.staff.rows;
    CountAtMostOne(r.db.staff.rows, id);
    assert Select(r.db.staff.rows, id) == [r.db.staff.rows[k]] by {
      assert r.db.staff.rows[k] in Select(r.db.staff.rows, id);
    }
  }

  /** Updating an id that is not in the table changes nothing and reports 0. */
  lemma UpdateUnknownIsNoop(db: Db, id: int, data: StaffData, now: Timestamp)
    requires !HasId(db.staff.rows, id)
    ensures UpdateStaff(db, id, data, now) == Step(Ok(0), db)
  {
    if Count(db.staff.rows, id) > 0 {
      assert Select(db.staff.rows, id)[0] in Select(db.staff.rows, id);
    }
  }

  /** deleteStaff: `DELETE FROM staff WHERE id = ?`, a hard delete that leaves
      the duty table alone; the callback receives the number of rows removed. */
  function DeleteStaff(db: Db, id: int): (r: Step<nat>)
    ensures r.result == Ok(Count(db.staff.rows, id))
    ensures forall x :: x in r.db.staff.rows <==> x in db.staff.rows && x.id != id
    ensures |r.db.staff.rows| == |db.staff.rows| - Count(db.staff.rows, id)
    ensures r.db.staff.lastId == db.staff.lastId
    ensures r.db.admin == db.admin && r.db.hospital == db.hospital && r.db.duty == db.duty
    ensures Valid(db) ==> Valid(r.db)
  {
    Step(Ok(Count(db.staff.rows, id)), db.(staff := Table(DeleteWhere(db.staff.rows, id), db.staff.lastId)))
  }

  /** After a delete the id is gone for good: the row cannot be read back and
      the next create hands out a different id. */
  lemma DeleteThenCreate(db: Db, id: int, data: StaffData, now: Timestamp)
    requires Valid(db)
    requires HasId(db.staff.rows, id)
    requires data.name.Some? && data.department.Some?
    ensures DeleteStaff(db, id).result == Ok(1)
    ensures Lookup(DeleteStaff(db, id).db.staff.rows, id).None?
    ensures CreateStaff(DeleteStaff(db, id).db, data, now).result.value != id
  {
    CountAtMostOne(db.staff.rows, id);
    var x :| x in db.staff.rows && x.id == id;
  }
}
