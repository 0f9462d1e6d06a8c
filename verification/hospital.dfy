/** The hospital_info part of the service layer: a singleton by convention,
    read and written through its first row. */
module HospitalService {
  import opened Results
  import opened Tables
  import opened Schema

  /** The request body of update-info. */
  datatype HospitalData = HospitalData(
    name: Field, introduction: Field, address: Field, phone: Field, emergencyPhone: Field)

  /** getHospitalInfo: `SELECT * FROM hospital_info LIMIT 1`, the row with the
      smallest id, or no row at all. */
  function GetHospitalInfo(db: Db): (r: Option<Row<HospitalFields>>)
    ensures r.None? <==> |db.hospital.rows| == 0
    ensures r.Some? ==> r.value in db.hospital.rows
    ensures r.Some? && Valid(db) ==> forall x :: x in db.hospital.rows ==> r.value.id <= x.id
  {
    First(db.hospital)
  }

  /** The columns update-info writes: a missing or empty optional field becomes "". */
  function Incoming(data: HospitalData): HospitalFields
    requires data.name.Some?
  {
    HospitalFields(data.name.value, Or(data.introduction, ""), Or(data.address, ""),
                   Or(data.phone, ""), Or(data.emergencyPhone, ""))
  }

  /** updateHospitalInfo: an upsert on the first row. When a row exists it is
      overwritten in place (`UPDATE ... WHERE id = <first row's id>`); when the
      table is empty one row is inserted. Either way the callback sees one
      change. A missing name fails the NOT NULL check of either statement. */
  function UpdateHospitalInfo(db: Db, data: HospitalData, now: Timestamp): (r: Step<nat>)
    ensures data.name.None? ==> r == Step(Err(NotNull("hospital_info.name")), db)
    ensures data.name.Some? ==> r.result.Ok?
    ensures r.result.Ok? && |db.hospital.rows| > 0 ==>
      && |r.db.hospital.rows| == |db.hospital.rows|
      && r.db.hospital.rows[0] == db.hospital.rows[0].(fields := Incoming(data), updatedAt := now)
      && r.db.hospital.lastId == db.hospital.lastId
    ensures r.result.Ok? && |db.hospital.rows| > 0 && Valid(db) ==>
      forall i :: 1 <= i < |db.hospital.rows| ==> r.db.hospital.rows[i] == db.hospital.rows[i]
    ensures r.result.Ok? && |db.hospital.rows| == 0 ==>
      && |r.db.hospital.rows| == 1
      && r.db.hospital.rows[0] == Row(r.db.hospital.lastId, Incoming(data), now, now)
      && r.db.hospital.lastId > db.hospital.lastId
    ensures r.result.Ok? && Valid(db) ==> r.result.value == 1
    ensures r.db.admin == db.admin && r.db.staff == db.staff && r.db.duty == db.duty
    ensures Valid(db) ==> Valid(r.db)
  {
    if data.name.None? then Step(Err(NotNull("hospital_info.name")), db)
    else if |db.hospital.rows| > 0 then
      var first := db.hospital.rows[0];
      var f := Incoming(data);
      SetWherePreservesWellFormed(db.hospital, first.id, _ => f, now);
      assert Valid(db) ==> forall i :: 1 <= i < |db.hospital.rows| ==> db.hospital.rows[i].id != first.id;
      assert Valid(db) ==> Count(db.hospital.rows, first.id) == 1 by {
        if Valid(db) {
          assert first in db.hospital.rows;
          CountAtMostOne(db.hospital.rows, first.id);
        }
      }
      Step(Ok(Count(db.hospital.rows, first.id)),
           db.(hospital := Table(SetWhere(db.hospital.rows, first.id, _ => f, now), db.hospital.lastId)))
    else
      var (t, id) := Insert(db.hospital, Incoming(data), now);
      Step(Ok(1), db.(hospital := t))
  }

  /** Reading the info back after an update gives the values just written. */
  lemma UpdateThenGet(db: Db, data: HospitalData, now: Timestamp)
    requires data.name.Some?
    ensures var r := UpdateHospitalInfo(db, data, now);
      && GetHospitalInfo(r.db).Some?
      && GetHospitalInfo(r.db).value.fields == Incoming(data)
      && GetHospitalInfo(r.db).value.updatedAt == now
  {
  }

  /** The first update of an empty table inserts the row; a second update
      rewrites that same row, so the table keeps exactly one row. */
  lemma {:induction false} UpsertKeepsOneRow(db: Db, first: HospitalData, second: HospitalData, t1: Timestamp, t2: Timestamp)
    requires Valid(db)
    requires |db.hospital.rows| == 0
    requires first.name.Some? && second.name.Some?
    ensures var r1 := UpdateHospitalInfo(db, first, t1);
      var r2 := UpdateHospitalInfo(r1.db, second, t2);
      && |r1.db.hospital.rows| == 1
      && |r2.db.hospital.rows| == 1
      && r2.db.hospital.rows[0].id == r1.db.hospital.rows[0].id
      && r2.db.hospital.rows[0].fields == Incoming(second)
      && r2.db.hospital.rows[0].createdAt == t1
  {
    var r1 := UpdateHospitalInfo(db, first, t1);
    assert |r1.db.hospital.rows| == 1;
  }
}
