/** Seeding at startup: a default admin and a default hospital_info row go in
    when their tables are empty. */
module Seed {
  import opened Results
  import opened Tables
  import opened Schema
  import AdminService

  const DefaultAdmin := AdminFields("admin", "0192023a7bbd73250516f069df18b500")

  const DefaultHospital := HospitalFields(
    "城东医院",
    "欢迎来到城东医院。我院成立于1997年，是一所综合性三级甲等医院。",
    "城市中心区xx路666号",
    "025-12345678",
    "025-12345679")

  /** initDefaultData: for each of admin and hospital_info, count the rows and
      insert the default row when the count is 0. Each insert reads the clock
      on its own, so the two rows get their own timestamps. The two checks
      touch different tables, so their order does not matter. */
  function InitDefaultData(db: Db, adminNow: Timestamp, hospitalNow: Timestamp): (r: Db)
    ensures |r.admin.rows| >= 1 && |r.hospital.rows| >= 1
    ensures |db.admin.rows| > 0 ==> r.admin == db.admin
    ensures |db.admin.rows| == 0 ==> r.admin.rows == [Row(db.admin.lastId + 1, DefaultAdmin, adminNow, adminNow)]
    ensures |db.hospital.rows| > 0 ==> r.hospital == db.hospital
    ensures |db.hospital.rows| == 0 ==>
      r.hospital.rows == [Row(db.hospital.lastId + 1, DefaultHospital, hospitalNow, hospitalNow)]
    ensures r.staff == db.staff && r.duty == db.duty
    ensures Valid(db) ==> Valid(r)
  {
    var admin := if |db.admin.rows| == 0 then Insert(db.admin, DefaultAdmin, adminNow).0 else db.admin;
    var hospital := if |db.hospital.rows| == 0 then Insert(db.hospital, DefaultHospital, hospitalNow).0 else db.hospital;
    db.(admin := admin, hospital := hospital)
  }

  /** Seeding a second time, at any later moments, changes nothing. */
  lemma SeedIdempotent(db: Db, a1: Timestamp, h1: Timestamp, a2: Timestamp, h2: Timestamp)
    ensures InitDefaultData(InitDefaultData(db, a1, h1), a2, h2) == InitDefaultData(db, a1, h1)
  {
  }

  /** On a fresh database the default credentials log in and the hospital
      info query returns the default row. */
  lemma SeededDefaultsUsable(adminNow: Timestamp, hospitalNow: Timestamp)
    ensures var db := InitDefaultData(EmptyDb(), adminNow, hospitalNow);
      && Valid(db)
      && AdminService.AdminLogin(db, AdminService.Credentials(Some("admin"), Some("0192023a7bbd73250516f069df18b500"))).Some?
      && First(db.hospital).Some? && First(db.hospital).value.fields == DefaultHospital
  {
    var db := InitDefaultData(EmptyDb(), adminNow, hospitalNow);
    assert db.admin.rows[0] in db.admin.rows;
  }
}
