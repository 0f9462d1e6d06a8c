/** The four tables of the hospital backend (admin, hospital_info, staff,
    duty), the errors the service layer hands to its callbacks, and the
    invariant every reachable database keeps. */
module Schema {
  import opened Results
  import opened Tables

  /** A request-body field: `None` when the JSON body leaves it out or sends
      null; node-sqlite3 binds it as SQL NULL. */
  type Field = Option<string>

  /** JavaScript's `field || fallback` on a string field: the empty string
      and a missing field are both falsy. */
  function Or(f: Field, fallback: string): string
  {
    if f.Some? && f.value != "" then f.value else fallback
  }

  /** admin(username TEXT UNIQUE NOT NULL, password TEXT NOT NULL) */
  datatype AdminFields = AdminFields(username: string, password: string)

  /** hospital_info(name TEXT NOT NULL, introduction, address, phone, emergencyPhone);
      every writer fills the four optional columns with text, never NULL. */
  datatype HospitalFields = HospitalFields(
    name: string, introduction: string, address: string, phone: string, emergencyPhone: string)

  /** staff(name TEXT NOT NULL, department TEXT NOT NULL, position TEXT, status TEXT);
      an update may write NULL into position and status. */
  datatype StaffFields = StaffFields(
    name: string, department: string, position: Option<string>, status: Option<string>)

  /** duty(staff_id INTEGER NOT NULL, date TEXT NOT NULL, shift TEXT NOT NULL);
      the foreign key to staff is declared but not enforced. */
  datatype DutyFields = DutyFields(staffId: int, date: string, shift: string)

  datatype Db = Db(
    admin: Table<AdminFields>,
    hospital: Table<HospitalFields>,
    staff: Table<StaffFields>,
    duty: Table<DutyFields>)

  /** The database right after the four CREATE TABLE statements on a new file. */
  function EmptyDb(): Db
  {
    Db(Empty(), Empty(), Empty(), Empty())
  }

  /** What a service call hands to its callback as `err`. `NotNull` is SQLite
      rejecting a NULL in a NOT NULL column, named `table.column`; the other
      three are the application's own errors. */
  datatype DbError =
    | NotNull(column: string)
    | DuplicateDuty
    | AccountNotFound
    | WrongOldPassword

  /** The outcome of a writing call: what reached the callback, and the database afterwards. */
  datatype Step<T> = Step(result: Result<T, DbError>, db: Db)

  /** The UNIQUE constraint on admin.username. */
  ghost predicate UniqueUsernames(rows: seq<Row<AdminFields>>)
  {
    forall i, j :: 0 <= i < j < |rows| ==> rows[i].fields.username != rows[j].fields.username
  }

  /** No two duty rows assign the same staff member to the same shift on the same date. */
  ghost predicate NoDuplicateDuty(rows: seq<Row<DutyFields>>)
  {
    forall i, j :: 0 <= i < j < |rows| ==> rows[i].fields != rows[j].fields
  }

  ghost predicate Valid(db: Db)
  {
    && Tables.WellFormed(db.admin)
    && Tables.WellFormed(db.hospital)
    && Tables.WellFormed(db.staff)
    && Tables.WellFormed(db.duty)
    && UniqueUsernames(db.admin.rows)
    && NoDuplicateDuty(db.duty.rows)
  }
}
