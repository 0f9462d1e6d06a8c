/** The one piece of the HTTP layer kept in the model: how a service outcome
    becomes a status code and a body (`{error: message}` on failure). */
module Routes {
  import opened Results
  import opened Tables
  import opened Schema
  import StaffService
  import DutyService
  import HospitalService
  import AdminService

  datatype Route =
    | QueryInfo | GetAllStaffs | QueryDuty | Login
    | AddStaff | UpdateStaff | DeleteStaff | ArrangeDuty | UpdateInfo | UpdatePassword

  /** The status a route answers with when its callback receives an error:
      arrange-duty and update-password answer 400 whatever the error was,
      every other route 500. */
  function ErrorStatus(route: Route): int
  {
    if route == ArrangeDuty || route == UpdatePassword then 400 else 500
  }

  /** `err.message` for each error the model produces. */
  function Message(e: DbError): string
  {
    match e
    case NotNull(column) => "SQLITE_CONSTRAINT: NOT NULL constraint failed: " + column
    case DuplicateDuty => "该人员在指定日期的该班次已存在排班"
    case AccountNotFound => "管理员账户不存在"
    case WrongOldPassword => "原密码不正确"
  }

  /** A reply: the status and either the JSON value or the error message. */
  datatype Reply<T> = Reply(status: int, body: Result<T, string>)

  function Respond<T>(route: Route, res: Result<T, DbError>): Reply<T>
  {
    if res.Ok? then Reply(200, Ok(res.value)) else Reply(ErrorStatus(route), Err(Message(res.error)))
  }

  /** The login route answers 200 in every case; the body is null exactly
      when no admin row has both the username and the password. */
  function LoginReply(db: Db, c: AdminService.Credentials): (r: Reply<Option<Row<AdminFields>>>)
    ensures r.status == 200 && r.body.Ok?
    ensures r.body.value.None? <==>
      c.username.None? || c.password.None?
      || forall x :: x in db.admin.rows ==> x.fields != AdminFields(c.username.value, c.password.value)
  {
    Reply(200, Ok(AdminService.AdminLogin(db, c)))
  }

  /** The body of update-info is `changes || lastID`: the first operand is 1
      after either branch of the upsert, so the fallback to the last inserted
      id never decides the answer. */
  function UpdateInfoBody(changes: nat, lastId: int): int
  {
    if changes != 0 then changes else lastId
  }

  lemma UpdateInfoAnswersOne(db: Db, data: HospitalService.HospitalData, now: Timestamp, lastId: int)
    requires Valid(db)
    requires data.name.Some?
    ensures var r := HospitalService.UpdateHospitalInfo(db, data, now);
      r.result.Ok? && UpdateInfoBody(r.result.value, lastId) == 1
  {
  }

  /** The validation failures reach the client as 400 with their message:
      a duplicate assignment, a missing admin account, a wrong old password. */
  lemma ValidationFailuresAre400(db: Db, duty: DutyService.DutyData, pw: AdminService.PasswordData, now: Timestamp)
    ensures var r := DutyService.CreateDuty(db, duty, now);
      r.result == Err(DuplicateDuty) ==>
        Respond(ArrangeDuty, r.result) == Reply(400, Err("该人员在指定日期的该班次已存在排班"))
    ensures var r := AdminService.ChangeAdminPassword(db, pw, now);
      && (|db.admin.rows| == 0 ==> Respond(UpdatePassword, r.result) == Reply(400, Err("管理员账户不存在")))
      && (|db.admin.rows| > 0 && pw.oldPassword != Some(db.admin.rows[0].fields.password) ==>
            Respond(UpdatePassword, r.result) == Reply(400, Err("原密码不正确")))
  {
  }

  /** A missing required field on add-staff or update-staff is a database
      error, and those routes answer it with 500. */
  lemma StaffConstraintErrorsAre500(db: Db, id: int, data: StaffService.StaffData, now: Timestamp)
    requires data.name.None? || data.department.None?
    ensures Respond(AddStaff, StaffService.CreateStaff(db, data, now).result).status == 500
    ensures StaffService.UpdateStaff(db, id, data, now).result.Err? ==>
      Respond(UpdateStaff, StaffService.UpdateStaff(db, id, data, now).result).status == 500
  {
  }
}
