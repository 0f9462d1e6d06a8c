/** The admin part of the service layer: login and password change. The
    password column holds a hash digest that the client computes; the
    service compares it as plain text. */
module AdminService {
  import opened Results
  import opened Tables
  import opened Schema

  /** The request body of login. */
  datatype Credentials = Credentials(username: Field, password: Field)

  /** The request body of update-password. */
  datatype PasswordData = PasswordData(oldPassword: Field, newPassword: Field)

  /** The first row, in table order, whose username and password are both equal to the inputs. */
  function FindLogin(rows: seq<Row<AdminFields>>, username: string, password: string): (r: Option<Row<AdminFields>>)
    ensures r.Some? <==> exists i :: 0 <= i < |rows| && rows[i].fields == AdminFields(username, password)
    ensures r.Some? ==> r.value in rows && r.value.fields == AdminFields(username, password)
  {
    if |rows| == 0 then None
    else if rows[0].fields == AdminFields(username, password) then Some(rows[0])
    else
      var r := FindLogin(rows[1..], username, password);
      assert forall i :: 1 <= i < |rows| ==> rows[i] == rows[1..][i - 1];
      r
  }

  /** adminLogin: `SELECT * FROM admin WHERE username = ? AND password = ?`.
      A missing field is NULL and matches nothing; a mismatch yields no row,
      not an error. */
  function AdminLogin(db: Db, c: Credentials): (r: Option<Row<AdminFields>>)
    ensures r.Some? <==>
      && c.username.Some? && c.password.Some?
      && exists x :: x in db.admin.rows && x.fields == AdminFields(c.username.value, c.password.value)
    ensures r.Some? ==> r.value in db.admin.rows
    ensures r.Some? ==> r.value.fields.username == c.username.value && r.value.fields.password == c.password.value
  {
    if c.username.None? || c.password.None? then None
    else
      var r := FindLogin(db.admin.rows, c.username.value, c.password.value);
      assert r.None? ==> forall x :: x in db.admin.rows ==> x.fields != AdminFields(c.username.value, c.password.value);
      r
  }

  /** changeAdminPassword: load the first admin row; fail when there is none,
      fail when its password is not the given old password, otherwise
      `UPDATE admin SET password = ?, updated_at = ? WHERE id = <its id>`. */
  function ChangeAdminPassword(db: Db, data: PasswordData, now: Timestamp): (r: Step<()>)
    ensures |db.admin.rows| == 0 ==> r == Step(Err(AccountNotFound), db)
    ensures |db.admin.rows| > 0 && data.oldPassword != Some(db.admin.rows[0].fields.password) ==>
      r == Step(Err(WrongOldPassword), db)
    ensures (|db.admin.rows| > 0 && data.oldPassword == Some(db.admin.rows[0].fields.password)
             && data.newPassword.None?) ==> r == Step(Err(NotNull("admin.password")), db)
    ensures r.result.Ok? <==>
      |db.admin.rows| > 0 && data.oldPassword == Some(db.admin.rows[0].fields.password) && data.newPassword.Some?
    ensures r.result.Err? ==> r.db == db
    ensures r.result.Ok? && Valid(db) ==>
      r.db.admin == db.admin.(rows := db.admin.rows[0 := db.admin.rows[0].(
        fields := db.admin.rows[0].fields.(password := data.newPassword.value), updatedAt := now)])
    ensures r.db.hospital == db.hospital && r.db.staff == db.staff && r.db.duty == db.duty
    ensures Valid(db) ==> Valid(r.db)
  {
    if |db.admin.rows| == 0 then Step(Err(AccountNotFound), db)
    else
      var row := db.admin.rows[0];
      if data.oldPassword != Some(row.fields.password) then Step(Err(WrongOldPassword), db)
      else if data.newPassword.None? then Step(Err(NotNull("admin.password")), db)
      else
        var p := data.newPassword.value;
        var rows := SetWhere(db.admin.rows, row.id, (a: AdminFields) => a.(password := p), now);
        SetWherePreservesWellFormed(db.admin, row.id, (a: AdminFields) => a.(password := p), now);
        assert forall i :: 0 <= i < |rows| ==> rows[i].fields.username == db.admin.rows[i].fields.username;
        assert Valid(db) ==> forall i :: 1 <= i < |rows| ==> rows[i] == db.admin.rows[i];
        Step(Ok(()), db.(admin := Table(rows, db.admin.lastId)))
  }

  /** After a successful change the first admin logs in with the new password,
      and, when it differs, no longer with the old one. */
  lemma ChangeThenLogin(db: Db, data: PasswordData, now: Timestamp)
    requires Valid(db)
    requires ChangeAdminPassword(db, data, now).result.Ok?
    ensures var r := ChangeAdminPassword(db, data, now);
      var user := Some(db.admin.rows[0].fields.username);
      && AdminLogin(r.db, Credentials(user, data.newPassword)).Some?
      && AdminLogin(r.db, Credentials(user, data.newPassword)).value.id == db.admin.rows[0].id
      && (data.oldPassword != data.newPassword ==> AdminLogin(r.db, Credentials(user, data.oldPassword)).None?)
  {
    var r := ChangeAdminPassword(db, data, now);
    var rows := r.db.admin.rows;
    var user := db.admin.rows[0].fields.username;
    assert rows[0] in rows;
    forall x | x in rows && x.fields.username == user ensures x == rows[0] {
      var k :| 0 <= k < |rows| && rows[k] == x;
      if k > 0 {
        assert rows[k] == db.admin.rows[k];
      }
    }
  }

  /** A wrong old password leaves the stored password as it was, so the old
      credentials still log in. */
  lemma WrongOldPasswordKeepsLogin(db: Db, data: PasswordData, now: Timestamp)
    requires |db.admin.rows| > 0
    requires data.oldPassword != Some(db.admin.rows[0].fields.password)
    ensures var r := ChangeAdminPassword(db, data, now);
      var row := db.admin.rows[0];
      && r.result == Err(WrongOldPassword)
      && AdminLogin(r.db, Credentials(Some(row.fields.username), Some(row.fields.password))).Some?
  {
    assert db.admin.rows[0] in db.admin.rows;
  }
}
