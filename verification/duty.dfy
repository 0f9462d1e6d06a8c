/** The scheduling part of the service layer: assigning a staff member to a
    shift on a date, and the per-date duty roster. */
module DutyService {
  import opened Results
  import opened Tables
  import opened Schema
  import opened Ordering
  import StaffService

  /** The request body of arrange-duty. */
  datatype DutyData = DutyData(staffId: Option<int>, date: Field, shift: Field)

  /** One row of the roster query: every duty column, then the joined staff
      member's name and department, both NULL when no staff row matches. */
  datatype DutyView = DutyView(
    id: int, staffId: int, date: string, shift: string,
    createdAt: Timestamp, updatedAt: Timestamp,
    name: Option<string>, department: Option<string>)

  /** Some duty row already holds this (staff_id, date, shift) triple. */
  predicate Assigned(rows: seq<Row<DutyFields>>, f: DutyFields)
  {
    exists i :: 0 <= i < |rows| && rows[i].fields == f
  }

  /** createDuty: look for a row with the same triple; if there is one, fail
      with the duplicate error, otherwise INSERT and hand back the new id. A
      missing part of the triple matches no row (a comparison with NULL is
      never true) and then fails the INSERT's NOT NULL check. */
  function CreateDuty(db: Db, data: DutyData, now: Timestamp): (r: Step<int>)
    ensures r.result == Err(DuplicateDuty) <==>
      && data.staffId.Some? && data.date.Some? && data.shift.Some?
      && Assigned(db.duty.rows, DutyFields(data.staffId.value, data.date.value, data.shift.value))
    ensures data.staffId.None? ==> r == Step(Err(NotNull("duty.staff_id")), db)
    ensures data.staffId.Some? && data.date.None? ==> r == Step(Err(NotNull("duty.date")), db)
    ensures data.staffId.Some? && data.date.Some? && data.shift.None? ==> r == Step(Err(NotNull("duty.shift")), db)
    ensures r.result.Err? ==> r.db == db
    ensures r.result.Ok? <==>
      && data.staffId.Some? && data.date.Some? && data.shift.Some?
      && !Assigned(db.duty.rows, DutyFields(data.staffId.value, data.date.value, data.shift.value))
    ensures r.result.Ok? ==>
      && data.staffId.Some? && data.date.Some? && data.shift.Some?
      && var f := DutyFields(data.staffId.value, data.date.value, data.shift.value);
      && !Assigned(db.duty.rows, f)
      && r.db.duty.rows == db.duty.rows + [Row(r.result.value, f, now, now)]
      && r.result.value > db.duty.lastId
    ensures r.db.admin == db.admin && r.db.hospital == db.hospital && r.db.staff == db.staff
    ensures Valid(db) ==> Valid(r.db)
  {
    if data.staffId.Some? && data.date.Some? && data.shift.Some?
       && Assigned(db.duty.rows, DutyFields(data.staffId.value, data.date.value, data.shift.value))
    then Step(Err(DuplicateDuty), db)
    else if data.staffId.None? then Step(Err(NotNull("duty.staff_id")), db)
    else if data.date.None? then Step(Err(NotNull("duty.date")), db)
    else if data.shift.None? then Step(Err(NotNull("duty.shift")), db)
    else
      var f := DutyFields(data.staffId.value, data.date.value, data.shift.value);
      var (t, id) := Insert(db.duty, f, now);
      assert NoDuplicateDuty(db.duty.rows) ==> NoDuplicateDuty(t.rows) by {
        assert forall i :: 0 <= i < |db.duty.rows| ==> t.rows[i] == db.duty.rows[i];
      }
      Step(Ok(id), db.(duty := t))
  }

  /** Arranging a duty no row holds yet twice: the first call inserts it, the second call fails with the duplicate
      error, changes nothing, and the one row holding the triple is the row the
      first call added. */
  lemma ArrangeTwice(db: Db, data: DutyData, now1: Timestamp, now2: Timestamp)
    requires Valid(db)
    requires data.staffId.Some? && data.date.Some? && data.shift.Some?
    requires !Assigned(db.duty.rows, DutyFields(data.staffId.value, data.date.value, data.shift.value))
    ensures var first := CreateDuty(db, data, now1);
      var second := CreateDuty(first.db, data, now2);
      var rows := second.db.duty.rows;
      && first.result.Ok?
      && second == Step(Err(DuplicateDuty), first.db)
      && forall i :: 0 <= i < |rows| && rows[i].fields == DutyFields(data.staffId.value, data.date.value, data.shift.value)
           ==> rows[i].id == first.result.value
  {
    var first := CreateDuty(db, data, now1);
    var rows := first.db.duty.rows;
    assert rows[|rows| - 1].fields == DutyFields(data.staffId.value, data.date.value, data.shift.value);
  }

  // ---------------------------------------------------------------------
  // The roster query: WHERE s.date = ?, LEFT JOIN staff, ORDER BY
  // st.department ASC, s.shift ASC.

  /** The joined view of duty row `d` with the staff row `s`, or with NULLs. */
  function ViewOf(d: Row<DutyFields>, s: Option<Row<StaffFields>>): DutyView
  {
    DutyView(d.id, d.fields.staffId, d.fields.date, d.fields.shift, d.createdAt, d.updatedAt,
             if s.Some? then Some(s.value.fields.name) else None,
             if s.Some? then Some(s.value.fields.department) else None)
  }

  /** The duty rows `WHERE s.date = ?` keeps, in table order. */
  function OnDate(rows: seq<Row<DutyFields>>, date: string): (r: seq<Row<DutyFields>>)
    ensures forall d :: d in r <==> d in rows && d.fields.date == date
    ensures Increasing(rows) ==> Increasing(r)
  {
    if |rows| == 0 then []
    else if rows[0].fields.date == date then
      var rest := OnDate(rows[1..], date);
      assert forall k :: 0 <= k < |rest| ==> rest[k] in rows[1..];
      [rows[0]] + rest
    else OnDate(rows[1..], date)
  }

  /** LEFT JOIN of one duty row: one view per staff row with a matching id, or
      a single view with NULL name and department when there is none. */
  function JoinRow(d: Row<DutyFields>, staff: seq<Row<StaffFields>>): seq<DutyView>
  {
    var m := Select(staff, d.fields.staffId);
    if |m| == 0 then [ViewOf(d, None)]
    else seq(|m|, i requires 0 <= i < |m| => ViewOf(d, Some(m[i])))
  }

  function LeftJoin(duty: seq<Row<DutyFields>>, staff: seq<Row<StaffFields>>): seq<DutyView>
  {
    if |duty| == 0 then [] else JoinRow(duty[0], staff) + LeftJoin(duty[1..], staff)
  }

  /** The ORDER BY key comparison: department (NULL first), then shift. */
  predicate ViewLe(a: DutyView, b: DutyView)
  {
    && NullableLe(a.department, b.department)
    && (a.department == b.department ==> TextLe(a.shift, b.shift))
  }

  lemma ViewLeTransitive(a: DutyView, b: DutyView, c: DutyView)
    requires ViewLe(a, b) && ViewLe(b, c)
    ensures ViewLe(a, c)
  {
    NullableLeTransitive(a.department, b.department, c.department);
    if a.department == c.department {
      NullableLeAntisymmetric(a.department, b.department);
      TextLeTransitive(a.shift, b.shift, c.shift);
    }
  }

  lemma ViewLeReflexive(a: DutyView)
    ensures ViewLe(a, a)
  {
    if a.department.Some? {
      TextLeReflexive(a.department.value);
    }
    TextLeReflexive(a.shift);
  }

  lemma ViewLeTotal(a: DutyView, b: DutyView)
    ensures ViewLe(a, b) || ViewLe(b, a)
  {
    NullableLeTotal(a.department, b.department);
    TextLeTotal(a.shift, b.shift);
  }

  ghost predicate Sorted(s: seq<DutyView>)
  {
    forall i, j :: 0 <= i < j < |s| ==> ViewLe(s[i], s[j])
  }

  lemma ConsSorted(y: DutyView, s: seq<DutyView>)
    requires Sorted(s)
    requires forall k :: 0 <= k < |s| ==> ViewLe(y, s[k])
    ensures Sorted([y] + s)
  {
    var r := [y] + s;
    forall i, j | 0 <= i < j < |r| ensures ViewLe(r[i], r[j]) {
      if i > 0 {
        assert r[i] == s[i - 1] && r[j] == s[j - 1];
      }
    }
  }

  /** Puts `x` in front of the first element it does not sort after. */
  function InsertSorted(x: DutyView, s: seq<DutyView>): (r: seq<DutyView>)
    requires Sorted(s)
    ensures Sorted(r)
    ensures multiset(r) == multiset(s) + multiset{x}
  {
    if |s| == 0 then [x]
    else if ViewLe(x, s[0]) then
      assert forall k :: 0 <= k < |s| ==> ViewLe(x, s[k]) by {
        forall k | 0 <= k < |s| ensures ViewLe(x, s[k]) {
          if k > 0 {
            ViewLeTransitive(x, s[0], s[k]);
          }
        }
      }
      ConsSorted(x, s);
      [x] + s
    else
      var rest := InsertSorted(x, s[1..]);
      assert forall k :: 0 <= k < |rest| ==> ViewLe(s[0], rest[k]) by {
        forall k | 0 <= k < |rest| ensures ViewLe(s[0], rest[k]) {
          assert rest[k] in multiset(rest);
          if rest[k] == x {
            ViewLeTotal(x, s[0]);
          } else {
            assert rest[k] in multiset(s[1..]);
            var j :| 0 <= j < |s[1..]| && s[1..][j] == rest[k];
            assert s[j + 1] == rest[k];
          }
        }
      }
      ConsSorted(s[0], rest);
      assert s == [s[0]] + s[1..];
      [s[0]] + rest
  }

  /** Insertion sort by the ORDER BY key. SQL leaves the order of rows with
      equal keys open; this one keeps them in table order. */
  function SortViews(s: seq<DutyView>): (r: seq<DutyView>)
    ensures Sorted(r)
    ensures multiset(r) == multiset(s)
  {
    if |s| == 0 then []
    else
      assert s == [s[0]] + s[1..];
      InsertSorted(s[0], SortViews(s[1..]))
  }

  /** getDutyByDate: the rows of the given date joined with their staff rows,
      ordered by department and then shift. */
  function GetDutyByDate(db: Db, date: string): (r: seq<DutyView>)
    ensures Sorted(r)
    ensures multiset(r) == multiset(LeftJoin(OnDate(db.duty.rows, date), db.staff.rows))
  {
    SortViews(LeftJoin(OnDate(db.duty.rows, date), db.staff.rows))
  }

  /** When staff ids are unique each duty row joins with exactly one view. */
  function Views(duty: seq<Row<DutyFields>>, staff: seq<Row<StaffFields>>): seq<DutyView>
  {
    seq(|duty|, i requires 0 <= i < |duty| => ViewOf(duty[i], Lookup(staff, duty[i].fields.staffId)))
  }

  /** Entry `i` of the reference join is duty row `i` with its staff row. */
  lemma ViewsIndex(duty: seq<Row<DutyFields>>, staff: seq<Row<StaffFields>>)
    ensures |Views(duty, staff)| == |duty|
    ensures forall i :: 0 <= i < |duty| ==>
      Views(duty, staff)[i] == ViewOf(duty[i], Lookup(staff, duty[i].fields.staffId))
  {
  }

  lemma {:induction false} LeftJoinIsViews(duty: seq<Row<DutyFields>>, staff: seq<Row<StaffFields>>)
    requires Increasing(staff)
    ensures LeftJoin(duty, staff) == Views(duty, staff)
  {
    if |duty| > 0 {
      var sid := duty[0].fields.staffId;
      CountAtMostOne(staff, sid);
      assert JoinRow(duty[0], staff) == [ViewOf(duty[0], Lookup(staff, sid))];
      LeftJoinIsViews(duty[1..], staff);
      ViewsIndex(duty, staff);
      ViewsIndex(duty[1..], staff);
      var vs, tail := Views(duty, staff), Views(duty[1..], staff);
      assert vs == [vs[0]] + tail;
    }
  }

  lemma ViewsMembership(ds: seq<Row<DutyFields>>, staff: seq<Row<StaffFields>>, v: DutyView)
    ensures v in Views(ds, staff) <==> exists d :: d in ds && v == ViewOf(d, Lookup(staff, d.fields.staffId))
  {
    var vs := Views(ds, staff);
    ViewsIndex(ds, staff);
    if v in vs {
      var i :| 0 <= i < |vs| && vs[i] == v;
      assert ds[i] in ds;
    }
    if exists d :: d in ds && v == ViewOf(d, Lookup(staff, d.fields.staffId)) {
      var d :| d in ds && v == ViewOf(d, Lookup(staff, d.fields.staffId));
      var i :| 0 <= i < |ds| && ds[i] == d;
      assert vs[i] == v;
    }
  }

  /** A view listed in a sequence of views with increasing ids occurs there once. */
  lemma {:induction false} IncreasingIdsOnce(s: seq<DutyView>, v: DutyView)
    requires forall i, j :: 0 <= i < j < |s| ==> s[i].id < s[j].id
    requires v in s
    ensures multiset(s)[v] == 1
  {
    assert s == [s[0]] + s[1..];
    if v == s[0] {
      assert v !in s[1..] by {
        forall k | 0 <= k < |s[1..]| ensures s[1..][k] != v {
          assert s[1..][k] == s[k + 1];
        }
      }
    } else {
      IncreasingIdsOnce(s[1..], v);
    }
  }

  /** Distinct duty rows give distinct views, so each row's view occurs once. */
  lemma ViewsOnce(ds: seq<Row<DutyFields>>, staff: seq<Row<StaffFields>>, d: Row<DutyFields>)
    requires Increasing(ds)
    requires d in ds
    ensures multiset(Views(ds, staff))[ViewOf(d, Lookup(staff, d.fields.staffId))] == 1
  {
    var vs := Views(ds, staff);
    ViewsIndex(ds, staff);
    var i :| 0 <= i < |ds| && ds[i] == d;
    assert vs[i] == ViewOf(d, Lookup(staff, d.fields.staffId));
    IncreasingIdsOnce(vs, vs[i]);
  }

  /** The roster of a date holds exactly one view per duty row of that date:
      the row joined with its staff member's name and department, or with NULLs
      when no staff row has its staff_id. */
  lemma GetDutyByDateExact(db: Db, date: string)
    requires Valid(db)
    ensures var r := GetDutyByDate(db, date);
      && |r| == |OnDate(db.duty.rows, date)|
      && multiset(r) == multiset(Views(OnDate(db.duty.rows, date), db.staff.rows))
      && (forall v :: v in r <==>
           exists d :: d in db.duty.rows && d.fields.date == date
                     && v == ViewOf(d, Lookup(db.staff.rows, d.fields.staffId)))
      && forall d :: d in db.duty.rows && d.fields.date == date ==>
           multiset(r)[ViewOf(d, Lookup(db.staff.rows, d.fields.staffId))] == 1
  {
    var ds := OnDate(db.duty.rows, date);
    var r := GetDutyByDate(db, date);
    LeftJoinIsViews(ds, db.staff.rows);
    var vs := Views(ds, db.staff.rows);
    assert multiset(r) == multiset(vs);
    assert |r| == |multiset(r)| == |multiset(vs)| == |vs|;
    forall v
      ensures v in r <==> exists d :: d in db.duty.rows && d.fields.date == date
                                   && v == ViewOf(d, Lookup(db.staff.rows, d.fields.staffId))
    {
      assert v in r <==> v in multiset(r);
      assert v in vs <==> v in multiset(vs);
      ViewsMembership(ds, db.staff.rows, v);
    }
    forall d | d in db.duty.rows && d.fields.date == date
      ensures multiset(r)[ViewOf(d, Lookup(db.staff.rows, d.fields.staffId))] == 1
    {
      ViewsOnce(ds, db.staff.rows, d);
    }
  }

  /** Deleting a staff member leaves their duty rows behind: each still shows
      up in the roster of its date, with NULL name and department. */
  lemma DeleteStaffLeavesOrphans(db: Db, id: int, d: Row<DutyFields>)
    requires Valid(db)
    requires d in db.duty.rows && d.fields.staffId == id
    ensures var after := StaffService.DeleteStaff(db, id).db;
      && d in after.duty.rows
      && !HasId(after.staff.rows, id)
      && ViewOf(d, None) in GetDutyByDate(after, d.fields.date)
  {
    var after := StaffService.DeleteStaff(db, id).db;
    GetDutyByDateExact(after, d.fields.date);
  }
}
