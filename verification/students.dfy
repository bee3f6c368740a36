/** The student/group service: listing students with their groups by
    folding the rows of a join, and creating a student with group
    assignments after checking that every group exists. Query results are
    rows of typed column values read through a data reader that fails on a
    missing column or a value of the wrong type. Students get their ids
    from their positions; groups are a read-only table. */
module Students {
  import opened Outcome

  /** One column value of a result row. */
  datatype Value = IntV(i: int) | StrV(s: string) | DateV(d: int) | NullV
  type Row = seq<Value>

  datatype ReadError = ColumnOutOfRange | InvalidCast

  function GetInt32(row: Row, k: nat): (r: Result<int, ReadError>)
    ensures r.Ok? <==> k < |row| && row[k].IntV?
  {
    if k >= |row| then Err(ColumnOutOfRange) else if row[k].IntV? then Ok(row[k].i) else Err(InvalidCast)
  }

  function GetString(row: Row, k: nat): (r: Result<string, ReadError>)
    ensures r.Ok? <==> k < |row| && row[k].StrV?
  {
    if k >= |row| then Err(ColumnOutOfRange) else if row[k].StrV? then Ok(row[k].s) else Err(InvalidCast)
  }

  function GetDateTime(row: Row, k: nat): (r: Result<int, ReadError>)
    ensures r.Ok? <==> k < |row| && row[k].DateV?
  {
    if k >= |row| then Err(ColumnOutOfRange) else if row[k].DateV? then Ok(row[k].d) else Err(InvalidCast)
  }

  function IsDBNull(row: Row, k: nat): (r: Result<bool, ReadError>)
    ensures r.Ok? <==> k < |row|
    ensures r.Ok? ==> (r.value <==> row[k] == NullV)
  {
    if k >= |row| then Err(ColumnOutOfRange) else Ok(row[k] == NullV)
  }

  datatype Student = Student(firstName: string, lastName: string, email: string)
  datatype Group = Group(id: int, name: string, level: string, academicYear: int)
  datatype Assignment = Assignment(studentId: int, groupId: int)
  datatype SchoolDb = SchoolDb(students: seq<Student>, groups: seq<Group>, assignments: seq<Assignment>)

  datatype GroupInfo = GroupInfo(id: int, name: string, academicYear: int, level: string)
  datatype StudentDetails = StudentDetails(id: int, firstName: string, lastName: string, email: string, groups: seq<GroupInfo>)

  /** A row of the student listing after reading its columns. */
  datatype DetailRow = DetailRow(studentId: int, firstName: string, lastName: string, email: string, group: Option<GroupInfo>)

  /** Reads a listing row: student id, names and email in columns 0-3, and
      the group's id, name, academic year and level in columns 4-7 unless
      column 4 is null. The service reads columns 1-3 only on a student's
      first row, and this reads them on every row. The two agree on the
      rows of the join, where every row of a student carries the same typed
      student columns, and on the four-column rows of the query as written,
      where both fail at column 4 of the first row. */
  function ReadDetailRow(row: Row): (r: Result<DetailRow, ReadError>)
    ensures |row| <= 4 ==> r.Err?
  {
    var id :- GetInt32(row, 0);
    var first :- GetString(row, 1);
    var last :- GetString(row, 2);
    var email :- GetString(row, 3);
    var isNull :- IsDBNull(row, 4);
    if isNull then Ok(DetailRow(id, first, last, email, None))
    else
      var gid :- GetInt32(row, 4);
      var name :- GetString(row, 5);
      var year :- GetDateTime(row, 6);
      var level :- GetString(row, 7);
      Ok(DetailRow(id, first, last, email, Some(GroupInfo(gid, name, year, level))))
  }

  function ReadDetailRows(rows: seq<Row>): (r: Result<seq<DetailRow>, ReadError>)
    ensures r.Ok? ==> |r.value| == |rows| && forall k :: 0 <= k < |rows| ==> ReadDetailRow(rows[k]) == Ok(r.value[k])
    ensures (exists k :: 0 <= k < |rows| && ReadDetailRow(rows[k]).Err?) ==> r.Err?
  {
    if |rows| == 0 then Ok([])
    else
      var d :- ReadDetailRow(rows[0]);
      var ds :- ReadDetailRows(rows[1..]);
      assert forall k :: 1 <= k < |rows| ==> rows[k] == rows[1..][k - 1];
      Ok([d] + ds)
  }

  /** The first row about a student, if any. */
  function FirstRowOf(rows: seq<DetailRow>, id: int): (r: Option<DetailRow>)
    ensures r.Some? <==> exists k :: 0 <= k < |rows| && rows[k].studentId == id
    ensures r.Some? ==> r.value.studentId == id
  {
    if |rows| == 0 then None
    else
      var init := rows[..|rows| - 1];
      var earlier := FirstRowOf(init, id);
      assert forall k :: 0 <= k < |init| ==> init[k] == rows[k];
      if earlier.Some? then earlier
      else if rows[|rows| - 1].studentId == id then Some(rows[|rows| - 1])
      else None
  }

  /** The non-null groups of a student's rows, in row order. */
  function GroupsOf(rows: seq<DetailRow>, id: int): seq<GroupInfo> {
    if |rows| == 0 then []
    else
      var last := rows[|rows| - 1];
      GroupsOf(rows[..|rows| - 1], id) + (if last.studentId == id && last.group.Some? then [last.group.value] else [])
  }

  function OptionalList<T>(o: Option<T>): seq<T> {
    if o.Some? then [o.value] else []
  }

  function IndexOf(ds: seq<StudentDetails>, id: int): (r: Option<nat>)
    ensures r.Some? ==> r.value < |ds| && ds[r.value].id == id
    ensures r.None? ==> forall k :: 0 <= k < |ds| ==> ds[k].id != id
  {
    if |ds| == 0 then None
    else if ds[|ds| - 1].id == id then Some(|ds| - 1)
    else
      var r := IndexOf(ds[..|ds| - 1], id);
      assert forall k :: 0 <= k < |ds| - 1 ==> ds[..|ds| - 1][k] == ds[k];
      r
  }

  predicate DistinctIds(ds: seq<StudentDetails>) {
    forall i, j :: 0 <= i < j < |ds| ==> ds[i].id != ds[j].id
  }

  /** An entry agrees with the rows: names and email from the student's
      first row, and the non-null groups of all of its rows in order. */
  ghost predicate EntryFits(d: StudentDetails, rows: seq<DetailRow>) {
    && FirstRowOf(rows, d.id).Some?
    && d.firstName == FirstRowOf(rows, d.id).value.firstName
    && d.lastName == FirstRowOf(rows, d.id).value.lastName
    && d.email == FirstRowOf(rows, d.id).value.email
    && d.groups == GroupsOf(rows, d.id)
  }

  /** The listing describes the rows: one entry per student that has a row,
      each agreeing with those rows. */
  ghost predicate Describes(ds: seq<StudentDetails>, rows: seq<DetailRow>) {
    && DistinctIds(ds)
    && (forall id :: (exists i :: 0 <= i < |ds| && ds[i].id == id) <==> FirstRowOf(rows, id).Some?)
    && (forall i :: 0 <= i < |ds| ==> EntryFits(ds[i], rows))
  }

  /** Reading one more row. */
  function Step(ds: seq<StudentDetails>, row: DetailRow): seq<StudentDetails> {
    match IndexOf(ds, row.studentId)
    case Some(i) => ds[i := ds[i].(groups := ds[i].groups + OptionalList(row.group))]
    case None => ds + [StudentDetails(row.studentId, row.firstName, row.lastName, row.email, OptionalList(row.group))]
  }

  /** The listing's fold: a student's first row creates its entry (in order
      of first appearance) and each row with a group adds that group. */
  function FoldRows(rows: seq<DetailRow>): (r: seq<StudentDetails>)
    ensures Describes(r, rows)
  {
    if |rows| == 0 then []
    else
      var init := rows[..|rows| - 1];
      assert rows == init + [rows[|rows| - 1]];
      var ds := FoldRows(init);
      StepDescribes(ds, init, rows[|rows| - 1]);
      Step(ds, rows[|rows| - 1])
  }

  lemma RowsAppend(init: seq<DetailRow>, row: DetailRow, id: int)
    ensures GroupsOf(init + [row], id) == GroupsOf(init, id) + (if row.studentId == id && row.group.Some? then [row.group.value] else [])
    ensures FirstRowOf(init + [row], id) == if FirstRowOf(init, id).Some? then FirstRowOf(init, id)
                                            else if row.studentId == id then Some(row) else None
  {
    assert (init + [row])[..|init|] == init;
  }

  lemma StepDescribes(ds: seq<StudentDetails>, init: seq<DetailRow>, row: DetailRow)
    requires Describes(ds, init)
    ensures Describes(Step(ds, row), init + [row])
  {
    match IndexOf(ds, row.studentId)
    case Some(i) => StepExisting(ds, init, row, i);
    case None => StepNew(ds, init, row);
  }

  lemma StepExisting(ds: seq<StudentDetails>, init: seq<DetailRow>, row: DetailRow, i: nat)
    requires Describes(ds, init)
    requires IndexOf(ds, row.studentId) == Some(i)
    ensures Describes(Step(ds, row), init + [row])
  {
    var r := ds[i := ds[i].(groups := ds[i].groups + OptionalList(row.group))];
    assert Step(ds, row) == r;
    assert EntryFits(ds[i], init);
    StepExistingIds(ds, init, row, i);
    StepExistingEntries(ds, init, row, i);
  }

  /** A row of a student already listed changes no first row, so the set of
      listed ids stays right. */
  lemma StepExistingIds(ds: seq<StudentDetails>, init: seq<DetailRow>, row: DetailRow, i: nat)
    requires 0 <= i < |ds| && ds[i].id == row.studentId && FirstRowOf(init, row.studentId).Some?
    requires forall id :: (exists j :: 0 <= j < |ds| && ds[j].id == id) <==> FirstRowOf(init, id).Some?
    ensures var r := ds[i := ds[i].(groups := ds[i].groups + OptionalList(row.group))];
            forall id :: (exists j :: 0 <= j < |r| && r[j].id == id) <==> FirstRowOf(init + [row], id).Some?
  {
    var r := ds[i := ds[i].(groups := ds[i].groups + OptionalList(row.group))];
    assert forall k :: 0 <= k < |r| ==> r[k].id == ds[k].id;
    forall id
      ensures FirstRowOf(init + [row], id) == FirstRowOf(init, id)
    {
      RowsAppend(init, row, id);
    }
  }

  /** Every entry still fits: the extended one gains the row's group, the
      others see no row of theirs added. */
  lemma StepExistingEntries(ds: seq<StudentDetails>, init: seq<DetailRow>, row: DetailRow, i: nat)
    requires 0 <= i < |ds| && ds[i].id == row.studentId && DistinctIds(ds)
    requires forall k :: 0 <= k < |ds| ==> EntryFits(ds[k], init)
    ensures var r := ds[i := ds[i].(groups := ds[i].groups + OptionalList(row.group))];
            forall k :: 0 <= k < |r| ==> EntryFits(r[k], init + [row])
  {
    var r := ds[i := ds[i].(groups := ds[i].groups + OptionalList(row.group))];
    forall k | 0 <= k < |r|
      ensures EntryFits(r[k], init + [row])
    {
      assert EntryFits(ds[k], init);
      RowsAppend(init, row, ds[k].id);
    }
  }

  lemma StepNew(ds: seq<StudentDetails>, init: seq<DetailRow>, row: DetailRow)
    requires Describes(ds, init)
    requires IndexOf(ds, row.studentId).None?
    ensures Describes(Step(ds, row), init + [row])
  {
    var rows := init + [row];
    var d := StudentDetails(row.studentId, row.firstName, row.lastName, row.email, OptionalList(row.group));
    var r := ds + [d];
    assert Step(ds, row) == r;
    assert DistinctIds(r);
    StepNewEntries(ds, init, row);
    StepNewIds(ds, init, row);
  }

  lemma StepNewEntries(ds: seq<StudentDetails>, init: seq<DetailRow>, row: DetailRow)
    requires forall k :: 0 <= k < |ds| ==> EntryFits(ds[k], init)
    requires FirstRowOf(init, row.studentId).None?
    ensures var r := ds + [StudentDetails(row.studentId, row.firstName, row.lastName, row.email, OptionalList(row.group))];
            forall k :: 0 <= k < |r| ==> EntryFits(r[k], init + [row])
  {
    var rows := init + [row];
    var d := StudentDetails(row.studentId, row.firstName, row.lastName, row.email, OptionalList(row.group));
    var r := ds + [d];
    NoRowsNoGroups(init, row.studentId);
    RowsAppend(init, row, row.studentId);
    assert EntryFits(d, rows);
    forall k | 0 <= k < |ds|
      ensures EntryFits(r[k], rows)
    {
      assert r[k] == ds[k];
      RowsAppend(init, row, ds[k].id);
    }
  }

  lemma StepNewIds(ds: seq<StudentDetails>, init: seq<DetailRow>, row: DetailRow)
    requires forall id :: (exists i :: 0 <= i < |ds| && ds[i].id == id) <==> FirstRowOf(init, id).Some?
    ensures var r := ds + [StudentDetails(row.studentId, row.firstName, row.lastName, row.email, OptionalList(row.group))];
            forall id :: (exists i :: 0 <= i < |r| && r[i].id == id) <==> FirstRowOf(init + [row], id).Some?
  {
    var rows := init + [row];
    var r := ds + [StudentDetails(row.studentId, row.firstName, row.lastName, row.email, OptionalList(row.group))];
    forall id
      ensures (exists k :: 0 <= k < |r| && r[k].id == id) <==> FirstRowOf(rows, id).Some?
    {
      RowsAppend(init, row, id);
      if id == row.studentId {
        assert r[|ds|].id == id;
      } else if FirstRowOf(init, id).Some? {
        var k :| 0 <= k < |ds| && ds[k].id == id;
        assert r[k].id == id;
      } else {
        assert forall k :: 0 <= k < |ds| ==> ds[k].id != id;
        assert forall k :: 0 <= k < |r| ==> r[k].id != id;
      }
    }
  }

  lemma {:induction false} NoRowsNoGroups(rows: seq<DetailRow>, id: int)
    requires FirstRowOf(rows, id).None?
    ensures GroupsOf(rows, id) == []
  {
    if |rows| > 0 {
      var init := rows[..|rows| - 1];
      assert forall k :: 0 <= k < |init| ==> init[k] == rows[k];
      NoRowsNoGroups(init, id);
    }
  }

  /** The four group columns of the listing query: id, name, academic year
      and level, or four nulls when the assignment's group is missing. */
  function GroupColumns(groups: seq<Group>, gid: int): (r: seq<Value>)
    ensures |r| == 4
    ensures r[0] == NullV || (r[0].IntV? && r[1].StrV? && r[2].DateV? && r[3].StrV?)
  {
    if |groups| == 0 then [NullV, NullV, NullV, NullV]
    else if groups[0].id == gid then [IntV(groups[0].id), StrV(groups[0].name), DateV(groups[0].academicYear), StrV(groups[0].level)]
    else GroupColumns(groups[1..], gid)
  }

  /** A row the listing's reader accepts: four typed student columns, then
      a null group or four typed group columns. */
  predicate WellTyped(row: Row) {
    && |row| == 8 && row[0].IntV? && row[1].StrV? && row[2].StrV? && row[3].StrV?
    && (row[4] == NullV || (row[4].IntV? && row[5].StrV? && row[6].DateV? && row[7].StrV?))
  }

  lemma ReadWellTyped(row: Row)
    requires WellTyped(row)
    ensures ReadDetailRow(row).Ok? && ReadDetailRow(row).value.studentId == row[0].i
  {
  }

  function StudentColumns(db: SchoolDb, i: nat): seq<Value>
    requires i < |db.students|
  {
    [IntV(i), StrV(db.students[i].firstName), StrV(db.students[i].lastName), StrV(db.students[i].email)]
  }

  /** One row per assignment of student `i` among `as`, in table order. */
  function AssignmentRows(db: SchoolDb, i: nat, links: seq<Assignment>): (r: seq<Row>)
    requires i < |db.students|
    ensures forall k :: 0 <= k < |r| ==> WellTyped(r[k]) && r[k][0] == IntV(i)
    ensures |r| == 0 <==> forall k :: 0 <= k < |links| ==> links[k].studentId != i
  {
    if |links| == 0 then []
    else
      var rest := AssignmentRows(db, i, links[1..]);
      assert forall k :: 1 <= k < |links| ==> links[k] == links[1..][k - 1];
      if links[0].studentId == i then [StudentColumns(db, i) + GroupColumns(db.groups, links[0].groupId)] + rest else rest
  }

  /** The rows of student `i` in the listing's `LEFT JOIN`: one per
      assignment, or a single row with null group columns. */
  function StudentRows(db: SchoolDb, i: nat): (r: seq<Row>)
    requires i < |db.students|
    ensures |r| > 0
    ensures forall k :: 0 <= k < |r| ==> WellTyped(r[k]) && r[k][0] == IntV(i)
  {
    var rs := AssignmentRows(db, i, db.assignments);
    if |rs| == 0 then [StudentColumns(db, i) + [NullV, NullV, NullV, NullV]] else rs
  }

  /** The rows of the listing query with all eight columns, students in id order. */
  function QueryRows(db: SchoolDb, n: nat): (r: seq<Row>)
    requires n <= |db.students|
    ensures forall k :: 0 <= k < |r| ==> WellTyped(r[k]) && 0 <= r[k][0].i < n
    ensures forall i :: 0 <= i < n ==> exists k :: 0 <= k < |r| && |r[k]| > 0 && r[k][0] == IntV(i)
  {
    if n == 0 then []
    else
      var init := QueryRows(db, n - 1);
      var own := StudentRows(db, n - 1);
      var r := init + own;
      assert r[|init|][0] == IntV(n - 1);
      assert forall k :: 0 <= k < |init| ==> r[k] == init[k];
      assert forall k :: 0 <= k < |own| ==> r[|init| + k] == own[k];
      r
  }

  /** The query as written selects only the four student columns. */
  function QueryRowsAsWritten(db: SchoolDb): (r: seq<Row>)
    ensures |r| == |QueryRows(db, |db.students|)|
    ensures forall k :: 0 <= k < |r| ==> |r[k]| == 4 && r[k][0].IntV? && r[k][1].StrV? && r[k][2].StrV? && r[k][3].StrV?
  {
    var full := QueryRows(db, |db.students|);
    seq(|full|, k requires 0 <= k < |full| => full[k][..4])
  }

  /** `GetStudentDetailsAsync` over the rows a query returns. */
  function StudentDetailsOf(rows: seq<Row>): (r: Result<seq<StudentDetails>, ReadError>)
    ensures r.Ok? <==> ReadDetailRows(rows).Ok?
    ensures r.Ok? ==> Describes(r.value, ReadDetailRows(rows).value)
  {
    var ds :- ReadDetailRows(rows);
    Ok(FoldRows(ds))
  }

  /** As written, reading the group of the first row fails, so any store
      with a student makes the listing fail. */
  lemma ListingAsWrittenFails(db: SchoolDb)
    requires |db.students| > 0
    ensures StudentDetailsOf(QueryRowsAsWritten(db)) == Err(ColumnOutOfRange)
  {
    var rows := QueryRowsAsWritten(db);
    var full := QueryRows(db, |db.students|);
    assert |full| > 0 by {
      var k :| 0 <= k < |full| && |full[k]| > 0 && full[k][0] == IntV(0);
    }
    ReadRowsFirstError(rows);
  }

  lemma ReadRowsFirstError(rows: seq<Row>)
    requires |rows| > 0 && |rows[0]| == 4 && rows[0][0].IntV? && rows[0][1].StrV? && rows[0][2].StrV? && rows[0][3].StrV?
    ensures ReadDetailRows(rows) == Err(ColumnOutOfRange)
  {
    assert ReadDetailRow(rows[0]) == Err(ColumnOutOfRange);
  }

  predicate Lists(ds: seq<StudentDetails>, id: int) {
    exists k :: 0 <= k < |ds| && ds[k].id == id
  }

  /** With the group columns selected, the listing succeeds and has exactly
      one entry per student, each agreeing with that student's rows. */
  lemma ListingCoversStudents(db: SchoolDb)
    ensures StudentDetailsOf(QueryRows(db, |db.students|)).Ok?
    ensures var ds := StudentDetailsOf(QueryRows(db, |db.students|)).value;
            forall i :: 0 <= i < |db.students| ==> Lists(ds, i)
  {
    var rows := QueryRows(db, |db.students|);
    ReadAllWellTyped(rows);
    var read := ReadDetailRows(rows).value;
    var ds := StudentDetailsOf(rows).value;
    forall i | 0 <= i < |db.students|
      ensures Lists(ds, i)
    {
      var k :| 0 <= k < |rows| && |rows[k]| > 0 && rows[k][0] == IntV(i);
      ReadWellTyped(rows[k]);
      assert read[k].studentId == i;
      assert FirstRowOf(read, i).Some?;
    }
  }

  lemma {:induction false} ReadAllWellTyped(rows: seq<Row>)
    requires forall k :: 0 <= k < |rows| ==> WellTyped(rows[k])
    ensures ReadDetailRows(rows).Ok?
  {
    if |rows| > 0 {
      ReadWellTyped(rows[0]);
      ReadAllWellTyped(rows[1..]);
    }
  }

  datatype StudentRequest = StudentRequest(firstName: string, lastName: string, email: string, groupAssignments: Option<seq<int>>)
  datatype StudentError = GroupNotFound(id: int) | ReadFailed(error: ReadError)

  /** The requested group ids; a missing list requests none. */
  function Requested(req: StudentRequest): seq<int> {
    if req.groupAssignments.Some? then req.groupAssignments.value else []
  }

  predicate GroupExists(db: SchoolDb, gid: int) {
    exists k :: 0 <= k < |db.groups| && db.groups[k].id == gid
  }

  /** The first group with the id, as a row of `SELECT Id, Name, Level, AcademicYear`. */
  function GroupCheckRow(groups: seq<Group>, gid: int): (r: Option<Row>)
    ensures r.Some? <==> exists k :: 0 <= k < |groups| && groups[k].id == gid
    ensures r.Some? ==> exists k :: 0 <= k < |groups| && groups[k].id == gid
                          && r.value == [IntV(gid), StrV(groups[k].name), StrV(groups[k].level), DateV(groups[k].academicYear)]
  {
    if |groups| == 0 then None
    else if groups[0].id == gid then Some([IntV(gid), StrV(groups[0].name), StrV(groups[0].level), DateV(groups[0].academicYear)])
    else
      var r := GroupCheckRow(groups[1..], gid);
      assert forall k :: 1 <= k < |groups| ==> groups[k] == groups[1..][k - 1];
      r
  }

  /** Reads a group check row, taking the academic year from `yearColumn`. */
  function ReadGroup(row: Row, yearColumn: nat): Result<GroupInfo, ReadError> {
    var id :- GetInt32(row, 0);
    var name :- GetString(row, 1);
    var level :- GetString(row, 2);
    var year :- GetDateTime(row, yearColumn);
    Ok(GroupInfo(id, name, year, level))
  }

  /** `g` is what the check of group `gid` reads. */
  predicate Checked(db: SchoolDb, gid: int, yearColumn: nat, g: GroupInfo) {
    && GroupExists(db, gid)
    && g.id == gid
    && GroupCheckRow(db.groups, gid).Some?
    && ReadGroup(GroupCheckRow(db.groups, gid).value, yearColumn) == Ok(g)
  }

  /** The group checks, one per requested id in request order, each reading
      its row before the next id is looked up. */
  function CheckGroups(db: SchoolDb, ids: seq<int>, yearColumn: nat): (r: Result<seq<GroupInfo>, StudentError>)
    ensures r.Ok? ==> |r.value| == |ids| && forall k :: 0 <= k < |ids| ==> Checked(db, ids[k], yearColumn, r.value[k])
  {
    if |ids| == 0 then Ok([])
    else match GroupCheckRow(db.groups, ids[0])
      case None => Err(GroupNotFound(ids[0]))
      case Some(row) =>
        match ReadGroup(row, yearColumn)
        case Err(e) => Err(ReadFailed(e))
        case Ok(g) =>
          var rest :- CheckGroups(db, ids[1..], yearColumn);
          CheckedHead(db, ids[0], yearColumn, row, g);
          ConsChecked(db, ids, yearColumn, g, rest);
          Ok([g] + rest)
  }

  /** A group read from its check row carries the id that was looked up. */
  lemma CheckedHead(db: SchoolDb, gid: int, yearColumn: nat, row: Row, g: GroupInfo)
    requires GroupCheckRow(db.groups, gid) == Some(row)
    requires ReadGroup(row, yearColumn) == Ok(g)
    ensures Checked(db, gid, yearColumn, g)
  {
    var k :| 0 <= k < |db.groups| && db.groups[k].id == gid
             && row == [IntV(gid), StrV(db.groups[k].name), StrV(db.groups[k].level), DateV(db.groups[k].academicYear)];
    assert GetInt32(row, 0) == Ok(gid);
  }

  lemma ConsChecked(db: SchoolDb, ids: seq<int>, yearColumn: nat, g: GroupInfo, rest: seq<GroupInfo>)
    requires |ids| > 0 && Checked(db, ids[0], yearColumn, g)
    requires |rest| == |ids| - 1 && forall k :: 0 <= k < |rest| ==> Checked(db, ids[1..][k], yearColumn, rest[k])
    ensures forall k :: 0 <= k < |ids| ==> Checked(db, ids[k], yearColumn, ([g] + rest)[k])
  {
    var r := [g] + rest;
    forall k | 0 <= k < |ids|
      ensures Checked(db, ids[k], yearColumn, r[k])
    {
      if k > 0 {
        assert ids[k] == ids[1..][k - 1] && r[k] == rest[k - 1];
      }
    }
  }

  function AssignmentsFor(studentId: int, gs: seq<GroupInfo>): (r: seq<Assignment>)
    ensures |r| == |gs| && forall k :: 0 <= k < |gs| ==> r[k] == Assignment(studentId, gs[k].id)
  {
    seq(|gs|, k requires 0 <= k < |gs| => Assignment(studentId, gs[k].id))
  }

  /** `CreateStudentAsync`, parameterised by the column the group check reads
      the academic year from. */
  function CreateStudentReading(db: SchoolDb, req: StudentRequest, yearColumn: nat): Result<(SchoolDb, StudentDetails), StudentError> {
    var groups :- CheckGroups(db, Requested(req), yearColumn);
    var id := |db.students|;
    Ok((SchoolDb(db.students + [Student(req.firstName, req.lastName, req.email)], db.groups,
                 db.assignments + AssignmentsFor(id, groups)),
        StudentDetails(id, req.firstName, req.lastName, req.email, groups)))
  }

  /** As written the academic year is read from column 2, which holds the
      level, so every request that names an existing group fails. */
  function CreateStudentAsWritten(db: SchoolDb, req: StudentRequest): (r: Result<(SchoolDb, StudentDetails), StudentError>)
    ensures |Requested(req)| > 0 && GroupExists(db, Requested(req)[0]) ==> r == Err(ReadFailed(InvalidCast))
  {
    CreateStudentReading(db, req, 2)
  }

  lemma CreateStudentAsWrittenRejectsGroups()
    ensures var db := SchoolDb([], [Group(1, "A", "first", 2024)], []);
            CreateStudentAsWritten(db, StudentRequest("Ann", "Lee", "a@b", Some([1]))) == Err(ReadFailed(InvalidCast))
  {
    var db := SchoolDb([], [Group(1, "A", "first", 2024)], []);
    assert GroupExists(db, 1) by {
      assert db.groups[0].id == 1;
    }
  }

  /** `CreateStudentAsync` reading the academic year from column 3. Every
      requested group must exist, the first missing one in request order is
      reported, and nothing is inserted before all checks pass. */
  function CreateStudent(db: SchoolDb, req: StudentRequest): (r: Result<(SchoolDb, StudentDetails), StudentError>)
    ensures r.Ok? <==> forall k :: 0 <= k < |Requested(req)| ==> GroupExists(db, Requested(req)[k])
    ensures r.Err? ==> exists k :: (&& 0 <= k < |Requested(req)| && !GroupExists(db, Requested(req)[k])
                                    && r.error == GroupNotFound(Requested(req)[k])
                                    && forall j :: 0 <= j < k ==> GroupExists(db, Requested(req)[j]))
    ensures r.Ok? ==>
              var (db', d) := r.value;
              var ids := Requested(req);
              && db'.students == db.students + [Student(req.firstName, req.lastName, req.email)]
              && db'.groups == db.groups
              && d.id == |db.students| && d.firstName == req.firstName && d.lastName == req.lastName && d.email == req.email
              && |d.groups| == |ids|
              && |db'.assignments| == |db.assignments| + |ids|
              && db'.assignments[..|db.assignments|] == db.assignments
              && forall k :: 0 <= k < |ids| ==>
                   && d.groups[k].id == ids[k]
                   && StoredGroupInfo(db, d.groups[k])
                   && db'.assignments[|db.assignments| + k] == Assignment(d.id, ids[k])
  {
    CheckGroupsCorrect(db, Requested(req));
    var r := CreateStudentReading(db, req, 3);
    if r.Err? then r
    else
      CheckedGroupsAreStored(db, Requested(req), r.value.1.groups);
      r
  }

  /** `g` carries the id, name, academic year and level of a stored group. */
  predicate StoredGroupInfo(db: SchoolDb, g: GroupInfo) {
    exists j :: 0 <= j < |db.groups| && g == GroupInfo(db.groups[j].id, db.groups[j].name, db.groups[j].academicYear, db.groups[j].level)
  }

  /** Reading the year from column 3, a checked group is the stored group's
      own data, field for field. */
  lemma CheckedIsStored(db: SchoolDb, gid: int, g: GroupInfo)
    requires Checked(db, gid, 3, g)
    ensures StoredGroupInfo(db, g)
  {
    var row := GroupCheckRow(db.groups, gid).value;
    var j :| 0 <= j < |db.groups| && db.groups[j].id == gid
             && row == [IntV(gid), StrV(db.groups[j].name), StrV(db.groups[j].level), DateV(db.groups[j].academicYear)];
    assert ReadGroup(row, 3) == Ok(GroupInfo(gid, db.groups[j].name, db.groups[j].academicYear, db.groups[j].level));
  }

  lemma CheckedGroupsAreStored(db: SchoolDb, ids: seq<int>, gs: seq<GroupInfo>)
    requires |gs| == |ids| && forall k :: 0 <= k < |ids| ==> Checked(db, ids[k], 3, gs[k])
    ensures forall k :: 0 <= k < |gs| ==> StoredGroupInfo(db, gs[k])
  {
    forall k | 0 <= k < |gs|
      ensures StoredGroupInfo(db, gs[k])
    {
      CheckedIsStored(db, ids[k], gs[k]);
    }
  }

  /** Reading column 3 never fails on a group check row, so the checks fail
      exactly at the first missing group. */
  lemma {:induction false} CheckGroupsCorrect(db: SchoolDb, ids: seq<int>)
    ensures CheckGroups(db, ids, 3).Ok? <==> forall k :: 0 <= k < |ids| ==> GroupExists(db, ids[k])
    ensures CheckGroups(db, ids, 3).Err? ==>
              exists k :: (&& 0 <= k < |ids| && !GroupExists(db, ids[k])
                           && CheckGroups(db, ids, 3).error == GroupNotFound(ids[k])
                           && forall j :: 0 <= j < k ==> GroupExists(db, ids[j]))
  {
    if |ids| > 0 {
      CheckGroupsCorrect(db, ids[1..]);
      assert forall k :: 1 <= k < |ids| ==> ids[k] == ids[1..][k - 1];
      if GroupExists(db, ids[0]) {
        var row := GroupCheckRow(db.groups, ids[0]).value;
        assert ReadGroup(row, 3).Ok?;
        if CheckGroups(db, ids[1..], 3).Err? {
          var k :| (&& 0 <= k < |ids[1..]| && !GroupExists(db, ids[1..][k])
                    && CheckGroups(db, ids[1..], 3).error == GroupNotFound(ids[1..][k])
                    && forall j :: 0 <= j < k ==> GroupExists(db, ids[1..][j]));
          assert ids[k + 1] == ids[1..][k];
        }
      }
    }
  }
}
