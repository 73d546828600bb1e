/**
 * The Excel import: each row of the first sheet is read through its column aliases, checked
 * field by field, and inserted as a student unless its address is already stored; the header
 * check runs on the first row of the sheet before any import.
 *
 * A row is the map from column header to cell value that `sheet_to_json` builds; reading the
 * workbook itself is not part of this model.
 */
module ExcelService {
  import opened Wrappers
  import opened JsText
  import opened Tables
  import StudentController
  import Database

  type Row = map<string, JsValue>

  /** `row[column]`: a column the row has no cell in reads as `undefined`. */
  function Cell(row: Row, column: string): JsValue {
    if column in row then row[column] else Undefined
  }

  const NameColumns: seq<string> := ["Full Name", "Name", "Student Name"]
  const EmailColumns: seq<string> := ["Email Address", "Email", "Student Email"]
  const PhoneColumns: seq<string> := ["Phone Number", "Phone", "Mobile Number", "Contact Number"]

  /** `row[c1] || row[c2] || ... || ''`: the first truthy cell among the columns, else the empty text. */
  function FirstTruthy(row: Row, columns: seq<string>): JsValue {
    if columns == [] then Str("")
    else if Truthy(Cell(row, columns[0])) then Cell(row, columns[0])
    else FirstTruthy(row, columns[1..])
  }

  /**
   * The value read is the cell of the first column whose cell is truthy, or the empty text
   * when no column has a truthy cell.
   */
  lemma {:induction false} FirstTruthyChoice(row: Row, columns: seq<string>)
    ensures var v := FirstTruthy(row, columns);
            (v == Str("") && forall k :: 0 <= k < |columns| ==> !Truthy(Cell(row, columns[k]))) ||
            (exists k :: 0 <= k < |columns| && v == Cell(row, columns[k]) && Truthy(v) &&
               forall j :: 0 <= j < k ==> !Truthy(Cell(row, columns[j])))
  {
    if columns != [] && !Truthy(Cell(row, columns[0])) {
      var rest := columns[1..];
      FirstTruthyChoice(row, rest);
      var v := FirstTruthy(row, rest);
      if v != Str("") || exists k :: 0 <= k < |rest| && Truthy(Cell(row, rest[k])) {
        var k :| 0 <= k < |rest| && v == Cell(row, rest[k]) && Truthy(v) &&
                 forall j :: 0 <= j < k ==> !Truthy(Cell(row, rest[j]));
        assert columns[k + 1] == rest[k];
        assert forall j :: 1 <= j < k + 1 ==> columns[j] == rest[j - 1];
      } else {
        assert forall k :: 1 <= k < |columns| ==> columns[k] == rest[k - 1];
      }
    }
  }

  /** `!v || typeof v !== 'string' || !v.trim()` is false: text holding a non-space character. */
  predicate TextGiven(v: JsValue) {
    v.Str? && Trim(v.s) != ""
  }

  /** A character of `[a-zA-Z\s'-\.]`, where `'-\.` is the range from `'` to `.`. */
  predicate NameChar(c: char) {
    ('a' <= c <= 'z') || ('A' <= c <= 'Z') || IsSpace(c) || ('\'' <= c <= '.')
  }

  /** `/^[a-zA-Z\s'-\.]+$/`. */
  predicate NameOk(s: string) {
    s != [] && forall i :: 0 <= i < |s| ==> NameChar(s[i])
  }

  /** `[^\s@]`. */
  predicate AddressChar(c: char) {
    !IsSpace(c) && c != '@'
  }

  /**
   * `/^[^\s@]+@[^\s@]+\.[^\s@]+$/`: one `@` with text before it, and after it a `.` with text
   * on both sides; no whitespace anywhere.
   */
  predicate EmailOk(s: string) {
    exists at, dot :: 0 < at && at + 1 < dot < |s| - 1 && s[at] == '@' && s[dot] == '.' &&
      forall k :: 0 <= k < |s| && k != at ==> AddressChar(s[k])
  }

  /** A character of `[\d\s\-\(\)]`. */
  predicate PhoneChar(c: char) {
    IsDigit(c) || IsSpace(c) || c == '-' || c == '(' || c == ')'
  }

  /** `[\d\s\-\(\)]{7,20}` over all of `s`. */
  predicate PhoneBody(s: string) {
    7 <= |s| <= 20 && forall i :: 0 <= i < |s| ==> PhoneChar(s[i])
  }

  /** `/^[\+]?[\d\s\-\(\)]{7,20}$/`. */
  predicate PhoneOk(s: string) {
    PhoneBody(s) || (s != [] && s[0] == '+' && PhoneBody(s[1..]))
  }

  datatype RowError =
    | NameRequired
    | EmailRequired
    | PhoneRequired
    | NameTooShort
    | NameInvalid
    | EmailInvalid
    | PhoneInvalid

  /** A row that passes every check, with its cleaned fields, or the first check it fails. */
  datatype RowCheck = Clean(name: string, email: string, phone: string) | Rejected(error: RowError)

  /** The three values a row is read as: its first truthy name, email and phone cells. */
  function NameCell(row: Row): JsValue { FirstTruthy(row, NameColumns) }
  function EmailCell(row: Row): JsValue { FirstTruthy(row, EmailColumns) }
  function PhoneCell(row: Row): JsValue { FirstTruthy(row, PhoneColumns) }

  /**
   * The checks of one row's values, in the loop's order: the three fields must be text that is
   * not all whitespace; then the trimmed name, the trimmed, lower-cased email and the trimmed
   * phone go through `CheckCleaned`.
   */
  function CheckFields(name: JsValue, email: JsValue, phone: JsValue): RowCheck {
    if !TextGiven(name) then Rejected(NameRequired)
    else if !TextGiven(email) then Rejected(EmailRequired)
    else if !TextGiven(phone) then Rejected(PhoneRequired)
    else CheckCleaned(Trim(name.s), NormalEmail(email.s), Trim(phone.s))
  }

  /**
   * The format checks on cleaned values: the name must be at least two characters of the name
   * class, the email must look like an address and the phone like a number.
   */
  function CheckCleaned(n: string, e: string, p: string): (r: RowCheck)
    ensures r.Clean? ==> r == Clean(n, e, p) && ValidFields(n, e, p)
  {
    if |n| < 2 then Rejected(NameTooShort)
    else if !NameOk(n) then Rejected(NameInvalid)
    else if !EmailOk(e) then Rejected(EmailInvalid)
    else if !PhoneOk(p) then Rejected(PhoneInvalid)
    else Clean(n, e, p)
  }

  function CheckRow(row: Row): RowCheck {
    CheckFields(NameCell(row), EmailCell(row), PhoneCell(row))
  }

  /** Why a row was not imported: a failed check, or an address already stored for the named student. */
  datatype IssueKind = Invalid(error: RowError) | AlreadyExists(owner: string)

  /** An entry of `errors`: the sheet row number, the name and email shown for it, and why. */
  datatype RowIssue = RowIssue(row: nat, name: JsValue, email: JsValue, kind: IssueKind)

  /** An entry of `processed`: the sheet row number, the new student's identity and its stored fields. */
  datatype AddedRow = AddedRow(row: nat, studentId: int, name: string, email: string, phone: string)

  datatype ImportReport = ImportReport(total: nat, successful: nat, failed: nat, duplicates: nat,
                                       errors: seq<RowIssue>, processed: seq<AddedRow>)

  /** The sheet row number of the `i`-th data row: the header is row 1. */
  function RowNumber(i: nat): nat {
    i + 2
  }

  /** The name and email shown for a failed row: `row['Full Name'] || row['Name'] || 'N/A'` and the like. */
  function ShownOr(row: Row, columns: seq<string>): JsValue {
    var v := FirstTruthy(row, columns);
    if Truthy(v) then v else Str("N/A")
  }

  /** The name stored for the address `email`: that of the first row of the duplicate look-up. */
  function OwnerName(db: Db, email: string): string
    requires StudentsWithEmail(db, email) != {}
  {
    db.students[First(StudentsWithEmail(db, email)).value].name
  }

  /** The fields of an imported student meet every rule of `CheckRow`. */
  predicate ValidFields(name: string, email: string, phone: string) {
    2 <= |name| && NameOk(name) && EmailOk(email) && PhoneOk(phone)
  }

  /**
   * Values that pass are stored as the trimmed name and phone text and the normal form of the
   * email text, and those meet every rule.
   */
  lemma CheckFieldsClean(name: JsValue, email: JsValue, phone: JsValue)
    requires CheckFields(name, email, phone).Clean?
    ensures name.Str? && email.Str? && phone.Str?
    ensures var c := CheckFields(name, email, phone);
            ValidFields(c.name, c.email, c.phone) &&
            c.name == Trim(name.s) && c.email == NormalEmail(email.s) && c.phone == Trim(phone.s)
  {
    assert TextGiven(name) && TextGiven(email) && TextGiven(phone);
  }

  /**
   * What passes is already in stored form: the cleaned values `CheckFieldsClean` names do not
   * change when they are trimmed or normalised again.
   */
  lemma CleanedValuesFixed(name: string, email: string, phone: string)
    ensures Trim(Trim(name)) == Trim(name)
    ensures NormalEmail(NormalEmail(email)) == NormalEmail(email)
    ensures Trim(Trim(phone)) == Trim(phone)
  {
    TrimTwice(name);
    TrimTwice(phone);
    NormalEmailIdempotent(email);
  }

  lemma TrimTwice(s: string)
    ensures Trim(Trim(s)) == Trim(s)
  {
    TrimmedIsFixed(Trim(s));
  }

  /** A phone stored as a number by the spreadsheet is not text, so the row is refused. */
  lemma NumericPhoneRefused(row: Row, n: JsNumber)
    requires TextGiven(NameCell(row)) && TextGiven(EmailCell(row))
    requires Cell(row, "Phone Number") == Num(n) && n != 0
    ensures CheckRow(row) == Rejected(PhoneRequired)
  {
  }

  /** The name class holds the punctuation from `'` to `.`, so brackets, `*`, `+` and `,` pass. */
  lemma NameClassAdmitsPunctuation()
    ensures NameOk("Ann (Jr.)") && NameOk("A*B+C,D")
    ensures !NameOk("Ann_B") && !NameOk("Ann!")
  {
    assert "Ann_B"[3] == '_';
    assert "Ann!"[3] == '!';
  }

  /** An address that passes holds exactly one `@`. */
  lemma AddressHasOneAt(s: string, i: int, j: int)
    requires EmailOk(s)
    requires 0 <= i < |s| && 0 <= j < |s| && s[i] == '@' && s[j] == '@'
    ensures i == j
  {
    var at, dot :| 0 < at && at + 1 < dot < |s| - 1 && s[at] == '@' && s[dot] == '.' &&
                   forall k :: 0 <= k < |s| && k != at ==> AddressChar(s[k]);
    assert i == at && j == at;
  }

  /** A plain address passes; one with a second `@` or without a `.` after the `@` does not. */
  lemma AddressExamples()
    ensures EmailOk("ann@example.com")
    ensures !EmailOk("ann@b@example.com")
    ensures !EmailOk("ann@example")
  {
    var s := "ann@example.com";
    assert s[3] == '@' && s[11] == '.';
    var t := "ann@b@example.com";
    assert t[3] == '@' && t[5] == '@';
    if EmailOk(t) {
      AddressHasOneAt(t, 3, 5);
    }
    var u := "ann@example";
    assert forall k :: 0 <= k < |u| ==> u[k] != '.';
  }

  /** The report and database after one row whose checks came out as `check`. */
  function HandleCheck(db: Db, rep: ImportReport, check: RowCheck, shownName: JsValue, shownEmail: JsValue,
                       i: nat, now: Time): (Db, ImportReport)
  {
    match check
    case Rejected(err) =>
      (db, rep.(failed := rep.failed + 1,
                errors := rep.errors + [RowIssue(RowNumber(i), shownName, shownEmail, Invalid(err))]))
    case Clean(n, e, p) =>
      if StudentsWithEmail(db, e) != {} then
        (db, rep.(duplicates := rep.duplicates + 1,
                  errors := rep.errors + [RowIssue(RowNumber(i), Str(n), Str(e), AlreadyExists(OwnerName(db, e)))]))
      else
        var ins := InsertStudent(db, n, e, p, now);
        (ins.db, rep.(successful := rep.successful + 1,
                      processed := rep.processed + [AddedRow(RowNumber(i), ins.id, n, e, p)]))
  }

  /**
   * The row at index `i`: a failed check is counted as failed and shown under the first two
   * name and email aliases, or `N/A`; an address already stored is counted as a duplicate and
   * names the student holding it; any other row is inserted.
   */
  function ImportRow(db: Db, rep: ImportReport, row: Row, i: nat, now: Time): (Db, ImportReport) {
    HandleCheck(db, rep, CheckRow(row), ShownOr(row, ["Full Name", "Name"]), ShownOr(row, ["Email Address", "Email"]), i, now)
  }

  /** The loop over `rows` from index `i` on. */
  function ImportFrom(db: Db, rows: seq<Row>, i: nat, rep: ImportReport, now: Time): (Db, ImportReport)
    requires i <= |rows|
    decreases |rows| - i
  {
    if i == |rows| then (db, rep)
    else
      var next := ImportRow(db, rep, rows[i], i, now);
      ImportFrom(next.0, rows, i + 1, next.1, now)
  }

  /** The report before any row: `total` is the number of data rows. */
  function StartReport(rows: seq<Row>): ImportReport {
    ImportReport(|rows|, 0, 0, 0, [], [])
  }

  datatype ImportOutcome = EmptyFile | Imported(report: ImportReport)

  /** `processExcelFile`: a sheet with no data row is refused; otherwise every row is handled in turn. */
  function ProcessEffect(db: Db, rows: seq<Row>, now: Time): Effect<ImportOutcome> {
    if rows == [] then Effect(EmptyFile, db)
    else
      var r := ImportFrom(db, rows, 0, StartReport(rows), now);
      Effect(Imported(r.1), r.0)
  }

  /** The import loop over the store: the duplicate look-up and the insert are one statement each. */
  method ProcessExcelFile(store: Database.Store, rows: seq<Row>, now: Time) returns (o: ImportOutcome)
    modifies store
    ensures Effect(o, store.State()) == ProcessEffect(old(store.State()), rows, now)
  {
    if rows == [] {
      return EmptyFile;
    }
    var rep := StartReport(rows);
    for i := 0 to |rows|
      invariant ImportFrom(store.State(), rows, i, rep, now) == ImportFrom(old(store.State()), rows, 0, StartReport(rows), now)
    {
      var row := rows[i];
      ghost var before, repBefore := store.State(), rep;
      var check := CheckRow(row);
      if check.Rejected? {
        rep := rep.(failed := rep.failed + 1,
                    errors := rep.errors + [RowIssue(RowNumber(i), ShownOr(row, ["Full Name", "Name"]),
                                                     ShownOr(row, ["Email Address", "Email"]), Invalid(check.error))]);
      } else if StudentsWithEmail(store.State(), check.email) != {} {
        var owner := OwnerName(store.State(), check.email);
        rep := rep.(duplicates := rep.duplicates + 1,
                    errors := rep.errors + [RowIssue(RowNumber(i), Str(check.name), Str(check.email), AlreadyExists(owner))]);
      } else {
        var id := store.InsertStudent(check.name, check.email, check.phone, now);
        rep := rep.(successful := rep.successful + 1,
                    processed := rep.processed + [AddedRow(RowNumber(i), id, check.name, check.email, check.phone)]);
      }
      assert (store.State(), rep) == ImportRow(before, repBefore, row, i, now);
    }
    o := Imported(rep);
  }

  // ---------------------------------------------------------------- what an import reports

  /** The counters add up to the rows handled, and the two lists are as long as their counters. */
  predicate Tallied(rep: ImportReport, handled: nat) {
    rep.successful + rep.failed + rep.duplicates == handled &&
    |rep.errors| == rep.failed + rep.duplicates && |rep.processed| == rep.successful
  }

  /** Every listed row number is that of a handled row, each list is in sheet order, and no row is in both. */
  predicate Numbered(rep: ImportReport, handled: nat) {
    (forall k :: 0 <= k < |rep.errors| ==> 2 <= rep.errors[k].row < handled + 2) &&
    (forall k :: 0 <= k < |rep.processed| ==> 2 <= rep.processed[k].row < handled + 2) &&
    (forall a, b :: 0 <= a < b < |rep.errors| ==> rep.errors[a].row < rep.errors[b].row) &&
    (forall a, b :: 0 <= a < b < |rep.processed| ==> rep.processed[a].row < rep.processed[b].row) &&
    (forall a, b :: 0 <= a < |rep.errors| && 0 <= b < |rep.processed| ==> rep.errors[a].row != rep.processed[b].row)
  }

  /** Listing row `i` as an issue keeps the numbering. */
  lemma IssueNumbered(rep: ImportReport, issue: RowIssue, i: nat)
    requires Numbered(rep, i) && issue.row == RowNumber(i)
    ensures Numbered(rep.(errors := rep.errors + [issue]), i + 1)
  {
    var errors := rep.errors + [issue];
    assert forall k :: 0 <= k < |rep.errors| ==> errors[k] == rep.errors[k];
  }

  /** Listing row `i` as added keeps the numbering. */
  lemma AddedNumbered(rep: ImportReport, added: AddedRow, i: nat)
    requires Numbered(rep, i) && added.row == RowNumber(i)
    ensures Numbered(rep.(processed := rep.processed + [added]), i + 1)
  {
    var processed := rep.processed + [added];
    assert forall k :: 0 <= k < |rep.processed| ==> processed[k] == rep.processed[k];
  }

  lemma HandleCheckTallies(db: Db, rep: ImportReport, check: RowCheck, shownName: JsValue, shownEmail: JsValue,
                           i: nat, now: Time)
    requires Tallied(rep, i) && Numbered(rep, i)
    ensures var rep' := HandleCheck(db, rep, check, shownName, shownEmail, i, now).1;
            Tallied(rep', i + 1) && Numbered(rep', i + 1) && rep'.total == rep.total
  {
    match check
    case Rejected(err) =>
      IssueNumbered(rep, RowIssue(RowNumber(i), shownName, shownEmail, Invalid(err)), i);
    case Clean(n, e, p) =>
      if StudentsWithEmail(db, e) != {} {
        IssueNumbered(rep, RowIssue(RowNumber(i), Str(n), Str(e), AlreadyExists(OwnerName(db, e))), i);
      } else {
        AddedNumbered(rep, AddedRow(RowNumber(i), InsertStudent(db, n, e, p, now).id, n, e, p), i);
      }
  }

  lemma {:induction false} ImportFromTallies(db: Db, rows: seq<Row>, i: nat, rep: ImportReport, now: Time)
    requires i <= |rows| && Tallied(rep, i) && Numbered(rep, i)
    ensures var rep' := ImportFrom(db, rows, i, rep, now).1;
            Tallied(rep', |rows|) && Numbered(rep', |rows|) && rep'.total == rep.total
    decreases |rows| - i
  {
    if i < |rows| {
      var next := ImportRow(db, rep, rows[i], i, now);
      HandleCheckTallies(db, rep, CheckRow(rows[i]), ShownOr(rows[i], ["Full Name", "Name"]),
                         ShownOr(rows[i], ["Email Address", "Email"]), i, now);
      ImportFromTallies(next.0, rows, i + 1, next.1, now);
    }
  }

  /**
   * An empty sheet is refused and writes nothing; otherwise each data row is counted once as
   * added, failed or duplicate, the counters add up to `total`, which is the number of data rows,
   * and every sheet row number from 2 on is listed at most once, in sheet order.
   */
  lemma ImportReportAddsUp(db: Db, rows: seq<Row>, now: Time)
    ensures var e := ProcessEffect(db, rows, now);
            (e.result.EmptyFile? <==> rows == []) && (rows == [] ==> e.db == db) &&
            (e.result.Imported? ==>
               e.result.report.total == |rows| && Tallied(e.result.report, |rows|) && Numbered(e.result.report, |rows|))
  {
    if rows != [] {
      ImportFromTallies(db, rows, 0, StartReport(rows), now);
    }
  }

  // ---------------------------------------------------------------- what an import writes

  /** The identities of the students the report lists as added. */
  function AddedIds(added: seq<AddedRow>): set<int> {
    set a | a in added :: a.studentId
  }

  /**
   * `db` is `db0` with exactly the listed students added: see `KeepsStored` and `Listed`.
   */
  predicate AddsListed(db0: Db, db: Db, added: seq<AddedRow>, now: Time) {
    KeepsStored(db0, db) && Listed(db0, db, added, now)
  }

  /** Nothing stored in `db0` changes in `db`, and the slots and interviews are untouched. */
  predicate KeepsStored(db0: Db, db: Db) {
    db.slots == db0.slots && db.interviews == db0.interviews &&
    db.nextSlotId == db0.nextSlotId && db.nextInterviewId == db0.nextInterviewId &&
    db0.nextStudentId <= db.nextStudentId &&
    (forall id :: id in db0.students ==> id in db.students && db.students[id] == db0.students[id])
  }

  /**
   * The students of `db` are those of `db0` and the listed ones; every listed student is new,
   * holds the row's values and was created now, and the identities increase in list order.
   */
  predicate Listed(db0: Db, db: Db, added: seq<AddedRow>, now: Time) {
    db.students.Keys == db0.students.Keys + AddedIds(added) &&
    (forall k :: 0 <= k < |added| ==>
       db0.nextStudentId <= added[k].studentId < db.nextStudentId &&
       added[k].studentId in db.students &&
       db.students[added[k].studentId] == Student(added[k].name, added[k].email, added[k].phone, None, None, now)) &&
    (forall a, b :: 0 <= a < b < |added| ==> added[a].studentId < added[b].studentId)
  }

  /** Every added row meets every rule of `CheckRow`. */
  predicate AllValid(added: seq<AddedRow>) {
    forall k :: 0 <= k < |added| ==> ValidFields(added[k].name, added[k].email, added[k].phone)
  }

  lemma AddedIdsAppend(added: seq<AddedRow>, a: AddedRow)
    ensures AddedIds(added + [a]) == AddedIds(added) + {a.studentId}
  {
    var added' := added + [a];
    forall x | x in AddedIds(added') ensures x in AddedIds(added) + {a.studentId} {
      var r :| r in added' && r.studentId == x;
      if r != a {
        assert r in added;
      }
    }
    forall x | x in AddedIds(added) ensures x in AddedIds(added') {
      var r :| r in added && r.studentId == x;
      assert r in added';
    }
    assert added'[|added|] == a;
  }

  /** Inserting the next student and listing it keeps the listing exact. */
  lemma InsertAdds(db0: Db, db: Db, added: seq<AddedRow>, a: AddedRow, now: Time)
    requires IdsInRange(db) && AddsListed(db0, db, added, now)
    requires a.studentId == db.nextStudentId
    ensures var db' := InsertStudent(db, a.name, a.email, a.phone, now).db;
            IdsInRange(db') && AddsListed(db0, db', added + [a], now)
  {
    var db' := InsertStudent(db, a.name, a.email, a.phone, now).db;
    assert a.studentId !in db.students;
    assert KeepsStored(db0, db');
    InsertListed(db0, db, added, a, now);
  }

  lemma InsertListed(db0: Db, db: Db, added: seq<AddedRow>, a: AddedRow, now: Time)
    requires Listed(db0, db, added, now) && a.studentId == db.nextStudentId && a.studentId !in db.students
    requires db0.nextStudentId <= db.nextStudentId
    ensures Listed(db0, InsertStudent(db, a.name, a.email, a.phone, now).db, added + [a], now)
  {
    var db' := InsertStudent(db, a.name, a.email, a.phone, now).db;
    var id := a.studentId;
    var added' := added + [a];
    assert db'.students == db.students[id := Student(a.name, a.email, a.phone, None, None, now)];
    AddedIdsAppend(added, a);
    forall k | 0 <= k < |added'|
      ensures db0.nextStudentId <= added'[k].studentId < db'.nextStudentId
      ensures added'[k].studentId in db'.students
      ensures db'.students[added'[k].studentId] == Student(added'[k].name, added'[k].email, added'[k].phone, None, None, now)
    {
      if k < |added| {
        assert added'[k] == added[k];
      }
    }
    forall x, y | 0 <= x < y < |added'| ensures added'[x].studentId < added'[y].studentId {
      if y < |added| {
        assert added'[x] == added[x] && added'[y] == added[y];
      } else {
        assert added'[x] == added[x];
      }
    }
  }

  lemma HandleCheckAdds(db0: Db, db: Db, rep: ImportReport, check: RowCheck, shownName: JsValue,
                        shownEmail: JsValue, i: nat, now: Time)
    requires IdsInRange(db) && AddsListed(db0, db, rep.processed, now)
    ensures var next := HandleCheck(db, rep, check, shownName, shownEmail, i, now);
            IdsInRange(next.0) && AddsListed(db0, next.0, next.1.processed, now)
  {
    if check.Clean? && StudentsWithEmail(db, check.email) == {} {
      var a := AddedRow(RowNumber(i), db.nextStudentId, check.name, check.email, check.phone);
      InsertAdds(db0, db, rep.processed, a, now);
    }
  }

  lemma {:induction false} ImportFromAdds(db0: Db, db: Db, rows: seq<Row>, i: nat, rep: ImportReport, now: Time)
    requires i <= |rows| && IdsInRange(db) && AddsListed(db0, db, rep.processed, now)
    ensures var r := ImportFrom(db, rows, i, rep, now);
            IdsInRange(r.0) && AddsListed(db0, r.0, r.1.processed, now)
    decreases |rows| - i
  {
    if i < |rows| {
      var next := ImportRow(db, rep, rows[i], i, now);
      HandleCheckAdds(db0, db, rep, CheckRow(rows[i]), ShownOr(rows[i], ["Full Name", "Name"]),
                      ShownOr(rows[i], ["Email Address", "Email"]), i, now);
      ImportFromAdds(db0, next.0, rows, i + 1, next.1, now);
    }
  }

  lemma HandleCheckValid(db: Db, rep: ImportReport, check: RowCheck, shownName: JsValue, shownEmail: JsValue,
                         i: nat, now: Time)
    requires AllValid(rep.processed)
    requires check.Clean? ==> ValidFields(check.name, check.email, check.phone)
    ensures AllValid(HandleCheck(db, rep, check, shownName, shownEmail, i, now).1.processed)
  {
    var added := HandleCheck(db, rep, check, shownName, shownEmail, i, now).1.processed;
    if added != rep.processed {
      assert added == rep.processed + [added[|added| - 1]];
      forall k | 0 <= k < |added| ensures ValidFields(added[k].name, added[k].email, added[k].phone) {
        if k < |rep.processed| {
          assert added[k] == rep.processed[k];
        }
      }
    }
  }

  lemma {:induction false} ImportFromValid(db: Db, rows: seq<Row>, i: nat, rep: ImportReport, now: Time)
    requires i <= |rows| && AllValid(rep.processed)
    ensures AllValid(ImportFrom(db, rows, i, rep, now).1.processed)
    decreases |rows| - i
  {
    if i < |rows| {
      var next := ImportRow(db, rep, rows[i], i, now);
      if CheckRow(rows[i]).Clean? {
        CheckFieldsClean(NameCell(rows[i]), EmailCell(rows[i]), PhoneCell(rows[i]));
      }
      HandleCheckValid(db, rep, CheckRow(rows[i]), ShownOr(rows[i], ["Full Name", "Name"]),
                       ShownOr(rows[i], ["Email Address", "Email"]), i, now);
      ImportFromValid(next.0, rows, i + 1, next.1, now);
    }
  }

  /**
   * An import only adds students: exactly those its report lists, new, with values that meet
   * every rule; every student stored before, and every slot and interview, is left as it was.
   */
  lemma ImportAddsOnlyListed(db: Db, rows: seq<Row>, now: Time)
    requires IdsInRange(db)
    ensures var e := ProcessEffect(db, rows, now);
            var added := if e.result.Imported? then e.result.report.processed else [];
            AddsListed(db, e.db, added, now) && AllValid(added)
  {
    if rows != [] {
      assert AddedIds([]) == {};
      ImportFromAdds(db, db, rows, 0, StartReport(rows), now);
      ImportFromValid(db, rows, 0, StartReport(rows), now);
    }
  }

  lemma HandleCheckKeepsConsistent(db: Db, rep: ImportReport, check: RowCheck, shownName: JsValue,
                                   shownEmail: JsValue, i: nat, now: Time)
    requires Consistent(db) && EmailsUnique(db)
    ensures var next := HandleCheck(db, rep, check, shownName, shownEmail, i, now).0;
            Consistent(next) && EmailsUnique(next)
  {
    if check.Clean? && StudentsWithEmail(db, check.email) == {} {
      StudentController.InsertKeepsEmailsUnique(db, check.name, check.email, check.phone, now);
      StudentController.InsertStudentKeepsConsistent(db, check.name, check.email, check.phone, now);
    }
  }

  lemma {:induction false} ImportFromKeepsConsistent(db: Db, rows: seq<Row>, i: nat, rep: ImportReport, now: Time)
    requires i <= |rows| && Consistent(db) && EmailsUnique(db)
    ensures var r := ImportFrom(db, rows, i, rep, now).0;
            Consistent(r) && EmailsUnique(r)
    decreases |rows| - i
  {
    if i < |rows| {
      var next := ImportRow(db, rep, rows[i], i, now);
      HandleCheckKeepsConsistent(db, rep, CheckRow(rows[i]), ShownOr(rows[i], ["Full Name", "Name"]),
                                 ShownOr(rows[i], ["Email Address", "Email"]), i, now);
      ImportFromKeepsConsistent(next.0, rows, i + 1, next.1, now);
    }
  }

  /** An import keeps the database consistent and never stores an address twice. */
  lemma ImportKeepsConsistent(db: Db, rows: seq<Row>, now: Time)
    requires Consistent(db) && EmailsUnique(db)
    ensures Consistent(ProcessEffect(db, rows, now).db) && EmailsUnique(ProcessEffect(db, rows, now).db)
  {
    if rows != [] {
      ImportFromKeepsConsistent(db, rows, 0, StartReport(rows), now);
    }
  }

  /**
   * Two rows of one sheet are never both added under the same address, and no added row
   * reuses an address stored before the import.
   */
  lemma ImportedAddressesFresh(db: Db, rows: seq<Row>, now: Time)
    requires Consistent(db) && EmailsUnique(db)
    ensures var e := ProcessEffect(db, rows, now);
            e.result.Imported? ==>
              var added := e.result.report.processed;
              (forall a, b :: 0 <= a < b < |added| ==> added[a].email != added[b].email) &&
              (forall k, id :: 0 <= k < |added| && id in db.students ==> db.students[id].email != added[k].email)
  {
    var e := ProcessEffect(db, rows, now);
    ImportAddsOnlyListed(db, rows, now);
    ImportKeepsConsistent(db, rows, now);
    if e.result.Imported? {
      var added := e.result.report.processed;
      forall a, b | 0 <= a < b < |added| ensures added[a].email != added[b].email {
        assert e.db.students[added[a].studentId].email == added[a].email;
        assert e.db.students[added[b].studentId].email == added[b].email;
      }
      forall k, id | 0 <= k < |added| && id in db.students ensures db.students[id].email != added[k].email {
        assert e.db.students[id] == db.students[id];
        assert e.db.students[added[k].studentId].email == added[k].email;
        assert added[k].studentId !in db.students;
      }
    }
  }

  // ---------------------------------------------------------------- the header check

  /** A header cell `h` with `names.includes(h)`: strict equality with one of the names. */
  predicate HasColumn(headers: seq<JsValue>, names: seq<string>) {
    exists k :: 0 <= k < |headers| && headers[k].Str? && headers[k].s in names
  }

  /** A text header that mentions a resume: `resume` or `cv` in its lower-cased text. */
  predicate ResumeLike(h: JsValue) {
    h.Str? && (Contains(ToLower(h.s), "resume") || Contains(ToLower(h.s), "cv"))
  }

  /** `headers.filter(h => h && (h.toLowerCase().includes('resume') || ...))` over text headers. */
  function ResumeColumns(headers: seq<JsValue>): (r: seq<JsValue>)
    ensures forall h :: h in r <==> h in headers && Truthy(h) && ResumeLike(h)
    ensures |r| <= |headers|
  {
    if headers == [] then []
    else
      var rest := ResumeColumns(headers[1..]);
      assert forall h :: h in headers <==> h == headers[0] || h in headers[1..];
      if Truthy(headers[0]) && ResumeLike(headers[0]) then [headers[0]] + rest else rest
  }

  /**
   * The scan keeps the headers' order: scanning two runs of headers one after the other gives
   * the first run's resume columns followed by the second's.
   */
  lemma {:induction false} ResumeColumnsAppend(a: seq<JsValue>, b: seq<JsValue>)
    ensures ResumeColumns(a + b) == ResumeColumns(a) + ResumeColumns(b)
  {
    if a != [] {
      var ab := a + b;
      assert ab[0] == a[0] && ab[1..] == a[1..] + b;
      ResumeColumnsCons(ab);
      ResumeColumnsCons(a);
      ResumeColumnsAppend(a[1..], b);
    } else {
      assert a + b == b;
    }
  }

  /** The scan of a non-empty run: its first header, when kept, then the scan of the rest. */
  lemma ResumeColumnsCons(headers: seq<JsValue>)
    requires headers != []
    ensures ResumeColumns(headers) ==
              (if Truthy(headers[0]) && ResumeLike(headers[0]) then [headers[0]] else []) + ResumeColumns(headers[1..])
  {
  }


  datatype StructureCheck =
    | EmptySheet
    | MissingName
    | MissingEmail
    | MissingPhone
    | Unreadable
    | Valid(rowCount: nat, headers: seq<JsValue>, resumeColumns: seq<JsValue>)

  /**
   * `validateExcelStructure` on the sheet read as arrays: the first row is the header. A header
   * that is truthy but not text has no `toLowerCase`, so the resume scan throws and the file is
   * reported invalid.
   */
  function ValidateStructure(data: seq<seq<JsValue>>): (r: StructureCheck)
    ensures r.Valid? <==>
              data != [] && HasColumn(data[0], NameColumns) && HasColumn(data[0], EmailColumns) &&
              HasColumn(data[0], PhoneColumns) && forall k :: 0 <= k < |data[0]| && Truthy(data[0][k]) ==> data[0][k].Str?
    ensures r.Valid? ==> r.rowCount + 1 == |data| && r.headers == data[0] &&
                         forall h :: h in r.resumeColumns <==> h in data[0] && Truthy(h) && ResumeLike(h)
    ensures r == EmptySheet <==> data == []
    ensures r == Unreadable <==>
              data != [] && HasColumn(data[0], NameColumns) && HasColumn(data[0], EmailColumns) &&
              HasColumn(data[0], PhoneColumns) && exists k :: 0 <= k < |data[0]| && Truthy(data[0][k]) && !data[0][k].Str?
  {
    if data == [] then EmptySheet
    else
      var headers := data[0];
      if !HasColumn(headers, NameColumns) then MissingName
      else if !HasColumn(headers, EmailColumns) then MissingEmail
      else if !HasColumn(headers, PhoneColumns) then MissingPhone
      else if exists k :: 0 <= k < |headers| && Truthy(headers[k]) && !headers[k].Str? then Unreadable
      else Valid(|data| - 1, headers, ResumeColumns(headers))
  }

  /**
   * The missing column groups are reported in the order name, email, phone: a sheet is told about
   * a missing email column only when it has a name column, and about phone only when it has both.
   */
  lemma MissingColumnsInOrder(data: seq<seq<JsValue>>)
    requires data != []
    ensures ValidateStructure(data) == MissingName <==> !HasColumn(data[0], NameColumns)
    ensures ValidateStructure(data) == MissingEmail <==>
              HasColumn(data[0], NameColumns) && !HasColumn(data[0], EmailColumns)
    ensures ValidateStructure(data) == MissingPhone <==>
              HasColumn(data[0], NameColumns) && HasColumn(data[0], EmailColumns) && !HasColumn(data[0], PhoneColumns)
  {
  }
}
