/**
 * The three tables the interview scheduler keeps (Students, InterviewSlots, Interviews) as maps
 * from identity to row, and each SQL statement the controllers issue as a function from the
 * database before the statement to the database after it, together with what the driver
 * reports back (the new identity, or whether any row was affected).
 *
 * Times are whole minutes; identities start at 1 and grow by one per insert. Where the source
 * reads the first row of a query that fixes no order, the row taken is the one with the least
 * identity.
 */
module Tables {
  import opened Wrappers
  import Ordering
  import JsText

  /** A point in time in whole minutes. */
  type Time = int

  /** The values the Interviews.Status column takes. */
  datatype Status = Invited | Scheduled | Completed | Cancelled | NoShow

  /** The text stored in the Status column. */
  function StatusName(s: Status): string {
    match s
    case Invited => "Invited"
    case Scheduled => "Scheduled"
    case Completed => "Completed"
    case Cancelled => "Cancelled"
    case NoShow => "No-Show"
  }

  /** The status a text names, if it names one. */
  function StatusOf(name: string): (r: Option<Status>)
    ensures forall s :: r == Some(s) <==> StatusName(s) == name
  {
    if name == "Invited" then Some(Invited)
    else if name == "Scheduled" then Some(Scheduled)
    else if name == "Completed" then Some(Completed)
    else if name == "Cancelled" then Some(Cancelled)
    else if name == "No-Show" then Some(NoShow)
    else None
  }

  datatype Student = Student(
    name: string,
    email: string,
    phone: string,
    resumeLink: Option<string>,
    resumeFileName: Option<string>,
    createdAt: Time)

  datatype Slot = Slot(
    time: Time,
    interviewer: Option<string>,
    meetingLink: Option<string>,
    isBooked: bool,
    bookedBy: Option<int>)

  datatype Interview = Interview(
    studentId: int,
    slotId: Option<int>,
    token: Option<string>,
    tokenExpiredAt: Option<Time>,
    status: Status,
    interviewer: Option<string>,
    meetingLink: Option<string>,
    notes: Option<string>,
    createdAt: Time,
    updatedAt: Option<Time>)

  datatype Db = Db(
    students: map<int, Student>,
    slots: map<int, Slot>,
    interviews: map<int, Interview>,
    nextStudentId: int,
    nextSlotId: int,
    nextInterviewId: int)

  /** The database before anything is stored. */
  const Empty: Db := Db(map[], map[], map[], 1, 1, 1)

  /** An update or delete: the database after it, and whether it affected any row. */
  datatype Write = Write(db: Db, affected: bool)

  /** An insert: the database after it and the identity given to the new row. */
  datatype Inserted = Inserted(db: Db, id: int)

  /** What a handler answers, and the database after it. */
  datatype Effect<T> = Effect(result: T, db: Db)

  /** A nullable text column in a JavaScript condition: NULL and '' are falsy. */
  predicate Present(v: Option<string>) {
    v.Some? && v.value != ""
  }

  /** A nullable identity column in a JavaScript condition: NULL and 0 are falsy. */
  predicate IdPresent(v: Option<int>) {
    v.Some? && v.value != 0
  }

  /** The range of an `sql.Int` parameter; the driver throws for a value outside it, or for NaN. */
  predicate IsInt32(n: int) {
    -0x8000_0000 <= n < 0x8000_0000
  }

  /**
   * The identities of an `IN (...)` list built from request values: each is read with
   * `parseInt` and sent as an `sql.Int`, so one that is not a number or lies outside the
   * 32-bit range makes the query throw (`None`).
   */
  function IdList(ids: seq<JsText.JsValue>): Option<set<int>> {
    if ids == [] then Some({})
    else
      var head := JsText.ParseIntValue(ids[0]);
      var rest := IdList(ids[1..]);
      if head.None? || !IsInt32(head.value) || rest.None? then None
      else Some({head.value} + rest.value)
  }

  /** A request value that `parseInt` reads as a 32-bit integer. */
  predicate ReadsAsInt32(v: JsText.JsValue) {
    JsText.ParseIntValue(v).Some? && IsInt32(JsText.ParseIntValue(v).value)
  }

  /**
   * The list is accepted exactly when every value reads as a 32-bit integer, and then it names
   * exactly the values read.
   */
  lemma IdListReads(ids: seq<JsText.JsValue>)
    ensures IdList(ids).Some? <==> forall k :: 0 <= k < |ids| ==> JsText.ParseIntValue(ids[k]).Some? && IsInt32(JsText.ParseIntValue(ids[k]).value)
    ensures IdList(ids).Some? ==> forall x :: x in IdList(ids).value <==> exists k :: 0 <= k < |ids| && JsText.ParseIntValue(ids[k]) == Some(x)
  {
    IdListAccepts(ids);
    if IdList(ids).Some? {
      IdListNames(ids);
    }
  }

  lemma {:induction false} IdListAccepts(ids: seq<JsText.JsValue>)
    ensures IdList(ids).Some? <==> forall k :: 0 <= k < |ids| ==> ReadsAsInt32(ids[k])
  {
    if ids != [] {
      IdListAccepts(ids[1..]);
      assert forall k :: 1 <= k < |ids| ==> ids[k] == ids[1..][k - 1];
    }
  }

  lemma {:induction false} IdListNames(ids: seq<JsText.JsValue>)
    requires IdList(ids).Some?
    ensures forall x :: x in IdList(ids).value <==> exists k :: 0 <= k < |ids| && JsText.ParseIntValue(ids[k]) == Some(x)
  {
    if ids != [] {
      var head := JsText.ParseIntValue(ids[0]).value;
      IdListNames(ids[1..]);
      assert IdList(ids).value == {head} + IdList(ids[1..]).value;
      forall x ensures x in IdList(ids).value <==> exists k :: 0 <= k < |ids| && JsText.ParseIntValue(ids[k]) == Some(x)
      {
        if x in IdList(ids).value && x != head {
          var k :| 0 <= k < |ids[1..]| && JsText.ParseIntValue(ids[1..][k]) == Some(x);
          assert ids[k + 1] == ids[1..][k];
        }
        if exists k :: 0 <= k < |ids| && JsText.ParseIntValue(ids[k]) == Some(x) {
          var k :| 0 <= k < |ids| && JsText.ParseIntValue(ids[k]) == Some(x);
          if k > 0 {
            assert ids[1..][k - 1] == ids[k];
          }
        }
      }
    }
  }

  /** A list of `n` values names at most `n` identities. */
  lemma {:induction false} IdListSize(ids: seq<JsText.JsValue>)
    requires IdList(ids).Some?
    ensures |IdList(ids).value| <= |ids|
  {
    if ids != [] {
      IdListSize(ids[1..]);
    }
  }

  /** The first row of a query over the rows `ids`: the least identity, or nothing. */
  function First(ids: set<int>): (r: Option<int>)
    ensures r.None? <==> ids == {}
    ensures r.Some? ==> r.value in ids && forall j :: j in ids ==> r.value <= j
  {
    if ids == {} then None else Some(Ordering.Least(ids))
  }

  // ---------------------------------------------------------------- queries

  /** The students stored under exactly this email address. */
  function StudentsWithEmail(db: Db, email: string): set<int> {
    set id | id in db.students && db.students[id].email == email
  }

  /** The slots that start at exactly this time. */
  function SlotsAt(db: Db, t: Time): set<int> {
    set id | id in db.slots && db.slots[id].time == t
  }

  /** Interviews joined with their student whose InvitationToken is `token`. */
  function TokenRows(db: Db, token: string): set<int> {
    set i | i in db.interviews && db.interviews[i].token == Some(token) &&
            db.interviews[i].studentId in db.students
  }

  /** The Interviews whose SlotId is `sid`. */
  function InterviewsAtSlot(db: Db, sid: int): set<int> {
    set i | i in db.interviews && db.interviews[i].slotId == Some(sid)
  }

  /** The Interviews whose StudentId is `stid`. */
  function InterviewsOfStudent(db: Db, stid: int): set<int> {
    set i | i in db.interviews && db.interviews[i].studentId == stid
  }

  /** The start time of a slot, as the key of `ORDER BY SlotDateTime`. */
  function SlotTime(db: Db): int -> int {
    id => if id in db.slots then db.slots[id].time else 0
  }

  // ---------------------------------------------------------------- Students

  /** An email address in the form it is stored and looked up in: trimmed, then lower-cased. */
  function NormalEmail(email: string): string {
    JsText.ToLower(JsText.Trim(email))
  }

  /** A stored address is already in normal form, so normalising it again finds the same address. */
  lemma NormalEmailIdempotent(email: string)
    ensures NormalEmail(NormalEmail(email)) == NormalEmail(email)
  {
    var t := JsText.Trim(email);
    var l := JsText.ToLower(t);
    if l != [] {
      assert l[0] == JsText.LowerChar(t[0]) && l[|l| - 1] == JsText.LowerChar(t[|t| - 1]);
      JsText.LowerKeepsSpace(t[0]);
      JsText.LowerKeepsSpace(t[|t| - 1]);
    }
    JsText.TrimmedIsFixed(l);
    assert JsText.Trim(l) == l;
    JsText.LowerIdempotent(t);
    assert NormalEmail(l) == JsText.ToLower(l);
  }

  /** No two students share an email address. */
  predicate EmailsUnique(db: Db) {
    forall a, b :: a in db.students && b in db.students && db.students[a].email == db.students[b].email ==> a == b
  }

  /** Stores a new student with no resume, created now, under the next identity. */
  function InsertStudent(db: Db, name: string, email: string, phone: string, now: Time): Inserted {
    var id := db.nextStudentId;
    Inserted(db.(students := db.students[id := Student(name, email, phone, None, None, now)],
                 nextStudentId := id + 1), id)
  }

  /** The rows the resume update selects: unexpired `Invited` interviews holding `token`. */
  function ResumeTargets(db: Db, token: string): set<int> {
    set st | st in db.students && exists i :: i in db.interviews && ResumeTarget(db.interviews[i], token, st)
  }

  predicate ResumeTarget(iv: Interview, token: string, st: int) {
    iv.studentId == st && iv.token == Some(token) && iv.tokenExpiredAt.None? && iv.status == Invited
  }

  /**
   * Sets the resume path and original file name of every student that has an unexpired
   * `Invited` interview holding `token`.
   */
  function SetResumeByToken(db: Db, token: string, link: string, fileName: string): Write {
    var hit := ResumeTargets(db, token);
    Write(db.(students := map st | st in db.students ::
                if st in hit then db.students[st].(resumeLink := Some(link), resumeFileName := Some(fileName))
                else db.students[st]),
          hit != {})
  }

  /** Removes the student with this identity, if there is one. */
  function DeleteStudent(db: Db, id: int): Write {
    Write(db.(students := db.students - {id}), id in db.students)
  }

  /** The students created within `start .. end`, both ends included. */
  function CreatedBetween(db: Db, start: Time, end: Time): set<int> {
    set id | id in db.students && start <= db.students[id].createdAt <= end
  }

  /** The students that have at least one interview. */
  function Interviewed(db: Db): set<int> {
    set i | i in db.interviews :: db.interviews[i].studentId
  }

  /**
   * Removes the students created within `start .. end` that have no interview, and reports how
   * many rows went.
   */
  function DeleteStudentsBetween(db: Db, start: Time, end: Time): (Db, nat) {
    var gone := CreatedBetween(db, start, end) - Interviewed(db);
    (db.(students := db.students - gone), |gone|)
  }

  // ---------------------------------------------------------------- InterviewSlots

  /** Stores a new free slot under the next identity. */
  function InsertSlot(db: Db, t: Time, interviewer: Option<string>, link: Option<string>): Inserted {
    var id := db.nextSlotId;
    Inserted(db.(slots := db.slots[id := Slot(t, interviewer, link, false, None)],
                 nextSlotId := id + 1), id)
  }

  /** Compare-and-set: books the slot for the student only if it exists and is not booked yet. */
  function ClaimSlot(db: Db, sid: int, studentId: int): Write {
    if sid in db.slots && !db.slots[sid].isBooked then
      Write(db.(slots := db.slots[sid := db.slots[sid].(isBooked := true, bookedBy := Some(studentId))]), true)
    else Write(db, false)
  }

  /** Books the slot for the student whatever its current state. */
  function MarkBooked(db: Db, sid: int, studentId: int): Write {
    if sid in db.slots then
      Write(db.(slots := db.slots[sid := db.slots[sid].(isBooked := true, bookedBy := Some(studentId))]), true)
    else Write(db, false)
  }

  /** Clears the booked flag and the booking student of the slot. */
  function FreeSlot(db: Db, sid: int): Write {
    if sid in db.slots then
      Write(db.(slots := db.slots[sid := db.slots[sid].(isBooked := false, bookedBy := None)]), true)
    else Write(db, false)
  }

  /** Removes the slot only if it exists and is not booked. */
  function DeleteSlotIfFree(db: Db, sid: int): Write {
    if sid in db.slots && !db.slots[sid].isBooked then Write(db.(slots := db.slots - {sid}), true)
    else Write(db, false)
  }

  // ---------------------------------------------------------------- Interviews

  /** Stores a new `Invited` interview for the student, holding `token` and no slot. */
  function InsertInterview(db: Db, studentId: int, token: string, now: Time): Inserted {
    var id := db.nextInterviewId;
    Inserted(db.(interviews := db.interviews[id := Interview(studentId, None, Some(token), None, Invited, None, None, None, now, None)],
                 nextInterviewId := id + 1), id)
  }

  /** The rows the booking update selects: those holding `token` whose TokenExpiredAt is NULL. */
  predicate Unexpired(iv: Interview, token: string) {
    iv.token == Some(token) && iv.tokenExpiredAt.None?
  }

  /**
   * Schedules every interview that holds `token` unexpired: it takes the slot, the interviewer
   * and the meeting link, becomes `Scheduled`, and its token expires now.
   */
  function ScheduleByToken(db: Db, token: string, sid: int, interviewer: string, link: string, now: Time): Write {
    Write(db.(interviews := map i | i in db.interviews ::
                if Unexpired(db.interviews[i], token) then
                  db.interviews[i].(slotId := Some(sid), interviewer := Some(interviewer), meetingLink := Some(link),
                                    status := Scheduled, tokenExpiredAt := Some(now), updatedAt := Some(now))
                else db.interviews[i]),
          exists i :: i in db.interviews && Unexpired(db.interviews[i], token))
  }

  /** Cancels one interview: it gives up its slot and records the reason as its notes. */
  function CancelInterview(db: Db, iid: int, reason: string, now: Time): Write {
    if iid in db.interviews then
      Write(db.(interviews := db.interviews[iid := db.interviews[iid].(status := Cancelled, slotId := None,
                                                                      notes := Some(reason), updatedAt := Some(now))]), true)
    else Write(db, false)
  }

  /** Overwrites the status of one interview and nothing else. */
  function SetStatus(db: Db, iid: int, status: Status): Write {
    if iid in db.interviews then
      Write(db.(interviews := db.interviews[iid := db.interviews[iid].(status := status)]), true)
    else Write(db, false)
  }

  /** Removes one interview. */
  function DeleteInterview(db: Db, iid: int): Write {
    Write(db.(interviews := db.interviews - {iid}), iid in db.interviews)
  }

  /** Erases `token` from every interview that holds it. */
  function ClearToken(db: Db, token: string): Write {
    Write(db.(interviews := map i | i in db.interviews ::
                if db.interviews[i].token == Some(token) then db.interviews[i].(token := None)
                else db.interviews[i]),
          exists i :: i in db.interviews && db.interviews[i].token == Some(token))
  }

  // ---------------------------------------------------------------- invariants

  /** Identities are positive and below the next identity of their table. */
  predicate IdsInRange(db: Db) {
    1 <= db.nextStudentId && 1 <= db.nextSlotId && 1 <= db.nextInterviewId &&
    (forall id :: id in db.students ==> 1 <= id < db.nextStudentId) &&
    (forall id :: id in db.slots ==> 1 <= id < db.nextSlotId) &&
    (forall id :: id in db.interviews ==> 1 <= id < db.nextInterviewId)
  }

  /** IsBooked and BookedByStudentId agree on every slot. */
  predicate BookingFlagsAgree(db: Db) {
    forall s :: s in db.slots ==> (db.slots[s].isBooked <==> db.slots[s].bookedBy.Some?)
  }

  /** An interview that holds a slot holds an existing slot, booked by its own student, through a spent token. */
  predicate HeldSlotsBooked(db: Db) {
    forall i :: i in db.interviews && db.interviews[i].slotId.Some? ==>
      var iv := db.interviews[i];
      iv.slotId.value in db.slots && db.slots[iv.slotId.value].isBooked &&
      db.slots[iv.slotId.value].bookedBy == Some(iv.studentId) && iv.tokenExpiredAt.Some?
  }

  /** No slot is held by two interviews. */
  predicate OnePerSlot(db: Db) {
    forall i, j ::
      i in db.interviews && j in db.interviews && db.interviews[i].slotId.Some? &&
      db.interviews[i].slotId == db.interviews[j].slotId
      ==> i == j
  }

  /** Every interview belongs to an existing student. */
  predicate StudentsExist(db: Db) {
    forall i :: i in db.interviews ==> db.interviews[i].studentId in db.students
  }

  /** No invitation token is held by two interviews. */
  predicate TokensUnique(db: Db) {
    forall i, j ::
      i in db.interviews && j in db.interviews && db.interviews[i].token.Some? &&
      db.interviews[i].token == db.interviews[j].token
      ==> i == j
  }

  /** What every handler of the scheduler keeps true of the database. */
  predicate Consistent(db: Db) {
    IdsInRange(db) && BookingFlagsAgree(db) && HeldSlotsBooked(db) && OnePerSlot(db) &&
    StudentsExist(db) && TokensUnique(db)
  }

  /** The empty database is consistent. */
  lemma EmptyConsistent()
    ensures Consistent(Empty)
  {
  }
}
