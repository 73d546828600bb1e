/**
 * The student handlers that read and write single students: adding one, the invitation page's
 * look-up by token, the resume upload through the token, and the two deletes.
 *
 * The token look-up joins Students with Interviews on the token; the handlers read the first
 * row (the least interview identity) and apply their gates to it.
 */
module StudentController {
  import opened Wrappers
  import opened JsText
  import opened Tables
  import SlotBooking
  import Database

  // ---------------------------------------------------------------- addStudent

  datatype AddOutcome =
    | FieldsRequired
    | EmailTaken
    | AddFailed
    | Added(id: int, name: string, email: string, phone: string)

  function AddStatus(o: AddOutcome): int {
    match o
    case FieldsRequired => 400
    case EmailTaken => 400
    case AddFailed => 500
    case Added(_, _, _, _) => 201
  }

  /**
   * Adding one student. Each of the three fields must be truthy; the email is trimmed and
   * lower-cased before the duplicate look-up and the insert. Calling `trim` on a truthy value
   * that is not text throws, which the handler answers with 500: for the email before the
   * look-up, for the name and phone after it.
   */
  function AddStudentEffect(db: Db, name: JsValue, email: JsValue, phone: JsValue, now: Time): Effect<AddOutcome> {
    if !Truthy(name) || !Truthy(email) || !Truthy(phone) then Effect(FieldsRequired, db)
    else if !email.Str? then Effect(AddFailed, db)
    else if StudentsWithEmail(db, NormalEmail(email.s)) != {} then Effect(EmailTaken, db)
    else if !name.Str? || !phone.Str? then Effect(AddFailed, db)
    else
      var r := InsertStudent(db, Trim(name.s), NormalEmail(email.s), Trim(phone.s), now);
      Effect(Added(r.id, Trim(name.s), NormalEmail(email.s), Trim(phone.s)), r.db)
  }

  method AddStudent(store: Database.Store, name: JsValue, email: JsValue, phone: JsValue, now: Time)
    returns (o: AddOutcome)
    modifies store
    ensures Effect(o, store.State()) == AddStudentEffect(old(store.State()), name, email, phone, now)
  {
    if !Truthy(name) || !Truthy(email) || !Truthy(phone) {
      return FieldsRequired;
    }
    if !email.Str? {
      return AddFailed;
    }
    var address := NormalEmail(email.s);
    if StudentsWithEmail(store.State(), address) != {} {
      return EmailTaken;
    }
    if !name.Str? || !phone.Str? {
      return AddFailed;
    }
    var id := store.InsertStudent(Trim(name.s), address, Trim(phone.s), now);
    o := Added(id, Trim(name.s), address, Trim(phone.s));
  }

  /**
   * A student is added exactly when the three fields are non-empty text and no student is
   * stored under the normalised address; the new row holds the trimmed name and phone and the
   * normalised address, has no resume, and is the only change. Every refusal changes nothing.
   */
  lemma AddStudentIff(db: Db, name: JsValue, email: JsValue, phone: JsValue, now: Time)
    ensures var e := AddStudentEffect(db, name, email, phone, now);
            (e.result.Added? <==>
               name.Str? && email.Str? && phone.Str? && name.s != "" && email.s != "" && phone.s != "" &&
               StudentsWithEmail(db, NormalEmail(email.s)) == {}) &&
            (e.result.Added? ==>
               e.result.id == db.nextStudentId &&
               e.db == db.(students := db.students[e.result.id := Student(Trim(name.s), NormalEmail(email.s), Trim(phone.s), None, None, now)],
                           nextStudentId := db.nextStudentId + 1) &&
               e.result.name == Trim(name.s) && e.result.email == NormalEmail(email.s) && e.result.phone == Trim(phone.s)) &&
            (!e.result.Added? ==> e.db == db)
  {
    if Truthy(name) && Truthy(email) && Truthy(phone) && email.Str? {
      var address := NormalEmail(email.s);
      if StudentsWithEmail(db, address) == {} && name.Str? && phone.Str? {
        var r := InsertStudent(db, Trim(name.s), address, Trim(phone.s), now);
        assert AddStudentEffect(db, name, email, phone, now) == Effect(Added(r.id, Trim(name.s), address, Trim(phone.s)), r.db);
      }
    }
  }

  /** A missing field is refused with 400 before anything else is looked at. */
  lemma AddStudentNeedsFields(db: Db, name: JsValue, email: JsValue, phone: JsValue, now: Time)
    requires !Truthy(name) || !Truthy(email) || !Truthy(phone)
    ensures AddStudentEffect(db, name, email, phone, now) == Effect(FieldsRequired, db)
    ensures AddStatus(FieldsRequired) == 400
  {
  }

  /** Inserting a student under an address nobody has keeps addresses unique. */
  lemma InsertKeepsEmailsUnique(db: Db, name: string, email: string, phone: string, now: Time)
    requires IdsInRange(db) && EmailsUnique(db) && StudentsWithEmail(db, email) == {}
    ensures EmailsUnique(InsertStudent(db, name, email, phone, now).db)
  {
    forall b | b in db.students
      ensures db.students[b].email != email
    {
      assert b !in StudentsWithEmail(db, email);
    }
    assert db.nextStudentId !in db.students;
  }

  /** Adding keeps addresses unique: the new address is one no stored student has. */
  lemma AddKeepsEmailsUnique(db: Db, name: JsValue, email: JsValue, phone: JsValue, now: Time)
    requires IdsInRange(db) && EmailsUnique(db)
    ensures EmailsUnique(AddStudentEffect(db, name, email, phone, now).db)
  {
    AddStudentIff(db, name, email, phone, now);
    if AddStudentEffect(db, name, email, phone, now).result.Added? {
      InsertKeepsEmailsUnique(db, Trim(name.s), NormalEmail(email.s), Trim(phone.s), now);
    }
  }

  /** A new student row touches no interview and no slot, so the database stays consistent. */
  lemma InsertStudentKeepsConsistent(db: Db, name: string, email: string, phone: string, now: Time)
    requires Consistent(db)
    ensures Consistent(InsertStudent(db, name, email, phone, now).db)
  {
  }

  lemma AddKeepsConsistent(db: Db, name: JsValue, email: JsValue, phone: JsValue, now: Time)
    requires Consistent(db)
    ensures Consistent(AddStudentEffect(db, name, email, phone, now).db)
  {
    AddStudentIff(db, name, email, phone, now);
    if AddStudentEffect(db, name, email, phone, now).result.Added? {
      InsertStudentKeepsConsistent(db, Trim(name.s), NormalEmail(email.s), Trim(phone.s), now);
    }
  }

  /** An address whose normal form is already stored is refused with 400, and nothing changes. */
  lemma TakenAddressRefused(db: Db, name: JsValue, email: string, phone: JsValue, now: Time)
    requires Truthy(name) && Truthy(phone) && email != ""
    requires StudentsWithEmail(db, NormalEmail(email)) != {}
    ensures AddStudentEffect(db, name, Str(email), phone, now) == Effect(EmailTaken, db)
    ensures AddStatus(EmailTaken) == 400
  {
  }

  /**
   * Once a student is added, adding another with an address of the same normal form (other
   * letter case, surrounding spaces) is refused with 400, and so is adding the stored address
   * itself.
   */
  lemma SameAddressRefused(db: Db, name: JsValue, email: JsValue, phone: JsValue, now: Time,
                           name2: JsValue, email2: string, phone2: JsValue, now2: Time)
    requires AddStudentEffect(db, name, email, phone, now).result.Added?
    requires Truthy(name2) && Truthy(phone2) && email2 != ""
    requires NormalEmail(email2) == NormalEmail(email.s) || email2 == NormalEmail(email.s)
    ensures var after := AddStudentEffect(db, name, email, phone, now).db;
            AddStudentEffect(after, name2, Str(email2), phone2, now2) == Effect(EmailTaken, after)
  {
    var e := AddStudentEffect(db, name, email, phone, now);
    AddStudentIff(db, name, email, phone, now);
    var address := NormalEmail(email.s);
    assert e.db.students[e.result.id].email == address;
    assert NormalEmail(email2) == address by {
      NormalEmailIdempotent(email.s);
    }
    assert e.result.id in StudentsWithEmail(e.db, NormalEmail(email2));
    TakenAddressRefused(e.db, name2, email2, phone2, now2);
  }

  // ---------------------------------------------------------------- the token gates

  /**
   * What the first row of the token look-up says: no row, a spent token, an interview that
   * already holds a slot, an interview that is not `Invited`, or an open invitation.
   */
  datatype Gate = NoRow | Spent(iid: int) | HoldsSlot(iid: int) | NotOpen(iid: int) | Open(iid: int)

  /** The gates `getStudentByToken` and `updateResume` share, in their order. */
  function TokenGate(db: Db, token: string): (g: Gate)
    ensures !g.NoRow? ==> g.iid in db.interviews && db.interviews[g.iid].studentId in db.students
  {
    match First(TokenRows(db, token))
    case None => NoRow
    case Some(iid) =>
      var iv := db.interviews[iid];
      if iv.tokenExpiredAt.Some? then Spent(iid)
      else if IdPresent(iv.slotId) then HoldsSlot(iid)
      else if iv.status != Invited then NotOpen(iid)
      else Open(iid)
  }

  // ---------------------------------------------------------------- getStudentByToken

  datatype StudentOutcome =
    | TokenRequired
    | InvalidToken
    | LinkExpired(expiredAt: Time, studentName: string)
    | AlreadyBooked(slotId: int, meetingLink: Option<string>, interviewer: Option<string>)
    | WrongStatus(status: Status)
    | StudentView(id: int, name: string, email: string, phone: string, resumeLink: Option<string>,
                  createdAt: Time, interviewStatus: Status)

  function StudentStatus(o: StudentOutcome): int {
    match o
    case TokenRequired => 400
    case InvalidToken => 404
    case LinkExpired(_, _) => 410
    case AlreadyBooked(_, _, _) => 410
    case WrongStatus(_) => 400
    case StudentView(_, _, _, _, _, _, _) => 200
  }

  /**
   * The invitation page's look-up. It only reads; the student's resume path is never shown,
   * only whether there is one.
   */
  function GetStudentByToken(db: Db, token: string): StudentOutcome {
    if token == "" then TokenRequired
    else
      match TokenGate(db, token)
      case NoRow => InvalidToken
      case Spent(iid) => LinkExpired(db.interviews[iid].tokenExpiredAt.value, db.students[db.interviews[iid].studentId].name)
      case HoldsSlot(iid) =>
        var iv := db.interviews[iid];
        AlreadyBooked(iv.slotId.value, iv.meetingLink, iv.interviewer)
      case NotOpen(iid) => WrongStatus(db.interviews[iid].status)
      case Open(iid) =>
        var iv := db.interviews[iid];
        var st := db.students[iv.studentId];
        StudentView(iv.studentId, st.name, st.email, st.phone,
                    if Present(st.resumeLink) then Some("uploaded") else None, st.createdAt, iv.status)
  }

  /**
   * The page shows the student exactly when the first interview holding the token is unspent,
   * holds no slot and is `Invited`; it then shows that interview's student, with the resume
   * masked.
   */
  lemma StudentViewIff(db: Db, token: string)
    ensures var r := GetStudentByToken(db, token);
            (r.StudentView? <==>
               token != "" && First(TokenRows(db, token)).Some? &&
               var iv := db.interviews[First(TokenRows(db, token)).value];
               iv.tokenExpiredAt.None? && !IdPresent(iv.slotId) && iv.status == Invited) &&
            (r.StudentView? ==>
               var iv := db.interviews[First(TokenRows(db, token)).value];
               r.id == iv.studentId && r.id in db.students &&
               r.name == db.students[r.id].name && r.email == db.students[r.id].email &&
               (r.resumeLink == Some("uploaded") <==> Present(db.students[r.id].resumeLink)) &&
               (r.resumeLink.None? <==> !Present(db.students[r.id].resumeLink)) &&
               r.interviewStatus == Invited)
  {
  }

  /**
   * The page shows the student with a resume exactly when a booking through the same token
   * would pass every guard on the interview.
   */
  lemma ViewWithResumeIffEligible(db: Db, token: string)
    requires token != ""
    ensures var r := GetStudentByToken(db, token);
            (r.StudentView? && r.resumeLink.Some?) <==>
              First(TokenRows(db, token)).Some? && SlotBooking.Eligible(db, First(TokenRows(db, token)).value, token)
  {
  }

  /**
   * The page and the booking handler read the token the same way: an unknown token is 404
   * here exactly when booking calls it unknown, and the link has expired here exactly when
   * booking calls the token spent.
   */
  lemma GatesAgreeWithBooking(db: Db, token: string, slotId: JsValue, now: Time)
    requires token != "" && Truthy(slotId)
    ensures var pre := SlotBooking.CheckBooking(db, slotId, Str(token), now);
            (GetStudentByToken(db, token) == InvalidToken <==> pre == SlotBooking.Stop(SlotBooking.UnknownToken)) &&
            (GetStudentByToken(db, token).LinkExpired? <==> pre == SlotBooking.Stop(SlotBooking.TokenSpent))
  {
  }

  /** After a booking, the invitation page answers 410 for the spent token. */
  lemma LinkExpiresOnBooking(db: Db, slotId: JsValue, token: string, now: Time, env: SlotBooking.Env)
    requires SlotBooking.BookSlotEffect(db, slotId, Str(token), now, env).result.Booked?
    ensures var after := SlotBooking.BookSlotEffect(db, slotId, Str(token), now, env).db;
            GetStudentByToken(after, token).LinkExpired? &&
            StudentStatus(GetStudentByToken(after, token)) == 410
  {
    SlotBooking.BookingSpendsToken(db, slotId, token, now, env);
    assert Truthy(Str(token));
  }

  // ---------------------------------------------------------------- updateResume

  /** The stored upload: its path on disk, the name it was sent under, and the stored file name. */
  datatype Upload = Upload(path: string, originalName: string, fileName: string)

  datatype ResumeOutcome =
    | ResumeTokenRequired
    | NoFile
    | ResumeInvalidToken
    | ResumeLinkExpired(expiredAt: Time)
    | ResumeAfterBooking
    | ResumeWrongStatus(status: Status)
    | NoLongerValid
    | ResumeUpdated(fileName: string, originalFileName: string, studentName: string)

  function ResumeStatus(o: ResumeOutcome): int {
    match o
    case ResumeTokenRequired => 400
    case NoFile => 400
    case ResumeInvalidToken => 404
    case ResumeLinkExpired(_) => 410
    case ResumeAfterBooking => 410
    case ResumeWrongStatus(_) => 400
    case NoLongerValid => 410
    case ResumeUpdated(_, _, _) => 200
  }

  /**
   * Storing an uploaded resume through the invitation token: the gates of the look-up, then an
   * update of every student with an unspent `Invited` interview holding the token; when that
   * update affects no row the answer is 410.
   */
  function UpdateResumeEffect(db: Db, token: string, file: Option<Upload>): Effect<ResumeOutcome> {
    if token == "" then Effect(ResumeTokenRequired, db)
    else if file.None? then Effect(NoFile, db)
    else
      match TokenGate(db, token)
      case NoRow => Effect(ResumeInvalidToken, db)
      case Spent(iid) => Effect(ResumeLinkExpired(db.interviews[iid].tokenExpiredAt.value), db)
      case HoldsSlot(_) => Effect(ResumeAfterBooking, db)
      case NotOpen(iid) => Effect(ResumeWrongStatus(db.interviews[iid].status), db)
      case Open(iid) =>
        var w := SetResumeByToken(db, token, file.value.path, file.value.originalName);
        if !w.affected then Effect(NoLongerValid, w.db)
        else Effect(ResumeUpdated(file.value.fileName, file.value.originalName,
                                  db.students[db.interviews[iid].studentId].name), w.db)
  }

  method UpdateResume(store: Database.Store, token: string, file: Option<Upload>) returns (o: ResumeOutcome)
    modifies store
    ensures Effect(o, store.State()) == UpdateResumeEffect(old(store.State()), token, file)
  {
    if token == "" {
      return ResumeTokenRequired;
    }
    if file.None? {
      return NoFile;
    }
    var db := store.State();
    var gate := TokenGate(db, token);
    match gate
    case NoRow => return ResumeInvalidToken;
    case Spent(iid) => return ResumeLinkExpired(db.interviews[iid].tokenExpiredAt.value);
    case HoldsSlot(_) => return ResumeAfterBooking;
    case NotOpen(iid) => return ResumeWrongStatus(db.interviews[iid].status);
    case Open(iid) =>
      var name := db.students[db.interviews[iid].studentId].name;
      var affected := store.SetResumeByToken(token, file.value.path, file.value.originalName);
      if !affected {
        return NoLongerValid;
      }
      o := ResumeUpdated(file.value.fileName, file.value.originalName, name);
  }

  /** An update that selects no student leaves the database as it was. */
  lemma NoTargetNoChange(db: Db, token: string, link: string, fileName: string)
    requires ResumeTargets(db, token) == {}
    ensures SetResumeByToken(db, token, link, fileName).db == db
  {
    var w := SetResumeByToken(db, token, link, fileName);
    assert w.db.students == db.students;
  }

  /**
   * Served alone, the conditional update always finds the row the gates let through, so the
   * 410 for an update that affected nothing cannot happen; every other refusal changes nothing.
   */
  lemma ResumeUpdatedIff(db: Db, token: string, file: Option<Upload>)
    ensures var e := UpdateResumeEffect(db, token, file);
            e.result != NoLongerValid &&
            (e.result.ResumeUpdated? <==> token != "" && file.Some? && TokenGate(db, token).Open?) &&
            (!e.result.ResumeUpdated? ==> e.db == db)
  {
    if token != "" && file.Some? && TokenGate(db, token).Open? {
      var iid := TokenGate(db, token).iid;
      assert ResumeTarget(db.interviews[iid], token, db.interviews[iid].studentId);
      assert db.interviews[iid].studentId in ResumeTargets(db, token);
    }
  }

  /** Under unique tokens the only student an open token reaches is the student of its interview. */
  lemma TargetsOfOpenToken(db: Db, token: string)
    requires TokensUnique(db) && TokenGate(db, token).Open?
    ensures ResumeTargets(db, token) == {db.interviews[TokenGate(db, token).iid].studentId}
  {
    var iid := TokenGate(db, token).iid;
    var st := db.interviews[iid].studentId;
    forall x | x in ResumeTargets(db, token)
      ensures x == st
    {
      var i :| i in db.interviews && ResumeTarget(db.interviews[i], token, x);
      assert db.interviews[i].token == db.interviews[iid].token;
    }
    assert ResumeTarget(db.interviews[iid], token, st);
  }

  /**
   * A stored resume changes the resume path and original file name of the token's student and
   * nothing else: no other student, no other column, no interview and no slot.
   */
  lemma UpdateResumeWrites(db: Db, token: string, file: Option<Upload>)
    requires TokensUnique(db)
    requires UpdateResumeEffect(db, token, file).result.ResumeUpdated?
    ensures var e := UpdateResumeEffect(db, token, file);
            var st := db.interviews[TokenGate(db, token).iid].studentId;
            st in db.students &&
            e.db == db.(students := db.students[st := db.students[st].(resumeLink := Some(file.value.path),
                                                                       resumeFileName := Some(file.value.originalName))]) &&
            e.result.studentName == db.students[st].name
  {
    TargetsOfOpenToken(db, token);
    var e := UpdateResumeEffect(db, token, file);
    var st := db.interviews[TokenGate(db, token).iid].studentId;
    assert e.db.students == db.students[st := db.students[st].(resumeLink := Some(file.value.path),
                                                               resumeFileName := Some(file.value.originalName))];
  }

  /**
   * Uploading a resume with a non-empty path is what lets a booking through: afterwards the
   * token's interview passes every guard of the booking handler, and the invitation page shows
   * the resume as uploaded.
   */
  lemma UploadEnablesBooking(db: Db, token: string, file: Option<Upload>)
    requires TokensUnique(db)
    requires UpdateResumeEffect(db, token, file).result.ResumeUpdated? && file.value.path != ""
    ensures var after := UpdateResumeEffect(db, token, file).db;
            var iid := TokenGate(db, token).iid;
            First(TokenRows(after, token)) == Some(iid) && SlotBooking.Eligible(after, iid, token) &&
            GetStudentByToken(after, token).StudentView? &&
            GetStudentByToken(after, token).resumeLink == Some("uploaded")
  {
    UpdateResumeWrites(db, token, file);
    var after := UpdateResumeEffect(db, token, file).db;
    assert TokenRows(after, token) == TokenRows(db, token);
  }

  lemma UpdateResumeKeepsConsistent(db: Db, token: string, file: Option<Upload>)
    requires Consistent(db)
    ensures Consistent(UpdateResumeEffect(db, token, file).db)
  {
    var e := UpdateResumeEffect(db, token, file);
    assert e.db.students.Keys == db.students.Keys;
  }

  // ---------------------------------------------------------------- deleteStudent

  datatype DeleteOutcome =
    | InvalidStudentId
    | DeleteFailed
    | HasInterview(interviewStatus: Status)
    | StudentNotFound
    | StudentDeleted

  function DeleteStatus(o: DeleteOutcome): int {
    match o
    case InvalidStudentId => 400
    case DeleteFailed => 500
    case HasInterview(_) => 400
    case StudentNotFound => 404
    case StudentDeleted => 200
  }

  /**
   * Deleting one student named by a route parameter: refused while any interview refers to
   * the student, reporting the status of the first such interview.
   */
  function DeleteStudentEffect(db: Db, idText: string): Effect<DeleteOutcome> {
    match ParseInt(idText)
    case None => Effect(InvalidStudentId, db)
    case Some(id) =>
      if !IsInt32(id) then Effect(DeleteFailed, db)
      else
        match First(InterviewsOfStudent(db, id))
        case Some(iid) => Effect(HasInterview(db.interviews[iid].status), db)
        case None =>
          var w := Tables.DeleteStudent(db, id);
          if !w.affected then Effect(StudentNotFound, db)
          else Effect(StudentDeleted, w.db)
  }

  method DeleteStudent(store: Database.Store, idText: string) returns (o: DeleteOutcome)
    modifies store
    ensures Effect(o, store.State()) == DeleteStudentEffect(old(store.State()), idText)
  {
    var parsed := ParseInt(idText);
    if parsed.None? {
      return InvalidStudentId;
    }
    var id := parsed.value;
    if !IsInt32(id) {
      return DeleteFailed;
    }
    var db := store.State();
    var first := First(InterviewsOfStudent(db, id));
    if first.Some? {
      return HasInterview(db.interviews[first.value].status);
    }
    var affected := store.DeleteStudent(id);
    if !affected {
      return StudentNotFound;
    }
    o := StudentDeleted;
  }

  /**
   * A student is deleted exactly when the id is a 32-bit integer, the student exists and no
   * interview refers to it; the delete removes that row only, and every refusal changes nothing.
   */
  lemma DeleteStudentIff(db: Db, idText: string, id: int)
    requires ParseInt(idText) == Some(id)
    ensures var e := DeleteStudentEffect(db, idText);
            (e.result == StudentDeleted <==> IsInt32(id) && id in db.students && InterviewsOfStudent(db, id) == {}) &&
            (e.result.HasInterview? <==> IsInt32(id) && InterviewsOfStudent(db, id) != {}) &&
            (e.result == StudentDeleted ==> e.db == db.(students := db.students - {id})) &&
            (e.result != StudentDeleted ==> e.db == db)
  {
  }

  /** An id `parseInt` cannot read is refused with 400. */
  lemma DeleteStudentRejectsBadId(db: Db, idText: string)
    requires ParseInt(idText).None?
    ensures DeleteStudentEffect(db, idText) == Effect(InvalidStudentId, db) && DeleteStatus(InvalidStudentId) == 400
  {
  }

  /** Deleting keeps the database consistent: the student removed has no interview. */
  lemma DeleteStudentKeepsConsistent(db: Db, idText: string)
    requires Consistent(db)
    ensures Consistent(DeleteStudentEffect(db, idText).db)
  {
    var e := DeleteStudentEffect(db, idText);
    if e.result == StudentDeleted {
      var id := ParseInt(idText).value;
      forall i | i in db.interviews
        ensures db.interviews[i].studentId != id
      {
        assert i !in InterviewsOfStudent(db, id);
      }
    }
  }

  // ---------------------------------------------------------------- bulkDeleteByDate

  datatype RangeOutcome =
    | MissingDates
    | RangeFailed
    | RangeHasInterviews(withInterviews: nat, total: nat)
    | RangeDeleted(deletedCount: nat)

  function RangeStatus(o: RangeOutcome): int {
    match o
    case MissingDates => 400
    case RangeFailed => 500
    case RangeHasInterviews(_, _) => 400
    case RangeDeleted(_) => 200
  }

  /** The interviews of students created within the range. */
  function InterviewsInRange(db: Db, start: Time, end: Time): set<int> {
    set i | i in db.interviews && db.interviews[i].studentId in CreatedBetween(db, start, end)
  }

  /**
   * The counts of the left join of the range's students with their interviews: one row per
   * interview of a student in range, and one row for each student in range without any.
   */
  function WithInterviews(db: Db, start: Time, end: Time): nat {
    |InterviewsInRange(db, start, end)|
  }

  function JoinedRows(db: Db, start: Time, end: Time): nat {
    |CreatedBetween(db, start, end) - Interviewed(db)| + WithInterviews(db, start, end)
  }

  /**
   * Deleting every student created within a date range. The two query values must be truthy;
   * `toDate` is `new Date(v)`, and a date the driver cannot send (an invalid date) makes the
   * handler answer 500. Any interview of a student in range refuses the whole delete.
   */
  function BulkDeleteEffect(db: Db, start: JsValue, end: JsValue, toDate: JsValue -> Option<Time>): Effect<RangeOutcome> {
    if !Truthy(start) || !Truthy(end) then Effect(MissingDates, db)
    else if toDate(start).None? || toDate(end).None? then Effect(RangeFailed, db)
    else
      var s := toDate(start).value;
      var t := toDate(end).value;
      if WithInterviews(db, s, t) > 0 then Effect(RangeHasInterviews(WithInterviews(db, s, t), JoinedRows(db, s, t)), db)
      else
        var r := DeleteStudentsBetween(db, s, t);
        Effect(RangeDeleted(r.1), r.0)
  }

  method BulkDeleteByDate(store: Database.Store, start: JsValue, end: JsValue, toDate: JsValue -> Option<Time>)
    returns (o: RangeOutcome)
    modifies store
    ensures Effect(o, store.State()) == BulkDeleteEffect(old(store.State()), start, end, toDate)
  {
    if !Truthy(start) || !Truthy(end) {
      return MissingDates;
    }
    if toDate(start).None? || toDate(end).None? {
      return RangeFailed;
    }
    var s := toDate(start).value;
    var t := toDate(end).value;
    var db := store.State();
    if WithInterviews(db, s, t) > 0 {
      return RangeHasInterviews(WithInterviews(db, s, t), JoinedRows(db, s, t));
    }
    var count := store.DeleteStudentsBetween(s, t);
    o := RangeDeleted(count);
  }

  /** When no student in range has an interview, none of them counts as interviewed. */
  lemma NoInterviewsInRange(db: Db, start: Time, end: Time)
    requires WithInterviews(db, start, end) == 0
    ensures CreatedBetween(db, start, end) - Interviewed(db) == CreatedBetween(db, start, end)
  {
    forall i | i in db.interviews
      ensures db.interviews[i].studentId !in CreatedBetween(db, start, end)
    {
      assert i !in InterviewsInRange(db, start, end);
    }
  }

  /**
   * The range is deleted exactly when both values are given, both are dates, and no student in
   * range has an interview; then every student in range goes, the count is their number, and
   * nothing else changes. A refusal changes nothing, and with interviews its two counts are
   * those of the join, the first never above the second.
   */
  lemma BulkDeleteIff(db: Db, start: JsValue, end: JsValue, toDate: JsValue -> Option<Time>)
    ensures var e := BulkDeleteEffect(db, start, end, toDate);
            (e.result.RangeDeleted? <==>
               Truthy(start) && Truthy(end) && toDate(start).Some? && toDate(end).Some? &&
               InterviewsInRange(db, toDate(start).value, toDate(end).value) == {}) &&
            (e.result.RangeDeleted? ==>
               var range := CreatedBetween(db, toDate(start).value, toDate(end).value);
               e.result.deletedCount == |range| && e.db == db.(students := db.students - range)) &&
            (e.result.RangeHasInterviews? ==> 0 < e.result.withInterviews <= e.result.total) &&
            (!e.result.RangeDeleted? ==> e.db == db)
  {
    if Truthy(start) && Truthy(end) && toDate(start).Some? && toDate(end).Some? &&
       WithInterviews(db, toDate(start).value, toDate(end).value) == 0 {
      NoInterviewsInRange(db, toDate(start).value, toDate(end).value);
    }
  }

  /** Deleting a range keeps the database consistent: every student removed has no interview. */
  lemma BulkDeleteKeepsConsistent(db: Db, start: JsValue, end: JsValue, toDate: JsValue -> Option<Time>)
    requires Consistent(db)
    ensures Consistent(BulkDeleteEffect(db, start, end, toDate).db)
  {
    var e := BulkDeleteEffect(db, start, end, toDate);
    if e.result.RangeDeleted? {
      var s := toDate(start).value;
      var t := toDate(end).value;
      forall i | i in db.interviews
        ensures db.interviews[i].studentId !in CreatedBetween(db, s, t) - Interviewed(db)
      {
        assert db.interviews[i].studentId in Interviewed(db);
      }
    }
  }
}
