/**
 * Booking an interview slot with an invitation token.
 *
 * The handler first reads: the interview the token unlocks (joined with its student), then a
 * sequence of guards on it, then the slot, re-checked for availability. Only then does it open
 * a transaction: a compare-and-set claims the slot, and an update moves every interview that
 * still holds the token unexpired to `Scheduled`, spending the token. `CheckBooking` is the
 * read phase and `Commit` the transaction, so that a database changed by other requests can be
 * put between them.
 */
module SlotBooking {
  import opened Wrappers
  import opened JsText
  import opened Tables
  import opened Availability
  import Database

  /** The MEETING_LINK environment value and the millisecond clock reading the placeholder link uses. */
  datatype Env = Env(meetingLink: Option<string>, millis: nat)

  /** The slot's own link, else the configured one, else a placeholder named after the clock. */
  function MeetingLinkFor(slot: Slot, env: Env): string {
    if Present(slot.meetingLink) then slot.meetingLink.value
    else if Present(env.meetingLink) then env.meetingLink.value
    else "https://meet.google.com/new-" + NatToString(env.millis)
  }

  /** The slot's interviewer, else the HR team. */
  function InterviewerFor(slot: Slot): string {
    if Present(slot.interviewer) then slot.interviewer.value else "HR Team"
  }

  datatype BookOutcome =
    | MissingFields
    | UnknownToken
    | TokenSpent
    | AlreadyHasSlot(existing: int)
    | ResumeMissing
    | NotInvited(status: Status)
    | SlotUnavailable
    | SlotTaken
    | Booked(interviewId: int, slotTime: Time, meetingLink: string, interviewer: string, studentName: string)
    | ServerError

  /** The HTTP status each outcome is answered with. */
  function BookStatus(o: BookOutcome): int {
    match o
    case MissingFields => 400
    case UnknownToken => 400
    case TokenSpent => 410
    case AlreadyHasSlot(_) => 409
    case ResumeMissing => 400
    case NotInvited(_) => 400
    case SlotUnavailable => 400
    case SlotTaken => 409
    case Booked(_, _, _, _, _) => 200
    case ServerError => 500
  }

  /** What the read phase hands to the transaction: the interview, its student, the token and the slot as read. */
  datatype Claim = Claim(interviewId: int, studentId: int, studentName: string, token: string, slotId: int, slot: Slot)

  datatype Precheck = Stop(outcome: BookOutcome) | Proceed(claim: Claim)

  /**
   * The read phase. Logging the token calls a string method on it, so a token that is truthy
   * but not a string fails before anything else; a slot id that does not parse, or parses
   * outside the 32-bit range, fails when the slot is queried.
   */
  function CheckBooking(db: Db, slotId: JsValue, token: JsValue, now: Time): Precheck {
    if Truthy(token) && !token.Str? then Stop(ServerError)
    else if !Truthy(slotId) || !Truthy(token) then Stop(MissingFields)
    else
      match First(TokenRows(db, token.s))
      case None => Stop(UnknownToken)
      case Some(iid) =>
        var iv := db.interviews[iid];
        var st := db.students[iv.studentId];
        if iv.tokenExpiredAt.Some? then Stop(TokenSpent)
        else if IdPresent(iv.slotId) then Stop(AlreadyHasSlot(iv.slotId.value))
        else if !Present(st.resumeLink) then Stop(ResumeMissing)
        else if iv.status != Invited then Stop(NotInvited(iv.status))
        else
          match ParseIntValue(slotId)
          case None => Stop(ServerError)
          case Some(sid) =>
            if !IsInt32(sid) then Stop(ServerError)
            else if sid in db.slots && Bookable(db.slots[sid], now) then
              Proceed(Claim(iid, iv.studentId, st.name, token.s, sid, db.slots[sid]))
            else Stop(SlotUnavailable)
  }

  /**
   * The transaction as the handler is written: a lost compare-and-set rolls back with 409; the
   * interview update's affected-row count is never looked at.
   */
  function CommitAsWritten(db: Db, c: Claim, now: Time, env: Env): Effect<BookOutcome> {
    var claim := ClaimSlot(db, c.slotId, c.studentId);
    if !claim.affected then Effect(SlotTaken, db)
    else
      var link := MeetingLinkFor(c.slot, env);
      var who := InterviewerFor(c.slot);
      var w := ScheduleByToken(claim.db, c.token, c.slotId, who, link, now);
      Effect(Booked(c.interviewId, c.slot.time, link, who, c.studentName), w.db)
  }

  /**
   * The transaction with the interview update checked as well: when no interview still holds
   * the token unexpired, it rolls back and answers that the token is spent.
   */
  function Commit(db: Db, c: Claim, now: Time, env: Env): Effect<BookOutcome> {
    var claim := ClaimSlot(db, c.slotId, c.studentId);
    if !claim.affected then Effect(SlotTaken, db)
    else
      var link := MeetingLinkFor(c.slot, env);
      var who := InterviewerFor(c.slot);
      var w := ScheduleByToken(claim.db, c.token, c.slotId, who, link, now);
      if !w.affected then Effect(TokenSpent, db)
      else Effect(Booked(c.interviewId, c.slot.time, link, who, c.studentName), w.db)
  }

  /** One booking request served alone: the read phase and the transaction back to back. */
  function BookSlotEffect(db: Db, slotId: JsValue, token: JsValue, now: Time, env: Env): Effect<BookOutcome> {
    match CheckBooking(db, slotId, token, now)
    case Stop(o) => Effect(o, db)
    case Proceed(c) => Commit(db, c, now, env)
  }

  /** The read phase only lets through a claim whose interview still holds the token unexpired. */
  lemma ProceedHoldsToken(db: Db, slotId: JsValue, token: JsValue, now: Time)
    requires CheckBooking(db, slotId, token, now).Proceed?
    ensures var c := CheckBooking(db, slotId, token, now).claim;
            c.interviewId in db.interviews && Unexpired(db.interviews[c.interviewId], c.token) &&
            db.interviews[c.interviewId].studentId == c.studentId &&
            c.slotId in db.slots && c.slot == db.slots[c.slotId] && Bookable(c.slot, now) &&
            ParseIntValue(slotId) == Some(c.slotId) && token == Str(c.token)
  {
  }

  /** Only a read phase that lets the claim through can end in a booking. */
  lemma BookedMeansProceed(db: Db, slotId: JsValue, token: JsValue, now: Time, env: Env)
    requires BookSlotEffect(db, slotId, token, now, env).result.Booked?
    ensures CheckBooking(db, slotId, token, now).Proceed?
    ensures BookSlotEffect(db, slotId, token, now, env) == Commit(db, CheckBooking(db, slotId, token, now).claim, now, env)
  {
  }

  /** Served alone, the transaction as written and the checked one agree. */
  lemma CommitAgreesWhenAlone(db: Db, slotId: JsValue, token: JsValue, now: Time, env: Env)
    requires CheckBooking(db, slotId, token, now).Proceed?
    ensures var c := CheckBooking(db, slotId, token, now).claim;
            CommitAsWritten(db, c, now, env) == Commit(db, c, now, env)
  {
    var c := CheckBooking(db, slotId, token, now).claim;
    ProceedHoldsToken(db, slotId, token, now);
    var claim := ClaimSlot(db, c.slotId, c.studentId);
    if claim.affected {
      assert claim.db.interviews == db.interviews;
      var w := ScheduleByToken(claim.db, c.token, c.slotId, InterviewerFor(c.slot), MeetingLinkFor(c.slot, env), now);
      assert c.interviewId in claim.db.interviews && Unexpired(claim.db.interviews[c.interviewId], c.token);
      assert w.affected;
    }
  }

  /** The handler: the read phase, then the claim and the interview update on the store. */
  method BookSlot(store: Database.Store, slotId: JsValue, token: JsValue, now: Time, env: Env)
    returns (o: BookOutcome)
    modifies store
    ensures Effect(o, store.State()) == BookSlotEffect(old(store.State()), slotId, token, now, env)
  {
    var pre := CheckBooking(store.State(), slotId, token, now);
    if pre.Stop? {
      return pre.outcome;
    }
    CommitAgreesWhenAlone(store.State(), slotId, token, now, env);
    var c := pre.claim;
    var claimed := store.ClaimSlot(c.slotId, c.studentId);
    if !claimed {
      return SlotTaken;
    }
    var link := MeetingLinkFor(c.slot, env);
    var who := InterviewerFor(c.slot);
    var scheduled := store.ScheduleByToken(c.token, c.slotId, who, link, now);
    o := Booked(c.interviewId, c.slot.time, link, who, c.studentName);
  }

  // ---------------------------------------------------------------- properties

  /** A request without a slot id or a token is refused with 400 and changes nothing. */
  lemma MissingFieldsRefused(db: Db, slotId: JsValue, token: JsValue, now: Time, env: Env)
    requires !Truthy(slotId) || !Truthy(token)
    requires token.Str? || !Truthy(token)
    ensures var e := BookSlotEffect(db, slotId, token, now, env);
            e.result == MissingFields && BookStatus(e.result) == 400 && e.db == db
  {
  }

  /** Whatever refuses a booking, the database is left as it was. */
  lemma RefusalChangesNothing(db: Db, slotId: JsValue, token: JsValue, now: Time, env: Env)
    requires !BookSlotEffect(db, slotId, token, now, env).result.Booked?
    ensures BookSlotEffect(db, slotId, token, now, env).db == db
  {
  }

  /** The interview a token unlocks passes every guard of the handler. */
  predicate Eligible(db: Db, iid: int, token: string) {
    iid in db.interviews && db.interviews[iid].studentId in db.students &&
    var iv := db.interviews[iid];
    iv.token == Some(token) && iv.tokenExpiredAt.None? && !IdPresent(iv.slotId) &&
    Present(db.students[iv.studentId].resumeLink) && iv.status == Invited
  }

  /**
   * A request books exactly when the first interview holding the token passes every guard and
   * the slot exists, is free, and is still bookable now.
   */
  lemma BookedIff(db: Db, slotId: JsValue, t: string, sid: int, now: Time, env: Env)
    requires Truthy(slotId) && t != "" && ParseIntValue(slotId) == Some(sid)
    ensures BookSlotEffect(db, slotId, Str(t), now, env).result.Booked? <==>
            First(TokenRows(db, t)).Some? && Eligible(db, First(TokenRows(db, t)).value, t) &&
            IsInt32(sid) && sid in db.slots && Bookable(db.slots[sid], now)
  {
    if CheckBooking(db, slotId, Str(t), now).Proceed? {
      CommitAgreesWhenAlone(db, slotId, Str(t), now, env);
      ProceedHoldsToken(db, slotId, Str(t), now);
    }
  }

  /**
   * The guards on the found interview apply in a fixed order: a spent token wins over a held
   * slot, a held slot over a missing resume, a missing resume over a status other than Invited.
   */
  lemma GuardPrecedence(db: Db, slotId: JsValue, t: string, now: Time, env: Env)
    requires Truthy(slotId) && t != "" && First(TokenRows(db, t)).Some?
    ensures var iv := db.interviews[First(TokenRows(db, t)).value];
            var o := BookSlotEffect(db, slotId, Str(t), now, env).result;
            (iv.tokenExpiredAt.Some? ==> o == TokenSpent) &&
            (iv.tokenExpiredAt.None? && IdPresent(iv.slotId) ==> o == AlreadyHasSlot(iv.slotId.value)) &&
            (iv.tokenExpiredAt.None? && !IdPresent(iv.slotId) && !Present(db.students[iv.studentId].resumeLink) ==>
               o == ResumeMissing) &&
            (iv.tokenExpiredAt.None? && !IdPresent(iv.slotId) && Present(db.students[iv.studentId].resumeLink)
             && iv.status != Invited
             ==> o == NotInvited(iv.status))
  {
  }

  /** An unknown token is refused with 400. */
  lemma UnknownTokenRefused(db: Db, slotId: JsValue, t: string, now: Time, env: Env)
    requires Truthy(slotId) && t != "" && TokenRows(db, t) == {}
    ensures var e := BookSlotEffect(db, slotId, Str(t), now, env);
            e.result == UnknownToken && BookStatus(e.result) == 400 && e.db == db
  {
  }

  /**
   * What a successful booking writes: the slot is booked by the student; the interview takes the
   * slot, the interviewer (the slot's, else "HR Team") and the meeting link (the slot's, else the
   * configured one, else a placeholder), becomes Scheduled, and its token expires now. No student,
   * no other slot and no other interview changes.
   */
  predicate BookingWritten(db: Db, e: Effect<BookOutcome>, sid: int, now: Time, env: Env) {
    e.result.Booked? &&
    var o := e.result;
    sid in db.slots && o.interviewId in db.interviews &&
    var slot := db.slots[sid];
    e.db.students == db.students &&
    e.db.slots == db.slots[sid := slot.(isBooked := true, bookedBy := Some(db.interviews[o.interviewId].studentId))] &&
    e.db.interviews.Keys == db.interviews.Keys &&
    (forall j :: j in db.interviews && j != o.interviewId ==> e.db.interviews[j] == db.interviews[j]) &&
    e.db.interviews[o.interviewId] == db.interviews[o.interviewId].(
      slotId := Some(sid), interviewer := Some(o.interviewer), meetingLink := Some(o.meetingLink),
      status := Scheduled, tokenExpiredAt := Some(now), updatedAt := Some(now)) &&
    o.slotTime == slot.time &&
    o.interviewer == (if Present(slot.interviewer) then slot.interviewer.value else "HR Team") &&
    (Present(slot.meetingLink) ==> o.meetingLink == slot.meetingLink.value) &&
    (!Present(slot.meetingLink) && Present(env.meetingLink) ==> o.meetingLink == env.meetingLink.value) &&
    (!Present(slot.meetingLink) && !Present(env.meetingLink) ==>
       o.meetingLink == "https://meet.google.com/new-" + NatToString(env.millis))
  }

  /** A successful booking of slot `sid` writes exactly what `BookingWritten` says. */
  lemma BookedWrites(db: Db, slotId: JsValue, t: string, sid: int, now: Time, env: Env)
    requires TokensUnique(db)
    requires ParseIntValue(slotId) == Some(sid)
    requires BookSlotEffect(db, slotId, Str(t), now, env).result.Booked?
    ensures BookingWritten(db, BookSlotEffect(db, slotId, Str(t), now, env), sid, now, env)
  {
    BookedMeansProceed(db, slotId, Str(t), now, env);
    var c := CheckBooking(db, slotId, Str(t), now).claim;
    ProceedHoldsToken(db, slotId, Str(t), now);
    CommitWrites(db, c, now, env);
    var e := Commit(db, c, now, env);
    forall j | j in db.interviews && j != c.interviewId
      ensures e.db.interviews[j] == db.interviews[j]
    {
      assert !Unexpired(db.interviews[j], t);
    }
    assert BookingWritten(db, e, sid, now, env);
  }

  /** What a successful transaction writes, for whatever database it runs on. */
  lemma CommitWrites(db: Db, c: Claim, now: Time, env: Env)
    requires Commit(db, c, now, env).result.Booked?
    ensures var e := Commit(db, c, now, env);
            var o := e.result;
            c.slotId in db.slots && !db.slots[c.slotId].isBooked &&
            o == Booked(c.interviewId, c.slot.time, MeetingLinkFor(c.slot, env), InterviewerFor(c.slot), c.studentName) &&
            e.db.students == db.students &&
            e.db.slots == db.slots[c.slotId := db.slots[c.slotId].(isBooked := true, bookedBy := Some(c.studentId))] &&
            e.db.interviews.Keys == db.interviews.Keys &&
            forall j :: j in db.interviews ==>
              e.db.interviews[j] ==
                if Unexpired(db.interviews[j], c.token)
                then db.interviews[j].(slotId := Some(c.slotId), interviewer := Some(o.interviewer),
                                       meetingLink := Some(o.meetingLink), status := Scheduled,
                                       tokenExpiredAt := Some(now), updatedAt := Some(now))
                else db.interviews[j]
  {
  }

  /** The interviews holding a token, joined with their student, once it has been spent. */
  predicate TokenSpentEverywhere(db: Db, t: string) {
    forall j :: j in TokenRows(db, t) ==> db.interviews[j].tokenExpiredAt.Some?
  }

  /** A committed claim keeps the rows holding its token and spends the token in each of them. */
  lemma CommitSpendsToken(db: Db, c: Claim, now: Time, env: Env)
    requires Commit(db, c, now, env).result.Booked?
    ensures var e := Commit(db, c, now, env);
            TokenRows(e.db, c.token) == TokenRows(db, c.token) && TokenSpentEverywhere(e.db, c.token)
  {
    var e := Commit(db, c, now, env);
    CommitWrites(db, c, now, env);
    forall j | j in db.interviews
      ensures e.db.interviews[j].token == db.interviews[j].token
      ensures e.db.interviews[j].studentId == db.interviews[j].studentId
      ensures db.interviews[j].token == Some(c.token) ==> e.db.interviews[j].tokenExpiredAt.Some?
    {
    }
    assert TokenRows(e.db, c.token) == TokenRows(db, c.token);
  }

  /** A booking spends the token of every interview that holds it. */
  lemma BookingSpendsToken(db: Db, slotId: JsValue, t: string, now: Time, env: Env)
    requires BookSlotEffect(db, slotId, Str(t), now, env).result.Booked?
    ensures var e := BookSlotEffect(db, slotId, Str(t), now, env);
            TokenRows(e.db, t) == TokenRows(db, t) != {} && TokenSpentEverywhere(e.db, t)
  {
    BookedMeansProceed(db, slotId, Str(t), now, env);
    var c := CheckBooking(db, slotId, Str(t), now).claim;
    ProceedHoldsToken(db, slotId, Str(t), now);
    CommitSpendsToken(db, c, now, env);
    assert c.interviewId in TokenRows(db, t);
  }

  /** A token books once: any later request with it is refused with 410 and changes nothing. */
  lemma SingleUse(db: Db, slotId: JsValue, t: string, now: Time, env: Env,
                  slotId2: JsValue, now2: Time, env2: Env)
    requires BookSlotEffect(db, slotId, Str(t), now, env).result.Booked?
    requires Truthy(slotId2)
    ensures var e := BookSlotEffect(db, slotId, Str(t), now, env);
            var e2 := BookSlotEffect(e.db, slotId2, Str(t), now2, env2);
            e2.result == TokenSpent && BookStatus(e2.result) == 410 && e2.db == e.db
  {
    BookingSpendsToken(db, slotId, t, now, env);
    var e := BookSlotEffect(db, slotId, Str(t), now, env);
    assert t != "" by { assert Truthy(Str(t)); }
    SpentTokenRefused(e.db, slotId2, t, now2, env2);
  }

  /** A token all of whose interviews have spent it is refused with 410, and nothing is written. */
  lemma SpentTokenRefused(db: Db, slotId: JsValue, t: string, now: Time, env: Env)
    requires Truthy(slotId) && t != ""
    requires TokenRows(db, t) != {} && TokenSpentEverywhere(db, t)
    ensures BookSlotEffect(db, slotId, Str(t), now, env) == Effect(TokenSpent, db)
  {
  }

  /** A claim on a slot that is gone or already booked loses the compare-and-set: 409, nothing written. */
  lemma ClaimLost(db: Db, c: Claim, now: Time, env: Env)
    requires c.slotId in db.slots ==> db.slots[c.slotId].isBooked
    ensures Commit(db, c, now, env) == Effect(SlotTaken, db)
    ensures CommitAsWritten(db, c, now, env) == Effect(SlotTaken, db)
    ensures BookStatus(SlotTaken) == 409
  {
  }

  /** Two claims on one slot: once the first has booked it, the second loses with 409 whatever it read. */
  lemma NoDoubleBooking(db: Db, c1: Claim, c2: Claim, now1: Time, now2: Time, env1: Env, env2: Env)
    requires c1.slotId == c2.slotId
    requires Commit(db, c1, now1, env1).result.Booked?
    ensures var e1 := Commit(db, c1, now1, env1);
            Commit(e1.db, c2, now2, env2) == Effect(SlotTaken, e1.db)
  {
    var e1 := Commit(db, c1, now1, env1);
    ClaimLost(e1.db, c2, now2, env2);
  }

  /** A request served alone keeps the database consistent. */
  lemma {:induction false} BookingKeepsConsistent(db: Db, slotId: JsValue, token: JsValue, now: Time, env: Env)
    requires Consistent(db)
    ensures Consistent(BookSlotEffect(db, slotId, token, now, env).db)
  {
    if !BookSlotEffect(db, slotId, token, now, env).result.Booked? {
      RefusalChangesNothing(db, slotId, token, now, env);
    } else {
      BookedKeepsConsistent(db, slotId, token, now, env);
    }
  }

  /** A request that books writes only what keeps the database consistent. */
  lemma BookedKeepsConsistent(db: Db, slotId: JsValue, token: JsValue, now: Time, env: Env)
    requires Consistent(db)
    requires BookSlotEffect(db, slotId, token, now, env).result.Booked?
    ensures Consistent(BookSlotEffect(db, slotId, token, now, env).db)
  {
    BookedMeansProceed(db, slotId, token, now, env);
    ProceedHoldsToken(db, slotId, token, now);
    CommitKeepsConsistent(db, CheckBooking(db, slotId, token, now).claim, now, env);
  }

  /** A transaction that books for the interview holding the claim's unexpired token keeps the database consistent. */
  lemma CommitKeepsConsistent(db: Db, c: Claim, now: Time, env: Env)
    requires Consistent(db)
    requires Commit(db, c, now, env).result.Booked?
    requires c.interviewId in db.interviews && Unexpired(db.interviews[c.interviewId], c.token)
    requires db.interviews[c.interviewId].studentId == c.studentId
    ensures Consistent(Commit(db, c, now, env).db)
  {
    var e := Commit(db, c, now, env);
    CommitWrites(db, c, now, env);
    var iid, sid := c.interviewId, c.slotId;
    forall j | j in db.interviews && j != iid
      ensures e.db.interviews[j] == db.interviews[j]
    {
      assert !Unexpired(db.interviews[j], c.token);
    }
    assert e.db.interviews == db.interviews[iid := e.db.interviews[iid]];
    BookingOneKeepsConsistent(db, iid, sid, e.db.interviews[iid], e.db);
  }

  /**
   * Booking a free slot for one interview, which records it and spends its token, keeps a
   * database consistent.
   */
  lemma BookingOneKeepsConsistent(db: Db, iid: int, sid: int, iv: Interview, after: Db)
    requires Consistent(db)
    requires iid in db.interviews && sid in db.slots && !db.slots[sid].isBooked
    requires iv.studentId == db.interviews[iid].studentId && iv.token == db.interviews[iid].token
    requires iv.slotId == Some(sid) && iv.tokenExpiredAt.Some?
    requires after == db.(slots := db.slots[sid := db.slots[sid].(isBooked := true, bookedBy := Some(iv.studentId))],
                          interviews := db.interviews[iid := iv])
    ensures Consistent(after)
  {
    forall j | j in db.interviews ensures db.interviews[j].slotId != Some(sid) {
      assert !db.slots[sid].isBooked;
    }
    assert OnePerSlot(after) by {
      forall i, j | i in after.interviews && j in after.interviews && after.interviews[i].slotId.Some? &&
                    after.interviews[i].slotId == after.interviews[j].slotId
        ensures i == j
      {
      }
    }
    assert TokensUnique(after) by {
      forall i, j | i in after.interviews && j in after.interviews && after.interviews[i].token.Some? &&
                    after.interviews[i].token == after.interviews[j].token
        ensures i == j
      {
        assert after.interviews[i].token == db.interviews[i].token;
        assert after.interviews[j].token == db.interviews[j].token;
      }
    }
  }

  // ---------------------------------------------------------------- two requests with one token

  /**
   * A database with one invited student who has a resume and two free slots three days ahead,
   * to play out two requests with the same token whose read phases both run before either
   * transaction.
   */
  const RaceDb: Db :=
    Db(map[1 := Student("Ann", "ann@example.org", "", Some("/uploads/cv.pdf"), Some("cv.pdf"), 0)],
       map[1 := Slot(1440 * 3 + 600, None, None, false, None), 2 := Slot(1440 * 3 + 660, None, None, false, None)],
       map[1 := Interview(1, None, Some("t"), None, Invited, None, None, None, 0, None)],
       2, 3, 2)

  /**
   * As written, two claims with the same token on two different free slots both book: the
   * second transaction's interview update matches no row, yet its slot stays booked and it
   * answers 200. When every held slot is booked beforehand, no interview holds the second slot.
   */
  lemma AsWrittenSecondClaimBooksOrphan(db: Db, c1: Claim, c2: Claim, now: Time, env: Env)
    requires HeldSlotsBooked(db)
    requires c1.token == c2.token && c1.slotId != c2.slotId
    requires c1.slotId in db.slots && !db.slots[c1.slotId].isBooked
    requires c2.slotId in db.slots && !db.slots[c2.slotId].isBooked
    requires c1.interviewId in db.interviews && Unexpired(db.interviews[c1.interviewId], c1.token)
    ensures var e1 := CommitAsWritten(db, c1, now, env);
            var e2 := CommitAsWritten(e1.db, c2, now, env);
            e1.result.Booked? && e2.result.Booked? &&
            e2.db.slots[c1.slotId].isBooked && e2.db.slots[c2.slotId].isBooked &&
            e2.db.interviews[c1.interviewId].slotId == Some(c1.slotId) &&
            InterviewsAtSlot(e2.db, c2.slotId) == {}
  {
    var e1 := CommitAsWritten(db, c1, now, env);
    var e2 := CommitAsWritten(e1.db, c2, now, env);
    forall j | j in db.interviews ensures db.interviews[j].slotId != Some(c2.slotId) {
      assert !db.slots[c2.slotId].isBooked;
    }
    forall j | j in e1.db.interviews ensures !Unexpired(e1.db.interviews[j], c2.token) {
    }
    assert e2.db.interviews == e1.db.interviews;
  }

  /** On `RaceDb`, two requests with the token for slots 1 and 2 both pass the read phase. */
  lemma RaceDbBothProceed()
    ensures CheckBooking(RaceDb, Num(1), Str("t"), 0) == Proceed(Claim(1, 1, "Ann", "t", 1, RaceDb.slots[1]))
    ensures CheckBooking(RaceDb, Num(2), Str("t"), 0) == Proceed(Claim(1, 1, "Ann", "t", 2, RaceDb.slots[2]))
  {
    assert TokenRows(RaceDb, "t") == {1};
  }

  /**
   * As written, both requests are answered 200: the first books slot 1 for the interview, the
   * second books slot 2 as well, but no interview holds slot 2, which stays booked for nobody.
   */
  lemma AsWrittenRaceBooksTwice()
    ensures var p1 := CheckBooking(RaceDb, Num(1), Str("t"), 0);
            var p2 := CheckBooking(RaceDb, Num(2), Str("t"), 0);
            p1.Proceed? && p2.Proceed? &&
            var e1 := CommitAsWritten(RaceDb, p1.claim, 0, Env(None, 0));
            var e2 := CommitAsWritten(e1.db, p2.claim, 0, Env(None, 0));
            e1.result.Booked? && e2.result.Booked? &&
            e2.db.slots[1].isBooked && e2.db.slots[2].isBooked &&
            e2.db.interviews[1].slotId == Some(1) && InterviewsAtSlot(e2.db, 2) == {}
  {
    RaceDbBothProceed();
    AsWrittenSecondClaimBooksOrphan(RaceDb, Claim(1, 1, "Ann", "t", 1, RaceDb.slots[1]),
                                    Claim(1, 1, "Ann", "t", 2, RaceDb.slots[2]), 0, Env(None, 0));
  }

  /** With the update checked, a booking always leaves an interview with the token holding the slot. */
  lemma CommitHoldsSlot(db: Db, c: Claim, now: Time, env: Env)
    requires Commit(db, c, now, env).result.Booked?
    ensures var e := Commit(db, c, now, env);
            c.slotId in e.db.slots && e.db.slots[c.slotId].isBooked &&
            exists j :: j in e.db.interviews && e.db.interviews[j].token == Some(c.token) &&
                        e.db.interviews[j].slotId == Some(c.slotId) && e.db.interviews[j].status == Scheduled
  {
    var claim := ClaimSlot(db, c.slotId, c.studentId);
    var i :| i in claim.db.interviews && Unexpired(claim.db.interviews[i], c.token);
    var e := Commit(db, c, now, env);
    assert e.db.interviews[i].slotId == Some(c.slotId);
  }

  /**
   * With the update checked, a second request with the same token is refused when its
   * transaction comes after a successful one, whatever slot it read as free: the token is spent
   * or the slot is taken, and nothing is written.
   */
  lemma CorrectedRaceSecondRefused(db: Db, c1: Claim, c2: Claim, now1: Time, now2: Time, env1: Env, env2: Env)
    requires c1.token == c2.token
    requires Commit(db, c1, now1, env1).result.Booked?
    ensures var e1 := Commit(db, c1, now1, env1);
            var e2 := Commit(e1.db, c2, now2, env2);
            (e2.result == SlotTaken || e2.result == TokenSpent) && e2.db == e1.db
  {
    var e1 := Commit(db, c1, now1, env1);
    var claim := ClaimSlot(e1.db, c2.slotId, c2.studentId);
    assert forall j :: j in claim.db.interviews ==> !Unexpired(claim.db.interviews[j], c2.token);
  }
}
