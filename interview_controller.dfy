/**
 * The two interview handlers that write: the status update, which checks only that the new
 * status is one of the five known ones, and the delete, which checks only that the id is a
 * non-zero number. Neither looks at whether the interview exists or at the slot it holds.
 */
module InterviewController {
  import opened Wrappers
  import opened JsText
  import opened Tables
  import Database

  // ---------------------------------------------------------------- updateInterviewStatus

  datatype StatusOutcome = InvalidStatus | StatusFailed | StatusUpdated

  function StatusCode(o: StatusOutcome): int {
    match o
    case InvalidStatus => 400
    case StatusFailed => 500
    case StatusUpdated => 200
  }

  /** `validStatuses.includes(status)`: the body's status is the text of one of the five statuses. */
  function RequestedStatus(status: JsValue): (r: Option<Status>)
    ensures r.Some? <==> status.Str? && status.s in {"Invited", "Scheduled", "Completed", "Cancelled", "No-Show"}
    ensures r.Some? ==> StatusName(r.value) == status.s
  {
    if status.Str? then StatusOf(status.s) else None
  }

  /**
   * `updateInterviewStatus`. `key` is the route id as the database driver reads it into an
   * `Int` parameter, or nothing when the driver refuses it, which fails the request with 500.
   * The update is sent whether or not such an interview exists, and its row count is not read.
   */
  function UpdateStatusEffect(db: Db, key: Option<int>, status: JsValue): Effect<StatusOutcome> {
    match RequestedStatus(status)
    case None => Effect(InvalidStatus, db)
    case Some(s) =>
      if key.None? then Effect(StatusFailed, db)
      else Effect(StatusUpdated, SetStatus(db, key.value, s).db)
  }

  method UpdateInterviewStatus(store: Database.Store, key: Option<int>, status: JsValue) returns (o: StatusOutcome)
    modifies store
    ensures Effect(o, store.State()) == UpdateStatusEffect(old(store.State()), key, status)
  {
    var s := RequestedStatus(status);
    if s.None? {
      return InvalidStatus;
    }
    if key.None? {
      return StatusFailed;
    }
    var _ := store.SetStatus(key.value, s.value);
    o := StatusUpdated;
  }

  /**
   * The request succeeds exactly when the status is one of the five and the driver accepts the
   * id, and a refused request writes nothing.
   */
  lemma UpdateStatusIff(db: Db, key: Option<int>, status: JsValue)
    ensures var e := UpdateStatusEffect(db, key, status);
            (e.result == InvalidStatus <==>
               !(status.Str? && status.s in {"Invited", "Scheduled", "Completed", "Cancelled", "No-Show"})) &&
            (e.result == StatusUpdated <==> RequestedStatus(status).Some? && key.Some?) &&
            (e.result != StatusUpdated ==> e.db == db)
  {
  }

  /**
   * A successful update changes the Status column of the named interview to the requested
   * status and nothing else: its student, slot, token and token expiry stay, every other
   * interview and every slot and student is untouched, and an id no interview has changes nothing.
   */
  lemma UpdateStatusWritesOnlyStatus(db: Db, key: Option<int>, status: JsValue)
    requires UpdateStatusEffect(db, key, status).result == StatusUpdated
    ensures var e := UpdateStatusEffect(db, key, status);
            var iid := key.value;
            e.db.students == db.students && e.db.slots == db.slots &&
            e.db.interviews.Keys == db.interviews.Keys &&
            (forall j :: j in db.interviews && j != iid ==> e.db.interviews[j] == db.interviews[j]) &&
            (iid in db.interviews ==>
               StatusName(e.db.interviews[iid].status) == status.s &&
               e.db.interviews[iid] == db.interviews[iid].(status := e.db.interviews[iid].status)) &&
            (iid !in db.interviews ==> e.db == db)
  {
  }

  /**
   * There is no transition rule: an interview in any status can be moved to any other,
   * including back to `Invited` and out of `Completed`.
   */
  lemma AnyTransitionAllowed(db: Db, iid: int, from: Status, to: Status)
    requires iid in db.interviews && db.interviews[iid].status == from
    ensures var e := UpdateStatusEffect(db, Some(iid), Str(StatusName(to)));
            e.result == StatusUpdated && e.db.interviews[iid].status == to
  {
    assert StatusName(to) in {"Invited", "Scheduled", "Completed", "Cancelled", "No-Show"};
  }

  /**
   * Setting `Cancelled` through this handler does not free the slot: unlike the cancellation
   * of a booking, the interview keeps its SlotId and the slot stays booked.
   */
  lemma CancelledStatusKeepsSlot(db: Db, iid: int, sid: int)
    requires iid in db.interviews && db.interviews[iid].slotId == Some(sid) && sid in db.slots
    ensures var e := UpdateStatusEffect(db, Some(iid), Str("Cancelled"));
            e.db.interviews[iid].status == Cancelled && e.db.interviews[iid].slotId == Some(sid) &&
            e.db.slots[sid] == db.slots[sid]
  {
  }

  /** A status update keeps the database consistent: no rule of `Consistent` reads the status. */
  lemma UpdateStatusKeepsConsistent(db: Db, key: Option<int>, status: JsValue)
    requires Consistent(db)
    ensures Consistent(UpdateStatusEffect(db, key, status).db)
  {
    var e := UpdateStatusEffect(db, key, status);
    if e.result == StatusUpdated && key.value in db.interviews {
      UpdateStatusWritesOnlyStatus(db, key, status);
      var iid := key.value;
      assert forall j :: j in e.db.interviews ==>
        e.db.interviews[j].slotId == db.interviews[j].slotId &&
        e.db.interviews[j].studentId == db.interviews[j].studentId &&
        e.db.interviews[j].token == db.interviews[j].token &&
        e.db.interviews[j].tokenExpiredAt == db.interviews[j].tokenExpiredAt;
    }
  }

  // ---------------------------------------------------------------- deleteInterview

  datatype DeleteOutcome = InvalidInterviewId | DeleteFailed | InterviewDeleted

  function DeleteCode(o: DeleteOutcome): int {
    match o
    case InvalidInterviewId => 400
    case DeleteFailed => 500
    case InterviewDeleted => 200
  }

  /**
   * `deleteInterview`: `parseInt` of the route id must give a number other than 0 (`!id` is
   * true for `NaN` and 0); a number outside the `Int` range makes the driver fail with 500.
   * The delete is sent whether or not such an interview exists.
   */
  function DeleteInterviewEffect(db: Db, idText: string): Effect<DeleteOutcome> {
    match ParseInt(idText)
    case None => Effect(InvalidInterviewId, db)
    case Some(id) =>
      if id == 0 then Effect(InvalidInterviewId, db)
      else if !IsInt32(id) then Effect(DeleteFailed, db)
      else Effect(InterviewDeleted, Tables.DeleteInterview(db, id).db)
  }

  method DeleteInterview(store: Database.Store, idText: string) returns (o: DeleteOutcome)
    modifies store
    ensures Effect(o, store.State()) == DeleteInterviewEffect(old(store.State()), idText)
  {
    var parsed := ParseInt(idText);
    if parsed.None? || parsed.value == 0 {
      return InvalidInterviewId;
    }
    if !IsInt32(parsed.value) {
      return DeleteFailed;
    }
    var _ := store.DeleteInterview(parsed.value);
    o := InterviewDeleted;
  }

  /**
   * The id is refused with 400 exactly when `parseInt` finds no number or finds 0; a delete
   * removes that one interview, if there is one, and nothing else; every refusal writes nothing.
   */
  lemma DeleteInterviewIff(db: Db, idText: string)
    ensures var e := DeleteInterviewEffect(db, idText);
            (e.result == InvalidInterviewId <==> ParseInt(idText).None? || ParseInt(idText) == Some(0)) &&
            (e.result == InterviewDeleted <==> ParseInt(idText).Some? && ParseInt(idText).value != 0 && IsInt32(ParseInt(idText).value)) &&
            (e.result == InterviewDeleted ==>
               e.db == db.(interviews := db.interviews - {ParseInt(idText).value})) &&
            (e.result != InterviewDeleted ==> e.db == db)
  {
  }

  /** `parseInt` reads the leading digits, so an id with trailing text deletes the interview they name. */
  lemma TrailingTextIgnored(db: Db)
    ensures DeleteInterviewEffect(db, "12abc") == Effect(InterviewDeleted, db.(interviews := db.interviews - {12}))
    ensures DeleteInterviewEffect(db, "0") == Effect(InvalidInterviewId, db)
  {
    TwelveAbc();
    assert ParseInt("0") == Some(0) by {
      ParseIntOfNatToString(0);
      assert NatToString(0) == "0";
    }
  }

  lemma TwelveAbc()
    ensures ParseInt("12abc") == Some(12)
  {
    var d, t := "12", "abc";
    assert AllDigits(d) && !IsDigit(t[0]);
    ParseIntIgnoresTail(d, t);
    assert d + t == "12abc";
    TwelveValue();
  }

  lemma TwelveValue()
    ensures DigitsValue("12", 10) == 12
  {
    assert "12"[..1] == "1";
  }

  /** Deleting keeps the database consistent. */
  lemma DeleteInterviewKeepsConsistent(db: Db, idText: string)
    requires Consistent(db)
    ensures Consistent(DeleteInterviewEffect(db, idText).db)
  {
  }

  /**
   * Deleting an interview that holds a slot does not free the slot: it stays booked by the
   * student, and no interview holds it any more.
   */
  lemma DeleteLeavesSlotBooked(db: Db, idText: string, sid: int)
    requires Consistent(db)
    requires ParseInt(idText).Some? && ParseInt(idText).value in db.interviews
    requires db.interviews[ParseInt(idText).value].slotId == Some(sid)
    requires DeleteInterviewEffect(db, idText).result == InterviewDeleted
    ensures var e := DeleteInterviewEffect(db, idText);
            sid in e.db.slots && e.db.slots[sid].isBooked &&
            e.db.slots[sid].bookedBy == Some(db.interviews[ParseInt(idText).value].studentId) &&
            forall j :: j in e.db.interviews ==> e.db.interviews[j].slotId != Some(sid)
  {
    var iid := ParseInt(idText).value;
    var e := DeleteInterviewEffect(db, idText);
    forall j | j in e.db.interviews ensures e.db.interviews[j].slotId != Some(sid) {
      assert j != iid && j in db.interviews;
    }
  }
}
