/**
 * The bulk invitation handler of the student routes: it checks the selection, looks the
 * students up, keeps only those that have never been invited, and hands them to the mail
 * service, which writes one `Invited` interview per student.
 *
 * The student look-up fixes no order; the students are taken in ascending identity.
 */
module StudentInvites {
  import opened Wrappers
  import opened JsText
  import opened Tables
  import Ordering
  import TokenService
  import EmailService
  import Database

  /** The largest selection one request may invite. */
  const MaxInvites: nat := 50

  datatype InviteOutcome =
    | NoneSelected
    | TooManyInvites
    | InviteFailed
    | NoneFound
    | AllInvited
    | InvitesSent(summary: EmailService.BulkInviteSummary, skippedExisting: nat)

  function InviteStatus(o: InviteOutcome): int {
    match o
    case NoneSelected => 400
    case TooManyInvites => 400
    case InviteFailed => 500
    case NoneFound => 404
    case AllInvited => 400
    case InvitesSent(_, _) => 200
  }

  /** What the checks before any mail decide: a refusal, or the students found and those never invited. */
  datatype Selection = Refused(outcome: InviteOutcome) | Selected(found: set<int>, uninvited: seq<int>)

  /** The stored students among the requested identities. */
  function Found(db: Db, ids: set<int>): set<int> {
    set id | id in db.students && id in ids
  }

  /**
   * The checks of the bulk invitation: a non-empty array of at most 50 identities that the
   * driver accepts, at least one of them a stored student, and at least one of those without
   * any interview.
   */
  function InviteSelection(db: Db, studentIds: JsArray<JsValue>): Selection {
    if !studentIds.Items? || |studentIds.items| == 0 then Refused(NoneSelected)
    else if |studentIds.items| > MaxInvites then Refused(TooManyInvites)
    else
      match IdList(studentIds.items)
      case None => Refused(InviteFailed)
      case Some(ids) =>
        var found := Found(db, ids);
        if found == {} then Refused(NoneFound)
        else
          var uninvited := found - Interviewed(db);
          if uninvited == {} then Refused(AllInvited)
          else Selected(found, Ordering.SortBy(uninvited, Ordering.ById))
  }

  /** The students handed to the mail service, with their name and address. */
  function Invitees(db: Db, ids: seq<int>): (r: seq<EmailService.Invitee>)
    requires forall k :: 0 <= k < |ids| ==> ids[k] in db.students
    ensures |r| == |ids|
    ensures forall k :: 0 <= k < |ids| ==> r[k].id == ids[k]
  {
    seq(|ids|, k requires 0 <= k < |ids| => EmailService.Invitee(ids[k], db.students[ids[k]].name, db.students[ids[k]].email))
  }

  /** A selection is the found students and, sorted, those of them never invited. */
  lemma SelectionShape(db: Db, studentIds: JsArray<JsValue>)
    requires InviteSelection(db, studentIds).Selected?
    ensures studentIds.Items? && 0 < |studentIds.items| <= MaxInvites && IdList(studentIds.items).Some?
    ensures var sel := InviteSelection(db, studentIds);
            var found := Found(db, IdList(studentIds.items).value);
            sel.found == found && found - Interviewed(db) != {} &&
            sel.uninvited == Ordering.SortBy(found - Interviewed(db), Ordering.ById)
  {
    var ids := IdList(studentIds.items).value;
    var found := Found(db, ids);
    assert InviteSelection(db, studentIds) == Selected(found, Ordering.SortBy(found - Interviewed(db), Ordering.ById));
  }

  /** A selection only ever names stored students. */
  lemma SelectedAreStudents(db: Db, studentIds: JsArray<JsValue>)
    requires InviteSelection(db, studentIds).Selected?
    ensures var uninvited := InviteSelection(db, studentIds).uninvited;
            forall k :: 0 <= k < |uninvited| ==> uninvited[k] in db.students
  {
    SelectionShape(db, studentIds);
    var r := InviteSelection(db, studentIds).uninvited;
    forall k | 0 <= k < |r|
      ensures r[k] in db.students
    {
      assert r[k] in r;
    }
  }

  method SendBulkInvitations(store: Database.Store, studentIds: JsArray<JsValue>,
                             configs: seq<EmailService.TransportConfig>, verifies: EmailService.TransportConfig -> bool,
                             random: nat -> TokenService.Bytes32, delivered: nat -> bool, frontendUrl: string, now: Time)
    returns (o: InviteOutcome)
    modifies store
    ensures var sel := InviteSelection(old(store.State()), studentIds);
            (sel.Refused? ==> o == sel.outcome && store.State() == old(store.State())) &&
            (sel.Selected? && (forall k :: 0 <= k < |configs| ==> !verifies(configs[k])) ==>
               o == InviteFailed && store.State() == old(store.State())) &&
            (sel.Selected? && (exists k :: 0 <= k < |configs| && verifies(configs[k])) ==>
               (forall k :: 0 <= k < |sel.uninvited| ==> sel.uninvited[k] in old(store.State()).students) &&
               var invitees := Invitees(old(store.State()), sel.uninvited);
               o.InvitesSent? && o.skippedExisting == |sel.found| - |sel.uninvited| &&
               var run := EmailService.InviteFrom(old(store.State()), invitees, 0, random, delivered,
                                                  frontendUrl, now, EmailService.NoneSent);
               store.State() == run.0 &&
               o.summary == EmailService.Summarise(invitees, run.1, configs[EmailService.FirstVerifying(configs, verifies).value].name))
  {
    var db := store.State();
    var sel := InviteSelection(db, studentIds);
    if sel.Refused? {
      return sel.outcome;
    }
    SelectedAreStudents(db, studentIds);
    SkippedCount(db, studentIds);
    var invitees := Invitees(db, sel.uninvited);
    var r := EmailService.SendBulkInvitations(store, invitees, configs, verifies, random, delivered, frontendUrl, now);
    if r.None? {
      return InviteFailed;
    }
    o := InvitesSent(r.value, |sel.found| - |sel.uninvited|);
  }

  /**
   * The checks refuse in a fixed order: no selection, more than 50, an identity the driver
   * rejects, no stored student, and no student that was never invited.
   */
  lemma SelectionRefusals(db: Db, studentIds: JsArray<JsValue>)
    ensures var sel := InviteSelection(db, studentIds);
            (sel == Refused(NoneSelected) <==> !studentIds.Items? || studentIds.items == []) &&
            (sel == Refused(TooManyInvites) <==> studentIds.Items? && |studentIds.items| > MaxInvites) &&
            (sel == Refused(InviteFailed) <==>
               studentIds.Items? && 0 < |studentIds.items| <= MaxInvites && IdList(studentIds.items).None?) &&
            (sel == Refused(NoneFound) <==>
               studentIds.Items? && 0 < |studentIds.items| <= MaxInvites && IdList(studentIds.items).Some? &&
               Found(db, IdList(studentIds.items).value) == {}) &&
            (sel == Refused(AllInvited) <==>
               studentIds.Items? && 0 < |studentIds.items| <= MaxInvites && IdList(studentIds.items).Some? &&
               Found(db, IdList(studentIds.items).value) != {} &&
               Found(db, IdList(studentIds.items).value) <= Interviewed(db))
  {
    if studentIds.Items? && 0 < |studentIds.items| <= MaxInvites && IdList(studentIds.items).Some? {
      var found := Found(db, IdList(studentIds.items).value);
      if found - Interviewed(db) == {} {
        forall x | x in found
          ensures x in Interviewed(db)
        {
          assert x !in found - Interviewed(db);
        }
      }
    }
  }

  /**
   * Only students with no interview are invited: the students handed on are exactly the
   * requested students that exist and were never invited, once each, in ascending identity.
   */
  lemma SelectionOnlyNew(db: Db, studentIds: JsArray<JsValue>)
    requires InviteSelection(db, studentIds).Selected?
    ensures var sel := InviteSelection(db, studentIds);
            var ids := IdList(studentIds.items).value;
            forall x :: x in sel.uninvited <==> x in db.students && x in ids && x !in Interviewed(db)
    ensures var sel := InviteSelection(db, studentIds);
            var ids := IdList(studentIds.items).value;
            forall x :: x in sel.found <==> x in db.students && x in ids
    ensures var sel := InviteSelection(db, studentIds);
            Ordering.Distinct(sel.uninvited) &&
            forall i, j :: 0 <= i < j < |sel.uninvited| ==> sel.uninvited[i] < sel.uninvited[j]
    ensures var sel := InviteSelection(db, studentIds);
            0 < |sel.uninvited| <= |sel.found| <= |studentIds.items| <= MaxInvites
  {
    SelectionShape(db, studentIds);
    var sel := InviteSelection(db, studentIds);
    var ids := IdList(studentIds.items).value;
    var found := Found(db, ids);
    var rest := found - Interviewed(db);
    assert |sel.uninvited| == |rest|;
    Ordering.SubsetNoLarger(rest, found);
    Ordering.SubsetNoLarger(found, ids);
    IdListSize(studentIds.items);
    Ordering.SortedByIdAscending(sel.uninvited);
  }

  /** The students skipped as already invited are the found students that have an interview. */
  lemma SkippedCount(db: Db, studentIds: JsArray<JsValue>)
    requires InviteSelection(db, studentIds).Selected?
    ensures var sel := InviteSelection(db, studentIds);
            |sel.uninvited| <= |sel.found| && |sel.found| - |sel.uninvited| == |sel.found * Interviewed(db)|
  {
    SelectionShape(db, studentIds);
    var sel := InviteSelection(db, studentIds);
    var uninvited := sel.found - Interviewed(db);
    var invitedBefore := sel.found * Interviewed(db);
    assert sel.found == uninvited + invitedBefore && uninvited * invitedBefore == {};
  }

  /**
   * Invitations are not repeated: once the selected students have been invited, the same
   * request finds every student it names already invited and is refused with 400, whether or
   * not the messages went out.
   */
  lemma InvitationsNotRepeated(db: Db, studentIds: JsArray<JsValue>, random: nat -> TokenService.Bytes32,
                               delivered: nat -> bool, frontendUrl: string, now: Time)
    requires IdsInRange(db)
    requires InviteSelection(db, studentIds).Selected?
    ensures var sel := InviteSelection(db, studentIds);
            (forall k :: 0 <= k < |sel.uninvited| ==> sel.uninvited[k] in db.students) &&
            var after := EmailService.InviteFrom(db, Invitees(db, sel.uninvited), 0, random, delivered, frontendUrl, now,
                                                 EmailService.NoneSent).0;
            InviteSelection(after, studentIds) == Refused(AllInvited)
  {
    SelectionShape(db, studentIds);
    var sel := InviteSelection(db, studentIds);
    SelectedAreStudents(db, studentIds);
    var invitees := Invitees(db, sel.uninvited);
    var after := EmailService.InviteFrom(db, invitees, 0, random, delivered, frontendUrl, now, EmailService.NoneSent).0;
    EmailService.InviteFromWrites(db, invitees, random, delivered, frontendUrl, now);
    var ids := IdList(studentIds.items).value;
    assert after.students == db.students;
    assert Found(after, ids) == sel.found;
    forall x | x in sel.found
      ensures x in Interviewed(after)
    {
      if x in Interviewed(db) {
        var i :| i in db.interviews && db.interviews[i].studentId == x;
        assert after.interviews[i] == db.interviews[i];
      } else {
        assert x in sel.uninvited;
        var k :| 0 <= k < |sel.uninvited| && sel.uninvited[k] == x;
        assert after.interviews[db.nextInterviewId + k].studentId == x;
      }
    }
    SelectionRefusals(after, studentIds);
  }

  /**
   * Inviting the selected students keeps the database consistent, provided the random bytes
   * give each of the (at most 50) students a token of its own that no interview holds yet.
   */
  lemma InvitationsKeepConsistent(db: Db, studentIds: JsArray<JsValue>, random: nat -> TokenService.Bytes32,
                                  delivered: nat -> bool, frontendUrl: string, now: Time)
    requires Consistent(db)
    requires InviteSelection(db, studentIds).Selected?
    requires forall k, l :: 0 <= k < l < MaxInvites ==>
               TokenService.GenerateSecureToken(random(k)) != TokenService.GenerateSecureToken(random(l))
    requires forall j, k :: j in db.interviews && 0 <= k < MaxInvites ==>
               db.interviews[j].token != Some(TokenService.GenerateSecureToken(random(k)))
    ensures var sel := InviteSelection(db, studentIds);
            (forall k :: 0 <= k < |sel.uninvited| ==> sel.uninvited[k] in db.students) &&
            Consistent(EmailService.InviteFrom(db, Invitees(db, sel.uninvited), 0, random, delivered, frontendUrl, now,
                                               EmailService.NoneSent).0)
  {
    SelectedAreStudents(db, studentIds);
    SelectionOnlyNew(db, studentIds);
    var invitees := Invitees(db, InviteSelection(db, studentIds).uninvited);
    InviteConsistentFor(db, invitees, random, delivered, frontendUrl, now);
  }

  lemma InviteConsistentFor(db: Db, invitees: seq<EmailService.Invitee>, random: nat -> TokenService.Bytes32,
                            delivered: nat -> bool, frontendUrl: string, now: Time)
    requires Consistent(db) && |invitees| <= MaxInvites
    requires forall k :: 0 <= k < |invitees| ==> invitees[k].id in db.students
    requires forall k, l :: 0 <= k < l < MaxInvites ==>
               TokenService.GenerateSecureToken(random(k)) != TokenService.GenerateSecureToken(random(l))
    requires forall j, k :: j in db.interviews && 0 <= k < MaxInvites ==>
               db.interviews[j].token != Some(TokenService.GenerateSecureToken(random(k)))
    ensures Consistent(EmailService.InviteFrom(db, invitees, 0, random, delivered, frontendUrl, now, EmailService.NoneSent).0)
  {
    EmailService.InviteFromKeepsConsistent(db, invitees, 0, random, delivered, frontendUrl, now, EmailService.NoneSent);
  }
}
