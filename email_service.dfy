/**
 * The parts of the mail service that decide something: which SMTP configurations exist, which
 * of them is used, the invitation rows written for each invited student and the counts the bulk
 * run reports, and who is told about a new booking. Whether a server accepts a connection or a
 * message is a parameter; templates, message bodies and the transport itself are not modelled.
 */
module EmailService {
  import opened Wrappers
  import opened JsText
  import opened Tables
  import TokenService
  import Database

  // ---------------------------------------------------------------- transport selection

  /** The environment variables the mail set-up reads, `None` where unset. */
  datatype MailEnv = MailEnv(user: Option<string>, password: Option<string>, host: Option<string>,
                             port: Option<string>, secure: Option<string>)

  datatype TransportConfig = TransportConfig(name: string, host: string, port: int, secure: bool, user: string, pass: string)

  const DefaultHost: string := "mail.b2world.in"

  /** `parseInt(EMAIL_PORT) || 587`: NaN and 0 fall back to 587. */
  function PrimaryPort(port: Option<string>): (p: int)
    ensures p != 0
  {
    var parsed := ParseInt(port.GetOr("undefined"));
    if parsed.Some? && parsed.value != 0 then parsed.value else 587
  }

  /**
   * The configurations to try, in order: STARTTLS on the configured port, then SSL on 465, both
   * only when a user and a password are set.
   */
  function TransportConfigs(env: MailEnv): seq<TransportConfig> {
    if Present(env.password) && Present(env.user) then
      var host := if Present(env.host) then env.host.value else DefaultHost;
      [TransportConfig("B2World STARTTLS", host, PrimaryPort(env.port), env.secure == Some("true"), env.user.value, env.password.value),
       TransportConfig("B2World SSL", host, 465, true, env.user.value, env.password.value)]
    else []
  }

  /**
   * Without credentials there is nothing to try; with them the primary uses the configured
   * port (587 when that is unset or not a number) and the fallback always implicit TLS on 465,
   * both on the same host and account.
   */
  lemma TransportConfigsShape(env: MailEnv)
    ensures var cs := TransportConfigs(env);
            (cs == [] <==> !(Present(env.password) && Present(env.user))) &&
            (cs != [] ==>
               |cs| == 2 && cs[0].host == cs[1].host && cs[0].user == cs[1].user == env.user.value &&
               cs[0].pass == cs[1].pass == env.password.value &&
               cs[1].port == 465 && cs[1].secure &&
               (ParseInt(env.port.GetOr("undefined")).None? ==> cs[0].port == 587) &&
               (env.secure != Some("true") ==> !cs[0].secure) &&
               (!Present(env.host) ==> cs[0].host == DefaultHost))
  {
  }

  /**
   * The index of the first configuration, in list order, whose connection check succeeds, or
   * `None` when there is none.
   */
  function FirstVerifying(configs: seq<TransportConfig>, verifies: TransportConfig -> bool): (r: Option<nat>)
    ensures r.None? <==> forall k :: 0 <= k < |configs| ==> !verifies(configs[k])
    ensures r.Some? ==> r.value < |configs| && verifies(configs[r.value]) &&
                        forall k :: 0 <= k < r.value ==> !verifies(configs[k])
  {
    if configs == [] then None
    else if verifies(configs[0]) then Some(0)
    else
      match FirstVerifying(configs[1..], verifies)
      case None => None
      case Some(k) => Some(k + 1)
  }

  /**
   * `createTransporter`: tries the configurations in order and stops at the first whose
   * connection check succeeds; `None` (the function throws) when the list is empty or every
   * check fails.
   */
  method CreateTransporter(configs: seq<TransportConfig>, verifies: TransportConfig -> bool) returns (chosen: Option<nat>)
    ensures chosen == FirstVerifying(configs, verifies)
  {
    if |configs| == 0 {
      return None;
    }
    var i := 0;
    while i < |configs|
      invariant 0 <= i <= |configs|
      invariant forall k :: 0 <= k < i ==> !verifies(configs[k])
    {
      if verifies(configs[i]) {
        return Some(i);
      }
      i := i + 1;
    }
    return None;
  }

  /**
   * With credentials set, the provider reported is the STARTTLS configuration when its check
   * succeeds and the SSL one when only that succeeds; when both fail nothing is chosen.
   */
  lemma ProviderChoice(env: MailEnv, verifies: TransportConfig -> bool)
    requires Present(env.password) && Present(env.user)
    ensures var cs := TransportConfigs(env);
            var chosen := FirstVerifying(cs, verifies);
            (verifies(cs[0]) ==> chosen.Some? && cs[chosen.value].name == "B2World STARTTLS") &&
            (!verifies(cs[0]) && verifies(cs[1]) ==> chosen.Some? && cs[chosen.value].name == "B2World SSL") &&
            (!verifies(cs[0]) && !verifies(cs[1]) ==> chosen.None?)
  {
    var cs := TransportConfigs(env);
    assert |cs| == 2;
    var chosen := FirstVerifying(cs, verifies);
    if chosen.Some? {
      assert chosen.value == 0 || chosen.value == 1;
    }
  }

  // ---------------------------------------------------------------- invitations

  /** A student to invite, as the students query returns it. */
  datatype Invitee = Invitee(id: int, name: string, email: string)

  /** A delivered invitation: the student, the token and the link sent. */
  datatype Sent = Sent(studentId: int, token: string, invitationLink: string)

  datatype InviteTally = InviteTally(results: seq<Sent>, errors: seq<Invitee>)

  const NoneSent: InviteTally := InviteTally([], [])

  /** The link a student follows to pick a slot. */
  function InvitationLink(frontendUrl: string, token: string): string {
    frontendUrl + "/student/select-slot?token=" + token
  }

  /** The interview row an invitation writes: `Invited`, no slot, holding the fresh token. */
  function InvitationRow(studentId: int, token: string, now: Time): Interview {
    Interview(studentId, None, Some(token), None, Invited, None, None, None, now, None)
  }

  /**
   * One student of the bulk run: the interview row is inserted first, then the message is
   * sent; a message that fails lands in `errors`, and the row stays.
   */
  function InviteOne(db: Db, s: Invitee, token: string, delivered: bool, frontendUrl: string, now: Time, t: InviteTally)
    : (Db, InviteTally)
  {
    var r := InsertInterview(db, s.id, token, now);
    if delivered then (r.db, t.(results := t.results + [Sent(s.id, token, InvitationLink(frontendUrl, token))]))
    else (r.db, t.(errors := t.errors + [s]))
  }

  /**
   * The bulk run from the `i`-th student on. Student `k` gets the token printed from
   * `random(k)`, and `delivered(k)` says whether its message went out.
   */
  function InviteFrom(db: Db, students: seq<Invitee>, i: nat, random: nat -> TokenService.Bytes32, delivered: nat -> bool,
                      frontendUrl: string, now: Time, t: InviteTally): (Db, InviteTally)
    requires i <= |students|
    decreases |students| - i
  {
    if i == |students| then (db, t)
    else
      var step := InviteOne(db, students[i], TokenService.GenerateSecureToken(random(i)), delivered(i), frontendUrl, now, t);
      InviteFrom(step.0, students, i + 1, random, delivered, frontendUrl, now, step.1)
  }

  datatype BulkInviteSummary = BulkInviteSummary(
    success: bool, totalAttempted: nat, successCount: nat, errorCount: nat,
    results: seq<Sent>, errors: seq<Invitee>, provider: string)

  /** The summary the bulk run returns for its tally. */
  function Summarise(students: seq<Invitee>, t: InviteTally, provider: string): BulkInviteSummary {
    BulkInviteSummary(t.errors == [], |students|, |t.results|, |t.errors|, t.results, t.errors, provider)
  }

  /**
   * `sendBulkInvitations`: picks a transport once (throwing, with nothing written, when none
   * works), then invites each student in turn.
   */
  method SendBulkInvitations(store: Database.Store, students: seq<Invitee>, configs: seq<TransportConfig>,
                             verifies: TransportConfig -> bool, random: nat -> TokenService.Bytes32,
                             delivered: nat -> bool, frontendUrl: string, now: Time)
    returns (r: Option<BulkInviteSummary>)
    modifies store
    ensures r.None? <==> forall k :: 0 <= k < |configs| ==> !verifies(configs[k])
    ensures r.None? ==> store.State() == old(store.State())
    ensures r.Some? ==>
              var run := InviteFrom(old(store.State()), students, 0, random, delivered, frontendUrl, now, NoneSent);
              store.State() == run.0 && r.value == Summarise(students, run.1, configs[FirstVerifying(configs, verifies).value].name)
  {
    var chosen := CreateTransporter(configs, verifies);
    if chosen.None? {
      return None;
    }
    var provider := configs[chosen.value].name;
    var tally := NoneSent;
    var i := 0;
    while i < |students|
      invariant 0 <= i <= |students|
      invariant InviteFrom(store.State(), students, i, random, delivered, frontendUrl, now, tally) ==
                InviteFrom(old(store.State()), students, 0, random, delivered, frontendUrl, now, NoneSent)
      decreases |students| - i
    {
      var s := students[i];
      var token := TokenService.GenerateSecureToken(random(i));
      var _ := store.InsertInterview(s.id, token, now);
      if delivered(i) {
        tally := tally.(results := tally.results + [Sent(s.id, token, InvitationLink(frontendUrl, token))]);
      } else {
        tally := tally.(errors := tally.errors + [s]);
      }
      i := i + 1;
    }
    r := Some(Summarise(students, tally, provider));
  }

  /** Every student is counted once, as sent or as failed. */
  lemma {:induction false} InviteFromCounts(db: Db, students: seq<Invitee>, i: nat, random: nat -> TokenService.Bytes32,
                                            delivered: nat -> bool, frontendUrl: string, now: Time, t: InviteTally)
    requires i <= |students|
    ensures var t' := InviteFrom(db, students, i, random, delivered, frontendUrl, now, t).1;
            |t'.results| + |t'.errors| == |t.results| + |t.errors| + (|students| - i) &&
            (t'.errors == [] <==> t.errors == [] && forall k :: i <= k < |students| ==> delivered(k))
    decreases |students| - i
  {
    if i < |students| {
      var step := InviteOne(db, students[i], TokenService.GenerateSecureToken(random(i)), delivered(i), frontendUrl, now, t);
      InviteFromCounts(step.0, students, i + 1, random, delivered, frontendUrl, now, step.1);
    }
  }

  /**
   * The summary adds up: sent plus failed is the number attempted, and the run succeeds
   * exactly when every message went out.
   */
  lemma BulkInviteSummaryCounts(db: Db, students: seq<Invitee>, random: nat -> TokenService.Bytes32, delivered: nat -> bool,
                                frontendUrl: string, now: Time, provider: string)
    ensures var s := Summarise(students, InviteFrom(db, students, 0, random, delivered, frontendUrl, now, NoneSent).1, provider);
            s.successCount + s.errorCount == s.totalAttempted == |students| &&
            (s.success <==> s.errorCount == 0) &&
            (s.success <==> forall k :: 0 <= k < |students| ==> delivered(k))
  {
    InviteFromCounts(db, students, 0, random, delivered, frontendUrl, now, NoneSent);
  }

  /**
   * `after` is `db` with fresh interview identities `nextInterviewId ..` added, one per student
   * from the `i`-th on, and nothing else changed.
   */
  ghost predicate InvitesAdded(db: Db, after: Db, n: nat) {
    after.students == db.students && after.slots == db.slots &&
    after.nextStudentId == db.nextStudentId && after.nextSlotId == db.nextSlotId &&
    after.nextInterviewId == db.nextInterviewId + n &&
    (forall id :: id in after.interviews <==> id in db.interviews || db.nextInterviewId <= id < db.nextInterviewId + n) &&
    (forall id :: id in db.interviews && id < db.nextInterviewId ==> after.interviews[id] == db.interviews[id])
  }

  /** The run adds one interview per student and changes nothing else. */
  lemma {:induction false} InviteFromFrame(db: Db, students: seq<Invitee>, i: nat, random: nat -> TokenService.Bytes32,
                                           delivered: nat -> bool, frontendUrl: string, now: Time, t: InviteTally)
    requires i <= |students|
    ensures InvitesAdded(db, InviteFrom(db, students, i, random, delivered, frontendUrl, now, t).0, |students| - i)
    decreases |students| - i
  {
    if i < |students| {
      var step := InviteOne(db, students[i], TokenService.GenerateSecureToken(random(i)), delivered(i), frontendUrl, now, t);
      InviteFromFrame(step.0, students, i + 1, random, delivered, frontendUrl, now, step.1);
    }
  }

  /** The row the run writes for student `k`, under identity `nextInterviewId + (k - i)`. */
  lemma {:induction false} InviteFromRow(db: Db, students: seq<Invitee>, i: nat, random: nat -> TokenService.Bytes32,
                                         delivered: nat -> bool, frontendUrl: string, now: Time, t: InviteTally, k: nat)
    requires i <= k < |students|
    ensures var after := InviteFrom(db, students, i, random, delivered, frontendUrl, now, t).0;
            db.nextInterviewId + (k - i) in after.interviews &&
            after.interviews[db.nextInterviewId + (k - i)] ==
              InvitationRow(students[k].id, TokenService.GenerateSecureToken(random(k)), now)
    decreases |students| - i
  {
    var token := TokenService.GenerateSecureToken(random(i));
    var step := InviteOne(db, students[i], token, delivered(i), frontendUrl, now, t);
    var n := db.nextInterviewId;
    assert step.0.interviews == db.interviews[n := InvitationRow(students[i].id, token, now)] && step.0.nextInterviewId == n + 1;
    if k == i {
      InviteFromFrame(step.0, students, i + 1, random, delivered, frontendUrl, now, step.1);
      assert n in step.0.interviews && n < step.0.nextInterviewId;
    } else {
      InviteFromRow(step.0, students, i + 1, random, delivered, frontendUrl, now, step.1, k);
      assert n + (k - i) == step.0.nextInterviewId + (k - (i + 1));
    }
  }

  /**
   * The rows the run writes: student `k` gets an `Invited` interview with no slot, holding the
   * token printed from `random(k)`, whether or not its message was delivered; nothing else
   * changes.
   */
  lemma InviteFromWrites(db: Db, students: seq<Invitee>, random: nat -> TokenService.Bytes32,
                         delivered: nat -> bool, frontendUrl: string, now: Time)
    ensures var after := InviteFrom(db, students, 0, random, delivered, frontendUrl, now, NoneSent).0;
            InvitesAdded(db, after, |students|) &&
            forall k :: 0 <= k < |students| ==>
              db.nextInterviewId + k in after.interviews &&
              after.interviews[db.nextInterviewId + k] == InvitationRow(students[k].id, TokenService.GenerateSecureToken(random(k)), now)
  {
    InviteFromFrame(db, students, 0, random, delivered, frontendUrl, now, NoneSent);
    forall k | 0 <= k < |students|
      ensures var after := InviteFrom(db, students, 0, random, delivered, frontendUrl, now, NoneSent).0;
              db.nextInterviewId + k in after.interviews &&
              after.interviews[db.nextInterviewId + k] == InvitationRow(students[k].id, TokenService.GenerateSecureToken(random(k)), now)
    {
      InviteFromRow(db, students, 0, random, delivered, frontendUrl, now, NoneSent, k);
    }
  }

  /** One invitation row for an existing student, with a token nobody holds, keeps the database consistent. */
  lemma InviteOneKeepsConsistent(db: Db, s: Invitee, token: string, delivered: bool, frontendUrl: string, now: Time, t: InviteTally)
    requires Consistent(db) && s.id in db.students
    requires forall i :: i in db.interviews ==> db.interviews[i].token != Some(token)
    ensures Consistent(InviteOne(db, s, token, delivered, frontendUrl, now, t).0)
  {
  }

  /**
   * Inviting existing students with fresh tokens keeps the database consistent: the new rows
   * hold no slot and no token twice.
   */
  lemma {:induction false} InviteFromKeepsConsistent(db: Db, students: seq<Invitee>, i: nat, random: nat -> TokenService.Bytes32,
                                                     delivered: nat -> bool, frontendUrl: string, now: Time, t: InviteTally)
    requires i <= |students| && Consistent(db)
    requires forall k :: i <= k < |students| ==> students[k].id in db.students
    requires forall k, l :: i <= k < l < |students| ==>
               TokenService.GenerateSecureToken(random(k)) != TokenService.GenerateSecureToken(random(l))
    requires forall j, k :: j in db.interviews && i <= k < |students| ==>
               db.interviews[j].token != Some(TokenService.GenerateSecureToken(random(k)))
    ensures Consistent(InviteFrom(db, students, i, random, delivered, frontendUrl, now, t).0)
    decreases |students| - i
  {
    if i < |students| {
      var token := TokenService.GenerateSecureToken(random(i));
      InviteOneKeepsConsistent(db, students[i], token, delivered(i), frontendUrl, now, t);
      var step := InviteOne(db, students[i], token, delivered(i), frontendUrl, now, t);
      assert step.0.interviews == db.interviews[db.nextInterviewId := InvitationRow(students[i].id, token, now)];
      InviteFromKeepsConsistent(step.0, students, i + 1, random, delivered, frontendUrl, now, step.1);
    }
  }

  datatype SingleInvite = SingleInvite(token: string, invitationLink: string, provider: string)

  /**
   * `sendInvitationEmail`: the interview row is written before anything can fail, so a
   * transport that cannot be set up or a message that is refused (`None`, the call throws)
   * still leaves the `Invited` row behind.
   */
  method SendInvitationEmail(store: Database.Store, s: Invitee, random: TokenService.Bytes32,
                             configs: seq<TransportConfig>, verifies: TransportConfig -> bool, delivered: bool,
                             frontendUrl: string, now: Time)
    returns (r: Option<SingleInvite>)
    modifies store
    ensures store.State() == InsertInterview(old(store.State()), s.id, TokenService.GenerateSecureToken(random), now).db
    ensures r.Some? <==> delivered && exists k :: 0 <= k < |configs| && verifies(configs[k])
    ensures r.Some? ==> r.value.token == TokenService.GenerateSecureToken(random) &&
                        r.value.invitationLink == InvitationLink(frontendUrl, r.value.token) &&
                        r.value.provider == configs[FirstVerifying(configs, verifies).value].name
  {
    var token := TokenService.GenerateSecureToken(random);
    var _ := store.InsertInterview(s.id, token, now);
    var chosen := CreateTransporter(configs, verifies);
    if chosen.None? || !delivered {
      return None;
    }
    r := Some(SingleInvite(token, InvitationLink(frontendUrl, token), configs[chosen.value].name));
  }

  // ---------------------------------------------------------------- HR notification

  /**
   * `[...new Set(xs)]`: each address once, at its first occurrence; the order matters here only
   * for the two configured addresses, and `HrRecipientsOrder` states it for them.
   */
  function Dedupe(xs: seq<string>): (r: seq<string>)
    ensures forall x :: x in r <==> x in xs
    ensures forall i, j :: 0 <= i < j < |r| ==> r[i] != r[j]
    ensures |r| <= |xs|
  {
    if xs == [] then []
    else
      var d := Dedupe(xs[..|xs| - 1]);
      assert xs == xs[..|xs| - 1] + [xs[|xs| - 1]];
      if xs[|xs| - 1] in d then d else d + [xs[|xs| - 1]]
  }

  /** Keeps the addresses that are non-empty and differ from the student's own. */
  function DropOwnAndEmpty(xs: seq<string>, studentEmail: string): (r: seq<string>)
    ensures forall x :: x in r <==> x in xs && x != "" && x != studentEmail
    ensures |r| <= |xs|
    ensures (forall i, j :: 0 <= i < j < |xs| ==> xs[i] != xs[j]) ==> forall i, j :: 0 <= i < j < |r| ==> r[i] != r[j]
  {
    if xs == [] then []
    else
      var rest := DropOwnAndEmpty(xs[1..], studentEmail);
      assert forall x :: x in xs[1..] ==> x in xs;
      assert (forall i, j :: 0 <= i < j < |xs| ==> xs[i] != xs[j]) ==> xs[0] !in xs[1..];
      if xs[0] != "" && xs[0] != studentEmail then [xs[0]] + rest else rest
  }

  /**
   * The addresses told about a new booking: HR_NOTIFICATION_EMAIL, then INTERVIEWER_EMAIL when
   * it differs from it, without repeats, empty addresses or the student's own address.
   */
  function HrRecipients(hrEmail: Option<string>, interviewerEmail: Option<string>, studentEmail: string): seq<string> {
    var first := if Present(hrEmail) then [hrEmail.value] else [];
    var both := if Present(interviewerEmail) && interviewerEmail != hrEmail then first + [interviewerEmail.value] else first;
    DropOwnAndEmpty(Dedupe(both), studentEmail)
  }

  /**
   * An address is notified exactly when it is one of the two configured addresses, is not
   * empty and is not the student's; none is notified twice, so at most two are.
   */
  lemma HrRecipientsExactly(hrEmail: Option<string>, interviewerEmail: Option<string>, studentEmail: string, x: string)
    ensures var r := HrRecipients(hrEmail, interviewerEmail, studentEmail);
            (x in r <==> x != "" && x != studentEmail && (hrEmail == Some(x) || interviewerEmail == Some(x))) &&
            (forall i, j :: 0 <= i < j < |r| ==> r[i] != r[j]) &&
            |r| <= 2
  {
  }

  /**
   * When both addresses are configured, differ from each other and from the student's, HR is
   * notified first and the interviewer second.
   */
  lemma HrRecipientsOrder(hrEmail: Option<string>, interviewerEmail: Option<string>, studentEmail: string)
    requires Present(hrEmail) && Present(interviewerEmail) && hrEmail != interviewerEmail
    requires hrEmail.value != studentEmail && interviewerEmail.value != studentEmail
    ensures HrRecipients(hrEmail, interviewerEmail, studentEmail) == [hrEmail.value, interviewerEmail.value]
  {
    var both := [hrEmail.value, interviewerEmail.value];
    assert both[..1] == [hrEmail.value];
    assert Dedupe([hrEmail.value]) == [hrEmail.value] by {
      assert [hrEmail.value][..0] == [];
    }
    assert Dedupe(both) == both;
    assert both[1..] == [interviewerEmail.value];
    assert both[1..][1..] == [];
  }

  /** The recipients, in order, whose notification `delivered` accepts. */
  function Reached(recipients: seq<string>, delivered: string -> bool): (r: seq<string>)
    ensures forall x :: x in r <==> x in recipients && delivered(x)
  {
    if recipients == [] then []
    else
      var rest := Reached(recipients[1..], delivered);
      assert recipients == [recipients[0]] + recipients[1..];
      if delivered(recipients[0]) then [recipients[0]] + rest else rest
  }

  /** Trying one more recipient extends the delivered list by it exactly when it is delivered. */
  lemma {:induction false} ReachedSnoc(recipients: seq<string>, x: string, delivered: string -> bool)
    ensures Reached(recipients + [x], delivered) ==
            Reached(recipients, delivered) + (if delivered(x) then [x] else [])
  {
    if recipients != [] {
      assert (recipients + [x])[1..] == recipients[1..] + [x];
      ReachedSnoc(recipients[1..], x, delivered);
    } else {
      assert recipients + [x] == [x];
    }
  }

  /**
   * The notification loop, in recipient order: a refused notification is only logged and the
   * loop goes on, so every recipient is tried.
   */
  method NotifyHr(recipients: seq<string>, delivered: string -> bool) returns (reached: seq<string>)
    ensures reached == Reached(recipients, delivered)
  {
    reached := [];
    for i := 0 to |recipients|
      invariant reached == Reached(recipients[..i], delivered)
    {
      assert recipients[..i + 1] == recipients[..i] + [recipients[i]];
      ReachedSnoc(recipients[..i], recipients[i], delivered);
      if delivered(recipients[i]) {
        reached := reached + [recipients[i]];
      }
    }
    assert recipients[..|recipients|] == recipients;
  }

  datatype Confirmation = Confirmation(provider: string, hrNotified: bool, hrEmailsSent: nat)

  /**
   * `sendConfirmationEmail` past the message to the student: `None` (it throws) when no
   * transport works or the student's message is refused; otherwise the HR count is the number
   * of recipients, whether or not their notifications went out.
   */
  method SendConfirmationEmail(configs: seq<TransportConfig>, verifies: TransportConfig -> bool, studentDelivered: bool,
                               hrEmail: Option<string>, interviewerEmail: Option<string>, studentEmail: string,
                               hrDelivered: string -> bool)
    returns (r: Option<Confirmation>)
    ensures r.Some? <==> studentDelivered && exists k :: 0 <= k < |configs| && verifies(configs[k])
    ensures r.Some? ==> r.value.provider == configs[FirstVerifying(configs, verifies).value].name &&
                        r.value.hrEmailsSent == |HrRecipients(hrEmail, interviewerEmail, studentEmail)| &&
                        (r.value.hrNotified <==> r.value.hrEmailsSent > 0)
  {
    var chosen := CreateTransporter(configs, verifies);
    if chosen.None? || !studentDelivered {
      return None;
    }
    var recipients := HrRecipients(hrEmail, interviewerEmail, studentEmail);
    var reached := NotifyHr(recipients, hrDelivered);
    r := Some(Confirmation(configs[chosen.value].name, |recipients| > 0, |recipients|));
  }
}
