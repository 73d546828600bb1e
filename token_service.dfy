/**
 * Invitation tokens: 32 random bytes printed as lower-case hexadecimal, the lookup that turns a
 * token back into its `Invited` interview, and the update that erases a token.
 */
module TokenService {
  import opened Wrappers
  import opened Tables
  import Database

  newtype byte = x: int | 0 <= x < 256

  /** What `crypto.randomBytes(32)` delivers. */
  type Bytes32 = s: seq<byte> | |s| == 32 witness seq(32, _ => 0 as byte)

  /** The lower-case hexadecimal digit of a value below 16. */
  function HexChar(n: int): char
    requires 0 <= n < 16
  {
    if n < 10 then ('0' as int + n) as char else ('a' as int + n - 10) as char
  }

  predicate IsHexChar(c: char) {
    ('0' <= c <= '9') || ('a' <= c <= 'f')
  }

  /** The value of a lower-case hexadecimal digit, -1 for any other character. */
  function HexValue(c: char): (v: int)
    ensures -1 <= v < 16
    ensures v >= 0 <==> IsHexChar(c)
  {
    if '0' <= c <= '9' then c as int - '0' as int
    else if 'a' <= c <= 'f' then c as int - 'a' as int + 10
    else -1
  }

  /** `Buffer.toString('hex')`: two digits per byte, high half first. */
  function Hex(bytes: seq<byte>): (r: string)
    ensures |r| == 2 * |bytes|
    ensures forall i :: 0 <= i < |r| ==> IsHexChar(r[i])
  {
    if bytes == [] then []
    else [HexChar(bytes[0] as int / 16), HexChar(bytes[0] as int % 16)] + Hex(bytes[1..])
  }

  /** Reading hexadecimal text back into bytes; `None` for an odd length or a non-digit. */
  function UnHex(s: string): Option<seq<byte>>
    decreases |s|
  {
    if s == [] then Some([])
    else if |s| == 1 then None
    else
      var hi := HexValue(s[0]);
      var lo := HexValue(s[1]);
      if hi < 0 || lo < 0 then None
      else
        match UnHex(s[2..])
        case None => None
        case Some(rest) => Some([(hi * 16 + lo) as byte] + rest)
  }

  /** Every byte string is read back from its hexadecimal text. */
  lemma {:induction false} UnHexOfHex(bytes: seq<byte>)
    ensures UnHex(Hex(bytes)) == Some(bytes)
  {
    if bytes != [] {
      var s := Hex(bytes);
      var b := bytes[0] as int;
      assert s[2..] == Hex(bytes[1..]);
      assert HexValue(s[0]) == b / 16 && HexValue(s[1]) == b % 16;
      UnHexOfHex(bytes[1..]);
      assert [bytes[0]] + bytes[1..] == bytes;
    }
  }

  /** `generateSecureToken`: the random bytes in hexadecimal. */
  function GenerateSecureToken(random: Bytes32): (t: string)
    ensures |t| == 64
    ensures forall i :: 0 <= i < |t| ==> IsHexChar(t[i])
  {
    Hex(random)
  }

  /** Different random bytes give different tokens. */
  lemma TokenInjective(a: Bytes32, b: Bytes32)
    requires GenerateSecureToken(a) == GenerateSecureToken(b)
    ensures a == b
  {
    UnHexOfHex(a);
    UnHexOfHex(b);
  }

  // ---------------------------------------------------------------- verifyToken

  /** The interview row with its student's name and email, as the lookup returns it. */
  datatype TokenRecord = TokenRecord(interviewId: int, interview: Interview, studentName: string, studentEmail: string)

  /** Interviews joined with their student that hold `token` and are `Invited`. */
  function InvitedRows(db: Db, token: string): set<int> {
    set i | i in TokenRows(db, token) && db.interviews[i].status == Invited
  }

  /**
   * `verifyToken`: the first `Invited` interview holding the token, with its student. `failed`
   * stands for the database throwing, which the lookup turns into null as well.
   */
  function VerifyToken(db: Db, token: string, failed: bool): (r: Option<TokenRecord>)
    ensures r.Some? <==> !failed && exists i :: i in db.interviews && db.interviews[i].token == Some(token) &&
                                              db.interviews[i].status == Invited && db.interviews[i].studentId in db.students
    ensures r.Some? ==> var iv := r.value.interview;
                        r.value.interviewId in db.interviews && db.interviews[r.value.interviewId] == iv &&
                        iv.token == Some(token) && iv.status == Invited && iv.studentId in db.students &&
                        r.value.studentName == db.students[iv.studentId].name &&
                        r.value.studentEmail == db.students[iv.studentId].email
  {
    if failed then None
    else
      match First(InvitedRows(db, token))
      case None =>
        assert forall i :: i in db.interviews && db.interviews[i].token == Some(token) &&
                           db.interviews[i].status == Invited && db.interviews[i].studentId in db.students
                           ==> i in InvitedRows(db, token);
        None
      case Some(i) =>
        var iv := db.interviews[i];
        Some(TokenRecord(i, iv, db.students[iv.studentId].name, db.students[iv.studentId].email))
  }

  // ---------------------------------------------------------------- invalidateToken

  /**
   * `invalidateToken`: erases the token from every interview holding it and answers true;
   * when the database throws, nothing changes and the answer is false.
   */
  method InvalidateToken(store: Database.Store, token: string, failed: bool) returns (ok: bool)
    modifies store
    ensures ok == !failed
    ensures store.State() == if failed then old(store.State()) else ClearToken(old(store.State()), token).db
  {
    if failed {
      return false;
    }
    var _ := store.ClearToken(token);
    ok := true;
  }

  /** Once a token is erased no interview holds it, so looking it up finds nothing. */
  lemma InvalidatedTokenNotVerified(db: Db, token: string, failed: bool)
    ensures VerifyToken(ClearToken(db, token).db, token, failed).None?
  {
  }

  /**
   * Erasing a token changes nothing but the token column of the rows that held it: every other
   * column and table, and every other row's token, stay as they were.
   */
  lemma ClearTokenFrame(db: Db, token: string)
    ensures var after := ClearToken(db, token).db;
            after.students == db.students && after.slots == db.slots &&
            after.interviews.Keys == db.interviews.Keys &&
            after.nextInterviewId == db.nextInterviewId &&
            (forall i :: i in db.interviews ==>
               after.interviews[i].(token := db.interviews[i].token) == db.interviews[i] &&
               after.interviews[i].token != Some(token) &&
               (db.interviews[i].token != Some(token) ==> after.interviews[i].token == db.interviews[i].token))
  {
  }

  /** Erasing a token keeps the database consistent. */
  lemma ClearTokenKeepsConsistent(db: Db, token: string)
    requires Consistent(db)
    ensures Consistent(ClearToken(db, token).db)
  {
  }
}
