/**
 * The request-body schemas of the validation middleware, as predicates on the body. A Joi
 * object schema refuses keys it does not name; a Joi string must be text and, unless `''` is
 * allowed, not empty. Joi's own email and URI checks are not visible here and are parameters.
 */
module Validation {
  import opened Wrappers
  import opened JsText
  import TokenService
  import ExcelService

  type Body = map<string, JsValue>

  /** `body[key]`, reading a missing key as `undefined`. */
  function Field(body: Body, key: string): JsValue {
    if key in body then body[key] else Undefined
  }

  /** Joi's default for object schemas: no key outside the schema. */
  predicate OnlyKeys(body: Body, keys: set<string>) {
    forall k :: k in body ==> k in keys
  }

  // ---------------------------------------------------------------- student

  /** `Joi.string().min(2).max(255).required()`. */
  predicate NameOk(v: JsValue) {
    v.Str? && 2 <= |v.s| <= 255
  }

  /** `/^[\+]?[1-9][\d]{0,15}$/`: an optional `+`, a digit other than 0, then up to 15 digits. */
  predicate PhonePattern(s: string) {
    PhoneDigits(if s != [] && s[0] == '+' then s[1..] else s)
  }

  /** `[1-9][\d]{0,15}`. */
  predicate PhoneDigits(d: string) {
    1 <= |d| <= 16 && '1' <= d[0] <= '9' && forall i :: 1 <= i < |d| ==> IsDigit(d[i])
  }

  /** `Joi.string().pattern(...).allow('')`, not required. */
  predicate PhoneOk(v: JsValue) {
    v == Undefined || v == Str("") || (v.Str? && PhonePattern(v.s))
  }

  /** The `student` schema; `emailOk` and `uriOk` are Joi's email and URI checks. */
  predicate StudentOk(body: Body, emailOk: string -> bool, uriOk: string -> bool) {
    OnlyKeys(body, {"name", "email", "phone", "resumeLink"}) &&
    NameOk(Field(body, "name")) &&
    Field(body, "email").Str? && Field(body, "email").s != "" && emailOk(Field(body, "email").s) &&
    PhoneOk(Field(body, "phone")) &&
    (Field(body, "resumeLink") == Undefined || Field(body, "resumeLink") == Str("") ||
     (Field(body, "resumeLink").Str? && uriOk(Field(body, "resumeLink").s)))
  }

  /** A body with a key the schema does not name is refused, whatever else it holds. */
  lemma UnknownKeyRefused(body: Body, key: string, emailOk: string -> bool, uriOk: string -> bool)
    requires key in body && key !in {"name", "email", "phone", "resumeLink"}
    ensures !StudentOk(body, emailOk, uriOk)
  {
  }

  /** A number is written with at most `k` digits when it is below `10^k`. */
  function Pow10(k: nat): (r: nat)
    ensures r >= 1
  {
    if k == 0 then 1 else 10 * Pow10(k - 1)
  }

  lemma {:induction false} NumeralLength(n: nat, k: nat)
    requires 1 <= k && n < Pow10(k)
    ensures |NatToString(n)| <= k
  {
    if n >= 10 {
      assert Pow10(1) == 10;
      assert k >= 2;
      NumeralLength(n / 10, k - 1);
    }
  }

  /**
   * Every positive number below `10^16`, written plainly or after a `+`, passes the phone
   * pattern: the numeral starts with a non-zero digit and has at most 16 digits.
   */
  lemma PlainNumbersArePhones(n: nat)
    requires 0 < n < Pow10(16)
    ensures PhonePattern(NatToString(n)) && PhonePattern("+" + NatToString(n))
  {
    var s := NatToString(n);
    NumeralLength(n, 16);
    assert s[0] != '0';
    assert PhoneDigits(s);
    assert s[0] != '+';
    var p := "+" + s;
    assert p[0] == '+' && p[1..] == s;
  }

  /** What the pattern accepts has at most 17 characters, digits but for one leading `+`. */
  lemma PhonePatternShape(s: string)
    requires PhonePattern(s)
    ensures |s| <= 17
    ensures forall i :: 0 <= i < |s| ==> IsDigit(s[i]) || (i == 0 && s[i] == '+')
  {
    if s != [] && s[0] == '+' {
      var d := s[1..];
      assert forall i :: 1 <= i < |s| ==> s[i] == d[i - 1];
    }
  }

  /**
   * The schema's phone rule and the spreadsheet import's disagree both ways: a dashed number
   * passes the import only, a short number passes the schema only, and a leading zero sends
   * a number through the import but not the schema.
   */
  lemma PhoneRulesDisagree()
    ensures ExcelService.PhoneOk("555-0100") && !PhonePattern("555-0100")
    ensures PhonePattern("+1234") && !ExcelService.PhoneOk("+1234")
    ensures ExcelService.PhoneOk("0123456") && !PhonePattern("0123456")
  {
    DashedPhone();
    ShortPhone();
    LeadingZeroPhone();
  }

  lemma DashedPhone()
    ensures ExcelService.PhoneOk("555-0100")
    ensures !PhonePattern("555-0100")
  {
    var s := "555-0100";
    assert forall i :: 0 <= i < |s| ==> ExcelService.PhoneChar(s[i]) by {
      assert s == ['5', '5', '5', '-', '0', '1', '0', '0'];
    }
    assert ExcelService.PhoneBody(s);
    assert !IsDigit(s[3]);
  }

  lemma ShortPhone()
    ensures PhonePattern("+1234") && !ExcelService.PhoneOk("+1234")
  {
    var s := "+1234";
    var d := s[1..];
    assert d == ['1', '2', '3', '4'];
    assert forall i :: 1 <= i < |d| ==> IsDigit(d[i]);
    assert |d| == 4;
  }

  lemma LeadingZeroPhone()
    ensures ExcelService.PhoneOk("0123456") && !PhonePattern("0123456")
  {
    var s := "0123456";
    assert forall i :: 0 <= i < |s| ==> ExcelService.PhoneChar(s[i]) by {
      assert s == ['0', '1', '2', '3', '4', '5', '6'];
    }
    assert ExcelService.PhoneBody(s);
  }

  /** The schema's name rule only counts characters: digits pass, and so do two spaces. */
  lemma NameRulesDisagree()
    ensures NameOk(Str("A1")) && !ExcelService.NameOk("A1")
    ensures NameOk(Str("  "))
  {
    assert "A1"[1] == '1';
  }

  // ---------------------------------------------------------------- slot

  /**
   * The `slot` schema: only `slotDateTime`, which must read as a date no earlier than `now`.
   * `readDate` is Joi's conversion of a value to a date, or nothing when it cannot convert it.
   */
  predicate SlotOk(body: Body, readDate: JsValue -> Option<int>, now: int) {
    OnlyKeys(body, {"slotDateTime"}) &&
    Field(body, "slotDateTime") != Undefined &&
    readDate(Field(body, "slotDateTime")).Some? && readDate(Field(body, "slotDateTime")).value >= now
  }

  /** A slot starting now passes; one a moment ago does not. */
  lemma SlotAtNowAllowed(readDate: JsValue -> Option<int>, v: JsValue, now: int)
    requires v != Undefined
    ensures readDate(v) == Some(now) ==> SlotOk(map["slotDateTime" := v], readDate, now)
    ensures readDate(v) == Some(now - 1) ==> !SlotOk(map["slotDateTime" := v], readDate, now)
  {
  }

  // ---------------------------------------------------------------- slotBooking

  /** `Number.MAX_SAFE_INTEGER`: Joi refuses numbers beyond it. */
  const MaxSafeInteger: int := 0x1F_FFFF_FFFF_FFFF

  /**
   * How `Joi.number()` converts text: surrounding whitespace, an optional sign, then decimal
   * digits. Fractions and exponents are not modelled.
   */
  function NumberText(s: string): (r: Option<int>)
    ensures r.Some? ==> Trim(s) != ""
  {
    SignedDecimal(Trim(s))
  }

  /** An optional sign followed by decimal digits and nothing else. */
  function SignedDecimal(t: string): (r: Option<int>)
    ensures r.Some? ==> t != ""
  {
    if t != [] && t[0] == '-' then
      match Decimal(t[1..])
      case None => None
      case Some(m) => Some(0 - m)
    else if t != [] && t[0] == '+' then Decimal(t[1..])
    else Decimal(t)
  }

  /** A non-empty run of decimal digits and nothing else. */
  function Decimal(d: string): (r: Option<nat>)
    ensures r.Some? <==> d != [] && AllDigits(d)
  {
    if d == [] || !AllDigits(d) then None
    else
      assert forall i :: 0 <= i < |d| ==> IsRadixDigit(d[i], 10);
      Some(DigitsValue(d, 10))
  }

  /** Joi converts the text `String` prints for an integer back to that integer. */
  lemma NumberTextOfIntToString(n: int)
    ensures NumberText(IntToString(n)) == Some(n)
  {
    PrintedIsTrimmed(n);
    SignedDecimalOfIntToString(n);
  }

  /** A printed integer starts with a sign or a digit and ends with a digit, so trimming keeps it. */
  lemma PrintedIsTrimmed(n: int)
    ensures Trim(IntToString(n)) == IntToString(n)
  {
    var s := IntToString(n);
    var m: nat := if n < 0 then -n else n;
    var d := NatToString(m);
    DecimalOfNatToString(m);
    assert s[|s| - 1] == d[|d| - 1];
    assert !IsSpace(s[|s| - 1]) by { assert IsDigit(d[|d| - 1]); }
    assert !IsSpace(s[0]) by { assert s[0] == '-' || s[0] == d[0]; }
    TrimmedIsFixed(s);
  }

  lemma SignedDecimalOfIntToString(n: int)
    ensures SignedDecimal(IntToString(n)) == Some(n)
  {
    var m: nat := if n < 0 then -n else n;
    var d := NatToString(m);
    DecimalOfNatToString(m);
    if n < 0 {
      NegativeDecimal(d, m);
    } else {
      assert IntToString(n) == d && IsDigit(d[0]);
    }
  }

  /** A minus sign before decimal digits negates their value. */
  lemma NegativeDecimal(d: string, m: nat)
    requires Decimal(d) == Some(m)
    ensures SignedDecimal("-" + d) == Some(0 - m)
  {
    assert ("-" + d)[1..] == d;
  }

  /** The digits of a decimal numeral are read back as its value. */
  lemma DecimalOfNatToString(m: nat)
    ensures Decimal(NatToString(m)) == Some(m)
  {
    NatToStringValue(m);
  }

  /**
   * Where Joi's digits end, so does `parseInt`'s digit run: the two read the same value from
   * digits followed by whitespace.
   */
  lemma DecimalAgreesWithMagnitude(d: string, rest: string)
    requires Decimal(d).Some? && AllSpace(rest)
    ensures ParseMagnitude(d + rest) == Decimal(d)
  {
    assert rest != [] ==> IsSpace(rest[0]);
    MagnitudeIgnoresTail(d, rest);
  }

  /** Signed digits followed by whitespace: Joi and `parseInt` read the same integer. */
  lemma SignedDecimalAgrees(t: string, rest: string)
    requires SignedDecimal(t).Some? && AllSpace(rest)
    ensures ParseSigned(t + rest) == SignedDecimal(t)
  {
    var u := t + rest;
    assert u[0] == t[0];
    if t[0] == '-' || t[0] == '+' {
      SignedTail(t, rest);
    } else {
      DecimalAgreesWithMagnitude(t, rest);
    }
  }

  /** After a sign, the digits and the whitespace behind them read as the digits alone. */
  lemma SignedTail(t: string, rest: string)
    requires t != [] && (t[0] == '-' || t[0] == '+') && Decimal(t[1..]).Some? && AllSpace(rest)
    ensures ParseMagnitude((t + rest)[1..]) == Decimal(t[1..])
  {
    assert (t + rest)[1..] == t[1..] + rest;
    DecimalAgreesWithMagnitude(t[1..], rest);
  }

  /** On every text Joi converts to a number, `parseInt` reads the same integer. */
  lemma NumberTextAgreesWithParseInt(s: string)
    requires NumberText(s).Some?
    ensures ParseInt(s) == NumberText(s)
  {
    var ts := TrimStart(s);
    var t := Trim(s);
    TrimSplit(s);
    SignedDecimalAgrees(t, ts[|t|..]);
  }

  /** `Joi.number().integer().positive().required()`, for the integers a body can carry. */
  predicate SlotIdOk(v: JsValue) {
    match v
    case Undefined => false
    case Num(n) => 0 < n <= MaxSafeInteger
    case Str(s) => NumberText(s).Some? && 0 < NumberText(s).value <= MaxSafeInteger
  }

  /** `Joi.string().length(64).required()`. */
  predicate TokenOk(v: JsValue) {
    v.Str? && |v.s| == 64
  }

  /** The `slotBooking` schema. */
  predicate SlotBookingOk(body: Body) {
    OnlyKeys(body, {"slotId", "token"}) && SlotIdOk(Field(body, "slotId")) && TokenOk(Field(body, "token"))
  }

  /** Every token the invitation mail carries passes the booking schema with any valid slot id. */
  lemma InvitationTokenPasses(random: TokenService.Bytes32, slotId: int)
    requires 0 < slotId <= MaxSafeInteger
    ensures SlotBookingOk(map["slotId" := Num(slotId), "token" := Str(TokenService.GenerateSecureToken(random))])
  {
    var body := map["slotId" := Num(slotId), "token" := Str(TokenService.GenerateSecureToken(random))];
    assert Field(body, "slotId") == Num(slotId);
    assert Field(body, "token") == Str(TokenService.GenerateSecureToken(random));
  }

  /** A slot id of 0, a negative one or a missing one is refused; text holding a number is converted. */
  lemma SlotIdExamples()
    ensures !SlotIdOk(Num(0)) && !SlotIdOk(Num(-3)) && !SlotIdOk(Undefined)
    ensures SlotIdOk(Num(7)) && SlotIdOk(Str("7")) && !SlotIdOk(Str("-7")) && !SlotIdOk(Str("7a"))
  {
    SevenText();
    MinusSevenText();
    SevenAText();
  }

  lemma SevenText()
    ensures NumberText("7") == Some(7)
  {
    TrimmedIsFixed("7");
    var d := "7";
    assert d[..0] == "";
    assert DigitsValue(d, 10) == 7;
  }

  lemma MinusSevenText()
    ensures NumberText("-7") == Some(-7)
  {
    TrimmedIsFixed("-7");
    assert "-7"[..1] == "-";
    assert "-7"[1..] == "7";
    SevenText();
  }

  lemma SevenAText()
    ensures NumberText("7a") == None
  {
    UnsignedNonNumeral("7a", 1);
  }

  /** Trimmed text that starts with a digit and holds a non-digit is not a number. */
  lemma UnsignedNonNumeral(s: string, k: nat)
    requires s != [] && IsDigit(s[0]) && !IsSpace(s[|s| - 1]) && k < |s| && !IsDigit(s[k])
    ensures NumberText(s) == None
  {
    TrimmedIsFixed(s);
    assert s[0..] == s;
  }

  /** A token one character short or long is refused. */
  lemma TokenLengthExact(s: string)
    requires |s| != 64
    ensures !SlotBookingOk(map["slotId" := Num(1), "token" := Str(s)])
  {
    var body := map["slotId" := Num(1), "token" := Str(s)];
    assert Field(body, "token") == Str(s);
  }
}
