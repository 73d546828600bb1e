/**
 * The pieces of JavaScript string and number semantics the controllers rely on:
 * truthiness of request values, the whitespace set of `trim` and of the regex class `\s`,
 * `toLowerCase` (ASCII letters), `startsWith`, `includes`, `substring(0, n)`,
 * decimal printing of a non-negative integer, and `parseInt` with no radix.
 */
module JsText {
  import opened Wrappers

  /** `1e21`: from this magnitude on, `String` prints a number in exponent form. */
  const ExponentFrom: int := 1_000_000_000_000_000_000_000

  /** The numbers a request value may hold: integral, and printed by `String` as plain decimals. */
  type JsNumber = n: int | -ExponentFrom < n < ExponentFrom

  /** A request value as a JSON body or a route parameter delivers it. */
  datatype JsValue = Undefined | Num(n: JsNumber) | Str(s: string)

  /** A request field that should hold an array: falsy, some other truthy value, or an array. */
  datatype JsArray<T> = Falsy | NonArray | Items(items: seq<T>)

  /** JavaScript truthiness: `undefined`, `0` and `""` are falsy. */
  predicate Truthy(v: JsValue) {
    match v
    case Undefined => false
    case Num(n) => n != 0
    case Str(s) => s != ""
  }

  /** The WhiteSpace and LineTerminator code points: what `trim` removes and `\s` matches. */
  predicate IsSpace(c: char) {
    c == '\t' || c == '\n' || c == '\U{B}' || c == '\U{C}' || c == '\r' || c == ' ' ||
    c == '\U{A0}' || c == '\U{1680}' || ('\U{2000}' <= c <= '\U{200A}') ||
    c == '\U{2028}' || c == '\U{2029}' || c == '\U{202F}' || c == '\U{205F}' ||
    c == '\U{3000}' || c == '\U{FEFF}'
  }

  predicate AllSpace(s: string) {
    forall i :: 0 <= i < |s| ==> IsSpace(s[i])
  }

  /** `trimStart`: drops the leading run of whitespace. */
  function TrimStart(s: string): (r: string)
    ensures |r| <= |s| && r == s[|s| - |r|..]
    ensures r == [] || !IsSpace(r[0])
    ensures AllSpace(s[..|s| - |r|])
  {
    if s != [] && IsSpace(s[0]) then TrimStart(s[1..]) else s
  }

  /** `trimEnd`: drops the trailing run of whitespace. */
  function TrimEnd(s: string): (r: string)
    ensures |r| <= |s| && r == s[..|r|]
    ensures r == [] || !IsSpace(r[|r| - 1])
    ensures AllSpace(s[|r|..])
  {
    if s != [] && IsSpace(s[|s| - 1]) then
      var init := s[..|s| - 1];
      var r := TrimEnd(init);
      assert s[|r|..] == init[|r|..] + [s[|s| - 1]];
      r
    else s
  }

  /** `trim`: the string without its leading and trailing whitespace. */
  function Trim(s: string): (r: string)
    ensures r == [] || (!IsSpace(r[0]) && !IsSpace(r[|r| - 1]))
    ensures |r| <= |s|
  {
    TrimEnd(TrimStart(s))
  }

  /** `trimStart` leaves the `trim`med text followed by the trailing whitespace. */
  lemma TrimSplit(s: string)
    ensures var ts := TrimStart(s);
            var t := Trim(s);
            |t| <= |ts| && ts == t + ts[|t|..] && AllSpace(ts[|t|..])
  {
    assert Trim(s) == TrimEnd(TrimStart(s));
  }

  /** A string is empty after `trim` exactly when it consists of whitespace only. */
  lemma TrimEmptyIffAllSpace(s: string)
    ensures Trim(s) == [] <==> AllSpace(s)
  {
    var t := TrimStart(s);
    if Trim(s) == [] {
      assert t[0..] == t;
      assert s[..|s| - |t|] == s;
    }
  }

  /** Upper-case ASCII letters are mapped to lower case; everything else is kept. */
  function LowerChar(c: char): char {
    if 'A' <= c <= 'Z' then (c as int + 32) as char else c
  }

  /** `toLowerCase`, restricted to the ASCII letters. */
  function ToLower(s: string): (r: string)
    ensures |r| == |s|
    ensures forall i :: 0 <= i < |s| ==> r[i] == LowerChar(s[i])
  {
    seq(|s|, i requires 0 <= i < |s| => LowerChar(s[i]))
  }

  /** Lower-casing never turns a space into a non-space or back. */
  lemma LowerKeepsSpace(c: char)
    ensures IsSpace(LowerChar(c)) <==> IsSpace(c)
  {
  }

  /** Lower-casing twice is lower-casing once. */
  lemma LowerIdempotent(s: string)
    ensures ToLower(ToLower(s)) == ToLower(s)
  {
  }

  /** A string that neither starts nor ends with whitespace is its own `trim`. */
  lemma TrimmedIsFixed(s: string)
    requires s == [] || (!IsSpace(s[0]) && !IsSpace(s[|s| - 1]))
    ensures Trim(s) == s
  {
  }

  predicate StartsWith(s: string, prefix: string) {
    |prefix| <= |s| && s[..|prefix|] == prefix
  }

  predicate OccursAt(s: string, sub: string, i: int) {
    0 <= i <= |s| - |sub| && s[i..i + |sub|] == sub
  }

  /** `s.includes(sub)`. */
  predicate Contains(s: string, sub: string) {
    exists i :: 0 <= i <= |s| - |sub| && OccursAt(s, sub, i)
  }

  /** `s.substring(0, n)`. */
  function Prefix(s: string, n: nat): (r: string)
    ensures |r| == if |s| <= n then |s| else n
    ensures r == s[..|r|]
  {
    if |s| <= n then s else s[..n]
  }

  predicate IsDigit(c: char) {
    '0' <= c <= '9'
  }

  predicate AllDigits(s: string) {
    forall i :: 0 <= i < |s| ==> IsDigit(s[i])
  }

  /** The value of `c` as a digit of base 16 or less, or -1 when it is not one. */
  function DigitValue(c: char): int {
    if '0' <= c <= '9' then c as int - '0' as int
    else if 'a' <= c <= 'f' then c as int - 'a' as int + 10
    else if 'A' <= c <= 'F' then c as int - 'A' as int + 10
    else -1
  }

  predicate IsRadixDigit(c: char, radix: nat) {
    0 <= DigitValue(c) < radix
  }

  /** The length of the longest prefix of `s` made of digits of the given radix. */
  function DigitRun(s: string, radix: nat): (k: nat)
    ensures k <= |s|
    ensures forall i :: 0 <= i < k ==> IsRadixDigit(s[i], radix)
    ensures k < |s| ==> !IsRadixDigit(s[k], radix)
  {
    if s != [] && IsRadixDigit(s[0], radix) then 1 + DigitRun(s[1..], radix) else 0
  }

  /** The number written by a string of digits, most significant first. */
  function DigitsValue(s: string, radix: nat): nat
    requires forall i :: 0 <= i < |s| ==> IsRadixDigit(s[i], radix)
  {
    if s == [] then 0
    else
      var init := s[..|s| - 1];
      assert forall i :: 0 <= i < |init| ==> init[i] == s[i];
      var high: nat := DigitsValue(init, radix);
      assert IsRadixDigit(s[|s| - 1], radix);
      var low: nat := DigitValue(s[|s| - 1]);
      ProductNat(high, radix);
      high * radix + low
  }

  lemma ProductNat(a: nat, b: nat)
    ensures a * b >= 0
  {
  }

  /** The decimal numeral of `n`, as `String(n)` prints it. */
  function NatToString(n: nat): (r: string)
    ensures r != [] && AllDigits(r)
    ensures r[0] == '0' ==> n == 0 && |r| == 1
  {
    if n < 10 then [('0' as int + n) as char]
    else NatToString(n / 10) + [('0' as int + n % 10) as char]
  }

  /** Printing and reading back a decimal numeral is the identity. */
  lemma {:induction false} NatToStringValue(n: nat)
    ensures forall i :: 0 <= i < |NatToString(n)| ==> IsRadixDigit(NatToString(n)[i], 10)
    ensures DigitsValue(NatToString(n), 10) == n
  {
    var s := NatToString(n);
    if n >= 10 {
      NatToStringValue(n / 10);
      assert s[..|s| - 1] == NatToString(n / 10);
    }
  }

  /** Distinct numbers print differently. */
  lemma NatToStringInjective(a: nat, b: nat)
    requires NatToString(a) == NatToString(b)
    ensures a == b
  {
    NatToStringValue(a);
    NatToStringValue(b);
  }

  /** No character of `s` is a decimal digit. */
  predicate NoDigit(s: string) {
    forall i :: 0 <= i < |s| ==> !IsDigit(s[i])
  }

  /**
   * `parseInt(s)` with no radix: skip leading whitespace, take one optional sign, then read the
   * magnitude. No digit at all gives NaN, modelled as None.
   */
  function ParseInt(s: string): Option<int> {
    ParseSigned(TrimStart(s))
  }

  /** `parseInt` past the leading whitespace: one optional sign, then the magnitude. */
  function ParseSigned(t: string): Option<int> {
    if t != [] && t[0] == '-' then
      match ParseMagnitude(t[1..])
      case None => None
      case Some(v) => Some(0 - v)
    else if t != [] && t[0] == '+' then ParseMagnitude(t[1..])
    else ParseMagnitude(t)
  }

  /** A `0x` or `0X` prefix: `parseInt` then reads hexadecimal digits. */
  predicate HexPrefixed(u: string) {
    |u| >= 2 && u[0] == '0' && (u[1] == 'x' || u[1] == 'X')
  }

  /**
   * The unsigned part of `parseInt`: the hexadecimal digits after a `0x`/`0X` prefix or else
   * the decimal digits, up to the first character that is not a digit of that radix.
   */
  function ParseMagnitude(u: string): Option<nat> {
    var hex := HexPrefixed(u);
    var radix := if hex then 16 else 10;
    var body := if hex then u[2..] else u;
    var k := DigitRun(body, radix);
    if k == 0 then None else Some(DigitsValue(body[..k], radix))
  }

  /**
   * The unsigned part reads a number exactly when a digit of its radix comes first: after the
   * `0x` prefix a hexadecimal digit, otherwise a decimal one; text without a decimal digit
   * reads as NaN.
   */
  lemma MagnitudeShape(u: string)
    ensures ParseMagnitude(u).Some? <==>
              if HexPrefixed(u) then |u| > 2 && IsRadixDigit(u[2], 16) else u != [] && IsDigit(u[0])
    ensures NoDigit(u) ==> ParseMagnitude(u).None?
  {
  }

  /**
   * `parseInt` finds no number in text without a decimal digit, and a negative number only
   * after a leading minus sign.
   */
  lemma ParseIntShape(s: string)
    ensures NoDigit(s) ==> ParseInt(s).None?
    ensures ParseInt(s).Some? && ParseInt(s).value < 0 ==> TrimStart(s) != [] && TrimStart(s)[0] == '-'
  {
    var t := TrimStart(s);
    SignedShape(t);
    if NoDigit(s) {
      NoDigitSuffix(s, |s| - |t|);
    }
  }

  /** The signed reading past the whitespace, as `ParseIntShape` states it for `parseInt`. */
  lemma SignedShape(t: string)
    ensures NoDigit(t) ==> ParseSigned(t).None?
    ensures ParseSigned(t).Some? && ParseSigned(t).value < 0 ==> t != [] && t[0] == '-'
  {
    MagnitudeShape(t);
    if t != [] {
      MagnitudeShape(t[1..]);
      if NoDigit(t) {
        NoDigitSuffix(t, 1);
      }
    }
  }

  lemma NoDigitSuffix(s: string, k: nat)
    requires k <= |s| && NoDigit(s)
    ensures NoDigit(s[k..])
  {
    assert forall i :: 0 <= i < |s| - k ==> s[k..][i] == s[k + i];
  }

  /** The digit run of a digit string followed by a non-digit ends where the digits end. */
  lemma {:induction false} DigitRunOfPrefix(d: string, t: string)
    requires AllDigits(d) && (t == [] || !IsDigit(t[0]))
    ensures DigitRun(d + t, 10) == |d|
  {
    if d != [] {
      assert (d + t)[1..] == d[1..] + t;
      DigitRunOfPrefix(d[1..], t);
    }
  }

  /** The unsigned reading of leading digits ignores what follows the first non-digit. */
  lemma MagnitudeIgnoresTail(d: string, t: string)
    requires d != [] && AllDigits(d)
    requires t == [] || (!IsDigit(t[0]) && !(d == "0" && (t[0] == 'x' || t[0] == 'X')))
    ensures ParseMagnitude(d + t) == Some(DigitsValue(d, 10))
  {
    var u := d + t;
    if |d| >= 2 {
      assert u[1] == d[1];
    } else if t != [] {
      assert u[1] == t[0];
    }
    assert !HexPrefixed(u);
    DigitRunOfPrefix(d, t);
    assert u[..|d|] == d;
  }

  /**
   * `parseInt` reads the leading digits and ignores whatever follows the first non-digit,
   * unless the text reads as a `0x` prefix.
   */
  lemma ParseIntIgnoresTail(d: string, t: string)
    requires d != [] && AllDigits(d)
    requires t == [] || (!IsDigit(t[0]) && !(d == "0" && (t[0] == 'x' || t[0] == 'X')))
    ensures ParseInt(d + t) == Some(DigitsValue(d, 10))
  {
    assert (d + t)[0] == d[0];
    ParseIntUnsigned(d + t);
    MagnitudeIgnoresTail(d, t);
  }

  /** Text that starts with a digit is read by `parseInt` as its unsigned part. */
  lemma ParseIntUnsigned(u: string)
    requires u != [] && IsDigit(u[0])
    ensures ParseInt(u) == ParseMagnitude(u)
  {
    assert !IsSpace(u[0]);
  }

  /** `parseInt` reads back every decimal numeral. */
  lemma ParseIntOfNatToString(n: nat)
    ensures ParseInt(NatToString(n)) == Some(n)
  {
    var s := NatToString(n);
    assert !IsSpace(s[0]) by { assert IsDigit(s[0]); }
    assert TrimStart(s) == s;
    MagnitudeOfNatToString(n);
  }

  /** The unsigned reading of a decimal numeral is its value. */
  lemma MagnitudeOfNatToString(n: nat)
    ensures ParseMagnitude(NatToString(n)) == Some(n)
  {
    var s := NatToString(n);
    NatToStringValue(n);
    assert !(|s| >= 2 && s[0] == '0');
    DigitRunWhole(s, 10);
    assert s[..|s|] == s;
  }

  /** A string made only of digits is read to its end. */
  lemma DigitRunWhole(s: string, radix: nat)
    requires forall i :: 0 <= i < |s| ==> IsRadixDigit(s[i], radix)
    ensures DigitRun(s, radix) == |s|
  {
  }

  /** `String(n)` for an integer below `1e21` in magnitude. */
  function IntToString(n: int): (r: string)
    ensures r != []
  {
    if n < 0 then "-" + NatToString(-n) else NatToString(n)
  }

  /** `parseInt` reads back every printed integer, negative ones included. */
  lemma ParseIntOfIntToString(n: int)
    ensures ParseInt(IntToString(n)) == Some(n)
  {
    if n < 0 {
      MagnitudeOfNatToString(-n);
      ParseIntNegated(NatToString(-n), -n);
    } else {
      ParseIntOfNatToString(n);
    }
  }

  /** A leading minus sign negates what the rest reads as. */
  lemma ParseIntNegated(d: string, m: nat)
    requires ParseMagnitude(d) == Some(m)
    ensures ParseInt("-" + d) == Some(0 - m)
  {
    var s := "-" + d;
    assert s[0] == '-' && !IsSpace(s[0]);
    assert TrimStart(s) == s;
    assert s[1..] == d;
  }

  /** `String(v)` for a request value. */
  function TextOf(v: JsValue): string {
    match v
    case Undefined => "undefined"
    case Num(n) => IntToString(n)
    case Str(s) => s
  }

  /** `parseInt` of `undefined` is NaN. */
  lemma ParseIntOfUndefined()
    ensures ParseInt("undefined") == None
  {
    assert NoDigit("undefined");
    ParseIntShape("undefined");
  }

  /** `parseInt` on a request value: a number is read as itself, `undefined` is NaN. */
  function ParseIntValue(v: JsValue): (r: Option<int>)
    ensures v.Num? ==> r == Some(v.n)
    ensures v.Undefined? ==> r == None
  {
    match v
    case Undefined => None
    case Num(n) => Some(n)
    case Str(s) => ParseInt(s)
  }

  /**
   * Reading a request value directly is what `parseInt` makes of the text `String` prints for
   * it; for a number this needs it below `1e21`, which `JsNumber` guarantees.
   */
  lemma ParseIntValueOfText(v: JsValue)
    ensures ParseIntValue(v) == ParseInt(TextOf(v))
  {
    match v
    case Undefined => ParseIntOfUndefined();
    case Num(n) => ParseIntOfIntToString(n);
    case Str(s) =>
  }

}
