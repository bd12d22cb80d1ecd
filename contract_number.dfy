/**
 * The JavaScript string and number operations the contract-number generator
 * uses: `substring`, `slice(-4)`, `parseInt` without a radix, `toString` and
 * `padStart(4, '0')`.  Strings are sequences of Unicode scalar values, one
 * `char` each.
 */
module JsText {
  /** A JavaScript number as far as the generator can produce one: an integer or NaN. */
  datatype JsNumber = Num(value: int) | NaN {
    /** Unary minus; NaN stays NaN. */
    function Negated(): JsNumber {
      match this
      case Num(v) => Num(-v)
      case NaN => NaN
    }

    /** `+ 1`; NaN stays NaN. */
    function Inc(): JsNumber {
      match this
      case Num(v) => Num(v + 1)
      case NaN => NaN
    }
  }

  function Min(a: nat, b: nat): nat { if a <= b then a else b }

  /** `s.substring(start, end)`: both ends clamped to the length, swapped when out of order. */
  function Substring(s: string, start: nat, end: nat): (r: string)
    ensures start <= end <= |s| ==> r == s[start..end]
    ensures |r| <= |s|
  {
    var a, b := Min(start, |s|), Min(end, |s|);
    if a <= b then s[a..b] else s[b..a]
  }

  /** `s.slice(-n)`: the last `n` characters, or all of a shorter string. */
  function SliceLast(s: string, n: nat): (r: string)
    ensures |s| >= n ==> |r| == n && s == s[..|s| - n] + r
    ensures |s| < n ==> r == s
  {
    if |s| >= n then s[|s| - n..] else s
  }

  /** `WhiteSpace` and `LineTerminator` of ECMAScript, which `parseInt` skips at the front. */
  predicate IsJsSpace(c: char) {
    c == '\t' || c == '\n' || c == '\U{000B}' || c == '\U{000C}' || c == '\r' || c == ' ' ||
    c == '\U{00A0}' || c == '\U{1680}' || ('\U{2000}' <= c <= '\U{200A}') || c == '\U{2028}' ||
    c == '\U{2029}' || c == '\U{202F}' || c == '\U{205F}' || c == '\U{3000}' || c == '\U{FEFF}'
  }

  function TrimStart(s: string): (r: string)
    ensures |r| <= |s| && r == s[|s| - |r|..]
    ensures forall i :: 0 <= i < |s| - |r| ==> IsJsSpace(s[i])
    ensures |r| > 0 ==> !IsJsSpace(r[0])
  {
    if |s| > 0 && IsJsSpace(s[0]) then TrimStart(s[1..]) else s
  }

  /** A string that does not start with white space is not trimmed. */
  lemma TrimStartNone(s: string)
    requires |s| > 0 && !IsJsSpace(s[0])
    ensures TrimStart(s) == s
  {
  }

  predicate IsDecimal(c: char) { '0' <= c <= '9' }

  /** A digit in base 10, or in base 16 with either case of letter. */
  predicate IsDigitIn(c: char, radix: nat) {
    IsDecimal(c) || (radix == 16 && ('a' <= c <= 'f' || 'A' <= c <= 'F'))
  }

  function DigitValue(c: char, radix: nat): (d: nat)
    requires IsDigitIn(c, radix)
    ensures IsDecimal(c) ==> d == (c as int) - ('0' as int)
    ensures radix == 10 || radix == 16 ==> d < radix
  {
    if IsDecimal(c) then (c as int) - ('0' as int)
    else if 'a' <= c <= 'f' then (c as int) - ('a' as int) + 10
    else (c as int) - ('A' as int) + 10
  }

  /** The longest prefix of `s` made of digits in `radix`. */
  function LeadingDigits(s: string, radix: nat): (r: string)
    ensures |r| <= |s| && r == s[..|r|]
    ensures forall i :: 0 <= i < |r| ==> IsDigitIn(r[i], radix)
    ensures |r| < |s| ==> !IsDigitIn(s[|r|], radix)
  {
    if |s| > 0 && IsDigitIn(s[0], radix) then [s[0]] + LeadingDigits(s[1..], radix) else []
  }

  /** The value of a digit string, most significant digit first. */
  function DigitsValue(ds: string, radix: nat): nat
    requires radix == 10 || radix == 16
    requires forall i :: 0 <= i < |ds| ==> IsDigitIn(ds[i], radix)
  {
    if |ds| == 0 then 0
    else
      var high := DigitsValue(ds[..|ds| - 1], radix);
      assert IsDigitIn(ds[|ds| - 1], radix);
      (if radix == 16 then high * 16 else high * 10) + DigitValue(ds[|ds| - 1], radix)
  }

  /**
   * `parseInt(s)` with no radix: leading white space is skipped and one sign
   * is read; the rest is read by `ParseMagnitude`.
   */
  function ParseInt(s: string): JsNumber {
    var t := TrimStart(s);
    if |t| > 0 && t[0] == '-' then ParseMagnitude(t[1..]).Negated()
    else if |t| > 0 && t[0] == '+' then ParseMagnitude(t[1..])
    else ParseMagnitude(t)
  }

  predicate HexPrefixed(u: string) {
    |u| >= 2 && u[0] == '0' && (u[1] == 'x' || u[1] == 'X')
  }

  /**
   * The unsigned part of `parseInt`: a `0x`/`0X` prefix selects base 16, and
   * the longest run of digits is converted; no digit at all gives NaN.
   */
  function ParseMagnitude(u: string): (r: JsNumber)
    ensures r.Num? ==> r.value >= 0
    ensures |u| > 0 && IsDecimal(u[0]) && !HexPrefixed(u) ==> r == Num(DigitsValue(LeadingDigits(u, 10), 10))
  {
    if HexPrefixed(u) then DigitRun(u[2..], 16) else DigitRun(u, 10)
  }

  /** The value of the longest run of digits at the start of `u`, or NaN when there is none. */
  function DigitRun(u: string, radix: nat): (r: JsNumber)
    requires radix == 10 || radix == 16
    ensures r.Num? ==> r.value >= 0
  {
    var digits := LeadingDigits(u, radix);
    if |digits| == 0 then NaN else Num(DigitsValue(digits, radix))
  }

  function DecimalDigit(d: nat): (c: char)
    requires d < 10
    ensures IsDecimal(c) && DigitValue(c, 10) == d
  {
    (('0' as int) + d) as char
  }

  /** Decimal notation of a natural number, without leading zeros. */
  function NatToString(v: nat): (r: string)
    ensures |r| >= 1
    ensures forall i :: 0 <= i < |r| ==> IsDigitIn(r[i], 10)
    decreases v
  {
    if v < 10 then [DecimalDigit(v)] else NatToString(v / 10) + [DecimalDigit(v % 10)]
  }

  /** `n.toString()`. */
  function NumberToString(n: JsNumber): string {
    match n
    case NaN => "NaN"
    case Num(v) => if v < 0 then "-" + NatToString(-v) else NatToString(v)
  }

  function Zeros(n: nat): (r: string)
    ensures |r| == n && forall i :: 0 <= i < n ==> r[i] == '0'
  {
    if n == 0 then "" else "0" + Zeros(n - 1)
  }

  /** `s.padStart(4, '0')`: zeros in front up to length 4; a longer string is left as it is. */
  function PadStart4(s: string): (r: string)
    ensures |s| >= 4 ==> r == s
    ensures |s| < 4 ==> |r| == 4 && r == Zeros(4 - |s|) + s
  {
    if |s| >= 4 then s else Zeros(4 - |s|) + s
  }

  // ---------------------------------------------------------------- lemmas

  lemma {:induction false} NatToStringValue(v: nat)
    ensures DigitsValue(NatToString(v), 10) == v
    decreases v
  {
    var r := NatToString(v);
    if v >= 10 {
      NatToStringValue(v / 10);
      assert r[..|r| - 1] == NatToString(v / 10);
    }
  }

  lemma NatToStringLength(v: nat, n: nat)
    requires v < Pow10(n) && n >= 1
    ensures |NatToString(v)| <= n
    decreases n
  {
    if v >= 10 {
      NatToStringLength(v / 10, n - 1);
    }
  }

  function Pow10(n: nat): (r: nat)
    ensures r >= 1
  {
    if n == 0 then 1 else 10 * Pow10(n - 1)
  }

  /** A decimal string of `n` digits denotes a number below `10^n`. */
  lemma {:induction false} DigitsValueBelow(ds: string)
    requires forall i :: 0 <= i < |ds| ==> IsDigitIn(ds[i], 10)
    ensures DigitsValue(ds, 10) < Pow10(|ds|)
  {
    if |ds| > 0 {
      DigitsValueBelow(ds[..|ds| - 1]);
    }
  }

  /** Leading zeros do not change the value of a digit string. */
  lemma {:induction false} ZerosValue(n: nat, ds: string, radix: nat)
    requires (radix == 10 || radix == 16) && forall i :: 0 <= i < |ds| ==> IsDigitIn(ds[i], radix)
    ensures forall i :: 0 <= i < |Zeros(n) + ds| ==> IsDigitIn((Zeros(n) + ds)[i], radix)
    ensures DigitsValue(Zeros(n) + ds, radix) == DigitsValue(ds, radix)
    decreases |ds|
  {
    var s := Zeros(n) + ds;
    assert forall i :: 0 <= i < n ==> s[i] == '0';
    if |ds| == 0 {
      assert s == Zeros(n);
      ZerosValueAlone(n, radix);
    } else {
      assert s[..|s| - 1] == Zeros(n) + ds[..|ds| - 1];
      ZerosValue(n, ds[..|ds| - 1], radix);
    }
  }

  lemma {:induction false} ZerosValueAlone(n: nat, radix: nat)
    requires radix == 10 || radix == 16
    ensures forall i :: 0 <= i < n ==> IsDigitIn(Zeros(n)[i], radix)
    ensures DigitsValue(Zeros(n), radix) == 0
  {
    if n > 0 {
      assert Zeros(n)[..n - 1] == Zeros(n - 1) by {
        ZerosPrefix(n);
      }
      ZerosValueAlone(n - 1, radix);
    }
  }

  lemma ZerosPrefix(n: nat)
    requires n > 0
    ensures Zeros(n)[..n - 1] == Zeros(n - 1)
  {
  }

  /** `parseInt` reads back a string of decimal digits as its value. */
  lemma ParseDecimal(ds: string)
    requires |ds| > 0 && forall i :: 0 <= i < |ds| ==> IsDigitIn(ds[i], 10)
    ensures ParseInt(ds) == Num(DigitsValue(ds, 10))
  {
    Unsigned(ds);
    MagnitudeOfDigits(ds);
  }

  /** Without sign or leading white space, `parseInt` is the unsigned reading. */
  lemma Unsigned(s: string)
    requires |s| > 0 && IsDecimal(s[0])
    ensures ParseInt(s) == ParseMagnitude(s)
  {
    TrimStartNone(s);
  }

  /** A minus sign negates the unsigned reading of what follows it. */
  lemma Signed(s: string)
    requires |s| > 0 && s[0] == '-'
    ensures ParseInt(s) == ParseMagnitude(s[1..]).Negated()
  {
    TrimStartNone(s);
  }

  lemma MagnitudeOfDigits(d: string)
    requires |d| > 0 && forall i :: 0 <= i < |d| ==> IsDigitIn(d[i], 10)
    ensures ParseMagnitude(d) == Num(DigitsValue(d, 10))
  {
    assert !HexPrefixed(d) by {
      if |d| >= 2 {
        assert IsDigitIn(d[1], 10);
      }
    }
    AllDigits(d, 10);
  }

  /**
   * `parseInt` stops at the first character that is not a digit: a string
   * that starts with a decimal digit (and not with `0x`) reads as the value of
   * its leading digits, whatever follows them.
   */
  lemma ParseLeadingDigits(s: string)
    requires |s| > 0 && IsDecimal(s[0]) && !HexPrefixed(s)
    ensures ParseInt(s) == Num(DigitsValue(LeadingDigits(s, 10), 10))
  {
    Unsigned(s);
  }

  /** With no digit after the white space and the sign, `parseInt` gives NaN. */
  lemma ParseNoDigit(s: string)
    requires var t := TrimStart(s); |t| == 0 || (!IsDecimal(t[0]) && t[0] != '-' && t[0] != '+')
    ensures ParseInt(s) == NaN
  {
  }

  /** `parseInt(n.toString())` is `n`, for every integer and for NaN. */
  lemma NumberRoundTrip(n: JsNumber)
    ensures ParseInt(NumberToString(n)) == n
  {
    match n
    case NaN =>
      assert NumberToString(n) == "NaN";
      NaNText();
    case Num(v) =>
      if v < 0 {
        assert NumberToString(n) == "-" + NatToString(-v);
        NegativeRoundTrip(-v);
      } else {
        assert NumberToString(n) == NatToString(v);
        NaturalRoundTrip(v);
      }
  }

  lemma NaturalRoundTrip(v: nat)
    ensures ParseInt(NatToString(v)) == Num(v)
  {
    NatToStringValue(v);
    ParseDecimal(NatToString(v));
  }

  lemma NaNText()
    ensures ParseInt("NaN") == NaN
  {
    ParseNoDigit("NaN");
  }

  lemma NegativeRoundTrip(m: nat)
    ensures ParseInt("-" + NatToString(m)) == Num(-(m as int))
  {
    var s := "-" + NatToString(m);
    assert s[1..] == NatToString(m);
    NatToStringValue(m);
    NegativeDigits(s);
  }

  /** A minus sign followed by decimal digits reads as the negated value. */
  lemma NegativeDigits(s: string)
    requires |s| > 1 && s[0] == '-' && forall i :: 1 <= i < |s| ==> IsDigitIn(s[i], 10)
    ensures ParseInt(s) == Num(-(DigitsValue(s[1..], 10) as int))
  {
    Signed(s);
    MagnitudeOfDigits(s[1..]);
  }

  lemma {:induction false} AllDigits(s: string, radix: nat)
    requires forall i :: 0 <= i < |s| ==> IsDigitIn(s[i], radix)
    ensures LeadingDigits(s, radix) == s
  {
    if |s| > 0 {
      AllDigits(s[1..], radix);
    }
  }

  /** `parseInt(v.toString().padStart(4, '0'))` is `v`. */
  lemma PaddedRoundTrip(v: nat)
    ensures var p := PadStart4(NatToString(v));
      (forall i :: 0 <= i < |p| ==> IsDigitIn(p[i], 10)) && ParseInt(p) == Num(v)
  {
    var s := NatToString(v);
    NatToStringValue(v);
    if |s| < 4 {
      ZerosValue(4 - |s|, s, 10);
    }
    ParseDecimal(PadStart4(s));
  }
}

/**
 * Contract numbers: `局0113`, an eight-character date part and a serial of at
 * least four digits.  The next number is derived from the greatest existing
 * number with the prefix, or from today's date when there is none.
 */
module ContractNumber {
  import opened Wrappers
  import opened Schema
  import opened JsText

  const Prefix: string := "局0113"
  const PrefixLength: nat := 5

  /** A failed store read. */
  datatype StoreError = StoreError

  /** What `generateContractNo` throws. */
  datatype ContractError = GenerationFailed

  /**
   * `generateContractNo()`: `last` is the result of the query for the greatest
   * contract number with the prefix (`None` when there is none), `nowIso`
   * is `new Date().toISOString()`.
   */
  function GenerateContractNo(last: Result<Option<string>, StoreError>, nowIso: string): (r: Result<string, ContractError>)
    ensures r.Err? <==> last.Err?
    ensures r.Ok? ==> |r.value| >= PrefixLength && r.value[..PrefixLength] == Prefix
  {
    match last
    case Err(_) => Err(GenerationFailed)
    case Ok(None) => Ok(Prefix + RemoveDashes(Substring(nowIso, 0, 10)) + "0001")
    case Ok(Some(lastNo)) =>
      var datePart := Substring(lastNo, PrefixLength, PrefixLength + 8);
      Ok(Prefix + datePart + NextSerialText(SliceLast(lastNo, 4)))
  }

  /** `(parseInt(tail) + 1).toString().padStart(4, '0')`. */
  function NextSerialText(tail: string): string {
    PadStart4(NumberToString(ParseInt(tail).Inc()))
  }

  /** `.replace(/-/g, '')`. */
  function RemoveDashes(s: string): (r: string)
    ensures |r| <= |s|
    ensures forall i :: 0 <= i < |r| ==> r[i] != '-'
    ensures (forall i :: 0 <= i < |s| ==> s[i] != '-') ==> r == s
  {
    if |s| == 0 then "" else (if s[0] == '-' then "" else [s[0]]) + RemoveDashes(s[1..])
  }

  /** A number as the generator writes it while serials stay below 10000. */
  predicate WellFormedNo(s: string) {
    |s| == 17 && s[..PrefixLength] == Prefix && forall i :: PrefixLength <= i < 17 ==> IsDecimal(s[i])
  }

  function DatePart(s: string): string
    requires |s| >= 13
  {
    s[PrefixLength..PrefixLength + 8]
  }

  /** The serial of a well-formed number, read as `parseInt` reads its last four characters. */
  function Serial(s: string): JsNumber {
    ParseInt(SliceLast(s, 4))
  }

  /** The serial of a well-formed number is a number from 0 to 9999. */
  lemma WellFormedSerial(s: string)
    requires WellFormedNo(s)
    ensures Serial(s).Num? && 0 <= Serial(s).value < 10000
  {
    var tail := s[13..17];
    assert SliceLast(s, 4) == tail;
    ParseDecimal(tail);
    FourDigitsBelow(tail);
  }

  lemma FourDigitsBelow(ds: string)
    requires |ds| == 4 && forall i :: 0 <= i < 4 ==> IsDigitIn(ds[i], 10)
    ensures DigitsValue(ds, 10) < 10000
  {
    DigitsValueBelow(ds);
    assert Pow10(4) == 10000;
  }

  /** The three parts of a number put together are found again where the generator reads them. */
  lemma Compose(date: string, serial: string)
    requires |date| == 8 && |serial| >= 4
    ensures var s := Prefix + date + serial;
      && |s| == 13 + |serial| && s[..PrefixLength] == Prefix
      && DatePart(s) == date && Substring(s, PrefixLength, PrefixLength + 8) == date
      && SliceLast(s, 4) == serial[|serial| - 4..]
  {
    var s := Prefix + date + serial;
    assert s[..5] == Prefix;
    assert s[5..13] == date;
    assert s[|s| - 4..] == serial[|serial| - 4..];
  }

  /** A well-formed number is its prefix, its date part and its four-digit serial. */
  lemma Decompose(s: string)
    requires WellFormedNo(s)
    ensures s == Prefix + DatePart(s) + s[13..17]
    ensures forall i :: 0 <= i < 8 ==> IsDecimal(DatePart(s)[i])
    ensures forall i :: 0 <= i < 4 ==> IsDecimal(s[13..17][i])
  {
    assert s == s[..5] + s[5..13] + s[13..17];
  }

  /** Four decimal digits of value `v` below 9999 are followed by the four digits of `v + 1`. */
  lemma NextSerialOfDigits(tail: string)
    requires |tail| == 4 && forall i :: 0 <= i < 4 ==> IsDecimal(tail[i])
    requires DigitsValue(tail, 10) < 9999
    ensures ParseInt(tail) == Num(DigitsValue(tail, 10))
    ensures var next := NextSerialText(tail);
      && |next| == 4 && (forall i :: 0 <= i < 4 ==> IsDecimal(next[i]))
      && ParseInt(next) == Num(DigitsValue(tail, 10) + 1)
  {
    ParseDecimal(tail);
    var v := DigitsValue(tail, 10);
    assert NextSerialText(tail) == PadStart4(NatToString(v + 1));
    PaddedRoundTrip(v + 1);
    NatToStringLength(v + 1, 4);
  }

  /**
   * Whatever the tail is, once it parses to a non-negative `v` the next serial
   * text is at least four decimal digits that parse back to `v + 1`.
   */
  lemma NextSerialReadsBack(tail: string, v: nat)
    requires ParseInt(tail) == Num(v)
    ensures var next := NextSerialText(tail);
      && |next| >= 4 && (forall i :: 0 <= i < |next| ==> IsDigitIn(next[i], 10))
      && ParseInt(next) == Num(v + 1)
  {
    assert NextSerialText(tail) == PadStart4(NatToString(v + 1));
    PaddedRoundTrip(v + 1);
  }

  /**
   * From a well-formed last number with serial `v` below 9999, the next number
   * keeps its date part, is well formed again, and its serial is `v + 1`;
   * the clock is not read.
   */
  lemma NextNumber(lastNo: string, nowIso: string)
    requires WellFormedNo(lastNo)
    requires Serial(lastNo).Num? && Serial(lastNo).value < 9999
    ensures var r := GenerateContractNo(Ok(Some(lastNo)), nowIso);
      && r.Ok?
      && WellFormedNo(r.value)
      && DatePart(r.value) == DatePart(lastNo)
      && Serial(r.value) == Num(Serial(lastNo).value + 1)
  {
    var date, tail := DatePart(lastNo), lastNo[13..17];
    NextFromParts(lastNo, nowIso);
    NextSerialOfDigits(tail);
    WellFormedCompose(date, NextSerialText(tail));
  }

  /** The next number after a well-formed one is its prefix and date followed by the next serial text. */
  lemma NextFromParts(lastNo: string, nowIso: string)
    requires WellFormedNo(lastNo)
    ensures forall i :: 0 <= i < 8 ==> IsDecimal(DatePart(lastNo)[i])
    ensures |lastNo[13..17]| == 4 && forall i :: 0 <= i < 4 ==> IsDecimal(lastNo[13..17][i])
    ensures Serial(lastNo) == Num(DigitsValue(lastNo[13..17], 10))
    ensures GenerateContractNo(Ok(Some(lastNo)), nowIso) == Ok(Prefix + DatePart(lastNo) + NextSerialText(lastNo[13..17]))
  {
    Decompose(lastNo);
    var date, tail := DatePart(lastNo), lastNo[13..17];
    Compose(date, tail);
    assert SliceLast(lastNo, 4) == tail;
    ParseDecimal(tail);
  }

  /** Whatever the last number is, the next one takes its date part from it and not from the clock. */
  lemma DateFromLastNumber(lastNo: string, clock1: string, clock2: string)
    ensures var r := GenerateContractNo(Ok(Some(lastNo)), clock1);
      r.Ok? && (|lastNo| >= 13 ==> |r.value| >= 13 && DatePart(r.value) == DatePart(lastNo))
    ensures GenerateContractNo(Ok(Some(lastNo)), clock1) == GenerateContractNo(Ok(Some(lastNo)), clock2)
  {
    if |lastNo| >= 13 {
      var date := Substring(lastNo, 5, 13);
      assert date == DatePart(lastNo);
      var next := NextSerialText(SliceLast(lastNo, 4));
      assert |next| >= 4;
      Compose(date, next);
    }
  }

  /** After serial 9999 the serial is written with five digits and the number has 18 characters. */
  lemma SerialOverflow(lastNo: string, nowIso: string)
    requires WellFormedNo(lastNo) && Serial(lastNo) == Num(9999)
    ensures GenerateContractNo(Ok(Some(lastNo)), nowIso) == Ok(Prefix + DatePart(lastNo) + "10000")
    ensures |GenerateContractNo(Ok(Some(lastNo)), nowIso).value| == 18
  {
    Decompose(lastNo);
    var tail := lastNo[13..17];
    Compose(DatePart(lastNo), tail);
    assert SliceLast(lastNo, 4) == tail;
    assert ParseInt(tail).Inc() == Num(10000);
    TenThousandText();
  }

  /**
   * If the query answers an 18-character number ending in `10000`, its last
   * four characters are `0000` and the next number goes back to serial `0001`
   * on the same date, a number that was issued before. The query answers it
   * only when the same date's `9999` number is gone, since that one sorts
   * above it (`OverflowSortsBelow`).
   */
  lemma SerialAfterOverflowRestarts(date: string, nowIso: string)
    requires |date| == 8
    ensures GenerateContractNo(Ok(Some(Prefix + date + "10000")), nowIso) == Ok(Prefix + date + "0001")
  {
    Compose(date, "10000");
    TenThousandTail();
    NextAfterZeros();
  }

  /**
   * The order of `ORDER BY contract_no DESC`: strings compare character by
   * character, and a proper prefix comes first.
   */
  predicate StringLess(a: string, b: string) {
    if |a| == 0 then |b| > 0
    else if |b| == 0 then false
    else if a[0] != b[0] then a[0] < b[0]
    else StringLess(a[1..], b[1..])
  }

  lemma {:induction false} StringLessAsymmetric(a: string, b: string)
    requires StringLess(a, b)
    ensures !StringLess(b, a)
  {
    if |a| > 0 && |b| > 0 && a[0] == b[0] {
      StringLessAsymmetric(a[1..], b[1..]);
    }
  }

  /** After a shared prefix, the first differing character decides the order. */
  lemma {:induction false} SharedPrefixLess(p: string, x: string, y: string)
    requires |x| > 0 && |y| > 0 && x[0] < y[0]
    ensures StringLess(p + x, p + y)
  {
    if |p| > 0 {
      assert (p + x)[1..] == p[1..] + x;
      assert (p + y)[1..] == p[1..] + y;
      SharedPrefixLess(p[1..], x, y);
    } else {
      assert p + x == x && p + y == y;
    }
  }

  /** The number generated from the one with serial 9999 on a date ends in `10000`. */
  lemma NextAfterLastSerial(date: string, nowIso: string)
    requires |date| == 8 && forall i :: 0 <= i < 8 ==> IsDecimal(date[i])
    ensures GenerateContractNo(Ok(Some(Prefix + date + "9999")), nowIso) == Ok(Prefix + date + "10000")
  {
    var last := Prefix + date + "9999";
    WellFormedCompose(date, "9999");
    NineNines();
    SerialOverflow(last, nowIso);
  }

  lemma NineNines()
    ensures ParseInt("9999") == Num(9999)
  {
    assert NatToString(9999) == "9999";
    PaddedRoundTrip(9999);
  }

  /** On one date, the number ending in `10000` sorts below the one ending in `9999`. */
  lemma OverflowSortsBelow(date: string)
    ensures StringLess(Prefix + date + "10000", Prefix + date + "9999")
  {
    assert Prefix + date + "10000" == (Prefix + date) + "10000";
    assert Prefix + date + "9999" == (Prefix + date) + "9999";
    SharedPrefixLess(Prefix + date, "10000", "9999");
  }

  /**
   * Once the number with serial 9999 is the greatest, the number generated
   * from it, ending in `10000`, sorts below it. So the `9999` number stays the
   * greatest after the new one is added, and every later call generates the
   * same `10000` number again.
   */
  lemma OverflowRepeats(date: string, nowIso: string, issued: seq<string>)
    requires |date| == 8 && forall i :: 0 <= i < 8 ==> IsDecimal(date[i])
    requires Prefix + date + "9999" in issued
    requires forall s :: s in issued ==> !StringLess(Prefix + date + "9999", s)
    ensures GenerateContractNo(Ok(Some(Prefix + date + "9999")), nowIso) == Ok(Prefix + date + "10000")
    ensures forall s :: s in issued + [Prefix + date + "10000"] ==> !StringLess(Prefix + date + "9999", s)
  {
    NextAfterLastSerial(date, nowIso);
    OverflowSortsBelow(date);
    StringLessAsymmetric(Prefix + date + "10000", Prefix + date + "9999");
  }

  lemma TenThousandText()
    ensures NumberToString(Num(10000)) == "10000"
  {
    assert NatToString(10000) == "10000";
  }

  lemma TenThousandTail()
    ensures "10000"[1..] == "0000"
  {
  }

  lemma NextAfterZeros()
    ensures NextSerialText("0000") == "0001"
  {
    SerialZero();
    SerialOneText();
  }

  lemma SerialZero()
    ensures ParseInt("0000") == Num(0)
  {
    PaddedRoundTrip(0);
    assert PadStart4(NatToString(0)) == "0000" by {
      assert Zeros(3) == "000";
    }
  }

  lemma SerialOneText()
    ensures PadStart4(NumberToString(Num(1))) == "0001"
  {
    assert NumberToString(Num(1)) == "1";
    assert Zeros(3) == "000";
  }

  lemma FourZeros()
    ensures DigitsValue("0000", 10) == 0
  {
    assert "0000"[..3] == "000" && "000"[..2] == "00" && "00"[..1] == "0" && "0"[..0] == "";
  }

  /**
   * A last number whose last four characters begin, after white space, with
   * neither a digit nor a sign yields the serial `0NaN`.
   */
  lemma NonNumericSerial(lastNo: string, nowIso: string)
    requires var t := TrimStart(SliceLast(lastNo, 4)); |t| == 0 || (!IsDecimal(t[0]) && t[0] != '-' && t[0] != '+')
    ensures GenerateContractNo(Ok(Some(lastNo)), nowIso) ==
      Ok(Prefix + Substring(lastNo, PrefixLength, PrefixLength + 8) + "0NaN")
  {
    ParseNoDigit(SliceLast(lastNo, 4));
    NaNPadded();
  }

  /** `(NaN + 1).toString().padStart(4, '0')` is `0NaN`. */
  lemma NaNPadded()
    ensures PadStart4(NumberToString(NaN.Inc())) == "0NaN"
  {
    assert Zeros(1) == "0";
  }

  /** An ISO timestamp `YYYY-MM-DDTHH:mm:ss.sssZ` of a year from 0 to 9999. */
  predicate IsoTimestamp(s: string) {
    |s| >= 10 && s[4] == '-' && s[7] == '-' &&
    forall i :: 0 <= i < 10 && i != 4 && i != 7 ==> IsDecimal(s[i])
  }

  /**
   * With no number yet, the result is the prefix, today's `YYYYMMDD` taken
   * from the timestamp, and serial `0001`; it is well formed with serial 1.
   */
  lemma FirstNumber(nowIso: string)
    requires IsoTimestamp(nowIso)
    ensures var r := GenerateContractNo(Ok(None), nowIso);
      && r.Ok?
      && WellFormedNo(r.value)
      && DatePart(r.value) == nowIso[0..4] + nowIso[5..7] + nowIso[8..10]
      && Serial(r.value) == Num(1)
  {
    var date := IsoDate(nowIso);
    assert GenerateContractNo(Ok(None), nowIso) == Ok(Prefix + date + "0001");
    FirstShape(date);
    FirstSerial(date);
  }

  lemma FirstShape(date: string)
    requires |date| == 8 && forall i :: 0 <= i < 8 ==> IsDecimal(date[i])
    ensures WellFormedNo(Prefix + date + "0001") && DatePart(Prefix + date + "0001") == date
  {
    WellFormedCompose(date, "0001");
  }

  lemma FirstSerial(date: string)
    requires |date| == 8 && forall i :: 0 <= i < 8 ==> IsDecimal(date[i])
    ensures Serial(Prefix + date + "0001") == Num(1)
  {
    WellFormedCompose(date, "0001");
    SerialOne();
  }

  /** The dashes removed from the first ten characters of a timestamp leave its eight date digits. */
  lemma IsoDate(nowIso: string) returns (date: string)
    requires IsoTimestamp(nowIso)
    ensures date == nowIso[0..4] + nowIso[5..7] + nowIso[8..10]
    ensures RemoveDashes(Substring(nowIso, 0, 10)) == date
    ensures |date| == 8 && forall i :: 0 <= i < 8 ==> IsDecimal(date[i])
  {
    var y, m, d := nowIso[0..4], nowIso[5..7], nowIso[8..10];
    assert Substring(nowIso, 0, 10) == y + "-" + m + "-" + d;
    DashFree(y);
    DashFree(m);
    DashFree(d);
    RemoveDashesJoin(y, m, d);
    date := y + m + d;
  }

  lemma RemoveDashesJoin(y: string, m: string, d: string)
    requires RemoveDashes(y) == y && RemoveDashes(m) == m && RemoveDashes(d) == d
    ensures RemoveDashes(y + "-" + m + "-" + d) == y + m + d
  {
    DashJoin(y, m);
    DashJoin(y + "-" + m, d);
  }

  lemma DashJoin(a: string, b: string)
    ensures RemoveDashes(a + "-" + b) == RemoveDashes(a) + RemoveDashes(b)
  {
    RemoveDashesConcat(a + "-", b);
    RemoveDashesConcat(a, "-");
    DashAlone();
  }

  lemma DashAlone()
    ensures RemoveDashes("-") == ""
  {
    assert "-"[1..] == "";
  }

  lemma SerialOne()
    ensures ParseInt("0001") == Num(1)
  {
    ZerosThenDigit("0001");
  }

  /** Three zeros and a decimal digit read back as that digit. */
  lemma ZerosThenDigit(s: string)
    requires |s| == 4 && forall i :: 0 <= i < 3 ==> s[i] == '0'
    requires IsDecimal(s[3])
    ensures ParseInt(s) == Num(DigitValue(s[3], 10))
  {
    assert forall i :: 0 <= i < 4 ==> IsDigitIn(s[i], 10);
    ParseDecimal(s);
    ZeroDigitsValue(s[..3]);
    assert DigitsValue(s, 10) == DigitsValue(s[..3], 10) * 10 + DigitValue(s[3], 10);
  }

  lemma {:induction false} ZeroDigitsValue(ds: string)
    requires forall i :: 0 <= i < |ds| ==> ds[i] == '0'
    ensures DigitsValue(ds, 10) == 0
  {
    if |ds| > 0 {
      ZeroDigitsValue(ds[..|ds| - 1]);
    }
  }

  /** A date part of eight digits and a serial of four make a well-formed number. */
  lemma WellFormedCompose(date: string, serial: string)
    requires |date| == 8 && forall i :: 0 <= i < 8 ==> IsDecimal(date[i])
    requires |serial| == 4 && forall i :: 0 <= i < 4 ==> IsDecimal(serial[i])
    ensures WellFormedNo(Prefix + date + serial)
    ensures DatePart(Prefix + date + serial) == date
    ensures Serial(Prefix + date + serial) == ParseInt(serial)
  {
    var r := Prefix + date + serial;
    Compose(date, serial);
    assert forall i :: 5 <= i < 13 ==> r[i] == date[i - 5];
    assert forall i :: 13 <= i < 17 ==> r[i] == serial[i - 13];
  }

  lemma DashFree(s: string)
    requires forall i :: 0 <= i < |s| ==> IsDecimal(s[i])
    ensures RemoveDashes(s) == s
  {
  }

  lemma {:induction false} RemoveDashesConcat(a: string, b: string)
    ensures RemoveDashes(a + b) == RemoveDashes(a) + RemoveDashes(b)
  {
    if |a| > 0 {
      assert (a + b)[1..] == a[1..] + b;
      RemoveDashesConcat(a[1..], b);
      var head := if a[0] == '-' then "" else [a[0]];
      assert RemoveDashes(a + b) == head + RemoveDashes(a[1..] + b);
      assert RemoveDashes(a) == head + RemoveDashes(a[1..]);
    } else {
      assert a + b == b;
    }
  }

  // ---------------------------------------------------------------- uniqueness

  /** `excludeProjectId` is used only when truthy: given and not 0. */
  predicate Excludes(excludeProjectId: Option<int>, p: Project) {
    excludeProjectId.Some? && excludeProjectId.value != 0 && p.id == excludeProjectId.value
  }

  /** `SELECT COUNT(*) ... WHERE contract_no = ? [AND project_id != ?]`. */
  function CountNumber(projects: seq<Project>, contractNo: string, excludeProjectId: Option<int>): (r: nat)
    ensures r <= |projects|
    ensures r == 0 <==> forall p :: p in projects && p.contractNo == contractNo ==> Excludes(excludeProjectId, p)
  {
    if |projects| == 0 then 0
    else
      var p := projects[|projects| - 1];
      var pre := projects[..|projects| - 1];
      assert projects == pre + [p];
      CountNumber(pre, contractNo, excludeProjectId) +
        (if p.contractNo == contractNo && !Excludes(excludeProjectId, p) then 1 else 0)
  }

  /** `isContractNoUnique(contractNo, excludeProjectId)`; a failed read answers false. */
  function IsContractNoUnique(projects: Result<seq<Project>, StoreError>, contractNo: string,
                              excludeProjectId: Option<int>): (r: bool)
    ensures projects.Err? ==> !r
  {
    match projects
    case Err(_) => false
    case Ok(ps) => CountNumber(ps, contractNo, excludeProjectId) == 0
  }

  /** The number is unique exactly when every project that has it is the excluded one. */
  lemma UniqueIff(projects: seq<Project>, contractNo: string, excludeProjectId: Option<int>)
    ensures IsContractNoUnique(Ok(projects), contractNo, excludeProjectId) <==>
      forall p :: p in projects && p.contractNo == contractNo ==> Excludes(excludeProjectId, p)
  {
  }
}
