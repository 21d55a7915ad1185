/**
 * The `YYYY-MM-DD` day key under which play counts are stored.
 *
 * `FormatDate` is the widget's formatter: the year in plain decimal (with a
 * leading '-' when negative, as JavaScript's `toString` writes it), then the
 * month and the day each left-padded with '0' to width 2.  `Decode` is its
 * inverse; the round trip shows that the key identifies the date.
 */
module DateKey {
  import opened Wrappers
  import opened Gregorian

  predicate IsDigit(c: char) {
    '0' <= c <= '9'
  }

  predicate AllDigits(s: string) {
    forall i :: 0 <= i < |s| ==> IsDigit(s[i])
  }

  function DigitChar(n: int): (c: char)
    requires 0 <= n < 10
    ensures IsDigit(c)
  {
    "0123456789"[n]
  }

  /** Decimal digits of `n`, without leading zeros (`Number.prototype.toString`). */
  function NatToString(n: nat): (s: string)
    ensures 1 <= |s| && AllDigits(s)
    ensures n < 10 <==> |s| == 1
  {
    if n < 10 then [DigitChar(n)] else NatToString(n / 10) + [DigitChar(n % 10)]
  }

  function IntToString(n: int): string {
    if n < 0 then "-" + NatToString(-n) else NatToString(n)
  }

  /** `n.toString().padStart(2, '0')`. */
  function PadTwo(n: nat): (s: string)
    ensures AllDigits(s) && |s| >= 2
    ensures n < 100 ==> |s| == 2
  {
    var t := NatToString(n);
    if |t| < 2 then "0" + t else t
  }

  /** The key `formatDate(year, month, day)` builds; `month` is 1-based. */
  function FormatDate(year: int, month: nat, day: nat): string {
    IntToString(year) + "-" + PadTwo(month) + "-" + PadTwo(day)
  }

  /** The key of a calendar date, as the scrobble tally builds it inline from a `Date`. */
  function KeyOf(d: CivilDate): string
    requires 0 <= d.month && 0 <= d.day
  {
    FormatDate(d.year, d.month + 1, d.day)
  }

  /** `key` reads back as a date that exists, with a 1-based month. */
  predicate IsDayKey(key: string) {
    match Decode(key)
    case None => false
    case Some(t) => 1 <= t.month <= 12 && 1 <= t.day <= DaysInMonth(t.year, t.month - 1)
  }

  // ---------------------------------------------------------------- decoding

  datatype YMD = YMD(year: int, month: nat, day: nat)

  /** Value of a string of decimal digits; leading zeros are allowed. */
  function DigitsValue(s: string): nat
    requires AllDigits(s)
  {
    if s == [] then 0 else DigitsValue(s[..|s| - 1]) * 10 + (s[|s| - 1] - '0') as nat
  }

  /** Position of the first '-' in `s`. */
  function IndexOfDash(s: string): (r: Option<nat>)
    ensures r.Some? ==> r.value < |s| && s[r.value] == '-' && forall i :: 0 <= i < r.value ==> s[i] != '-'
    ensures r.None? ==> forall i :: 0 <= i < |s| ==> s[i] != '-'
  {
    if s == [] then None
    else if s[0] == '-' then Some(0)
    else match IndexOfDash(s[1..])
      case None => None
      case Some(i) => Some(i + 1)
  }

  /** A number field of a key: non-empty decimal digits. */
  function Field(s: string): Option<nat> {
    if s != [] && AllDigits(s) then Some(DigitsValue(s)) else None
  }

  /** Reads `<digits>-<digits>-<digits>`. */
  function DecodeUnsigned(s: string): Option<YMD> {
    match IndexOfDash(s)
    case None => None
    case Some(i) =>
      var rest := s[i + 1..];
      match IndexOfDash(rest)
      case None => None
      case Some(j) =>
        match (Field(s[..i]), Field(rest[..j]), Field(rest[j + 1..]))
        case (Some(y), Some(m), Some(d)) => Some(YMD(y, m, d))
        case _ => None
  }

  /** Reads a key back into (year, month, day); a leading '-' marks a negative year. */
  function Decode(s: string): Option<YMD> {
    if |s| > 0 && s[0] == '-' then
      match DecodeUnsigned(s[1..])
      case None => None
      case Some(t) => Some(YMD(-t.year, t.month, t.day))
    else DecodeUnsigned(s)
  }

  // ------------------------------------------------------------------ lemmas

  lemma {:induction false} DigitsOfNatToString(n: nat)
    ensures DigitsValue(NatToString(n)) == n
  {
    var s := NatToString(n);
    if n >= 10 {
      DigitsOfNatToString(n / 10);
      assert s[..|s| - 1] == NatToString(n / 10);
    }
  }

  lemma {:induction false} LeadingZeroIgnored(s: string)
    requires AllDigits(s)
    ensures AllDigits("0" + s) && DigitsValue("0" + s) == DigitsValue(s)
  {
    if s != [] {
      var t := "0" + s;
      assert t[..|t| - 1] == "0" + s[..|s| - 1];
      LeadingZeroIgnored(s[..|s| - 1]);
    }
  }

  lemma {:induction false} PadTwoValue(n: nat)
    ensures Field(PadTwo(n)) == Some(n)
  {
    DigitsOfNatToString(n);
    LeadingZeroIgnored(NatToString(n));
  }

  lemma {:induction false} DigitsHaveNoDash(s: string)
    requires AllDigits(s)
    ensures forall i :: 0 <= i < |s| ==> s[i] != '-'
  {
  }

  lemma {:induction false} DashAfterDigits(a: string, b: string)
    requires AllDigits(a)
    ensures IndexOfDash(a + "-" + b) == Some(|a|)
    ensures (a + "-" + b)[..|a|] == a && (a + "-" + b)[|a| + 1..] == b
  {
    var s := a + "-" + b;
    DigitsHaveNoDash(a);
    assert s[|a|] == '-';
    assert forall i :: 0 <= i < |a| ==> s[i] == a[i];
  }

  /** Once both dashes are found, the key reads as its three fields. */
  lemma {:induction false} DecodeAt(s: string, i: nat, j: nat)
    requires IndexOfDash(s) == Some(i) && IndexOfDash(s[i + 1..]) == Some(j)
    requires Field(s[..i]).Some? && Field(s[i + 1..][..j]).Some? && Field(s[i + 1..][j + 1..]).Some?
    ensures DecodeUnsigned(s) == Some(YMD(Field(s[..i]).value, Field(s[i + 1..][..j]).value, Field(s[i + 1..][j + 1..]).value))
  {
  }

  /** Three non-empty digit fields joined by dashes read back field by field. */
  lemma {:induction false} FieldsDecode(a: string, b: string, c: string)
    requires a != [] && AllDigits(a)
    requires b != [] && AllDigits(b)
    requires c != [] && AllDigits(c)
    ensures DecodeUnsigned(a + "-" + b + "-" + c) == Some(YMD(DigitsValue(a), DigitsValue(b), DigitsValue(c)))
  {
    var rest := b + "-" + c;
    var s := a + "-" + rest;
    assert a + "-" + b + "-" + c == s;
    DashAfterDigits(a, rest);
    DashAfterDigits(b, c);
    DecodeAt(s, |a|, |b|);
  }

  lemma {:induction false} UnsignedRoundTrip(y: nat, m: nat, d: nat)
    ensures DecodeUnsigned(NatToString(y) + "-" + PadTwo(m) + "-" + PadTwo(d)) == Some(YMD(y, m, d))
  {
    FieldsDecode(NatToString(y), PadTwo(m), PadTwo(d));
    DigitsOfNatToString(y);
    PadTwoValue(m);
    PadTwoValue(d);
  }

  /** A leading '-' negates the year of an unsigned key. */
  lemma {:induction false} NegativeDecode(key: string, body: string, t: YMD)
    requires key == "-" + body
    requires DecodeUnsigned(body) == Some(t)
    ensures Decode(key) == Some(YMD(-t.year, t.month, t.day))
  {
    assert key[1..] == body;
  }

  /** A key that starts with a digit has a non-negative year. */
  lemma {:induction false} NonNegativeDecode(body: string)
    requires body != [] && IsDigit(body[0])
    ensures Decode(body) == DecodeUnsigned(body)
  {
  }

  lemma ConcatAssoc(sign: string, u: string, ms: string, ds: string)
    ensures (sign + u) + "-" + ms + "-" + ds == sign + (u + "-" + ms + "-" + ds)
  {
  }

  /** The key of a negative year is '-' followed by the unsigned key of its magnitude. */
  lemma {:induction false} NegativeKey(m: int, month: nat, day: nat)
    requires m > 0
    ensures FormatDate(-m, month, day) == "-" + (NatToString(m) + "-" + PadTwo(month) + "-" + PadTwo(day))
  {
    ConcatAssoc("-", NatToString(m), PadTwo(month), PadTwo(day));
  }

  lemma {:induction false} MagnitudeDecodes(m: int, month: nat, day: nat)
    requires m > 0
    ensures Decode(FormatDate(-m, month, day)) == Some(YMD(-m, month, day))
  {
    var key := FormatDate(-m, month, day);
    var body := NatToString(m) + "-" + PadTwo(month) + "-" + PadTwo(day);
    var t := YMD(m, month, day);
    NegativeKey(m, month, day);
    UnsignedRoundTrip(m, month, day);
    NegativeDecode(key, body, t);
    assert YMD(-t.year, t.month, t.day) == YMD(-m, month, day);
  }

  lemma {:induction false} NegativeYearDecodes(year: int, month: nat, day: nat)
    requires year < 0
    ensures Decode(FormatDate(year, month, day)) == Some(YMD(year, month, day))
  {
    MagnitudeDecodes(-year, month, day);
  }

  lemma {:induction false} NonNegativeYearDecodes(year: int, month: nat, day: nat)
    requires year >= 0
    ensures Decode(FormatDate(year, month, day)) == Some(YMD(year, month, day))
  {
    var u := NatToString(year);
    var body := u + "-" + PadTwo(month) + "-" + PadTwo(day);
    UnsignedRoundTrip(year, month, day);
    assert body[0] == u[0];
    NonNegativeDecode(body);
    assert FormatDate(year, month, day) == body;
  }

  /** Round trip: the key of (year, month, day) reads back as exactly that triple. */
  lemma {:induction false} FormatDateDecodes(year: int, month: nat, day: nat)
    ensures Decode(FormatDate(year, month, day)) == Some(YMD(year, month, day))
  {
    if year < 0 {
      NegativeYearDecodes(year, month, day);
    } else {
      NonNegativeYearDecodes(year, month, day);
    }
  }

  /** The key of a valid date is a day key that reads back as that very date. */
  lemma {:induction false} KeyOfDecodes(d: ValidDate)
    ensures Decode(KeyOf(d)) == Some(YMD(d.year, d.month + 1, d.day))
    ensures IsDayKey(KeyOf(d))
  {
    FormatDateDecodes(d.year, d.month + 1, d.day);
  }

  /** Distinct dates never share a key, so two days never pool their counts. */
  lemma {:induction false} FormatDateInjective(y1: int, m1: nat, d1: nat, y2: int, m2: nat, d2: nat)
    requires FormatDate(y1, m1, d1) == FormatDate(y2, m2, d2)
    ensures y1 == y2 && m1 == m2 && d1 == d2
  {
    FormatDateDecodes(y1, m1, d1);
    FormatDateDecodes(y2, m2, d2);
  }

  lemma {:induction false} FourDigits(n: nat)
    requires 1000 <= n <= 9999
    ensures |NatToString(n)| == 4
  {
    assert |NatToString(n)| == |NatToString(n / 10)| + 1;
    assert |NatToString(n / 10)| == |NatToString(n / 100)| + 1;
    assert |NatToString(n / 100)| == |NatToString(n / 1000)| + 1;
  }

  /** A four-digit year with a one- or two-digit month and day gives the ten-character `YYYY-MM-DD`. */
  lemma {:induction false} FormatDateShape(year: int, month: nat, day: nat)
    requires 1000 <= year <= 9999 && month < 100 && day < 100
    ensures var key := FormatDate(year, month, day);
      |key| == 10 && key[4] == '-' && key[7] == '-' &&
      forall i :: 0 <= i < 10 && i != 4 && i != 7 ==> IsDigit(key[i])
  {
    FourDigits(year);
    var ys, ms, ds := IntToString(year), PadTwo(month), PadTwo(day);
    assert ys == NatToString(year);
    var key := ys + "-" + ms + "-" + ds;
    assert key == FormatDate(year, month, day);
    assert |key| == 10;
    assert forall i :: 0 <= i < 4 ==> key[i] == ys[i];
    assert forall i :: 5 <= i < 7 ==> key[i] == ms[i - 5];
    assert forall i :: 8 <= i < 10 ==> key[i] == ds[i - 8];
  }
}
