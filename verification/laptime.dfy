/** Lap-time strings: `time_to_seconds`, which splits "M:SS.sss" on ':' and reads both
    parts with `float`, and the formatting it inverts. `float` is modelled on plain
    decimals: an optional sign, digits, an optional point and more digits. */
module LapTime {
  import opened Wrappers
  import opened Seqs

  predicate IsDigit(c: char) {
    '0' <= c <= '9'
  }

  predicate AllDigits(s: string) {
    forall i :: 0 <= i < |s| ==> IsDigit(s[i])
  }

  function DigitValue(c: char): nat
    requires IsDigit(c)
  {
    c as int - '0' as int
  }

  /** The value of a string of decimal digits; 0 for the empty string. */
  function DigitsValue(s: string): nat
    requires AllDigits(s)
  {
    if |s| == 0 then 0 else 10 * DigitsValue(s[..|s| - 1]) + DigitValue(s[|s| - 1])
  }

  function Pow10(n: nat): (r: nat)
    ensures r >= 1
  {
    if n == 0 then 1 else 10 * Pow10(n - 1)
  }

  /** The value of the digits after a decimal point. */
  function Fraction(d: string): real
    requires AllDigits(d)
  {
    DigitsValue(d) as real / Pow10(|d|) as real
  }

  /** `float(t)` on unsigned plain decimals: digits, optionally a point and more digits,
      at least one digit in all. */
  function ParseUnsigned(t: string): Option<real> {
    if '.' in t then
      var i := IndexOf(t, '.');
      var whole, frac := t[..i], t[i + 1..];
      if AllDigits(whole) && AllDigits(frac) && |whole| + |frac| > 0 then
        Some(DigitsValue(whole) as real + Fraction(frac))
      else None
    else if |t| > 0 && AllDigits(t) then Some(DigitsValue(t) as real)
    else None
  }

  /** `float(t)` on plain decimals with an optional sign; None where Python raises
      ValueError. */
  function ParseDecimal(t: string): Option<real> {
    if |t| > 0 && (t[0] == '-' || t[0] == '+') then
      match ParseUnsigned(t[1..])
      case None => None
      case Some(v) => Some(if t[0] == '-' then -v else v)
    else ParseUnsigned(t)
  }

  /** `t.split(sep)`: the pieces between occurrences of sep. */
  function Split(t: string, sep: char): (parts: seq<string>)
    ensures |parts| >= 1
    ensures |parts| == 1 <==> sep !in t
    decreases |t|
  {
    if sep !in t then [t]
    else
      var i := IndexOf(t, sep);
      [t[..i]] + Split(t[i + 1..], sep)
  }

  datatype TimeError =
    | NotTwoParts   // `mins, secs = t.split(":")` does not unpack
    | NotANumber    // `float` raises on a part

  /** `time_to_seconds`: minutes times 60 plus seconds. */
  function TimeToSeconds(t: string): (r: Result<real, TimeError>)
    ensures r.Err? && r.error == NotTwoParts <==> |Split(t, ':')| != 2
  {
    var parts := Split(t, ':');
    if |parts| != 2 then Err(NotTwoParts)
    else
      match (ParseDecimal(parts[0]), ParseDecimal(parts[1]))
      case (Some(m), Some(s)) => Ok(m * 60.0 + s)
      case _ => Err(NotANumber)
  }

  // ---------------------------------------------------------------------------
  // Formatting, the inverse

  function DigitChar(d: nat): (c: char)
    requires d < 10
    ensures IsDigit(c) && DigitValue(c) == d
  {
    ('0' as int + d) as char
  }

  /** The decimal digits of n, without leading zeros ("0" for zero). */
  function Digits(n: nat): (d: string)
    ensures |d| >= 1 && AllDigits(d)
    ensures DigitsValue(d) == n
    decreases n
  {
    if n < 10 then [DigitChar(n)]
    else
      var d := Digits(n / 10) + [DigitChar(n % 10)];
      assert d[..|d| - 1] == Digits(n / 10);
      d
  }

  lemma {:induction false} LeadingZero(d: string)
    requires AllDigits(d)
    ensures AllDigits(['0'] + d) && DigitsValue(['0'] + d) == DigitsValue(d)
    decreases |d|
  {
    if |d| > 0 {
      var d' := ['0'] + d;
      assert d'[..|d'| - 1] == ['0'] + d[..|d| - 1];
      LeadingZero(d[..|d| - 1]);
    }
  }

  /** d padded on the left with zeros to at least w characters. */
  function Pad(d: string, w: nat): (r: string)
    requires AllDigits(d)
    ensures AllDigits(r) && DigitsValue(r) == DigitsValue(d)
    ensures |r| == if |d| >= w then |d| else w
    decreases w - |d|
  {
    if |d| >= w then d
    else
      LeadingZero(d);
      Pad(['0'] + d, w)
  }

  /** "M:SS.sss" for m minutes and ms milliseconds into the minute. */
  function FormatLapTime(m: nat, ms: nat): string
    requires ms < 60000
  {
    Digits(m) + ":" + SecondsText(ms)
  }

  /** The first x in A + [x] + B, where A holds no x, sits right after A. */
  lemma IndexAfterPrefix<T>(a: seq<T>, x: T, b: seq<T>)
    requires x !in a
    ensures var s := a + [x] + b;
      x in s && IndexOf(s, x) == |a| && s[..|a|] == a && s[|a| + 1..] == b
  {
    var s := a + [x] + b;
    assert s[|a|] == x;
    assert forall j :: 0 <= j < |a| ==> s[j] == a[j];
    assert s[..|a|] == a;
    assert s[|a| + 1..] == b;
  }

  /** Splitting "A<sep>B", where neither part holds sep, gives [A, B]. */
  lemma SplitTwo(a: string, sep: char, b: string)
    requires sep !in a && sep !in b
    ensures Split(a + [sep] + b, sep) == [a, b]
  {
    IndexAfterPrefix(a, sep, b);
  }

  lemma DigitsHaveNoSeparator(d: string, c: char)
    requires AllDigits(d) && !IsDigit(c)
    ensures c !in d
  {
  }

  /** An unsigned string reads the same through ParseDecimal. */
  lemma UnsignedStart(t: string)
    requires |t| > 0 && IsDigit(t[0])
    ensures ParseDecimal(t) == ParseUnsigned(t)
  {
  }

  /** A plain decimal with its point at position i reads as the digits before the point
      plus the digits after it scaled down. */
  lemma UnsignedAt(t: string, i: nat)
    requires '.' in t && IndexOf(t, '.') == i
    requires AllDigits(t[..i]) && AllDigits(t[i + 1..]) && i >= 1
    ensures ParseUnsigned(t) ==
      Some(DigitsValue(t[..i]) as real + Fraction(t[i + 1..]))
  {
  }

  /** "P.Q" for digit strings P and Q reads as P + Q / 10^|Q|. */
  lemma UnsignedFixed(p: string, q: string)
    requires AllDigits(p) && AllDigits(q) && |p| >= 1
    ensures ParseUnsigned(p + "." + q) ==
      Some(DigitsValue(p) as real + Fraction(q))
  {
    DigitsHaveNoSeparator(p, '.');
    IndexAfterPrefix(p, '.', q);
    UnsignedAt(p + ['.'] + q, |p|);
  }

  /** Reading back "P.Q" for digit strings P and Q. */
  lemma ParseFixed(p: string, q: string)
    requires AllDigits(p) && AllDigits(q) && |p| >= 1
    ensures ParseDecimal(p + "." + q) ==
      Some(DigitsValue(p) as real + Fraction(q))
  {
    assert (p + "." + q)[0] == p[0];
    UnsignedStart(p + "." + q);
    UnsignedFixed(p, q);
  }

  lemma ParseWhole(p: string)
    requires AllDigits(p) && |p| >= 1
    ensures ParseDecimal(p) == Some(DigitsValue(p) as real)
  {
    DigitsHaveNoSeparator(p, '.');
    UnsignedStart(p);
  }

  /** Two parts, a digit string and one that reads as s, give minutes times 60 plus
      seconds. */
  lemma TimeFromParts(t: string, a: string, b: string, s: real)
    requires Split(t, ':') == [a, b]
    requires AllDigits(a) && |a| >= 1 && ParseDecimal(b) == Some(s)
    ensures TimeToSeconds(t) == Ok(DigitsValue(a) as real * 60.0 + s)
  {
    ParseWhole(a);
  }

  /** A number below 10^k has at most k digits. */
  lemma {:induction false} DigitsLength(n: nat, k: nat)
    requires k >= 1 && n < Pow10(k)
    ensures |Digits(n)| <= k
    decreases k
  {
    if n >= 10 {
      assert k >= 2;
      DigitsLength(n / 10, k - 1);
    }
  }

  /** Three zero-padded digits of r read back as r thousandths. */
  lemma Thousandths(r: nat)
    requires r < 1000
    ensures Fraction(Pad(Digits(r), 3)) == r as real / 1000.0
  {
    assert Pow10(3) == 1000;
    DigitsLength(r, 3);
  }

  lemma MillisAsSeconds(ms: nat)
    ensures (ms / 1000) as real + (ms % 1000) as real / 1000.0 == ms as real / 1000.0
  {
    var q, r := ms / 1000, ms % 1000;
    assert ms == q * 1000 + r;
    assert ms as real == (q as real) * 1000.0 + r as real;
  }

  /** `time_to_seconds` reads back what FormatLapTime writes: m minutes and ms
      milliseconds come back as 60 m + ms / 1000 seconds. */
  lemma FormatRoundTrip(m: nat, ms: nat)
    requires ms < 60000
    ensures TimeToSeconds(FormatLapTime(m, ms)) == Ok(m as real * 60.0 + ms as real / 1000.0)
  {
    var a, b := Digits(m), SecondsText(ms);
    assert FormatLapTime(m, ms) == a + [':'] + b;
    SecondsTextValue(ms);
    MinutesAndSeconds(a, b, ms as real / 1000.0);
  }

  /** The "SS.sss" part FormatLapTime writes for ms milliseconds. */
  function SecondsText(ms: nat): string {
    Pad(Digits(ms / 1000), 2) + "." + Pad(Digits(ms % 1000), 3)
  }

  lemma SecondsTextValue(ms: nat)
    ensures ParseDecimal(SecondsText(ms)) == Some(ms as real / 1000.0)
    ensures ':' !in SecondsText(ms)
  {
    SecondsRoundTrip(ms / 1000, ms % 1000);
    MillisAsSeconds(ms);
  }

  /** "M:S", for a digit string M and a seconds part S that reads as s, is M minutes
      and s seconds. */
  lemma MinutesAndSeconds(a: string, b: string, s: real)
    requires AllDigits(a) && |a| >= 1
    requires ':' !in b && ParseDecimal(b) == Some(s)
    ensures TimeToSeconds(a + [':'] + b) == Ok(DigitsValue(a) as real * 60.0 + s)
  {
    DigitsHaveNoSeparator(a, ':');
    SplitTwo(a, ':', b);
    TimeFromParts(a + [':'] + b, a, b, s);
  }

  /** "SS.sss" reads back as whole seconds plus thousandths. */
  lemma SecondsRoundTrip(w: nat, r: nat)
    requires r < 1000
    ensures ParseDecimal(Pad(Digits(w), 2) + "." + Pad(Digits(r), 3)) == Some(w as real + r as real / 1000.0)
    ensures ':' !in Pad(Digits(w), 2) + "." + Pad(Digits(r), 3)
  {
    var p, q := Pad(Digits(w), 2), Pad(Digits(r), 3);
    ParseFixed(p, q);
    Thousandths(r);
    DigitsHaveNoSeparator(p, ':');
    DigitsHaveNoSeparator(q, ':');
  }

  /** "1:30.000" reads as 90 seconds. */
  lemma NinetySeconds()
    ensures TimeToSeconds("1:30.000") == Ok(90.0)
  {
    assert Pad(Digits(30000 / 1000), 2) == "30";
    assert Pad(Digits(30000 % 1000), 3) == "000";
    assert FormatLapTime(1, 30000) == "1:30.000";
    FormatRoundTrip(1, 30000);
  }

  /** "1:31.500" reads as 91.5 seconds. */
  lemma NinetyOneAndAHalfSeconds()
    ensures TimeToSeconds("1:31.500") == Ok(91.5)
  {
    assert Pad(Digits(31500 / 1000), 2) == "31";
    assert Pad(Digits(31500 % 1000), 3) == "500";
    assert FormatLapTime(1, 31500) == "1:31.500";
    FormatRoundTrip(1, 31500);
  }

  /** A time without exactly one ':' is refused. */
  lemma NoColonRefused()
    ensures TimeToSeconds("90.000") == Err(NotTwoParts)
    ensures TimeToSeconds("1:30:00") == Err(NotTwoParts)
  {
    assert ':' !in "90.000";
    var t := "1:30:00";
    assert IndexOf(t, ':') == 1;
    assert t[2..] == "30:00";
    assert IndexOf(t[2..], ':') == 2;
  }
}
