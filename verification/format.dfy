/** The duration formatters of constants.ts: `formatFull` renders
    milliseconds as "hh:mm:ss" and `formatHHMM` as "hh:mm", each field
    rendered by `String(n).padStart(2, '0')`. Each is paired with a reader
    that recovers the whole seconds or minutes it shows. */
module Format {

  import opened Types

  predicate IsDigit(c: char) { '0' <= c <= '9' }

  predicate AllDigits(s: string) { forall i :: 0 <= i < |s| ==> IsDigit(s[i]) }

  function DigitChar(d: nat): (c: char)
    requires d < 10
    ensures IsDigit(c) && c as int - '0' as int == d
  {
    ((d + '0' as int) as char)
  }

  /** `String(n)` for a non-negative integer: its decimal digits, without
      leading zeros. */
  function NatToString(n: nat): (r: string)
    ensures AllDigits(r)
    ensures |r| >= 1 && (n < 10 <==> |r| == 1)
    ensures 10 <= n < 100 ==> |r| == 2
    decreases n
  {
    if n < 10 then [DigitChar(n)] else NatToString(n / 10) + [DigitChar(n % 10)]
  }

  /** The value of a string of decimal digits; leading zeros are allowed. */
  function DigitsValue(s: string): nat
    requires AllDigits(s)
  {
    if |s| == 0 then 0 else DigitsValue(s[..|s| - 1]) * 10 + (s[|s| - 1] as int - '0' as int)
  }

  /** Reading the digits back gives the number. */
  lemma {:induction false} NatToStringRoundTrip(n: nat)
    ensures DigitsValue(NatToString(n)) == n
    decreases n
  {
    if n >= 10 {
      NatToStringRoundTrip(n / 10);
      var s := NatToString(n);
      assert s[..|s| - 1] == NatToString(n / 10);
    }
  }

  /** `String(i)` for any integer: a minus sign before the digits of -i when
      i is negative. */
  function IntToString(i: int): string {
    if i < 0 then "-" + NatToString(-i) else NatToString(i)
  }

  /** `String(i).padStart(2, '0')`: "0" and the digit below ten, the plain
      decimal otherwise (a negative number is never padded). */
  function Pad(i: int): (r: string)
    ensures 0 <= i < 10 ==> r == ['0', DigitChar(i)]
    ensures i >= 10 ==> r == NatToString(i)
    ensures i < 0 ==> r == IntToString(i) && r[0] == '-'
    ensures i >= 0 ==> AllDigits(r) && |r| >= 2
    ensures 0 <= i < 100 ==> |r| == 2
  {
    var s := IntToString(i);
    if |s| < 2 then "0" + s else s
  }

  /** The digits of a padded non-negative number read back as the number. */
  lemma PadRoundTrip(i: nat)
    ensures DigitsValue(Pad(i)) == i
  {
    if i < 10 {
      assert Pad(i)[..1] == "0";
      assert DigitsValue("0") == 0;
    } else {
      NatToStringRoundTrip(i);
    }
  }

  // ----- formatFull (constants.ts 4-12) -----

  /** Hours, minutes and seconds shown by `formatFull`; a negative duration
      is clamped to zero. */
  function FullFields(ms: int): (f: (nat, nat, nat))
    ensures f.1 < 60 && f.2 < 60
    ensures f.0 * 3600 + f.1 * 60 + f.2 == Max(0, ms / 1000)
  {
    var total := Max(0, ms / 1000);
    var rest := total % 3600;
    (total / 3600, rest / 60, rest % 60)
  }

  function FormatFull(ms: int): (r: string)
    ensures var h := FullFields(ms).0; |r| == |Pad(h)| + 6 && (h < 100 ==> |r| == 8)
  {
    var (h, m, s) := FullFields(ms);
    Pad(h) + ":" + Pad(m) + ":" + Pad(s)
  }

  /** Any duration of at most zero milliseconds shows as "00:00:00". */
  lemma FormatFullClamps(ms: int)
    requires ms <= 0
    ensures FormatFull(ms) == "00:00:00"
  {
    assert FullFields(ms) == (0, 0, 0);
  }

  /** `formatFull` shows whole seconds only: durations in the same second
      look the same. */
  lemma FormatFullBySecond(ms1: int, ms2: int)
    requires ms1 / 1000 == ms2 / 1000
    ensures FormatFull(ms1) == FormatFull(ms2)
  {
  }

  /** Reads "h..h:mm:ss" back as a number of seconds. */
  function ParseFull(s: string): Option<nat> {
    if |s| >= 8 && s[|s| - 6] == ':' && s[|s| - 3] == ':'
       && AllDigits(s[..|s| - 6]) && AllDigits(s[|s| - 5..|s| - 3]) && AllDigits(s[|s| - 2..])
    then Some(DigitsValue(s[..|s| - 6]) * 3600 + DigitsValue(s[|s| - 5..|s| - 3]) * 60 + DigitsValue(s[|s| - 2..]))
    else None
  }

  /** Where the three fields of "h..h:mm:ss" sit. */
  lemma FullSlices(hh: string, mm: string, ss: string)
    requires |mm| == 2 && |ss| == 2
    ensures var r := hh + ":" + mm + ":" + ss; var n := |r|;
      && n == |hh| + 6 && r[n - 6] == ':' && r[n - 3] == ':'
      && r[..n - 6] == hh && r[n - 5..n - 3] == mm && r[n - 2..] == ss
  {
  }

  /** Reading `formatFull`'s output back gives the clamped whole seconds. */
  lemma FullRoundTrip(ms: int)
    ensures ParseFull(FormatFull(ms)) == Some(Max(0, ms / 1000))
  {
    var (h, m, sec) := FullFields(ms);
    FullSlices(Pad(h), Pad(m), Pad(sec));
    PadRoundTrip(h);
    PadRoundTrip(m);
    PadRoundTrip(sec);
    assert ParseFull(FormatFull(ms)) == Some(h * 3600 + m * 60 + sec);
  }

  // ----- formatHHMM (constants.ts 14-20) -----

  /** JavaScript's integer quotient, truncated toward zero (`Math.trunc(a / b)`). */
  function JsQuot(a: int, b: int): int
    requires b > 0
  {
    if a >= 0 then a / b else -((-a) / b)
  }

  /** JavaScript's `%`: the remainder takes the sign of the dividend, and
      completes the truncated quotient. */
  function JsRem(a: int, b: int): (r: int)
    requires b > 0
    ensures a >= 0 ==> 0 <= r < b
    ensures a < 0 ==> -b < r <= 0
    ensures a == JsQuot(a, b) * b + r
  {
    if a >= 0 then a % b
    else
      assert -a == ((-a) / b) * b + (-a) % b;
      -((-a) % b)
  }

  /** Hours and minutes shown by `formatHHMM`; there is no clamp. */
  function HHMMFields(ms: int): (int, int) {
    var totalMinutes := ms / 60000;
    (totalMinutes / 60, JsRem(totalMinutes, 60))
  }

  /** For a non-negative duration the fields are the exact decomposition of
      its whole minutes. */
  lemma HHMMDecomposes(ms: int)
    requires ms >= 0
    ensures var (h, m) := HHMMFields(ms);
      h >= 0 && 0 <= m < 60 && h * 60 + m == ms / 60000
  {
  }

  function FormatHHMM(ms: int): (r: string)
    ensures var h := HHMMFields(ms).0; ms >= 0 ==> |r| == |Pad(h)| + 3 && (h < 100 ==> |r| == 5)
  {
    var (h, m) := HHMMFields(ms);
    Pad(h) + ":" + Pad(m)
  }

  /** Reads "h..h:mm" back as a number of minutes. */
  function ParseHHMM(s: string): Option<nat> {
    if |s| >= 5 && s[|s| - 3] == ':' && AllDigits(s[..|s| - 3]) && AllDigits(s[|s| - 2..])
    then Some(DigitsValue(s[..|s| - 3]) * 60 + DigitsValue(s[|s| - 2..]))
    else None
  }

  /** Reading `formatHHMM`'s output back gives the whole minutes. */
  lemma HHMMRoundTrip(ms: int)
    requires ms >= 0
    ensures ParseHHMM(FormatHHMM(ms)) == Some(ms / 60000)
  {
    var (h, m) := HHMMFields(ms);
    HHMMDecomposes(ms);
    var r := FormatHHMM(ms);
    var n := |r|;
    assert r[..n - 3] == Pad(h);
    assert r[n - 2..] == Pad(m);
    PadRoundTrip(h);
    PadRoundTrip(m);
  }

  /** Unlike `formatFull`, a negative duration is not clamped: one minute
      below zero shows as "-1:-1". */
  lemma HHMMNegative()
    ensures FormatHHMM(-60000) == "-1:-1"
    ensures FormatHHMM(-1) == "-1:-1"
  {
    assert HHMMFields(-60000) == (-1, -1);
    assert HHMMFields(-1) == (-1, -1);
    assert NatToString(1) == "1";
  }
}
