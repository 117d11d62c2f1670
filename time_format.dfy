/**
 * The stopwatch's display formatter: `formatTime` renders a count of
 * milliseconds as `MM:SS.mmm`. Minutes are not reduced modulo 60, seconds and
 * milliseconds are, and each field is left-padded with '0' (`padStart`).
 *
 * Besides the formatter itself this module defines the pieces it is built from
 * (decimal rendering of a non-negative integer, `padStart`, the split into
 * minutes/seconds/milliseconds) and, as their partners, a decimal parser and a
 * parser for the `MM:SS.mmm` shape, so that the round trip can be proved.
 */
module TimeFormat {

  datatype Option<T> = None | Some(value: T)

  // ---------------------------------------------------------------------------
  // Decimal digits
  // ---------------------------------------------------------------------------

  predicate IsDigit(c: char) {
    '0' <= c <= '9'
  }

  predicate AllDigits(s: string) {
    forall i :: 0 <= i < |s| ==> IsDigit(s[i])
  }

  function DigitValue(c: char): (d: nat)
    requires IsDigit(c)
    ensures d < 10
  {
    c as int - '0' as int
  }

  function DigitChar(d: nat): (c: char)
    requires d < 10
    ensures IsDigit(c) && DigitValue(c) == d
  {
    ('0' as int + d) as char
  }

  lemma DigitCharOfValue(c: char)
    requires IsDigit(c)
    ensures DigitChar(DigitValue(c)) == c
  {
  }

  function Pow10(k: nat): (p: nat)
    ensures p >= 1
  {
    if k == 0 then 1 else 10 * Pow10(k - 1)
  }

  /** The value of a string of decimal digits, most significant digit first. */
  function ParseDecimal(s: string): nat
    requires AllDigits(s)
  {
    if s == [] then 0
    else
      PrefixDigits(s, |s| - 1);
      10 * ParseDecimal(s[..|s| - 1]) + DigitValue(s[|s| - 1])
  }

  lemma PrefixDigits(s: string, k: nat)
    requires AllDigits(s) && k <= |s|
    ensures AllDigits(s[..k])
  {
    forall i | 0 <= i < k ensures IsDigit(s[..k][i]) {
      assert s[..k][i] == s[i];
    }
  }

  /** A decimal numeral as `Number.prototype.toString` produces it for an integer: no leading zeros. */
  predicate Canonical(s: string) {
    |s| >= 1 && AllDigits(s) && (|s| > 1 ==> s[0] != '0')
  }

  /**
   * `n.toString()` for a non-negative integer `n`: its shortest decimal numeral.
   * Every numeral it returns is canonical.
   */
  function ToDecimal(n: nat): (s: string)
    ensures Canonical(s)
  {
    if n < 10 then [DigitChar(n)] else ToDecimal(n / 10) + [DigitChar(n % 10)]
  }

  /** Reading back what `ToDecimal` wrote gives the number again. */
  lemma {:induction false} ParseToDecimal(n: nat)
    ensures ParseDecimal(ToDecimal(n)) == n
  {
    if n >= 10 {
      var s := ToDecimal(n);
      assert s[..|s| - 1] == ToDecimal(n / 10);
      ParseToDecimal(n / 10);
    }
  }

  /** A numeral of k digits denotes a number below 10^k; with a non-zero first digit, at least 10^(k-1). */
  lemma {:induction false} ParseDecimalBounds(s: string)
    requires AllDigits(s)
    ensures ParseDecimal(s) < Pow10(|s|)
    ensures |s| >= 1 && s[0] != '0' ==> Pow10(|s| - 1) <= ParseDecimal(s)
  {
    if s != [] {
      var p := s[..|s| - 1];
      PrefixDigits(s, |s| - 1);
      ParseDecimalBounds(p);
      if |s| >= 2 && s[0] != '0' {
        assert p[0] == s[0];
      }
    }
  }

  /** Writing out the value of a canonical numeral gives back the same numeral. */
  lemma {:induction false} ToDecimalOfParse(s: string)
    requires Canonical(s)
    ensures ToDecimal(ParseDecimal(s)) == s
  {
    if |s| == 1 {
      DigitCharOfValue(s[0]);
      assert ToDecimal(ParseDecimal(s)) == [s[0]];
    } else {
      var p := s[..|s| - 1];
      assert p[0] == s[0];
      PrefixDigits(s, |s| - 1);
      ParseDecimalBounds(p);
      ToDecimalOfParse(p);
      var n := ParseDecimal(s);
      var d := DigitValue(s[|s| - 1]);
      assert n == 10 * ParseDecimal(p) + d;
      assert n / 10 == ParseDecimal(p) && n % 10 == d;
      DigitCharOfValue(s[|s| - 1]);
      assert s == p + [s[|s| - 1]];
    }
  }

  /** `n.toString()` fits in k digits exactly when n < 10^k. */
  lemma {:induction false} DecimalLength(n: nat, k: nat)
    requires k >= 1
    ensures |ToDecimal(n)| <= k <==> n < Pow10(k)
  {
    if n >= 10 {
      if k == 1 {
        assert |ToDecimal(n)| == |ToDecimal(n / 10)| + 1;
      } else {
        DecimalLength(n / 10, k - 1);
      }
    } else {
      assert Pow10(k) >= 10 by { assert Pow10(k) == 10 * Pow10(k - 1); }
    }
  }

  /** The value of a concatenation of numerals. */
  lemma {:induction false} ParseDecimalAppend(a: string, b: string)
    requires AllDigits(a) && AllDigits(b)
    ensures AllDigits(a + b)
    ensures ParseDecimal(a + b) == ParseDecimal(a) * Pow10(|b|) + ParseDecimal(b)
  {
    assert AllDigits(a + b) by {
      forall i | 0 <= i < |a + b| ensures IsDigit((a + b)[i]) {
        if i < |a| { assert (a + b)[i] == a[i]; } else { assert (a + b)[i] == b[i - |a|]; }
      }
    }
    if b == [] {
      assert a + b == a;
    } else {
      var b' := b[..|b| - 1];
      PrefixDigits(b, |b| - 1);
      assert (a + b)[..|a + b| - 1] == a + b';
      assert (a + b)[|a + b| - 1] == b[|b| - 1];
      ParseDecimalAppend(a, b');
      var d := DigitValue(b[|b| - 1]);
      assert ParseDecimal(a + b) == 10 * ParseDecimal(a + b') + d;
      assert ParseDecimal(b) == 10 * ParseDecimal(b') + d;
      ShiftDigit(ParseDecimal(a), Pow10(|b'|), ParseDecimal(b'), d);
    }
  }

  lemma ShiftDigit(x: nat, p: nat, y: nat, d: nat)
    ensures 10 * (x * p + y) + d == x * (10 * p) + (10 * y + d)
  {
  }

  // ---------------------------------------------------------------------------
  // padStart
  // ---------------------------------------------------------------------------

  function Repeat(c: char, k: nat): (r: string)
    ensures |r| == k && forall i :: 0 <= i < k ==> r[i] == c
  {
    if k == 0 then [] else [c] + Repeat(c, k - 1)
  }

  /**
   * `s.padStart(target, fill)` with a one-character fill string: when `s` is
   * shorter than `target`, fill characters are put in front of it until it is
   * `target` long; otherwise `s` is returned as it is. The result is never
   * shorter than `s`, is exactly `max(target, |s|)` long, ends with `s`, and
   * holds only fill characters before it.
   */
  function PadStart(s: string, target: nat, fill: char): (r: string)
    ensures |r| == if |s| >= target then |s| else target
    ensures r[|r| - |s|..] == s
    ensures forall i :: 0 <= i < |r| - |s| ==> r[i] == fill
  {
    if |s| >= target then s else Repeat(fill, target - |s|) + s
  }

  lemma {:induction false} ParseZeros(k: nat)
    ensures AllDigits(Repeat('0', k)) && ParseDecimal(Repeat('0', k)) == 0
  {
    if k > 0 {
      var z := Repeat('0', k);
      assert z[..|z| - 1] == Repeat('0', k - 1);
      ParseZeros(k - 1);
    }
  }

  /** Padding a numeral with zeros keeps it a numeral and keeps its value. */
  lemma PadStartKeepsValue(s: string, target: nat)
    requires AllDigits(s)
    ensures AllDigits(PadStart(s, target, '0'))
    ensures ParseDecimal(PadStart(s, target, '0')) == ParseDecimal(s)
  {
    if |s| < target {
      ParseZeros(target - |s|);
      ParseDecimalAppend(Repeat('0', target - |s|), s);
    }
  }

  // ---------------------------------------------------------------------------
  // Splitting a time into minutes, seconds and milliseconds
  // ---------------------------------------------------------------------------

  datatype TimeParts = TimeParts(minutes: nat, seconds: nat, millis: nat)

  /** Seconds and milliseconds are in range; minutes are unbounded. */
  predicate InRange(p: TimeParts) {
    p.seconds < 60 && p.millis < 1000
  }

  function Recombine(p: TimeParts): nat {
    p.minutes * 60000 + p.seconds * 1000 + p.millis
  }

  /**
   * The three fields `formatTime` computes: minutes `time / 60000` (not taken
   * modulo 60), seconds `(time / 1000) % 60`, milliseconds `time % 1000`.
   * The seconds and milliseconds are in range and the fields add back up to
   * the time.
   */
  function Decompose(t: nat): (p: TimeParts)
    ensures InRange(p)
    ensures Recombine(p) == t
  {
    var millis := t % 1000;
    var seconds := (t / 1000) % 60;
    var minutes := t / 60000;
    DecomposeRecombines(t);
    TimeParts(minutes, seconds, millis)
  }

  lemma DecomposeRecombines(t: nat)
    ensures (t / 60000) * 60000 + ((t / 1000) % 60) * 1000 + t % 1000 == t
  {
    var q, r := t / 1000, t % 1000;
    var m, s := q / 60, q % 60;
    assert t == 60000 * m + (1000 * s + r);
    assert t / 60000 == m;
  }

  /** The in-range split of a time is unique: it is the one `Decompose` gives. */
  lemma DecomposeUnique(t: nat, p: TimeParts)
    requires InRange(p) && Recombine(p) == t
    ensures Decompose(t) == p
  {
    var below := p.seconds * 1000 + p.millis;
    assert 0 <= below < 60000;
    assert t == p.minutes * 60000 + below;
    assert t / 60000 == p.minutes;
    assert t == (p.minutes * 60 + p.seconds) * 1000 + p.millis;
    assert t % 1000 == p.millis && t / 1000 == p.minutes * 60 + p.seconds;
    assert (t / 1000) % 60 == p.seconds;
  }

  lemma RecombineDecompose(p: TimeParts)
    requires InRange(p)
    ensures Decompose(Recombine(p)) == p
  {
    DecomposeUnique(Recombine(p), p);
  }

  // ---------------------------------------------------------------------------
  // formatTime and its parser
  // ---------------------------------------------------------------------------

  /** `formatTime(time)`: minutes padded to two digits, ':', seconds padded to two, '.', milliseconds padded to three. */
  function FormatTime(t: nat): string {
    var millis := t % 1000;
    var seconds := (t / 1000) % 60;
    var minutes := t / 60000;
    PadStart(ToDecimal(minutes), 2, '0') + ":" + PadStart(ToDecimal(seconds), 2, '0') + "."
      + PadStart(ToDecimal(millis), 3, '0')
  }

  /** The shape `\d{2,}:\d{2}\.\d{3}`. */
  predicate WellShaped(s: string) {
    |s| >= 9 && s[|s| - 7] == ':' && s[|s| - 4] == '.'
    && AllDigits(s[..|s| - 7]) && AllDigits(s[|s| - 6..|s| - 4]) && AllDigits(s[|s| - 3..])
  }

  /** Reads the three numerals back out of a string of the shape `\d{2,}:\d{2}\.\d{3}`. */
  function ParseTime(s: string): Option<TimeParts> {
    if WellShaped(s) then
      Some(TimeParts(ParseDecimal(s[..|s| - 7]), ParseDecimal(s[|s| - 6..|s| - 4]), ParseDecimal(s[|s| - 3..])))
    else None
  }

  /** The three pieces of `x + y + z` are found back at their offsets. */
  lemma ConcatPieces(x: string, y: string, z: string)
    ensures (x + y + z)[..|x|] == x
    ensures (x + y + z)[|x|..|x| + |y|] == y
    ensures (x + y + z)[|x| + |y|..] == z
  {
    var f := x + y + z;
    assert forall i :: 0 <= i < |x| ==> f[i] == x[i];
    assert forall i :: 0 <= i < |y| ==> f[|x| + i] == y[i];
    assert forall i :: 0 <= i < |z| ==> f[|x| + |y| + i] == z[i];
  }

  /** Where the three fields and the two separators sit in `m + ":" + s + "." + l`. */
  lemma FieldOffsets(m: string, s: string, l: string)
    requires |m| >= 2 && |s| == 2 && |l| == 3
    ensures var f := m + ":" + s + "." + l; var n := |f|;
      && n == |m| + 7
      && f[..n - 7] == m && f[n - 6..n - 4] == s && f[n - 3..] == l
      && f[n - 7] == ':' && f[n - 4] == '.'
  {
    var mid := ":" + s + ".";
    var f := m + mid + l;
    assert f == m + ":" + s + "." + l;
    var n := |f|;
    assert |mid| == 4 && n == |m| + 7;
    ConcatPieces(m, mid, l);
    ConcatPieces(":", s, ".");
    assert f[n - 6..n - 4] == mid[1..3] == s;
    assert f[n - 7] == mid[0] == ':';
    assert f[n - 4] == mid[3] == '.';
  }

  lemma ParseTimeOfFields(m: string, s: string, l: string)
    requires AllDigits(m) && AllDigits(s) && AllDigits(l)
    requires |m| >= 2 && |s| == 2 && |l| == 3
    ensures WellShaped(m + ":" + s + "." + l)
    ensures ParseTime(m + ":" + s + "." + l) == Some(TimeParts(ParseDecimal(m), ParseDecimal(s), ParseDecimal(l)))
  {
    var f := m + ":" + s + "." + l;
    var n := |f|;
    assert n == |m| + 7;
    assert f[..n - 7] == m && f[n - 6..n - 4] == s && f[n - 3..] == l && f[n - 7] == ':' && f[n - 4] == '.' by {
      FieldOffsets(m, s, l);
    }
    assert WellShaped(f);
    assert ParseTime(f) == Some(TimeParts(ParseDecimal(f[..n - 7]), ParseDecimal(f[n - 6..n - 4]), ParseDecimal(f[n - 3..])));
  }

  /**
   * The fields of `formatTime(t)`: the minutes field is `max(2, digits of the
   * minutes)` long, the seconds field exactly 2 and the milliseconds field
   * exactly 3, each a numeral whose value is the corresponding part of `t`.
   */
  lemma FormatTimeFields(t: nat)
    ensures var p := Decompose(t);
      var m := PadStart(ToDecimal(p.minutes), 2, '0');
      var s := PadStart(ToDecimal(p.seconds), 2, '0');
      var l := PadStart(ToDecimal(p.millis), 3, '0');
      && FormatTime(t) == m + ":" + s + "." + l
      && |m| == (if |ToDecimal(p.minutes)| >= 2 then |ToDecimal(p.minutes)| else 2)
      && |s| == 2 && |l| == 3
      && AllDigits(m) && AllDigits(s) && AllDigits(l)
      && ParseDecimal(m) == p.minutes && ParseDecimal(s) == p.seconds && ParseDecimal(l) == p.millis
  {
    var p := Decompose(t);
    DecimalLength(p.seconds, 2);
    DecimalLength(p.millis, 3);
    PadStartKeepsValue(ToDecimal(p.minutes), 2);
    PadStartKeepsValue(ToDecimal(p.seconds), 2);
    PadStartKeepsValue(ToDecimal(p.millis), 3);
    ParseToDecimal(p.minutes);
    ParseToDecimal(p.seconds);
    ParseToDecimal(p.millis);
  }

  /** Every output of `formatTime` has the shape `\d{2,}:\d{2}\.\d{3}`, nine characters up to 99 minutes. */
  lemma FormatTimeShape(t: nat)
    ensures WellShaped(FormatTime(t))
    ensures |FormatTime(t)| == 7 + (if |ToDecimal(t / 60000)| >= 2 then |ToDecimal(t / 60000)| else 2)
    ensures |FormatTime(t)| == 9 <==> t < 6000000
  {
    var p := Decompose(t);
    FormatTimeFields(t);
    ParseTimeOfFields(PadStart(ToDecimal(p.minutes), 2, '0'), PadStart(ToDecimal(p.seconds), 2, '0'),
                      PadStart(ToDecimal(p.millis), 3, '0'));
    DecimalLength(p.minutes, 2);
    assert t < 6000000 <==> p.minutes < 100;
  }

  /** Parsing the three fields of `formatTime(t)` back and recombining them gives `t`. */
  lemma FormatTimeRoundTrip(t: nat)
    ensures ParseTime(FormatTime(t)) == Some(Decompose(t))
    ensures Recombine(ParseTime(FormatTime(t)).value) == t
  {
    var p := Decompose(t);
    FormatTimeFields(t);
    ParseTimeOfFields(PadStart(ToDecimal(p.minutes), 2, '0'), PadStart(ToDecimal(p.seconds), 2, '0'),
                      PadStart(ToDecimal(p.millis), 3, '0'));
  }

  /** Distinct times are displayed differently. */
  lemma FormatTimeInjective(a: nat, b: nat)
    requires FormatTime(a) == FormatTime(b)
    ensures a == b
  {
    FormatTimeRoundTrip(a);
    FormatTimeRoundTrip(b);
  }

  /** Zero is displayed as `00:00.000`. */
  lemma FormatTimeZero()
    ensures FormatTime(0) == "00:00.000"
  {
    assert 0 % 1000 == 0 && (0 / 1000) % 60 == 0 && 0 / 60000 == 0;
    assert ToDecimal(0) == "0";
  }

  /** 61234 ms is one minute, one second and 234 ms. */
  lemma FormatTimeOneMinuteOneSecond()
    ensures FormatTime(61234) == "01:01.234"
  {
    assert 61234 % 1000 == 234 && (61234 / 1000) % 60 == 1 && 61234 / 60000 == 1;
    assert ToDecimal(234) == "234" by {
      assert ToDecimal(23) == "23";
    }
  }

  /** An hour is displayed as sixty minutes: the minutes are not reduced modulo 60. */
  lemma FormatTimeOneHour()
    ensures FormatTime(3600000) == "60:00.000"
  {
    assert 3600000 % 1000 == 0 && (3600000 / 1000) % 60 == 0 && 3600000 / 60000 == 60;
    assert ToDecimal(60) == "60";
  }
}
