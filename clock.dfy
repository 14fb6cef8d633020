/** The two values the timer derives from its state on every redraw: the
    zero-padded "MM:SS" text and the progress percentage. Both are computed
    here exactly as JavaScript computes them for integer inputs, except that
    the percentage is an exact real instead of a floating-point number. */
module Clock {

  datatype Option<T> = None | Some(value: T)

  predicate IsDigit(c: char) {
    '0' <= c <= '9'
  }

  predicate AllDigits(s: string) {
    forall i :: 0 <= i < |s| ==> IsDigit(s[i])
  }

  /** The character of the decimal digit `d`. */
  function DigitChar(d: int): (c: char)
    requires 0 <= d < 10
    ensures IsDigit(c) && c as int - '0' as int == d
  {
    ('0' as int + d) as char
  }

  /** The numeric value of a digit character. */
  function DigitValue(c: char): (d: int)
    requires IsDigit(c)
    ensures 0 <= d < 10 && DigitChar(d) == c
  {
    c as int - '0' as int
  }

  /** The decimal digits of `n`, most significant first, without leading
      zeros: what `String(n)` gives for a non-negative integer. */
  function NatDigits(n: nat): (s: string)
    ensures 1 <= |s| && AllDigits(s)
    ensures |s| > 1 ==> s[0] != '0'
    ensures n < 10 <==> |s| == 1
    ensures n < 100 ==> |s| <= 2
    decreases n
  {
    if n < 10 then [DigitChar(n)] else NatDigits(n / 10) + [DigitChar(n % 10)]
  }

  /** `String(n)` for an integer `n`: a minus sign before the digits of a negative number. */
  function IntString(n: int): (r: string)
    ensures 1 <= |r| && (r[0] == '-' <==> n < 0)
    ensures n >= 0 ==> AllDigits(r)
    ensures n < 0 ==> AllDigits(r[1..])
  {
    if n < 0 then "-" + NatDigits(-n) else NatDigits(n)
  }

  /** `s.padStart(2, '0')`: `s` preceded by as many '0' characters as make it two long. */
  function PadStart2(s: string): (r: string)
    ensures |r| == if |s| < 2 then 2 else |s|
  {
    if |s| < 2 then seq(2 - |s|, _ => '0') + s else s
  }

  /** Padding keeps the string as its suffix and puts only '0's before it. */
  lemma PadStart2Pads(s: string)
    ensures var r := PadStart2(s);
      r[|r| - |s|..] == s && forall i :: 0 <= i < |r| - |s| ==> r[i] == '0'
  {
  }

  /** `Math.floor(t / 60)`. For a positive divisor Dafny's `/` already rounds
      towards minus infinity, as `Math.floor` does. */
  function Minutes(t: int): (m: int)
    ensures m * 60 <= t < m * 60 + 60
  {
    t / 60
  }

  /** `t % 60` in JavaScript, whose remainder takes the sign of the dividend
      (unlike Dafny's `%`, which is never negative). */
  function Seconds(t: int): (r: int)
    ensures -60 < r < 60 && (t - r) % 60 == 0
    ensures t >= 0 ==> r >= 0
    ensures t < 0 ==> r <= 0
  {
    if t >= 0 then t % 60 else -((-t) % 60)
  }

  /** The text of the timer face for `t` seconds left. */
  function Display(t: int): (d: string)
    ensures |d| >= 5
    ensures t >= 0 ==> d[|d| - 3] == ':'
  {
    PadStart2(IntString(Minutes(t))) + ":" + PadStart2(IntString(Seconds(t)))
  }

  /** For a non-negative time the minutes and seconds shown make up the time
      exactly, and the seconds are a proper remainder. */
  lemma MinutesSeconds(t: int)
    requires t >= 0
    ensures Minutes(t) * 60 + Seconds(t) == t
    ensures 0 <= Seconds(t) < 60 && 0 <= Minutes(t)
  {
  }

  /** For a negative time the two parts disagree: `Math.floor` rounds the
      minutes down while `%` keeps the seconds negative, so the parts add up
      to a full minute less than the time unless it is a whole minute. */
  lemma MinutesSecondsNegative(t: int)
    requires t < 0
    ensures -60 < Seconds(t) <= 0
    ensures Minutes(t) * 60 + Seconds(t) == if t % 60 == 0 then t else t - 60
  {
  }

  /** The value of a string of decimal digits (0 for the empty string). */
  function DigitsValue(s: string): nat
    requires AllDigits(s)
  {
    if s == [] then 0 else DigitsValue(s[..|s| - 1]) * 10 + DigitValue(s[|s| - 1])
  }

  /** Reads a timer face back: the digits before the ':' three characters
      from the end are minutes, the two digits after it seconds. */
  function ParseDisplay(s: string): Option<int> {
    if |s| >= 4 && s[|s| - 3] == ':' && AllDigits(s[..|s| - 3]) && AllDigits(s[|s| - 2..])
    then Some(DigitsValue(s[..|s| - 3]) * 60 + DigitsValue(s[|s| - 2..]))
    else None
  }

  /** The digits of `n` read back as `n`. */
  lemma {:induction false} NatDigitsValue(n: nat)
    ensures DigitsValue(NatDigits(n)) == n
    decreases n
  {
    var s := NatDigits(n);
    if n >= 10 {
      assert s[..|s| - 1] == NatDigits(n / 10);
      NatDigitsValue(n / 10);
    }
  }

  /** The digits of `String(n)` spell |n|: all of it for n >= 0, and what
      follows the minus sign for n < 0. */
  lemma IntStringValue(n: int)
    ensures n >= 0 ==> DigitsValue(IntString(n)) == n
    ensures n < 0 ==> DigitsValue(IntString(n)[1..]) == -n
  {
    if n >= 0 {
      NatDigitsValue(n);
    } else {
      assert IntString(n)[1..] == NatDigits(-n);
      NatDigitsValue(-n);
    }
  }

  /** Zero-padding a non-empty digit string keeps it a digit string of the same value. */
  lemma PadStart2Value(s: string)
    requires |s| >= 1 && AllDigits(s)
    ensures AllDigits(PadStart2(s)) && DigitsValue(PadStart2(s)) == DigitsValue(s)
  {
  }

  /** The face of a non-negative time: the padded digits of the minutes, a
      colon, and the padded digits of the seconds. */
  lemma DisplayJoin(t: int)
    requires t >= 0
    ensures Display(t) == PadStart2(NatDigits(Minutes(t))) + ":" + PadStart2(NatDigits(Seconds(t)))
  {
  }

  /** The padded decimal text of `n` is a digit string, at least two long,
      exactly two for `n < 100`, and its value is `n`. */
  lemma PaddedDigits(n: nat)
    ensures var p := PadStart2(NatDigits(n));
      AllDigits(p) && DigitsValue(p) == n && |p| >= 2 && (n < 100 ==> |p| == 2)
  {
    PadStart2Value(NatDigits(n));
    NatDigitsValue(n);
  }

  /** Reading two minute digits or more, a colon and two second digits. */
  lemma ParseJoined(mm: string, ss: string, m: int, sec: int)
    requires AllDigits(mm) && AllDigits(ss) && |mm| >= 2 && |ss| == 2
    requires DigitsValue(mm) == m && DigitsValue(ss) == sec
    ensures ParseDisplay(mm + ":" + ss) == Some(m * 60 + sec)
  {
    var s := mm + ":" + ss;
    assert s[..|s| - 3] == mm;
    assert s[|s| - 2..] == ss;
  }

  /** Reading the face of a non-negative time gives the time back. */
  lemma DisplayRoundTrip(t: int)
    requires t >= 0
    ensures ParseDisplay(Display(t)) == Some(t)
  {
    MinutesSeconds(t);
    var m, sec := Minutes(t), Seconds(t);
    PaddedDigits(m);
    PaddedDigits(sec);
    ParseJoined(PadStart2(NatDigits(m)), PadStart2(NatDigits(sec)), m, sec);
    DisplayJoin(t);
  }

  /** Every time from zero up to 99:59 shows as exactly five characters,
      two digits, a colon and two digits. */
  lemma DisplayShape(t: int)
    requires 0 <= t < 6000
    ensures var s := Display(t); |s| == 5 && s[2] == ':' && AllDigits(s[..2]) && AllDigits(s[3..])
  {
  }

  /** Two non-negative times never show the same face. */
  lemma DisplayInjective(t1: int, t2: int)
    requires t1 >= 0 && t2 >= 0
    requires Display(t1) == Display(t2)
    ensures t1 == t2
  {
    DisplayRoundTrip(t1);
    DisplayRoundTrip(t2);
  }

  /** Faces of the three full sessions. */
  lemma DisplayFullSessions()
    ensures Display(1500) == "25:00" && Display(900) == "15:00" && Display(300) == "05:00"
  {
  }

  /** Face of a focus session one second after it started. */
  lemma DisplayOneSecondIn()
    ensures Display(1499) == "24:59"
  {
  }

  /** Face of an expired session, and of the second after it when the
      countdown is started again without a reset. */
  lemma DisplayExpired()
    ensures Display(0) == "00:00" && Display(-1) == "-1:-1"
  {
  }

  /** `(timeLeft / totalTime) * 100`, as an exact real. */
  function Percent(t: int, total: int): (p: real)
    requires total > 0
    ensures p == 100.0 <==> t == total
    ensures p == 0.0 <==> t == 0
    ensures 0 <= t <= total <==> 0.0 <= p <= 100.0
  {
    (t as real / total as real) * 100.0
  }

  /** More time left means a larger percentage, for the same total. */
  lemma PercentMonotonic(t1: int, t2: int, total: int)
    requires total > 0 && t1 < t2
    ensures Percent(t1, total) < Percent(t2, total)
  {
    var a, b, c := t1 as real, t2 as real, total as real;
    assert b / c - a / c == (b - a) / c;
    assert (b - a) / c > 0.0;
  }
}
