/**
 * Times of day as the booking code stores them: zero-padded "HH:MM" strings.
 * Every place that does arithmetic on a time splits it on ':' and computes
 * `hours * 60 + minutes`; every place that builds one pads both fields to two
 * digits. Malformed strings (which the code would turn into NaN) are outside
 * the type.
 */
module Times {
  import Text
  import Arith

  predicate IsDigit(c: char) {
    '0' <= c <= '9'
  }

  function DigitValue(c: char): (n: nat)
    requires IsDigit(c)
    ensures n < 10
  {
    c as int - '0' as int
  }

  function Digit(n: nat): (c: char)
    requires n < 10
    ensures IsDigit(c) && DigitValue(c) == n
  {
    (n + '0' as int) as char
  }

  /** Two hour digits, a colon, two minute digits with the minute below 60. */
  predicate IsTime(s: string) {
    && |s| == 5
    && IsDigit(s[0]) && IsDigit(s[1])
    && s[2] == ':'
    && '0' <= s[3] <= '5' && IsDigit(s[4])
  }

  type TimeStr = s: string | IsTime(s) witness "00:00"

  function Hour(t: TimeStr): (h: nat)
    ensures h < 100
  {
    DigitValue(t[0]) * 10 + DigitValue(t[1])
  }

  function Minute(t: TimeStr): (m: nat)
    ensures m < 60
  {
    DigitValue(t[3]) * 10 + DigitValue(t[4])
  }

  /** `timeToMinutes` / `toMinutes`: minutes since midnight. */
  function Minutes(t: TimeStr): (n: nat)
    ensures n < 6000
  {
    Hour(t) * 60 + Minute(t)
  }

  /** `n.toString().padStart(2, '0')` for a value below 100. */
  function Pad2(n: nat): (s: string)
    requires n < 100
    ensures |s| == 2 && IsDigit(s[0]) && IsDigit(s[1])
    ensures DigitValue(s[0]) * 10 + DigitValue(s[1]) == n
  {
    [Digit(n / 10), Digit(n % 10)]
  }

  /** `n.toString()` for a value below 100: no leading zero. */
  function Unpadded(n: nat): (s: string)
    requires n < 100
    ensures 1 <= |s| <= 2 && (|s| == 1 <==> n < 10)
    ensures |s| == 1 ==> s[0] == Digit(n)
    ensures |s| == 2 ==> s == Pad2(n)
  {
    if n < 10 then [Digit(n)] else Pad2(n)
  }

  /** The template `${pad(hours)}:${pad(minutes)}` that builds every time string. */
  function Clock(h: nat, m: nat): (t: TimeStr)
    requires h < 100 && m < 60
    ensures Hour(t) == h && Minute(t) == m
  {
    var s := Pad2(h) + ":" + Pad2(m);
    assert s[3] == Digit(m / 10);
    s
  }

  /** The inverse of `Minutes` on the values the type can express. */
  function FromMinutes(n: nat): (t: TimeStr)
    requires n < 6000
    ensures Minutes(t) == n
  {
    Clock(n / 60, n % 60)
  }

  lemma DigitOfValue(c: char)
    requires IsDigit(c)
    ensures Digit(DigitValue(c)) == c
  {
  }

  /** Padding a two-digit value writes out its two digits. */
  lemma Pad2Digits(a: nat, b: nat)
    requires a < 10 && b < 10
    ensures Pad2(a * 10 + b) == [Digit(a), Digit(b)]
  {
    Arith.DivModUnique(a * 10 + b, 10, a, b);
  }

  /** Formatting the parsed fields of a time gives back the same string. */
  lemma ClockOfFields(t: TimeStr)
    ensures Clock(Hour(t), Minute(t)) == t
  {
    Pad2Digits(DigitValue(t[0]), DigitValue(t[1]));
    Pad2Digits(DigitValue(t[3]), DigitValue(t[4]));
    DigitOfValue(t[0]);
    DigitOfValue(t[1]);
    DigitOfValue(t[3]);
    DigitOfValue(t[4]);
    var c := Clock(Hour(t), Minute(t));
    assert c[0] == t[0] && c[1] == t[1] && c[2] == t[2] && c[3] == t[3] && c[4] == t[4];
  }

  /** A time string is determined by its minute value. */
  lemma MinutesInjective(a: TimeStr, b: TimeStr)
    ensures Minutes(a) == Minutes(b) <==> a == b
  {
    if Minutes(a) == Minutes(b) {
      Arith.HourMinuteUnique(Hour(a), Minute(a), Hour(b), Minute(b));
      ClockOfFields(a);
      ClockOfFields(b);
    }
  }

  /** `timeToMinutes` is strictly increasing in (hour, minute) order. */
  lemma MinutesOrder(a: TimeStr, b: TimeStr)
    ensures Minutes(a) < Minutes(b) <==> (Hour(a) < Hour(b) || (Hour(a) == Hour(b) && Minute(a) < Minute(b)))
  {
  }

  /**
   * Comparing two time strings character by character (as `localeCompare`
   * does) orders them exactly as their minute values.
   */
  lemma LexLessIsEarlier(a: TimeStr, b: TimeStr)
    ensures Text.LexLess(a, b) <==> Minutes(a) < Minutes(b)
  {
    var a1, b1 := a[1..], b[1..];
    var a2, b2 := a1[1..], b1[1..];
    var a3, b3 := a2[1..], b2[1..];
    var a4, b4 := a3[1..], b3[1..];
    assert Text.LexLess(a, b) == if a[0] != b[0] then a[0] < b[0] else Text.LexLess(a1, b1);
    assert Text.LexLess(a1, b1) == if a[1] != b[1] then a[1] < b[1] else Text.LexLess(a2, b2);
    assert Text.LexLess(a2, b2) == Text.LexLess(a3, b3);
    assert Text.LexLess(a3, b3) == if a[3] != b[3] then a[3] < b[3] else Text.LexLess(a4, b4);
    assert Text.LexLess(a4, b4) == (a[4] < b[4]);
  }

  /** A list of times in strictly increasing order (hence without repeats). */
  predicate Ascending(ts: seq<TimeStr>) {
    forall i, j :: 0 <= i < j < |ts| ==> Minutes(ts[i]) < Minutes(ts[j])
  }

  /** A time before every time of an ascending list, put in front of it, keeps it ascending. */
  lemma AscendingCons(x: TimeStr, b: seq<TimeStr>)
    requires Ascending(b)
    requires forall y :: y in b ==> Minutes(x) < Minutes(y)
    ensures Ascending([x] + b)
  {
    forall i, j | 0 <= i < j < |[x] + b|
      ensures Minutes(([x] + b)[i]) < Minutes(([x] + b)[j])
    {
      assert ([x] + b)[j] == b[j - 1];
      if i > 0 {
        assert ([x] + b)[i] == b[i - 1];
      } else {
        assert b[j - 1] in b;
      }
    }
  }

  /** A time after every time of an ascending list, appended to it, keeps it ascending. */
  lemma AscendingSnoc(a: seq<TimeStr>, y: TimeStr)
    requires Ascending(a)
    requires forall x :: x in a ==> Minutes(x) < Minutes(y)
    ensures Ascending(a + [y])
  {
    forall i, j | 0 <= i < j < |a + [y]|
      ensures Minutes((a + [y])[i]) < Minutes((a + [y])[j])
    {
      assert (a + [y])[i] == a[i];
      if j == |a| {
        assert a[i] in a;
      }
    }
  }

  /** Two ascending lists, every time of the first before every time of the second, join into one. */
  lemma AscendingConcat(a: seq<TimeStr>, b: seq<TimeStr>)
    requires Ascending(a) && Ascending(b)
    requires forall x, y :: x in a && y in b ==> Minutes(x) < Minutes(y)
    ensures Ascending(a + b)
  {
    forall i, j | 0 <= i < j < |a + b|
      ensures Minutes((a + b)[i]) < Minutes((a + b)[j])
    {
      if j < |a| {
      } else if i >= |a| {
        assert (a + b)[i] == b[i - |a|] && (a + b)[j] == b[j - |a|];
      } else {
        assert (a + b)[i] in a && (a + b)[j] in b;
      }
    }
  }
}
