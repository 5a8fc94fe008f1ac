/**
 * Wall-clock times as the event controller and validators see them: plain
 * strings, compared with JavaScript's string `<` (code-unit lexicographic
 * order), and accepted by the pattern `^([0-1]?[0-9]|2[0-3]):[0-5][0-9]$`.
 */
module Times {

  /** JavaScript `a < b` on strings: lexicographic order, a proper prefix first. */
  function Less(a: string, b: string): bool
    decreases |a|
  {
    if |b| == 0 then false
    else if |a| == 0 then true
    else if a[0] != b[0] then a[0] < b[0]
    else Less(a[1..], b[1..])
  }

  lemma {:induction false} LessIrreflexive(a: string)
    ensures !Less(a, a)
  {
    if |a| > 0 {
      LessIrreflexive(a[1..]);
    }
  }

  lemma {:induction false} LessTransitive(a: string, b: string, c: string)
    requires Less(a, b) && Less(b, c)
    ensures Less(a, c)
  {
    if |a| > 0 && a[0] == b[0] && b[0] == c[0] {
      LessTransitive(a[1..], b[1..], c[1..]);
    }
  }

  /** Any two different strings are ordered one way or the other. */
  lemma {:induction false} LessTotal(a: string, b: string)
    requires a != b
    ensures Less(a, b) || Less(b, a)
  {
    if |a| > 0 && |b| > 0 && a[0] == b[0] {
      assert a == [a[0]] + a[1..] && b == [b[0]] + b[1..];
      LessTotal(a[1..], b[1..]);
    }
  }

  lemma LessAsymmetric(a: string, b: string)
    requires Less(a, b)
    ensures !Less(b, a)
  {
    if Less(b, a) {
      LessTransitive(a, b, a);
      LessIrreflexive(a);
    }
  }

  predicate IsDigit(c: char) { '0' <= c <= '9' }

  function DigitValue(c: char): nat
    requires IsDigit(c)
  {
    c as int - '0' as int
  }

  function Digit(n: nat): (c: char)
    requires n < 10
    ensures IsDigit(c) && DigitValue(c) == n
  {
    ('0' as int + n) as char
  }

  /** The hour alternatives `[0-1][0-9]` and `2[0-3]` of the two-character form. */
  predicate IsTwoDigitHour(c0: char, c1: char)
  {
    ('0' <= c0 <= '1' && IsDigit(c1)) || (c0 == '2' && '0' <= c1 <= '3')
  }

  /** The tail `:[0-5][0-9]`. */
  predicate IsMinutePart(t: string)
  {
    |t| == 3 && t[0] == ':' && '0' <= t[1] <= '5' && IsDigit(t[2])
  }

  /**
   * The time pattern shared by the request validator and the Event schema:
   * either one hour digit (`[0-1]?` absent) or a two-character hour, then the
   * minutes.
   */
  predicate IsTime(s: string)
  {
    || (|s| == 4 && IsDigit(s[0]) && IsMinutePart(s[1..]))
    || (|s| == 5 && IsTwoDigitHour(s[0], s[1]) && IsMinutePart(s[2..]))
  }

  function Hour(s: string): nat
    requires IsTime(s)
  {
    if |s| == 4 then DigitValue(s[0]) else 10 * DigitValue(s[0]) + DigitValue(s[1])
  }

  function Minute(s: string): nat
    requires IsTime(s)
  {
    10 * DigitValue(s[|s| - 2]) + DigitValue(s[|s| - 1])
  }

  /** The minute of the day a time denotes. */
  function ClockMinutes(s: string): (m: nat)
    requires IsTime(s)
    ensures m < 24 * 60
  {
    Hour(s) * 60 + Minute(s)
  }

  /** The zero-padded `HH:mm` rendering of an hour and a minute. */
  function Padded(h: nat, m: nat): (s: string)
    requires h < 24 && m < 60
    ensures |s| == 5
  {
    [Digit(h / 10), Digit(h % 10), ':', Digit(m / 10), Digit(m % 10)]
  }

  /** The one-digit-hour rendering `H:mm` that the pattern also admits. */
  function Short(h: nat, m: nat): (s: string)
    requires h < 10 && m < 60
    ensures |s| == 4
  {
    [Digit(h), ':', Digit(m / 10), Digit(m % 10)]
  }

  /** Every hour and minute of the day is accepted in its padded form, and in its short form below ten o'clock. */
  lemma FormattedTimesAccepted(h: nat, m: nat)
    requires h < 24 && m < 60
    ensures IsTime(Padded(h, m)) && ClockMinutes(Padded(h, m)) == h * 60 + m
    ensures h < 10 ==> IsTime(Short(h, m)) && ClockMinutes(Short(h, m)) == h * 60 + m
  {
    var p := Padded(h, m);
    assert p[2..] == [':', Digit(m / 10), Digit(m % 10)];
    if h < 10 {
      var q := Short(h, m);
      assert q[1..] == [':', Digit(m / 10), Digit(m % 10)];
    }
  }

  /** Conversely, an accepted time is one of those renderings of a real hour and minute. */
  lemma AcceptedTimesAreFormatted(s: string)
    requires IsTime(s)
    ensures Hour(s) < 24 && Minute(s) < 60
    ensures || s == Padded(Hour(s), Minute(s))
            || (|s| == 4 && Hour(s) < 10 && s == Short(Hour(s), Minute(s)))
  {
    var h, m := Hour(s), Minute(s);
    if |s| == 4 {
      var q := Short(h, m);
      assert q[0] == s[0] && q[1] == s[1] && q[2] == s[2] && q[3] == s[3];
      assert s == q;
    } else {
      var p := Padded(h, m);
      assert p[0] == s[0] && p[1] == s[1] && p[2] == s[2] && p[3] == s[3] && p[4] == s[4];
      assert s == p;
    }
  }

  lemma LessStep(a: string, b: string)
    requires |a| > 0 && |b| > 0
    ensures Less(a, b) == (a[0] < b[0] || (a[0] == b[0] && Less(a[1..], b[1..])))
  {
  }

  /**
   * For zero-padded five-character times the string order the controller uses
   * is exactly the order of the minutes of the day.
   */
  lemma PaddedOrderIsClockOrder(a: string, b: string)
    requires IsTime(a) && IsTime(b) && |a| == 5 && |b| == 5
    ensures Less(a, b) <==> ClockMinutes(a) < ClockMinutes(b)
  {
    LessStep(a, b);
    LessStep(a[1..], b[1..]);
    LessStep(a[2..], b[2..]);
    LessStep(a[3..], b[3..]);
    LessStep(a[4..], b[4..]);
    assert a[1..][1..] == a[2..] && b[1..][1..] == b[2..];
    assert a[2..][1..] == a[3..] && b[2..][1..] == b[3..];
    assert a[3..][1..] == a[4..] && b[3..][1..] == b[4..];
    assert a[4..][1..] == [] && b[4..][1..] == [];
  }

  /**
   * The pattern also admits one-digit hours, and then string order is not
   * clock order: "9:05" is earlier in the day than "10:00" but sorts after it.
   */
  lemma ShortHourBreaksClockOrder()
    ensures IsTime("9:05") && IsTime("10:00")
    ensures ClockMinutes("9:05") < ClockMinutes("10:00")
    ensures Less("10:00", "9:05") && !Less("9:05", "10:00")
  {
  }
}
