/**
 The recording timer text of `startTimer`: the milliseconds since the start
 become whole seconds, then minutes and seconds, each written in decimal and
 padded to two digits with a leading zero, joined by a colon.
 */
module Timer {
  import opened Text

  predicate AllDigits(s: string) {
    forall k :: 0 <= k < |s| ==> IsDigit(s[k])
  }

  function DigitChar(d: nat): (c: char)
    requires d < 10
    ensures IsDigit(c) && c as int - '0' as int == d
  {
    ('0' as int + d) as char
  }

  /** The number a string of decimal digits denotes; the empty string denotes 0. */
  function DecimalValue(s: string): (v: nat)
    requires AllDigits(s)
    decreases |s|
  {
    if s == [] then 0
    else DecimalValue(s[..|s| - 1]) * 10 + (s[|s| - 1] as int - '0' as int)
  }

  /** `String(n)` for a whole number: its decimal digits, without leading zeros. */
  function DecimalString(n: nat): (r: string)
    ensures r != [] && AllDigits(r)
    ensures |r| > 1 ==> r[0] != '0'
    decreases n
  {
    if n < 10 then [DigitChar(n)] else DecimalString(n / 10) + [DigitChar(n % 10)]
  }

  /** Reading back the digits `DecimalString` writes gives the number. */
  lemma {:induction false} DecimalRoundTrip(n: nat)
    ensures DecimalValue(DecimalString(n)) == n
    decreases n
  {
    var s := DecimalString(n);
    if n >= 10 {
      DecimalRoundTrip(n / 10);
      assert s[..|s| - 1] == DecimalString(n / 10);
    } else {
      assert s[..|s| - 1] == [];
    }
  }

  /** A leading zero does not change the value. */
  lemma {:induction false} LeadingZero(s: string)
    requires AllDigits(s)
    ensures AllDigits("0" + s) && DecimalValue("0" + s) == DecimalValue(s)
    decreases |s|
  {
    var z := "0" + s;
    if s == [] {
      assert z[..|z| - 1] == [];
    } else {
      LeadingZero(s[..|s| - 1]);
      assert z[..|z| - 1] == "0" + s[..|s| - 1];
    }
  }

  /**
   `padStart(2, '0')`: text shorter than two characters gets zeros in front
   up to two characters; longer text is left alone.
   */
  function PadStart2(s: string): (r: string)
    ensures |r| == if |s| < 2 then 2 else |s|
    ensures r[|r| - |s|..] == s
    ensures forall k :: 0 <= k < |r| - |s| ==> r[k] == '0'
  {
    if |s| >= 2 then s
    else if |s| == 1 then "0" + s
    else "00"
  }

  /** Padding digits with zeros keeps their value. */
  lemma PadKeepsValue(s: string)
    requires AllDigits(s)
    ensures AllDigits(PadStart2(s)) && DecimalValue(PadStart2(s)) == DecimalValue(s)
  {
    if |s| == 1 {
      LeadingZero(s);
    } else if |s| == 0 {
      LeadingZero("0");
      assert "00" == "0" + "0";
    }
  }

  /** The two-digit-or-wider field the timer shows for a count. */
  function Field(n: nat): (r: string)
    ensures |r| >= 2 && AllDigits(r) && DecimalValue(r) == n
    ensures n < 100 ==> |r| == 2
    ensures |r| > 2 ==> r[0] != '0'
  {
    DecimalRoundTrip(n);
    PadKeepsValue(DecimalString(n));
    DecimalStringShort(n);
    PadStart2(DecimalString(n))
  }

  /** Numbers below 100 take at most two digits. */
  lemma DecimalStringShort(n: nat)
    ensures n < 100 ==> |DecimalString(n)| <= 2
  {
  }

  /**
   `r` reads as `minutes:seconds`: decimal minutes in at least two digits
   and with no leading zero beyond two, a colon, and exactly two decimal
   digits of seconds.
   */
  predicate ShowsClock(r: string, minutes: nat, seconds: nat) {
    && |r| >= 5
    && (|r| > 5 ==> r[0] != '0')
    && r[|r| - 3] == ':'
    && AllDigits(r[..|r| - 3]) && DecimalValue(r[..|r| - 3]) == minutes
    && AllDigits(r[|r| - 2..]) && DecimalValue(r[|r| - 2..]) == seconds
  }

  /** Minutes and seconds past the minute, written as the timer writes them. */
  function Clock(minutes: nat, seconds: nat): (r: string)
    requires seconds < 60
    ensures ShowsClock(r, minutes, seconds)
  {
    var m, sec := Field(minutes), Field(seconds);
    ClockParts(m, sec);
    m + ":" + sec
  }

  lemma ClockParts(m: string, sec: string)
    requires |sec| == 2
    ensures var r := m + ":" + sec; r[..|r| - 3] == m && r[|r| - 3] == ':' && r[|r| - 2..] == sec
  {
  }

  /**
   The timer text for `delta` milliseconds: the whole minutes, a colon, and
   the seconds past the minute in exactly two digits.
   */
  function TimerText(delta: nat): (r: string)
    ensures ShowsClock(r, delta / 1000 / 60, delta / 1000 % 60)
  {
    var s := delta / 1000;
    Clock(s / 60, s % 60)
  }

  /** The shown minutes and seconds add up to the whole seconds elapsed. */
  lemma TimerTextElapsed(delta: nat, minutes: nat, seconds: nat)
    requires ShowsClock(TimerText(delta), minutes, seconds)
    ensures minutes * 60 + seconds == delta / 1000
    ensures seconds < 60
  {
    var s := delta / 1000;
    assert s / 60 * 60 + s % 60 == s;
  }

  /**
   There is only one way to show a clock: the minutes and seconds decide
   the text, so `TimerText` is the only text with its ensures.
   */
  lemma ClockUnique(r1: string, r2: string, minutes: nat, seconds: nat)
    requires ShowsClock(r1, minutes, seconds) && ShowsClock(r2, minutes, seconds)
    ensures r1 == r2
  {
    var m1, m2 := r1[..|r1| - 3], r2[..|r2| - 3];
    var s1, s2 := r1[|r1| - 2..], r2[|r2| - 2..];
    FieldUnique(m1, m2);
    DecimalSameLength(s1, s2);
    assert r1 == m1 + ":" + s1;
    assert r2 == m2 + ":" + s2;
  }

  /** The timer text is the one text that shows the elapsed minutes and seconds. */
  lemma TimerTextUnique(delta: nat, r: string)
    requires ShowsClock(r, delta / 1000 / 60, delta / 1000 % 60)
    ensures r == TimerText(delta)
  {
    ClockUnique(r, TimerText(delta), delta / 1000 / 60, delta / 1000 % 60);
  }

  function Pow10(n: nat): (p: nat)
    ensures p >= 1
  {
    if n == 0 then 1 else 10 * Pow10(n - 1)
  }

  lemma {:induction false} Pow10Monotone(i: nat, j: nat)
    requires i <= j
    ensures Pow10(i) <= Pow10(j)
    decreases j
  {
    if i < j {
      Pow10Monotone(i, j - 1);
    }
  }

  /**
   A string of `n` digits denotes less than `10^n`, and at least `10^(n-1)`
   when it does not start with a zero.
   */
  lemma {:induction false} DecimalBounds(s: string)
    requires AllDigits(s)
    ensures DecimalValue(s) < Pow10(|s|)
    ensures s != [] && s[0] != '0' ==> DecimalValue(s) >= Pow10(|s| - 1)
    decreases |s|
  {
    if s != [] {
      var p := s[..|s| - 1];
      DecimalBounds(p);
      if |s| > 1 {
        assert p[0] == s[0];
      }
    }
  }

  /** Digit strings of one length with one value are equal. */
  lemma {:induction false} DecimalSameLength(a: string, b: string)
    requires AllDigits(a) && AllDigits(b) && |a| == |b|
    requires DecimalValue(a) == DecimalValue(b)
    ensures a == b
    decreases |a|
  {
    if a != [] {
      var pa, pb := a[..|a| - 1], b[..|b| - 1];
      var da, db := a[|a| - 1] as int - '0' as int, b[|b| - 1] as int - '0' as int;
      assert DecimalValue(a) == DecimalValue(pa) * 10 + da;
      assert DecimalValue(b) == DecimalValue(pb) * 10 + db;
      assert da == db;
      DecimalSameLength(pa, pb);
      assert a == pa + [a[|a| - 1]];
      assert b == pb + [b[|b| - 1]];
    }
  }

  /**
   Two timer fields with one value are equal: a field is two digits, or
   wider without a leading zero, and so is the usual decimal numeral.
   */
  lemma FieldUnique(a: string, b: string)
    requires AllDigits(a) && AllDigits(b) && |a| >= 2 && |b| >= 2
    requires |a| > 2 ==> a[0] != '0'
    requires |b| > 2 ==> b[0] != '0'
    requires DecimalValue(a) == DecimalValue(b)
    ensures a == b
  {
    if |a| < |b| {
      LongerIsLarger(a, b);
    } else if |b| < |a| {
      LongerIsLarger(b, a);
    } else {
      DecimalSameLength(a, b);
    }
  }

  lemma LongerIsLarger(a: string, b: string)
    requires AllDigits(a) && AllDigits(b) && |a| < |b| && b[0] != '0'
    ensures DecimalValue(a) < DecimalValue(b)
  {
    DecimalBounds(a);
    DecimalBounds(b);
    Pow10Monotone(|a|, |b| - 1);
  }
}
