/** `formatTime` of `Timer.tsx`: elapsed milliseconds shown as minutes and seconds, `MM:SS`. */
module Timer {

  /** JavaScript's `%`: the remainder takes the sign of the dividend. */
  function JsRem(a: int, b: int): (r: int)
    requires b > 0
    ensures a >= 0 ==> 0 <= r < b && r == a % b
    ensures a < 0 ==> -b < r <= 0
    ensures a >= 0 ==> a == (a / b) * b + r
    ensures a < 0 ==> a == -((-a) / b) * b + r
  {
    if a >= 0 then a % b else -((-a) % b)
  }

  function DigitChar(d: nat): (c: char)
    requires d < 10
    ensures '0' <= c <= '9' && c as int - 48 == d
  {
    (48 + d) as char
  }

  /** `String(n)` for a natural number: its decimal digits, most significant first. */
  function NatToString(n: nat): (r: string)
    ensures 1 <= |r|
    ensures |r| == 1 <==> n < 10
    ensures 10 <= n < 100 ==> |r| == 2
    ensures forall i :: 0 <= i < |r| ==> '0' <= r[i] <= '9'
    ensures n >= 10 ==> r[0] != '0'
  {
    if n < 10 then [DigitChar(n)] else NatToString(n / 10) + [DigitChar(n % 10)]
  }

  /** `String(i)`: a minus sign before the digits of a negative number. */
  function IntToString(i: int): string
  {
    if i < 0 then "-" + NatToString(-i) else NatToString(i)
  }

  /** `s.padStart(width, c)`: `c` repeated on the left until `s` is `width` long. */
  function PadStart(s: string, width: nat, c: char): (r: string)
    ensures |r| == if |s| >= width then |s| else width
    ensures r[|r| - |s|..] == s
    ensures forall i :: 0 <= i < |r| - |s| ==> r[i] == c
  {
    if |s| >= width then s else seq(width - |s|, _ => c) + s
  }

  /** One field of the display: `String(i).padStart(2, '0')`. */
  function Field(i: int): string
  {
    PadStart(IntToString(i), 2, '0')
  }

  /** `formatTime`: whole seconds rounded down, then minutes (not capped at 59) and the
      remaining seconds, each at least two characters wide, joined by a colon. */
  function FormatTime(milliseconds: int): (r: string)
    ensures |r| >= 5
  {
    var totalSeconds := milliseconds / 1000;
    Field(totalSeconds / 60) + ":" + Field(JsRem(totalSeconds, 60))
  }

  /** The value of a string of decimal digits. */
  function ParseDigits(s: string): int
  {
    if |s| == 0 then 0 else ParseDigits(s[..|s| - 1]) * 10 + (s[|s| - 1] as int - 48)
  }

  /** Reading an `MM:SS` display back as a number of seconds. */
  function ParseClock(r: string): int
    requires |r| >= 3
  {
    ParseDigits(r[..|r| - 3]) * 60 + ParseDigits(r[|r| - 2..])
  }

  /** `r` has its colon three characters from the end, the part before it reads as `minutes`
      and the two characters after it as `seconds`. */
  predicate ReadsAsClock(r: string, minutes: int, seconds: int)
  {
    |r| >= 5 && r[|r| - 3] == ':'
    && ParseDigits(r[..|r| - 3]) == minutes && ParseDigits(r[|r| - 2..]) == seconds
  }

  /** Printing a number and reading it back gives the number. */
  lemma {:induction false} NatToStringRoundTrip(n: nat)
    ensures ParseDigits(NatToString(n)) == n
    decreases n
  {
    if n >= 10 {
      NatToStringRoundTrip(n / 10);
      var s := NatToString(n);
      assert s[..|s| - 1] == NatToString(n / 10);
    }
  }

  /** `String(i)` of a negative number: a minus sign, then digits that read back as `-i`. */
  lemma NegativeReadsBack(i: int)
    requires i < 0
    ensures var r := IntToString(i); |r| >= 2 && r[0] == '-' && ParseDigits(r[1..]) == -i
  {
    var d := NatToString(-i);
    assert IntToString(i) == "-" + d;
    assert IntToString(i)[1..] == d;
    NatToStringRoundTrip(-i);
  }

  /** `String(i)` of a non-negative number: digits only, reading back as `i`. */
  lemma NonNegativeReadsBack(i: int)
    requires i >= 0
    ensures var r := IntToString(i); |r| >= 1 && r[0] != '-' && ParseDigits(r) == i
  {
    var d := NatToString(i);
    assert IntToString(i) == d;
    assert '0' <= d[0] <= '9';
    NatToStringRoundTrip(i);
  }

  /** Reading `String(i)` back: the digits give `i`, after the minus sign when `i` is
      negative. */
  lemma IntToStringRoundTrip(i: int)
    ensures var r := IntToString(i);
      && |r| >= 1 && (r[0] == '-' <==> i < 0)
      && (i >= 0 ==> ParseDigits(r) == i)
      && (i < 0 ==> ParseDigits(r[1..]) == -i)
  {
    if i < 0 {
      NegativeReadsBack(i);
    } else {
      NonNegativeReadsBack(i);
    }
  }

  /** A string of zeros reads as 0. */
  lemma {:induction false} ZerosReadAsZero(z: string)
    requires forall i :: 0 <= i < |z| ==> z[i] == '0'
    ensures ParseDigits(z) == 0
    decreases |z|
  {
    if |z| > 0 {
      ZerosReadAsZero(z[..|z| - 1]);
    }
  }

  /** Leading zeros do not change the value read. */
  lemma {:induction false} LeadingZerosIgnored(z: string, s: string)
    requires forall i :: 0 <= i < |z| ==> z[i] == '0'
    ensures ParseDigits(z + s) == ParseDigits(s)
    decreases |s|
  {
    if |s| == 0 {
      assert z + s == z;
      ZerosReadAsZero(z);
    } else {
      assert (z + s)[..|z + s| - 1] == z + s[..|s| - 1];
      LeadingZerosIgnored(z, s[..|s| - 1]);
    }
  }

  /** Every character of `s` is a decimal digit. */
  predicate AllDigits(s: string)
  {
    forall i :: 0 <= i < |s| ==> '0' <= s[i] <= '9'
  }

  /** Padding digits with zeros leaves only digits. */
  lemma PadKeepsDigits(s: string)
    requires AllDigits(s)
    ensures AllDigits(PadStart(s, 2, '0'))
  {
    var r := PadStart(s, 2, '0');
    forall i | 0 <= i < |r| ensures '0' <= r[i] <= '9' {
      if i >= |r| - |s| {
        assert r[i] == r[|r| - |s|..][i - (|r| - |s|)];
      }
    }
  }

  /** A field of a natural number is digits only, at least two of them, and exactly two
      below 100. */
  lemma FieldOfNat(n: nat)
    ensures |Field(n)| >= 2 && (n < 100 ==> |Field(n)| == 2)
    ensures AllDigits(Field(n))
  {
    assert Field(n) == PadStart(NatToString(n), 2, '0');
    PadKeepsDigits(NatToString(n));
  }

  /** An `MM:SS` display: digits, a colon three characters from the end, then two digits. */
  predicate IsClockDisplay(r: string)
  {
    |r| >= 5 && r[|r| - 3] == ':' && AllDigits(r[..|r| - 3]) && AllDigits(r[|r| - 2..])
  }

  /** Two digit strings joined by a colon, the second two characters long, form a display. */
  lemma JoinShape(m: string, s: string)
    requires |m| >= 2 && |s| == 2 && AllDigits(m) && AllDigits(s)
    ensures IsClockDisplay(m + ":" + s)
  {
    var r := m + ":" + s;
    assert r[..|r| - 3] == m;
    assert r[|r| - 2..] == s;
  }

  /** Two fields around a colon are at least five characters, and form a display when the
      minutes are not negative and the seconds are in 0..59. */
  lemma ClockShape(minutes: int, seconds: int)
    ensures var r := Field(minutes) + ":" + Field(seconds);
      |r| >= 5 && (minutes >= 0 && 0 <= seconds < 60 ==> IsClockDisplay(r))
  {
    if minutes >= 0 && 0 <= seconds < 60 {
      FieldOfNat(minutes);
      FieldOfNat(seconds);
      JoinShape(Field(minutes), Field(seconds));
    }
  }

  /** Padding with zeros does not change the value read. */
  lemma PaddingReadsSame(s: string)
    ensures ParseDigits(PadStart(s, 2, '0')) == ParseDigits(s)
  {
    var r := PadStart(s, 2, '0');
    var z := r[..|r| - |s|];
    assert r == z + s;
    LeadingZerosIgnored(z, s);
  }

  /** Zero-padding a number's digits keeps its value, and a number below 100 fills
      exactly two characters. */
  lemma FieldRoundTrip(n: nat)
    ensures ParseDigits(Field(n)) == n
    ensures n < 100 ==> |Field(n)| == 2
  {
    assert Field(n) == PadStart(NatToString(n), 2, '0');
    PaddingReadsSame(NatToString(n));
    NatToStringRoundTrip(n);
  }

  /** For a non-negative time the seconds field is 0..59, and minutes and seconds recompose
      the whole seconds elapsed. */
  lemma FormatTimeFields(milliseconds: int)
    requires milliseconds >= 0
    ensures var t := milliseconds / 1000;
      var minutes, seconds := t / 60, JsRem(t, 60);
      && 0 <= minutes && 0 <= seconds < 60
      && minutes * 60 + seconds == t
  {
  }

  /** Joining two fields, the second two characters wide, puts the colon three characters from
      the end and leaves each field where it can be cut back out. */
  lemma ColonSplits(m: string, s: string)
    requires |m| >= 2 && |s| == 2
    ensures var r := m + ":" + s;
      |r| >= 5 && r[|r| - 3] == ':' && r[..|r| - 3] == m && r[|r| - 2..] == s
  {
  }

  /** A display built from minutes and seconds below 60 has its colon three characters from
      the end, the part before it reads back as the minutes and the two characters after it
      as the seconds. */
  lemma ClockReadsBack(minutes: nat, seconds: nat)
    requires seconds < 60
    ensures var r := Field(minutes) + ":" + Field(seconds);
      ReadsAsClock(r, minutes, seconds) && ParseClock(r) == minutes * 60 + seconds
  {
    FieldRoundTrip(minutes);
    FieldRoundTrip(seconds);
    ColonSplits(Field(minutes), Field(seconds));
  }

  /** For a non-negative time the display is digits with one colon, three characters from
      the end. */
  lemma FormatTimeShape(milliseconds: int)
    requires milliseconds >= 0
    ensures IsClockDisplay(FormatTime(milliseconds))
  {
    var t := milliseconds / 1000;
    FormatTimeFields(milliseconds);
    var minutes, seconds := t / 60, JsRem(t, 60);
    ClockShape(minutes, seconds);
    assert FormatTime(milliseconds) == Field(minutes) + ":" + Field(seconds);
  }

  /** For a non-negative time the part before the colon reads back as the whole minutes, the
      two characters after it as the remaining seconds, below 60, and the display as a whole
      as the whole seconds elapsed. */
  lemma FormatTimeReadsBack(milliseconds: int)
    requires milliseconds >= 0
    ensures var r, t := FormatTime(milliseconds), milliseconds / 1000;
      ReadsAsClock(r, t / 60, t % 60) && t % 60 < 60 && ParseClock(r) == t
  {
    var t := milliseconds / 1000;
    FormatTimeFields(milliseconds);
    var minutes, seconds := t / 60, JsRem(t, 60);
    ClockReadsBack(minutes, seconds);
    assert FormatTime(milliseconds) == Field(minutes) + ":" + Field(seconds);
    assert seconds == t % 60;
  }

  /** A one-digit field is padded with a single zero. */
  lemma OneDigitField(d: nat)
    requires d < 10
    ensures Field(d) == ['0', DigitChar(d)]
  {
    var r := Field(d);
    assert r[1..] == [DigitChar(d)];
  }

  /** Any time under a second shows `00:00`. */
  lemma UnderASecondShowsZero(milliseconds: int)
    requires 0 <= milliseconds < 1000
    ensures FormatTime(milliseconds) == "00:00"
  {
    assert milliseconds / 1000 == 0;
    assert JsRem(0, 60) == 0;
    OneDigitField(0);
  }

  /** 61 seconds shows `01:01`. */
  lemma SixtyOneSecondsExample()
    ensures FormatTime(61000) == "01:01"
  {
    assert 61000 / 1000 == 61 && 61 / 60 == 1 && JsRem(61, 60) == 1;
    OneDigitField(1);
  }

  /** `String(100)` is three digits, too wide to pad. */
  lemma HundredField()
    ensures Field(100) == "100"
  {
    assert NatToString(1) == "1";
    assert NatToString(10) == "10";
    assert NatToString(100) == "100";
  }

  /** Minutes are not capped: 100 minutes shows `100:00`. */
  lemma HundredMinutesExample()
    ensures FormatTime(6000000) == "100:00"
  {
    assert 6000000 / 1000 == 6000 && 6000 / 60 == 100 && JsRem(6000, 60) == 0;
    HundredField();
    OneDigitField(0);
  }

  /** `String(-1)` is already two characters wide. */
  lemma MinusOneField()
    ensures Field(-1) == "-1"
  {
    assert NatToString(1) == "1";
  }

  /** A negative time is formatted with JavaScript's signed remainder: both fields carry a
      minus sign. */
  lemma FormatTimeOfNegative()
    ensures FormatTime(-1000) == "-1:-1"
  {
    assert -1000 / 1000 == -1 && -1 / 60 == -1 && JsRem(-1, 60) == -1;
    MinusOneField();
  }
}
