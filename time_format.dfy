/**
 * The elapsed-time formatter of the timer: minutes and seconds, each written
 * in decimal and left-padded with '0' to at least two characters, joined by
 * ':'. Its partner is ParseTime, which reads such a string back.
 */
module TimeFormat {
  import opened Common

  predicate IsDigitChar(ch: char) {
    '0' <= ch <= '9'
  }

  predicate AllDigits(s: string) {
    forall k :: 0 <= k < |s| ==> IsDigitChar(s[k])
  }

  function DigitValue(ch: char): (d: int)
    requires IsDigitChar(ch)
    ensures 0 <= d < 10
  {
    ch as int - '0' as int
  }

  function DigitChar(d: int): (ch: char)
    requires 0 <= d < 10
    ensures IsDigitChar(ch) && DigitValue(ch) == d
  {
    ('0' as int + d) as char
  }

  /** Number.prototype.toString() of a non-negative integer: its decimal digits, without leading zeros. */
  function Decimal(n: nat): (s: string)
    ensures 1 <= |s| && AllDigits(s)
    ensures n < 10 <==> |s| == 1
    ensures 10 <= n < 100 ==> |s| == 2
    ensures 100 <= n ==> |s| >= 3
    ensures |s| > 1 ==> s[0] != '0'
    decreases n
  {
    if n < 10 then [DigitChar(n)] else Decimal(n / 10) + [DigitChar(n % 10)]
  }

  /** The value of a string of decimal digits (the empty string reads as 0). */
  function ParseDecimal(s: string): nat
    requires AllDigits(s)
  {
    if s == [] then 0 else 10 * ParseDecimal(s[..|s| - 1]) + DigitValue(s[|s| - 1])
  }

  lemma {:induction false} ParseDecimalOfDecimal(n: nat)
    ensures ParseDecimal(Decimal(n)) == n
    decreases n
  {
    var s := Decimal(n);
    if n >= 10 {
      assert s[..|s| - 1] == Decimal(n / 10);
      ParseDecimalOfDecimal(n / 10);
    }
  }

  /** A leading '0' does not change the value of a digit string. */
  lemma {:induction false} ParseDecimalLeadingZero(s: string)
    requires AllDigits(s)
    ensures ParseDecimal(['0'] + s) == ParseDecimal(s)
    decreases |s|
  {
    if s != [] {
      assert (['0'] + s)[..|s|] == ['0'] + s[..|s| - 1];
      ParseDecimalLeadingZero(s[..|s| - 1]);
    }
  }

  /** String.prototype.padStart(width, fill): prefix copies of fill until the string is width long. */
  function PadStart(s: string, width: nat, fill: char): (r: string)
    ensures |r| == if |s| >= width then |s| else width
    ensures r[|r| - |s|..] == s
    ensures forall k :: 0 <= k < |r| - |s| ==> r[k] == fill
    decreases width - |s|
  {
    if |s| >= width then s else PadStart([fill] + s, width, fill)
  }

  /** Padding a digit string with '0' keeps its value. */
  lemma {:induction false} ParsePadded(s: string, width: nat)
    requires AllDigits(s)
    ensures AllDigits(PadStart(s, width, '0'))
    ensures ParseDecimal(PadStart(s, width, '0')) == ParseDecimal(s)
    decreases width - |s|
  {
    if |s| < width {
      ParseDecimalLeadingZero(s);
      ParsePadded(['0'] + s, width);
    }
  }

  /** The two fields of the display: minutes and seconds, each padded to two digits, joined by ':'. */
  function JoinFields(mins: nat, secs: nat): (r: string)
    requires secs < 60
    ensures |r| >= 5 && r[|r| - 3] == ':'
  {
    var m, s := PadStart(Decimal(mins), 2, '0'), PadStart(Decimal(secs), 2, '0');
    assert |m| >= 2 && |s| == 2;
    m + ":" + s
  }

  /** timer.formatTime: "mm:ss", whose minutes field grows past two digits after 99 minutes. */
  function FormatTime(seconds: nat): (r: string)
  {
    JoinFields(seconds / 60, seconds % 60)
  }

  /** Reads back a string of the shape FormatTime produces: digits, ':', two digits below 60. */
  function ParseTime(t: string): Option<nat> {
    if |t| >= 4 && t[|t| - 3] == ':' && AllDigits(t[..|t| - 3]) && AllDigits(t[|t| - 2..]) then
      var secs := ParseDecimal(t[|t| - 2..]);
      if secs < 60 then Some(60 * ParseDecimal(t[..|t| - 3]) + secs) else None
    else
      None
  }

  /** ParseTime splits a joined string back into its two fields. */
  lemma ParseTimeJoined(mins: string, secs: string, m: nat, sec: nat)
    requires 1 <= |mins| && AllDigits(mins) && ParseDecimal(mins) == m
    requires |secs| == 2 && AllDigits(secs) && ParseDecimal(secs) == sec < 60
    ensures ParseTime(mins + ":" + secs) == Some(60 * m + sec)
  {
    var t := mins + ":" + secs;
    assert t[..|t| - 3] == mins && t[|t| - 2..] == secs;
  }

  /** The joined fields of a minute count and a second count below 60 read back as their total. */
  lemma ParseJoinFields(m: nat, sec: nat)
    requires sec < 60
    ensures ParseTime(JoinFields(m, sec)) == Some(60 * m + sec)
  {
    ParsePadded(Decimal(m), 2);
    ParsePadded(Decimal(sec), 2);
    ParseDecimalOfDecimal(m);
    ParseDecimalOfDecimal(sec);
    ParseTimeJoined(PadStart(Decimal(m), 2, '0'), PadStart(Decimal(sec), 2, '0'), m, sec);
  }

  /** FormatTime loses nothing: the string it writes reads back as the same number of seconds. */
  lemma FormatTimeRoundTrip(seconds: nat)
    ensures ParseTime(FormatTime(seconds)) == Some(seconds)
  {
    var m, sec := seconds / 60, seconds % 60;
    assert 60 * m + sec == seconds;
    ParseJoinFields(m, sec);
  }

  /** The display is exactly "mm:ss", five characters, for anything under 100 minutes, and longer after. */
  lemma FormatTimeWidth(seconds: nat)
    ensures seconds < 6000 <==> |FormatTime(seconds)| == 5
  {
    JoinFieldsWidth(seconds / 60, seconds % 60);
  }

  lemma JoinFieldsWidth(m: nat, sec: nat)
    requires sec < 60
    ensures m < 100 <==> |JoinFields(m, sec)| == 5
  {
    var d := Decimal(m);
    var mins := PadStart(d, 2, '0');
    assert |JoinFields(m, sec)| == |mins| + 3;
    if m < 100 {
      assert |d| <= 2;
    } else {
      assert |d| >= 3;
    }
  }
}
