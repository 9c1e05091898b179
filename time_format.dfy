/** The "mm:ss" rendering of a number of seconds (format_duration and the
    string half of update_time), and the GUI's reading of such a string back
    into seconds (update_progress splits at ':' and applies int() to both
    halves). */
module TimeFormat {

  datatype Option<T> = None | Some(value: T)

  predicate IsDigit(c: char) { '0' <= c <= '9' }

  predicate AllDigits(s: string) { forall i :: 0 <= i < |s| ==> IsDigit(s[i]) }

  function DigitChar(d: nat): (c: char)
    requires d < 10
    ensures IsDigit(c) && c as int - '0' as int == d
  {
    ('0' as int + d) as char
  }

  function DigitValue(c: char): (d: nat)
    requires IsDigit(c)
    ensures d < 10
  {
    c as int - '0' as int
  }

  /** Python's str() of a natural number: decimal digits, no leading zero. */
  function Decimal(n: nat): (s: string)
    ensures |s| >= 1 && AllDigits(s)
    ensures n < 10 <==> |s| == 1
    decreases n
  {
    if n < 10 then [DigitChar(n)] else Decimal(n / 10) + [DigitChar(n % 10)]
  }

  /** The number a string of decimal digits denotes (leading zeros allowed). */
  function DecimalValue(s: string): nat
    requires AllDigits(s)
  {
    if |s| == 0 then 0 else DecimalValue(s[..|s| - 1]) * 10 + DigitValue(s[|s| - 1])
  }

  lemma {:induction false} DecimalRoundTrip(n: nat)
    ensures DecimalValue(Decimal(n)) == n
  {
    if n >= 10 {
      var s := Decimal(n);
      assert s[..|s| - 1] == Decimal(n / 10);
      DecimalRoundTrip(n / 10);
    }
  }

  /** Python's f"{n:02d}": at least two characters, a zero in front of a
      single non-negative digit, a minus sign in front of a negative number. */
  function Pad2(n: int): (s: string)
    ensures |s| >= 2
    ensures n >= 0 ==> AllDigits(s)
    ensures n < 0 ==> s[0] == '-' && AllDigits(s[1..])
    ensures 0 <= n < 100 ==> |s| == 2
  {
    if n < 0 then "-" + Decimal(-n)
    else if n < 10 then "0" + Decimal(n)
    else Decimal(n)
  }

  /** format_duration: divmod by 60 (Python floors; Dafny's / and % agree with
      that for the positive divisor 60), each part through f"{:02d}". */
  function FormatDuration(d: int): string
  {
    Pad2(d / 60) + ":" + Pad2(d % 60)
  }

  /** The shape of a formatted duration: minutes, a single ':', and exactly
      two digits of seconds; the minutes are digits unless d is negative. */
  lemma FormatDurationShape(d: int)
    ensures var r := FormatDuration(d);
      && |r| >= 5 && r[|r| - 3] == ':'
      && ':' !in r[..|r| - 3] && AllDigits(r[|r| - 2..])
      && (d >= 0 ==> AllDigits(r[..|r| - 3]))
      && (d < 0 ==> r[0] == '-')
  {
    var r := FormatDuration(d);
    assert r[..|r| - 3] == Pad2(d / 60) && r[|r| - 2..] == Pad2(d % 60);
  }

  /** Python's str.split(sep): the pieces between occurrences of sep. */
  function Split(s: string, sep: char): (parts: seq<string>)
    ensures |parts| >= 1
    ensures sep !in s ==> parts == [s]
    decreases |s|
  {
    if |s| == 0 then [""]
    else
      var rest := Split(s[1..], sep);
      assert [s[0]] + s[1..] == s;
      if s[0] == sep then [""] + rest
      else [[s[0]] + rest[0]] + rest[1..]
  }

  lemma {:induction false} SplitAround(a: string, b: string, sep: char)
    requires sep !in a && sep !in b
    ensures Split(a + [sep] + b, sep) == [a, b]
  {
    var s := a + [sep] + b;
    if a == [] {
      assert s[1..] == b;
    } else {
      assert s[1..] == a[1..] + [sep] + b;
      SplitAround(a[1..], b, sep);
      assert [s[0]] + a[1..] == a;
    }
  }

  /** Python's int() on an optionally signed run of ASCII digits. */
  function ParseInt(s: string): Option<int>
  {
    if |s| >= 2 && (s[0] == '-' || s[0] == '+') && AllDigits(s[1..]) then
      Some(if s[0] == '-' then -(DecimalValue(s[1..]) as int) else DecimalValue(s[1..]))
    else if |s| >= 1 && AllDigits(s) then
      Some(DecimalValue(s))
    else
      None
  }

  /** update_progress: "minutes, seconds = map(int, time_str.split(':'))",
      then minutes * 60 + seconds; anything else raises (None). */
  function ParseClock(s: string): Option<int>
  {
    var parts := Split(s, ':');
    if |parts| != 2 then None
    else match (ParseInt(parts[0]), ParseInt(parts[1]))
      case (Some(mins), Some(secs)) => Some(mins * 60 + secs)
      case _ => None
  }

  lemma ParsePad2(n: int)
    ensures ParseInt(Pad2(n)) == Some(n)
  {
    if n < 0 {
      ParseNegative(-n);
    } else if n < 10 {
      ParseZeroPadded(n);
    } else {
      DecimalRoundTrip(n);
    }
  }

  lemma ParseNegative(m: nat)
    requires m > 0
    ensures ParseInt("-" + Decimal(m)) == Some(-(m as int))
  {
    var s := "-" + Decimal(m);
    assert s[1..] == Decimal(m);
    DecimalRoundTrip(m);
  }

  lemma ParseZeroPadded(n: nat)
    requires n < 10
    ensures ParseInt("0" + Decimal(n)) == Some(n)
  {
    var s := "0" + Decimal(n);
    assert s == ['0', DigitChar(n)] && s[..1] == ['0'] && s[..1][..0] == [];
    assert DecimalValue(s) == DecimalValue(['0']) * 10 + n;
  }

  /** Reading a formatted duration back recovers it, for every integer. */
  lemma ClockRoundTrip(d: int)
    ensures ParseClock(FormatDuration(d)) == Some(d)
  {
    var mins, secs := Pad2(d / 60), Pad2(d % 60);
    assert FormatDuration(d) == mins + [':'] + secs;
    assert ':' !in mins;
    SplitAround(mins, secs, ':');
    ParsePad2(d / 60);
    ParsePad2(d % 60);
  }
}
