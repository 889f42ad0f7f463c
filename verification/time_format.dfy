/**
 The stopwatch display: milliseconds rendered as `MM:SS.CC` (minutes,
 seconds, hundredths), every field zero-padded to two digits and the
 minutes never wrapped at 60. A reader of that text is given alongside, so
 that the rendering can be shown to lose nothing but the last millisecond
 digit.
 */
module TimeFormat {
  import opened Wrappers
  import opened Decimal

  /** The three numeric fields of a displayed time. */
  datatype Fields = Fields(minutes: nat, seconds: nat, hundredths: nat)

  /** The number of hundredths the three fields stand for. */
  function Hundredths(f: Fields): nat {
    f.minutes * 6000 + f.seconds * 100 + f.hundredths
  }

  /** Fields in the ranges a clock face shows them; minutes are unbounded. */
  predicate InRange(f: Fields) {
    f.seconds < 60 && f.hundredths < 100
  }

  lemma MulStep(a: nat, b: nat, d: nat)
    requires a <= b
    ensures a * d <= b * d
  {
  }

  lemma DivModUnique(n: nat, d: nat, q: nat, r: nat)
    requires 0 < d && r < d && q * d + r == n
    ensures q == n / d && r == n % d
  {
    var q0, r0 := n / d, n % d;
    assert n == q0 * d + r0;
    if q > q0 {
      MulStep(q0 + 1, q, d);
      assert false;
    } else if q < q0 {
      MulStep(q + 1, q0, d);
      assert false;
    }
  }

  /** The field split of `formatTime`: hundredths, seconds and minutes by
      floor division and remainder of `floor(ms / 10)`. */
  function Split(ms: nat): (f: Fields)
    ensures InRange(f)
    ensures Hundredths(f) == ms / 10
  {
    var totalHundredths := ms / 10;
    var hundredths := totalHundredths % 100;
    var totalSeconds := totalHundredths / 100;
    var seconds := totalSeconds % 60;
    var minutes := totalSeconds / 60;
    assert totalSeconds == minutes * 60 + seconds;
    assert totalHundredths == totalSeconds * 100 + hundredths;
    Fields(minutes, seconds, hundredths)
  }

  /** The in-range fields of a time are determined by its hundredths: `Split`
      is the only decomposition a clock face can show. */
  lemma SplitUnique(ms: nat, f: Fields)
    requires InRange(f) && Hundredths(f) == ms / 10
    ensures f == Split(ms)
  {
    var g := Split(ms);
    var n := ms / 10;
    DivModUnique(n, 100, f.minutes * 60 + f.seconds, f.hundredths);
    DivModUnique(n, 100, g.minutes * 60 + g.seconds, g.hundredths);
    DivModUnique(n / 100, 60, f.minutes, f.seconds);
    DivModUnique(n / 100, 60, g.minutes, g.seconds);
  }

  /** Minutes are whole minutes of the input, never reduced modulo 60. */
  lemma MinutesNotWrapped(ms: nat)
    ensures Split(ms).minutes == ms / 60000
  {
    var f := Split(ms);
    var rest := f.seconds * 1000 + f.hundredths * 10 + ms % 10;
    assert ms == (ms / 10) * 10 + ms % 10;
    assert ms == f.minutes * 60000 + rest;
    DivModUnique(ms, 60000, f.minutes, rest);
  }

  /** Seconds and hundredths take exactly two characters once padded;
      minutes take at least two. */
  lemma FieldWidths(f: Fields)
    requires InRange(f)
    ensures |Pad2(ToDecimal(f.minutes))| >= 2
    ensures |Pad2(ToDecimal(f.seconds))| == 2 && |Pad2(ToDecimal(f.hundredths))| == 2
  {
  }

  /** Where the separators of a rendered time sit, and what lies between them. */
  lemma TextShape(m: string, sec: string, c: string)
    requires 2 <= |m| && |sec| == 2 && |c| == 2
    ensures var r := m + ":" + sec + "." + c;
      && |r| == |m| + 6
      && r[|r| - 6] == ':' && r[|r| - 3] == '.'
      && r[..|r| - 6] == m && r[|r| - 5..|r| - 3] == sec && r[|r| - 2..] == c
  {
    var r := m + ":" + sec + "." + c;
    assert r == ((m + ":") + sec) + ("." + c);
    assert r[..|m| + 3] == (m + ":") + sec;
    assert r[|m| + 3..] == "." + c;
  }

  /** The three fields, each padded to two digits, as `M..M:SS.CC`. */
  function Render(f: Fields): (r: string)
    requires InRange(f)
    ensures 8 <= |r|
    ensures |r| == 6 + (if f.minutes < 10 then 2 else |ToDecimal(f.minutes)|)
    ensures r[|r| - 6] == ':' && r[|r| - 3] == '.'
  {
    var m := Pad2(ToDecimal(f.minutes));
    var s := Pad2(ToDecimal(f.seconds));
    var c := Pad2(ToDecimal(f.hundredths));
    FieldWidths(f);
    TextShape(m, s, c);
    m + ":" + s + "." + c
  }

  /** `formatTime(ms)` for a whole, non-negative number of milliseconds. */
  function FormatTime(ms: nat): string {
    Render(Split(ms))
  }

  /** Reads `M..M:SS.CC` back into its three fields; anything else is `None`. */
  function ParseTime(s: string): (r: Option<Fields>)
  {
    if |s| < 8 || s[|s| - 6] != ':' || s[|s| - 3] != '.' then None
    else
      var m := s[..|s| - 6];
      var sec := s[|s| - 5..|s| - 3];
      var c := s[|s| - 2..];
      if AllDigits(m) && AllDigits(sec) && AllDigits(c)
      then Some(Fields(ParseDigits(m), ParseDigits(sec), ParseDigits(c)))
      else None
  }

  /** The reader takes apart any text built from a minutes field, `:`, two
      seconds digits, `.` and two hundredths digits. */
  lemma ParseFieldText(m: string, sec: string, c: string)
    requires 2 <= |m| && |sec| == 2 && |c| == 2
    requires AllDigits(m) && AllDigits(sec) && AllDigits(c)
    ensures ParseTime(m + ":" + sec + "." + c) == Some(Fields(ParseDigits(m), ParseDigits(sec), ParseDigits(c)))
  {
    TextShape(m, sec, c);
  }

  /** Rendering in-range fields and reading them back gives the fields. */
  lemma ParseRender(f: Fields)
    requires InRange(f)
    ensures ParseTime(Render(f)) == Some(f)
  {
    var m := ToDecimal(f.minutes);
    var sec := ToDecimal(f.seconds);
    var c := ToDecimal(f.hundredths);
    PadStartKeepsValue(m, 2);
    PadStartKeepsValue(sec, 2);
    PadStartKeepsValue(c, 2);
    ParseFieldText(Pad2(m), Pad2(sec), Pad2(c));
  }

  /** Reading the display back recovers exactly its fields, so the hundredths
      shown are `floor(ms / 10)`. */
  lemma ParseFormat(ms: nat)
    ensures ParseTime(FormatTime(ms)) == Some(Split(ms))
    ensures Hundredths(ParseTime(FormatTime(ms)).value) == ms / 10
  {
    ParseRender(Split(ms));
  }

  /** Two durations display the same text exactly when they agree in whole
      hundredths. */
  lemma FormatTimeSameText(a: nat, b: nat)
    ensures FormatTime(a) == FormatTime(b) <==> a / 10 == b / 10
  {
    if FormatTime(a) == FormatTime(b) {
      ParseFormat(a);
      ParseFormat(b);
    }
  }

  lemma RenderZero()
    ensures Render(Fields(0, 0, 0)) == "00:00.00"
  {
    assert Pad2(ToDecimal(0)) == "00" by {
      assert ToDecimal(0) == "0";
    }
  }

  /** Under 100 minutes the display is exactly `MM:SS.CC`; from then on the
      minutes field grows one digit at a time and never starts with a zero. */
  lemma DisplayWidth(ms: nat)
    ensures Split(ms).minutes < 100 ==> |FormatTime(ms)| == 8
    ensures Split(ms).minutes >= 10 ==> FormatTime(ms)[0] != '0'
  {
  }

  /** `formatTime(0)` is `00:00.00`, and so is every duration under 10 ms. */
  lemma FormatTimeZero(ms: nat)
    requires ms < 10
    ensures FormatTime(ms) == "00:00.00"
  {
    DivModUnique(ms, 10, 0, ms);
    SplitUnique(ms, Fields(0, 0, 0));
    RenderZero();
  }

  /** `formatTime(61005)` is `01:01.00`: the odd five milliseconds are dropped. */
  lemma FormatTimeMinuteAndSecond()
    ensures FormatTime(61005) == "01:01.00"
  {
    SplitUnique(61005, Fields(1, 1, 0));
    assert ToDecimal(0) == "0";
    assert ToDecimal(1) == "1";
    assert Pad2("0") == "00";
    assert Pad2("1") == "01";
  }

  /** `formatTime(3600000)` is `60:00.00`: an hour shows as sixty minutes. */
  lemma FormatTimeHour()
    ensures FormatTime(3600000) == "60:00.00"
  {
    SplitUnique(3600000, Fields(60, 0, 0));
    assert ToDecimal(6) == "6";
    assert ToDecimal(60) == "60";
    assert ToDecimal(0) == "0";
    assert Pad2("0") == "00";
    assert Pad2("60") == "60";
  }
}
