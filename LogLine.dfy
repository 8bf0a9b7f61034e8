/** The layout every MM registrations-log line shares,
        " " + HH:MM:SS + gap + "[LA: " + la + "]   " + message,
    the two ways the loggers render elapsed time, and a reader that takes a line
    apart again (the partner that shows the layout is unambiguous). */
module LogLine {
  import opened Text

  /** "{0:00}:{1:00}:{2:00}": each field zero-padded to at least two digits. */
  function Hms(hours: nat, minutes: nat, seconds: nat): string
  {
    ZeroPad(hours, 2) + ":" + ZeroPad(minutes, 2) + ":" + ZeroPad(seconds, 2)
  }

  /** Elapsed time with total hours (may exceed 24), as `(int)TotalHours` gives it. */
  function TotalHms(elapsedSeconds: nat): string
  {
    Hms(elapsedSeconds / 3600, elapsedSeconds / 60 % 60, elapsedSeconds % 60)
  }

  /** Elapsed time in the `hh\:mm\:ss` TimeSpan format: the hours component wraps at 24. */
  function ClockHms(elapsedSeconds: nat): string
  {
    Hms(elapsedSeconds / 3600 % 24, elapsedSeconds / 60 % 60, elapsedSeconds % 60)
  }

  datatype Clock = Clock(hours: nat, minutes: nat, seconds: nat)

  /** Reads "H..H:MM:SS" back into its three fields. */
  function ReadHms(t: string): Option<Clock>
  {
    if |t| >= 7 && t[|t| - 3] == ':' && t[|t| - 6] == ':'
       && AllDigits(t[..|t| - 6]) && AllDigits(t[|t| - 5..|t| - 3]) && AllDigits(t[|t| - 2..])
    then Some(Clock(DigitsValue(t[..|t| - 6]), DigitsValue(t[|t| - 5..|t| - 3]), DigitsValue(t[|t| - 2..])))
    else None
  }

  lemma {:induction false} ReadHmsOfFields(hh: string, mm: string, ss: string)
    requires AllDigits(hh) && AllDigits(mm) && AllDigits(ss) && |hh| >= 1 && |mm| == 2 && |ss| == 2
    ensures ReadHms(hh + ":" + mm + ":" + ss)
            == Some(Clock(DigitsValue(hh), DigitsValue(mm), DigitsValue(ss)))
  {
    var t := hh + ":" + mm + ":" + ss;
    assert t[..|t| - 6] == hh;
    assert t[|t| - 5..|t| - 3] == mm;
    assert t[|t| - 2..] == ss;
  }

  /** Minutes and seconds below 60 are read back exactly; hours too, however many digits. */
  lemma {:induction false} ReadHmsOfHms(h: nat, m: nat, s: nat)
    requires m < 60 && s < 60
    ensures ReadHms(Hms(h, m, s)) == Some(Clock(h, m, s))
  {
    NatToStringLength(m, 1);
    NatToStringLength(s, 1);
    ZeroPadValue(h, 2);
    ZeroPadValue(m, 2);
    ZeroPadValue(s, 2);
    ReadHmsOfFields(ZeroPad(h, 2), ZeroPad(m, 2), ZeroPad(s, 2));
  }

  /** The total-hours time denotes exactly the elapsed whole seconds. */
  lemma {:induction false} TotalHmsDenotesElapsed(elapsedSeconds: nat)
    ensures var c := ReadHms(TotalHms(elapsedSeconds));
            c.Some? && c.value.minutes < 60 && c.value.seconds < 60
            && c.value.hours * 3600 + c.value.minutes * 60 + c.value.seconds == elapsedSeconds
  {
    ReadHmsOfHms(elapsedSeconds / 3600, elapsedSeconds / 60 % 60, elapsedSeconds % 60);
    SplitSeconds(elapsedSeconds);
  }

  /** The wrapped clock time denotes the elapsed seconds modulo one day. */
  lemma {:induction false} ClockHmsDenotesTimeOfDay(elapsedSeconds: nat)
    ensures var c := ReadHms(ClockHms(elapsedSeconds));
            c.Some? && c.value.hours < 24 && c.value.minutes < 60 && c.value.seconds < 60
            && c.value.hours * 3600 + c.value.minutes * 60 + c.value.seconds == elapsedSeconds % 86400
  {
    ReadHmsOfHms(elapsedSeconds / 3600 % 24, elapsedSeconds / 60 % 60, elapsedSeconds % 60);
    SplitSeconds(elapsedSeconds % 86400);
    DayWrap(elapsedSeconds);
  }

  lemma DayWrap(n: nat)
    ensures n % 86400 / 3600 == n / 3600 % 24
    ensures n % 86400 / 60 % 60 == n / 60 % 60
    ensures n % 86400 % 60 == n % 60
  {
    var q, r := n / 86400, n % 86400;
    var h, m := r / 3600, r / 60;
    DivOf(n, 3600, 24 * q + h, r % 3600);
    ModOf(24 * q + h, 24, q, h);
    DivOf(n, 60, 1440 * q + m, r % 60);
    ModOf(1440 * q + m, 60, 24 * q + m / 60, m % 60);
  }

  lemma SplitSeconds(n: nat)
    ensures n / 3600 * 3600 + n / 60 % 60 * 60 + n % 60 == n
  {
    assert n == n / 60 * 60 + n % 60;
    assert n / 60 == n / 60 / 60 * 60 + n / 60 % 60;
    assert n / 60 / 60 == n / 3600;
  }

  predicate Free(s: string, c: char) { forall k :: 0 <= k < |s| ==> s[k] != c }

  lemma DigitsFree(s: string, c: char)
    requires AllDigits(s) && !IsDigit(c)
    ensures Free(s, c)
  {
  }

  lemma HmsHasNoBracket(h: nat, m: nat, s: nat)
    ensures Free(Hms(h, m, s), '[')
  {
  }

  /** The gap after the time: two spaces exactly for a three-digit LA. */
  function Gap(la: int): string
  {
    if 100 <= la <= 999 then "  " else " "
  }

  /** The common line layout. */
  function Compose(time: string, gap: string, laText: string, message: string): string
  {
    " " + time + gap + "[LA: " + laText + "]   " + message
  }

  /** The time field sits right after the leading space. */
  lemma ComposeTime(time: string, gap: string, laText: string, message: string)
    ensures |Compose(time, gap, laText, message)| > |time|
            && Compose(time, gap, laText, message)[1..1 + |time|] == time
  {
    var line := Compose(time, gap, laText, message);
    assert line == " " + time + (gap + "[LA: " + laText + "]   " + message);
  }

  function IndexOfChar(s: string, c: char): (i: int)
    ensures -1 <= i < |s|
    ensures i >= 0 ==> s[i] == c && Free(s[..i], c)
    ensures i == -1 ==> Free(s, c)
  {
    if s == [] then -1
    else if s[0] == c then 0
    else var j := IndexOfChar(s[1..], c); if j < 0 then -1 else j + 1
  }

  lemma IndexOfCharAfter(a: string, c: char, b: string)
    requires Free(a, c)
    ensures IndexOfChar(a + [c] + b, c) == |a|
  {
    var s := a + [c] + b;
    assert s[|a|] == c;
  }

  datatype LineParts = LineParts(laText: string, message: string)

  /** Takes a line apart at the first '[' and the first ']' after it. */
  function Decompose(line: string): Option<LineParts>
  {
    var i := IndexOfChar(line, '[');
    if i < 0 || |line| < i + 5 || line[i..i + 5] != "[LA: " then None
    else
      var rest := line[i + 5..];
      var j := IndexOfChar(rest, ']');
      if j < 0 || |rest| < j + 4 || rest[j..j + 4] != "]   " then None
      else Some(LineParts(rest[..j], rest[j + 4..]))
  }

  /** In a composed line the first '[' opens "[LA: ", and the LA text, "]   " and the
      message follow it. */
  lemma {:induction false} ComposeOpening(time: string, gap: string, laText: string, message: string)
    requires Free(time, '[') && Free(gap, '[')
    ensures var line := Compose(time, gap, laText, message);
            var i := 1 + |time| + |gap|;
            IndexOfChar(line, '[') == i && i + 5 <= |line| && line[i..i + 5] == "[LA: "
            && line[i + 5..] == laText + "]   " + message
  {
    var line := Compose(time, gap, laText, message);
    var a := " " + time + gap;
    var tail := "LA: " + laText + "]   " + message;
    assert Free(a, '[');
    assert line == a + ['['] + tail;
    IndexOfCharAfter(a, '[', tail);
  }

  /** After the LA text, the first ']' starts "]   " and the message follows. */
  lemma {:induction false} ComposeClosing(laText: string, message: string)
    requires Free(laText, ']')
    ensures var rest := laText + "]   " + message;
            var j := |laText|;
            IndexOfChar(rest, ']') == j && j + 4 <= |rest| && rest[j..j + 4] == "]   "
            && rest[..j] == laText && rest[j + 4..] == message
  {
    var rest := laText + "]   " + message;
    assert rest == laText + [']'] + ("   " + message);
    IndexOfCharAfter(laText, ']', "   " + message);
  }

  /** A composed line yields its LA text and its message unchanged, whatever the message
      holds, as long as time and gap carry no '[' and the LA text no ']'. */
  lemma DecomposeCompose(time: string, gap: string, laText: string, message: string)
    requires Free(time, '[') && Free(gap, '[') && Free(laText, ']')
    ensures Decompose(Compose(time, gap, laText, message)) == Some(LineParts(laText, message))
  {
    ComposeOpening(time, gap, laText, message);
    ComposeClosing(laText, message);
    DecomposeAt(Compose(time, gap, laText, message), 1 + |time| + |gap|, laText + "]   " + message, |laText|);
  }

  /** `Decompose` reads the parts around the brackets it finds at `i` and, in the rest of
      the line, at `j`. */
  lemma DecomposeAt(line: string, i: nat, rest: string, j: nat)
    requires IndexOfChar(line, '[') == i && i + 5 <= |line| && line[i..i + 5] == "[LA: "
    requires line[i + 5..] == rest
    requires IndexOfChar(rest, ']') == j && j + 4 <= |rest| && rest[j..j + 4] == "]   "
    ensures Decompose(line) == Some(LineParts(rest[..j], rest[j + 4..]))
  {
  }

  /** The gap rule of the loggers keeps the message column fixed for three- and four-digit
      areas: two spaces before a three-digit LA, one before a four-digit LA. */
  lemma {:induction false} MessageColumn(time: string, la: nat, message: string)
    requires 100 <= la <= 9999
    ensures |Compose(time, Gap(la), NatToString(la), message)| == |time| + 15 + |message|
  {
    NatToStringLength(la, 2);
    NatToStringLength(la, 3);
    NatToStringLength(la / 10, 2);
    assert |NatToString(la)| == |NatToString(la / 10)| + 1;
  }
}
