/** The separate MM registrations log file writer (`MmRegLogWriter.cs`): the line it builds
    from a decoded MM PDU, the daily file it appends to, and the cached day and path that
    decide when that file is chosen again. The stopwatch, the wall clock, the settings
    folder and the application's base directory are parameters. */
module RegLogWriter {
  import opened Text
  import opened LogLine
  import opened MmDecode
  import RegLogger

  // ---- the line ----

  /** The shown LA: the decimal text of a known non-negative area, "0" otherwise. */
  function LaText(la: Option<int>): string
  {
    if la.Some? && la.value >= 0 then IntToString(la.value) else "0"
  }

  /** The writer's own gap rule: two spaces when the LA text has at most three characters. */
  function WriterGap(laText: string): string
  {
    if |laText| <= 3 then "  " else " "
  }

  /** The SSI rule: ": SSI: <ssi>" goes at the end for a known SSI unless the text already
      holds "SSI:". */
  function WithSsi(text: string, ssi: int): string
  {
    if ssi >= 0 && !Contains(text, "SSI:") then text + ": SSI: " + IntToString(ssi) else text
  }

  /** `TryLog` without the append: nothing when logging is off, the PDU is missing or its
      message is empty; otherwise the line, the clock time wrapping at 24 hours. */
  function WriterLine(enabled: bool, info: Option<MmInfo>, elapsedSeconds: nat): Option<string>
  {
    if !enabled || info.None? || info.value.message == [] then None
    else
      var laText := LaText(info.value.locationArea);
      var ssi := if info.value.ssi.Some? then info.value.ssi.value else -1;
      Some(WithSsi(Compose(ClockHms(elapsedSeconds), WriterGap(laText), laText, info.value.message), ssi))
  }

  /** A line is built exactly when logging is on and the PDU has a non-empty message. */
  lemma WriterLineIff(enabled: bool, info: Option<MmInfo>, elapsedSeconds: nat)
    ensures WriterLine(enabled, info, elapsedSeconds).Some?
            <==> enabled && info.Some? && info.value.message != []
  {
  }

  /** After the SSI rule the text names an SSI whenever one is known; a text that already
      names one, or a PDU without an SSI, is left as it is, and a suffix is added in no
      other case. */
  lemma WithSsiRule(text: string, ssi: int)
    ensures ssi >= 0 ==> Contains(WithSsi(text, ssi), "SSI:")
    ensures WithSsi(text, ssi) == text <==> ssi < 0 || Contains(text, "SSI:")
  {
    if ssi >= 0 && !Contains(text, "SSI:") {
      var s := IntToString(ssi);
      assert text + ": SSI: " + s == (text + ": ") + "SSI:" + (" " + s);
      RegLogger.ContainsMiddle(text + ": ", "SSI:", " " + s);
      assert |WithSsi(text, ssi)| > |text|;
    }
  }

  /** The SSI is never added twice: applying the rule again, for any SSI, changes nothing
      once a known SSI has been applied. */
  lemma WithSsiOnce(text: string, ssi: int, again: int)
    requires ssi >= 0
    ensures WithSsi(WithSsi(text, ssi), again) == WithSsi(text, ssi)
  {
    WithSsiRule(text, ssi);
  }

  /** A prefix without the letter 'S' cannot hold the start of "SSI:": searching the whole
      text finds it only in the part after the prefix. */
  lemma {:induction false} ContainsPastPrefix(p: string, m: string, t: string)
    requires |t| > 0 && Free(p, t[0])
    ensures Contains(p + m, t) <==> Contains(m, t)
    decreases |p|
  {
    if p == [] {
      assert p + m == m;
    } else {
      assert (p + m)[0] == p[0];
      assert (p + m)[1..] == p[1..] + m;
      ContainsPastPrefix(p[1..], m, t);
    }
  }

  /** The line prefix (time, gap, "[LA: ", the LA text, "]   ") has no 'S'. */
  lemma PrefixFree(elapsedSeconds: nat, la: Option<int>)
    ensures var laText := LaText(la);
            Free(" " + ClockHms(elapsedSeconds) + WriterGap(laText) + "[LA: " + laText + "]   ", 'S')
  {
    var laText := LaText(la);
    assert AllDigits(ClockHms(elapsedSeconds)[..2]);
    assert Free(ClockHms(elapsedSeconds), 'S');
    assert la.Some? && la.value >= 0 ==> laText == NatToString(la.value);
    assert AllDigits(laText);
  }

  /** The SSI rule looks at the message alone: it applies to the whole line as it applies to
      the message after the prefix. */
  lemma WithSsiPastPrefix(p: string, m: string, ssi: int)
    requires Free(p, 'S')
    ensures WithSsi(p + m, ssi) == p + WithSsi(m, ssi)
  {
    ContainsPastPrefix(p, m, "SSI:");
    var s := ": SSI: " + IntToString(ssi);
    assert p + m + ": SSI: " + IntToString(ssi) == p + (m + s);
    assert m + ": SSI: " + IntToString(ssi) == m + s;
  }

  /** A built line takes apart into the shown LA and the message with the SSI rule applied
      to it; the gap in front of "[LA: " is two spaces unless the LA has four digits or more. */
  lemma WriterLineParts(enabled: bool, info: Option<MmInfo>, elapsedSeconds: nat)
    requires WriterLine(enabled, info, elapsedSeconds).Some?
    ensures var i := info.value;
            var ssi := if i.ssi.Some? then i.ssi.value else -1;
            var line := WriterLine(enabled, info, elapsedSeconds).value;
            line == Compose(ClockHms(elapsedSeconds), WriterGap(LaText(i.locationArea)), LaText(i.locationArea), WithSsi(i.message, ssi))
            && Decompose(line) == Some(LineParts(LaText(i.locationArea), WithSsi(i.message, ssi)))
  {
    var i := info.value;
    var ssi := if i.ssi.Some? then i.ssi.value else -1;
    var time, laText := ClockHms(elapsedSeconds), LaText(i.locationArea);
    var gap := WriterGap(laText);
    var p := " " + time + gap + "[LA: " + laText + "]   ";
    assert Compose(time, gap, laText, i.message) == p + i.message;
    assert Compose(time, gap, laText, WithSsi(i.message, ssi)) == p + WithSsi(i.message, ssi);
    PrefixFree(elapsedSeconds, i.locationArea);
    WithSsiPastPrefix(p, i.message, ssi);
    HmsHasNoBracket(elapsedSeconds / 3600 % 24, elapsedSeconds / 60 % 60, elapsedSeconds % 60);
    assert AllDigits(laText);
    DecomposeCompose(time, gap, laText, WithSsi(i.message, ssi));
  }

  /** The shown LA is the known non-negative area itself, and "0" stands for a missing or
      negative one; the gap is a single space exactly for areas of four digits or more. */
  lemma LaTextRule(la: Option<int>)
    ensures la.Some? && la.value >= 0 ==> AllDigits(LaText(la)) && DigitsValue(LaText(la)) == la.value
    ensures !(la.Some? && la.value >= 0) ==> LaText(la) == "0"
    ensures WriterGap(LaText(la)) == " " <==> la.Some? && la.value >= 1000
  {
    if la.Some? && la.value >= 0 {
      NatToStringValue(la.value);
      ThreeDigits(la.value);
    }
  }

  /** The writer and the loggers agree on the gap for areas of three and four digits, and
      there the message starts in the same column; for areas below 100 the writer puts two
      spaces where the loggers put one. */
  lemma GapAgainstLoggers(time: string, la: nat, message: string)
    ensures 100 <= la <= 9999 ==> WriterGap(LaText(Some(la))) == Gap(la)
    ensures 100 <= la <= 9999 ==>
              |Compose(time, WriterGap(LaText(Some(la))), LaText(Some(la)), message)| == |time| + 15 + |message|
    ensures la < 100 ==> WriterGap(LaText(Some(la))) == "  " && Gap(la) == " "
  {
    LaTextRule(Some(la));
    if 100 <= la <= 9999 {
      MessageColumn(time, la, message);
    }
  }

  /** The time field of a built line is the clock time, which reads back as the elapsed
      seconds modulo one day. */
  lemma WriterLineTime(enabled: bool, info: Option<MmInfo>, elapsedSeconds: nat)
    requires WriterLine(enabled, info, elapsedSeconds).Some?
    ensures var line := WriterLine(enabled, info, elapsedSeconds).value;
            var time := ClockHms(elapsedSeconds);
            |line| > |time| && line[1..1 + |time|] == time
            && var c := ReadHms(time);
            c.Some? && c.value.hours * 3600 + c.value.minutes * 60 + c.value.seconds == elapsedSeconds % 86400
  {
    var line := WriterLine(enabled, info, elapsedSeconds).value;
    var time := ClockHms(elapsedSeconds);
    assert |line| > |time| && line[1..1 + |time|] == time by {
      var i := info.value;
      var ssi := if i.ssi.Some? then i.ssi.value else -1;
      var laText := LaText(i.locationArea);
      assert line == Compose(time, WriterGap(laText), laText, WithSsi(i.message, ssi)) by {
        WriterLineParts(enabled, info, elapsedSeconds);
      }
      ComposeTime(time, WriterGap(laText), laText, WithSsi(i.message, ssi));
    }
    ClockHmsDenotesTimeOfDay(elapsedSeconds);
  }

  // ---- the daily file ----

  /** A calendar day (`DateTime.Date`). */
  datatype Date = Date(year: nat, month: nat, day: nat)

  /** The range of `DateTime`. */
  predicate ValidDate(d: Date)
  {
    1 <= d.year <= 9999 && 1 <= d.month <= 12 && 1 <= d.day <= 31
  }

  /** `DateTime.MinValue.Date`, the day the cache starts with. */
  const MinDay := Date(1, 1, 1)

  /** The "yyyy-MM-dd" format. */
  function DateText(d: Date): string
  {
    ZeroPad(d.year, 4) + "-" + ZeroPad(d.month, 2) + "-" + ZeroPad(d.day, 2)
  }

  const FilePrefix := "TETRA_MM-Registrations_"
  const FileSuffix := ".txt"

  /** The name of the day's log file. */
  function FileName(d: Date): string
  {
    FilePrefix + DateText(d) + FileSuffix
  }

  /** Reads "yyyy-MM-dd" back into a day. */
  function ReadDate(t: string): Option<Date>
  {
    if |t| == 10 && t[4] == '-' && t[7] == '-'
       && AllDigits(t[..4]) && AllDigits(t[5..7]) && AllDigits(t[8..])
    then Some(Date(DigitsValue(t[..4]), DigitsValue(t[5..7]), DigitsValue(t[8..])))
    else None
  }

  /** Reads a log file name back into its day. */
  function ReadFileName(name: string): Option<Date>
  {
    if |name| == |FilePrefix| + 10 + |FileSuffix| && name[..|FilePrefix|] == FilePrefix
       && name[|FilePrefix| + 10..] == FileSuffix
    then ReadDate(name[|FilePrefix|..|FilePrefix| + 10])
    else None
  }

  lemma ZeroPadWidth(n: nat, width: nat)
    requires n < Pow10(width) && width >= 1
    ensures |ZeroPad(n, width)| == width && DigitsValue(ZeroPad(n, width)) == n
  {
    NatToStringLength(n, width - 1);
    ZeroPadValue(n, width);
  }

  /** The date text has ten characters and reads back as the day. */
  lemma {:induction false} DateTextRoundTrip(d: Date)
    requires ValidDate(d)
    ensures |DateText(d)| == 10 && ReadDate(DateText(d)) == Some(d)
  {
    assert Pow10(4) == 10000 && Pow10(2) == 100;
    ZeroPadWidth(d.year, 4);
    ZeroPadWidth(d.month, 2);
    ZeroPadWidth(d.day, 2);
    var y, m, dd := ZeroPad(d.year, 4), ZeroPad(d.month, 2), ZeroPad(d.day, 2);
    var t := DateText(d);
    assert t == y + "-" + m + "-" + dd;
    assert t[..4] == y && t[5..7] == m && t[8..] == dd;
  }

  /** The file name reads back as its day: each day has a file of its own. */
  lemma FileNameRoundTrip(d: Date)
    requires ValidDate(d)
    ensures |FileName(d)| == |FilePrefix| + 10 + |FileSuffix|
    ensures ReadFileName(FileName(d)) == Some(d)
  {
    DateTextRoundTrip(d);
    var name := FileName(d);
    assert name[..|FilePrefix|] == FilePrefix;
    assert name[|FilePrefix|..|FilePrefix| + 10] == DateText(d);
    assert name[|FilePrefix| + 10..] == FileSuffix;
  }

  /** A path that ends with the file names of two days belongs to one day only. */
  lemma OneDayPerPath(path: string, a: Date, b: Date)
    requires ValidDate(a) && ValidDate(b)
    requires EndsWith(path, FileName(a)) && EndsWith(path, FileName(b))
    ensures a == b
  {
    FileNameRoundTrip(a);
    FileNameRoundTrip(b);
    SameLengthSuffix(path, FileName(a), FileName(b));
  }

  /** Two suffixes of one text with the same length are the same. */
  lemma SameLengthSuffix(path: string, x: string, y: string)
    requires EndsWith(path, x) && EndsWith(path, y) && |x| == |y|
    ensures x == y
  {
  }

  /** `string.IsNullOrWhiteSpace` on the folder setting (a missing setting or missing
      settings object is `None`), falling back to the application's base directory. */
  function LogFolder(setting: Option<string>, baseDirectory: string): string
  {
    if setting.None? || RegLogger.IsBlank(setting.value) then baseDirectory else setting.value
  }

  predicate IsSeparator(c: char) { c == '\\' || c == '/' }

  /** `Path.Combine(folder, name)` for a name that is not rooted: no separator is inserted
      when the folder is empty or one side already has one at the join. */
  function CombinePath(folder: string, name: string): string
  {
    if folder == [] then name
    else if name == [] then folder
    else if IsSeparator(folder[|folder| - 1]) || IsSeparator(name[0]) then folder + name
    else folder + "\\" + name
  }

  /** The path of a day's log file. */
  function LogPath(setting: Option<string>, baseDirectory: string, d: Date): string
  {
    CombinePath(LogFolder(setting, baseDirectory), FileName(d))
  }

  /** The day's file lies in the chosen folder, under the day's name; a folder setting that
      is blank or missing falls back to the base directory. */
  lemma LogPathShape(setting: Option<string>, baseDirectory: string, d: Date)
    ensures EndsWith(LogPath(setting, baseDirectory, d), FileName(d))
    ensures StartsWith(LogPath(setting, baseDirectory, d), LogFolder(setting, baseDirectory))
    ensures setting.Some? && !RegLogger.IsBlank(setting.value) ==> LogFolder(setting, baseDirectory) == setting.value
    ensures setting.None? || RegLogger.IsBlank(setting.value) ==> LogFolder(setting, baseDirectory) == baseDirectory
  {
    var folder, name := LogFolder(setting, baseDirectory), FileName(d);
    var path := CombinePath(folder, name);
    if folder != [] && !IsSeparator(folder[|folder| - 1]) && !IsSeparator(name[0]) {
      assert path == folder + ("\\" + name);
    }
    assert path[..|folder|] == folder;
  }

  /** The writer's static state: the day of the file in use and its path (empty before
      the first write). */
  class LogFile {
    var currentDay: Date
    var currentPath: string

    /** The cached path, once chosen, is the file of the cached day. */
    predicate Valid()
      reads this
    {
      currentPath != [] ==> EndsWith(currentPath, FileName(currentDay))
    }

    constructor()
      ensures Valid() && currentDay == MinDay && currentPath == []
    {
      currentDay := MinDay;
      currentPath := [];
    }

    /** `WriteLine`: on a new day, or before any path was chosen, the day is recorded and the
        path computed from the folder setting; then `line` and a line break are appended to
        `path`. The path stays cached for the rest of the day, whatever the setting says. */
    method WriteLine(line: string, today: Date, folderSetting: Option<string>, baseDirectory: string)
      returns (path: string, appended: string)
      requires Valid()
      modifies this
      ensures Valid()
      ensures currentDay == today && path == currentPath && appended == line + NewLine
      ensures old(currentDay) != today || old(currentPath) == [] ==>
                currentPath == LogPath(folderSetting, baseDirectory, today)
      ensures old(currentDay) == today && old(currentPath) != [] ==> currentPath == old(currentPath)
      ensures EndsWith(path, FileName(today))
    {
      if today != currentDay || currentPath == [] {
        currentDay := today;
        var folder := LogFolder(folderSetting, baseDirectory);
        currentPath := CombinePath(folder, FileName(today));
        LogPathShape(folderSetting, baseDirectory, today);
      }
      path := currentPath;
      appended := line + NewLine;
    }

    /** `TryLog`: builds the line and, when there is one, appends it to the day's file;
        without a line the state is unchanged. */
    method TryLog(enabled: bool, info: Option<MmInfo>, elapsedSeconds: nat, today: Date,
                  folderSetting: Option<string>, baseDirectory: string)
      returns (write: Option<Append>)
      requires Valid()
      modifies this
      ensures Valid()
      ensures write.Some? <==> WriterLine(enabled, info, elapsedSeconds).Some?
      ensures write.None? ==> currentDay == old(currentDay) && currentPath == old(currentPath)
      ensures write.Some? ==>
                write.value.text == WriterLine(enabled, info, elapsedSeconds).value + NewLine
                && write.value.path == currentPath && currentDay == today
                && EndsWith(write.value.path, FileName(today))
    {
      var line := WriterLine(enabled, info, elapsedSeconds);
      if line.None? {
        return None;
      }
      var path, text := WriteLine(line.value, today, folderSetting, baseDirectory);
      write := Some(Append(path, text));
    }
  }

  /** One `File.AppendAllText`: the text added to the file at `path`. */
  datatype Append = Append(path: string, text: string)
}
