# TETRA plugin core: decimator, MM registration log and channel tabs

This project models, in Dafny, the core of the SDR# TETRA decoder plugin.

- **Multi-stage decimator** (`MultiStageDecimator.cs`, module `Decimator`)
  - The rounded input/output rate ratio is factored into stages: preferred factors 8, 6, 5, 4, 3, 2 first, then whatever is left.
  - Each stage is a complex FIR filter whose delay line is a circular array. It keeps every `d`-th output in a scratch buffer of `max(1024, maxInput)` samples.
  - `Process` runs the stages one after another and copies the result into the caller's output buffer.
  - Samples are pairs of integers and taps are integers. The filter's output is proved to be the convolution of its taps with the samples it has been fed.
  - `Process` is proved to leave the cascade of those stage outputs in `output`.
- **MM PDU decoding** (`Class18.cs`, module `MmDecode`)
  - `ParseMm` reads the 4-bit PDU type and the bounds-checked sub-fields and picks the `MmText` message.
  - An encoder for the fields it reads gives a decode/encode round trip.
- **Registration loggers**
  - `MmRegistrationsLogger.cs` (module `RegLogger`) builds the registration log messages and log lines.
  - `Interface/MmRegistrationsLogger.cs` (module `MmLogInterface`) provides the line prefix, LA/SSI lookup and the per-SSI authentication text store.
  - `MmRegLogWriter.cs` (module `RegLogWriter`) holds the line with its SSI rule and the day-cached log file path.
  - Module `LogLine` holds the time formats and the common " time gap [LA: n]   message" layout, with a parser that takes a line apart again.
- **Channel tabs** (`TetraMultiPanel.cs` and the instance counter of `TetraPlugin.cs`, modules `ChannelIds` and `ChannelPanel`)
  - The channels file is loaded by a tag scanner and saved from the tab titles.
  - Saving and then loading gives back the distinct positive ids in ascending order.
  - The panel keeps at least one tab and rewrites the file after every change.
- **Shared modules**
  - `Text` holds decimal rendering and `int.TryParse`, `Trim`, ordinal `Contains`, ASCII case folding and integer division facts.
  - `Fields` holds the decoded field names and PDU type numbers.

Points where the code and its own comments or documentation disagree follow the code:

- **Stage output length.** Each decimator stage keeps the outputs at indices `0, d, 2d, …`, which is `ceil(len / d)` samples, not `len / d` rounded down.
- **Reject-cause texts.** The two tables do not agree:
  - in `BuildMessage`, cause 3 is "LA not allowed" and cause 9 is "ITSI/ATSI unknown";
  - in `MmText.MapRejectCause`, those texts belong to causes 12 and 13.

  Both tables are modelled as written.
- **Accept text.** `MmText.MapRegistrationAccepted` ignores the accept type.
- **PDU type numbers.** The two decoders number the location-update PDUs differently:
  - `Class18.ParseMm` treats type 8 as the accept and type 9 as the reject;
  - the `MmPduType` enumeration has 5 as the accept and 7 as the reject, with 8 reserved and 9 the location-update proceeding PDU, and `BuildMessage` follows it.

  Each is modelled as written (`MmDecode.DecodeMm` and `RegLogger.BuildMessage`).
- **Gap rules.** The three loggers use different gap rules (`RegLogWriter.GapAgainstLoggers` states where they agree).

## Model

| member | source | states |
|---|---|---|
| `Decimator.Fir` | MultiStageDecimator.cs:28-43 | the output of a filter fed a history of samples: the sum of tap `i` times the sample `i` steps old, a sample before the first counting as zero; `FirFilter.Process` is proved to return it |
| `Decimator.FirFilter.constructor` | MultiStageDecimator.cs:21-26 | one zero delay slot per tap, cursor at slot 0, nothing fed yet |
| `Decimator.FirFilter.Process` | MultiStageDecimator.cs:28-43 | `x` overwrites the slot at the cursor, the cursor advances modulo the tap count, and the result is the convolution of the taps with the whole history including `x` |
| `Decimator.FirFilter.Convolve` | MultiStageDecimator.cs:31-40 | walking back from the newest slot with wrap-around, tap `i` meets the sample `i` steps old, so the accumulated sum is the filter output |
| `Decimator.WindowPush` | MultiStageDecimator.cs:30 | writing the new sample at the slot after the newest makes the delay line hold the last `n` samples of the longer history |
| `Decimator.StepBack` | MultiStageDecimator.cs:39 | the `--di < 0` wrap is subtraction modulo the line length |
| `Decimator.Advance` | MultiStageDecimator.cs:41 | the `++_idx >= Length` wrap is addition modulo the line length |
| `Decimator.SlotsReadOnce` | MultiStageDecimator.cs:33-40 | the tap loop visits every delay slot exactly once |
| `Decimator.ImpulseResponse` | MultiStageDecimator.cs:28-43 | the filter's impulse response is its tap sequence followed by zeros |
| `Decimator.FactorFrom` | MultiStageDecimator.cs:79-99 | the stage list of the factoring loop: each preferred factor, from `Prefs[i]` on, as long as it divides the remainder, then the remainder when it is above 1 |
| `Decimator.Factor` | MultiStageDecimator.cs:79-99 | the loop over the preferred factors returns exactly the stage list `FactorFrom(n, 0)` |
| `Decimator.FactorSpec` | MultiStageDecimator.cs:79-99 | the stages multiply to the ratio, each is at least 2, preferred stages come first in non-increasing order, each preferred stage is taken while it divides what remains (`Greedy`), only the last stage may be non-preferred and it is then divisible by none of 2, 3, 5; ratio 1 gives no stages |
| `Decimator.FactorGreedy` | MultiStageDecimator.cs:84-91 | what remains when a preferred stage is taken is divisible by no larger preferred factor: each factor is repeated while it divides |
| `Decimator.FactorUnique` | MultiStageDecimator.cs:79-99 | any stage list keeping all of `FactorSpec`'s promises for a ratio is the list the loop returns, so those promises fix the result |
| `Decimator.StagedUnique` | MultiStageDecimator.cs:84-97 | from any point of the loop, a list keeping the promises for the remainder is the list the rest of the loop builds |
| `Decimator.FactorProduct` | MultiStageDecimator.cs:84-97 | the product of the stages is the ratio |
| `Decimator.FactorAtLeastTwo` | MultiStageDecimator.cs:84-97 | every stage is at least 2 |
| `Decimator.FactorBounds` | MultiStageDecimator.cs:84-91 | a preferred stage never exceeds the preferred factor the loop had reached |
| `Decimator.FactorOrder` | MultiStageDecimator.cs:84-97 | every stage but the last is a preferred factor and they do not grow |
| `Decimator.FactorLeftover` | MultiStageDecimator.cs:92-97 | a non-preferred last stage is more than 1 and divisible by none of the preferred factors |
| `Decimator.PreferredCons` | MultiStageDecimator.cs:84-91 | a preferred factor at least as large as the later preferred stages can be put in front |
| `Decimator.PrefsDescending` | MultiStageDecimator.cs:82 | the preference list 8, 6, 5, 4, 3, 2 is strictly descending and at least 2 |
| `Decimator.FactorExamples` | MultiStageDecimator.cs:79-99 | 36 gives 6, 6; 16 gives 8, 2; 49 stays one stage of 49 |
| `Decimator.RoundHalfEvenNearest` | MultiStageDecimator.cs:51 | `Math.Round` gives the nearest integer, a tie going to the even one |
| `Decimator.StageRatio` | MultiStageDecimator.cs:50-58 | the factored ratio of two positive whole-number rates: rounded half to even, then raised to 1 when it is below 1 and the ratio is more than a millionth away from it |
| `Decimator.StageRatioSpec` | MultiStageDecimator.cs:50-58 | a whole ratio is kept, otherwise the nearest integer, raised to at least 1 unless within a millionth of 0 |
| `Decimator.KeepLength` | MultiStageDecimator.cs:138-145 | keeping the outputs at multiples of `d` keeps `ceil(len / d)` of them |
| `Decimator.KeepAt` | MultiStageDecimator.cs:141 | the `j`-th kept sample is output `j * d` |
| `Decimator.CeilStep` | MultiStageDecimator.cs:141-143 | one more output adds a kept sample exactly when its index is a multiple of `d` |
| `Decimator.TakeKeepStep` | MultiStageDecimator.cs:141-143 | a kept output is stored only while the scratch buffer has room |
| `Decimator.FirRunStep` | MultiStageDecimator.cs:140 | feeding one more sample adds the filter's output for the longer history |
| `Decimator.StageSample` | MultiStageDecimator.cs:138-145 | one pass of the inner loop keeps the stage state: history extended by one sample, kept outputs in the buffer |
| `Decimator.RunStage` | MultiStageDecimator.cs:132-145 | a stage feeds every input sample to its filter and leaves in its buffer the outputs at multiples of `d`, at most the buffer length |
| `Decimator.CascadeLength` | MultiStageDecimator.cs:153 | the length after `s` stages is the repeated `ceil(len / d)` capped at the buffer size |
| `Decimator.CascadeStep` | MultiStageDecimator.cs:130-161 | stage `s + 1` of the cascade is stage `s`'s samples through filter `s` |
| `Decimator.FedAt` | MultiStageDecimator.cs:130-161 | after `s` stages have run, filter `t < s` has been fed the cascade after `t` stages, and the other filters nothing new |
| `Decimator.CopyPrefix` | MultiStageDecimator.cs:165 | the first `n` samples are copied and the rest of the destination is untouched |
| `Decimator.MultiStage.NewStages` | MultiStageDecimator.cs:62-76 | one fresh, distinct filter (taps `lowpass(s)`, empty history) and one fresh scratch buffer of `maxIn` samples per stage |
| `Decimator.MultiStage.constructor` | MultiStageDecimator.cs:46-77 | scratch size `max(1024, maxInput)`, stages are the factoring of the rounded ratio, fresh filters with empty histories |
| `Decimator.MultiStage.Create` | MultiStageDecimator.cs:49 | non-positive rates are refused (the source throws), any other rates give a valid decimator |
| `Decimator.MultiStage.RunStageAt` | MultiStageDecimator.cs:132-145 | stage `s` turns the cascade after `s` stages into the cascade after `s + 1` in its buffer and feeds only filter `s` |
| `Decimator.MultiStage.Step` | MultiStageDecimator.cs:130-160 | one pass of the stage loop advances the loop state by one stage |
| `Decimator.MultiStage.Forward` | MultiStageDecimator.cs:155-160 | the kept samples are copied into `output` and become the next stage's input |
| `Decimator.MultiStage.RunStages` | MultiStageDecimator.cs:130-161 | the stage loop ends with the cascade after every stage |
| `Decimator.MultiStage.Process` | MultiStageDecimator.cs:123-167 | returns the last stage's length capped at `maxOut`; `output` holds that prefix of the decimated signal; every filter's history grows by its stage input; no stages with a non-empty copy is the null-buffer fault |
| `MmDecode.ReadBits` | Class18.cs:25 | a field of `len` bits is below `2^len` |
| `MmDecode.ReadEncodedBits` | Class18.cs:25 | reading back a field written most significant bit first gives its value, wherever it sits |
| `MmDecode.SafeBits` | Class18.cs:68-72 | -1 exactly when the field runs past the valid length, otherwise the field value |
| `MmDecode.PduType` | Class18.cs:25 | the PDU type is a 4-bit value |
| `MmDecode.ParseMm` | Class18.cs:11-66 | LA and SSI are kept exactly when the lower layers report them non-negative |
| `MmDecode.DecodeMm` | Class18.cs:24-62 | the message `ParseMm` settles on: the basic text, replaced by the authentication text for types 1 and 2, the accept text for type 8 and the reject text for type 9, each only when its bounds-checked field is readable |
| `MmDecode.MapBasic` | Class18.cs:77-81 | "MM: PDU " and the type number |
| `MmDecode.MapAuthentication` | Class18.cs:83-100 | "demands" for type 1; for type 2 "failed" exactly for sub-type 1 and "successful" otherwise; a generic text for any other type |
| `MmDecode.MapRegistrationAccepted` | Class18.cs:102-107 | one fixed accept text whatever the accept type and SSI |
| `MmDecode.MapLuTypeSuffix` | Class18.cs:116-126 | the four location-update type suffixes for 0..3, nothing for any other value |
| `MmDecode.MapRejectCause` | Class18.cs:129-155 | the twenty fixed cause texts for 0..19, "Cause n" for every other value |
| `MmDecode.MapRegistrationRejected` | Class18.cs:109-114 | the reject text, the suffix of the location-update type and the cause text after " CAUSE: " |
| `MmDecode.DecodeMmBasic` | Class18.cs:31-62 | types other than 1, 2, 8, 9, and types whose first field is cut off, are reported by number |
| `MmDecode.DecodeMmAuthentication` | Class18.cs:34-42 | authentication PDUs carry their 2-bit sub-type |
| `MmDecode.DecodeMmAccept` | Class18.cs:45-52 | an accept carries its 2-bit accept type |
| `MmDecode.DecodeMmReject` | Class18.cs:53-62 | a reject reads the 2-bit update type if present (else -1) and then the 5-bit cause; without a readable cause it is reported by number |
| `MmDecode.DecodeEncodeMm` | Class18.cs:11-66 | decoding an encoded message gives it back, wherever it sits and whatever follows |
| `MmDecode.RejectPduText` | Class18.cs:109-114 | an encoded reject is logged with the suffix of its update type and its cause text |
| `MmDecode.LuTypeSuffixInjective` | Class18.cs:116-126 | the four update types have different suffixes |
| `MmDecode.NumberedCauseInjective` | Class18.cs:129-155 | causes outside 0..19 are rendered by number and can be told apart |
| `MmDecode.FiveBitCausesAboveTable` | Class18.cs:153 | 5-bit causes 20..31 read "Cause n" |
| `RegLogger.AuthenticationMessage` | MmRegistrationsLogger.cs:62-74 | the "demands" line when the sub-type is absent, 0 or 1, otherwise the result line naming the status twice |
| `RegLogger.AcceptMessage` | MmRegistrationsLogger.cs:76-103 | the accept prefix chosen by `Registration_required`, the SSI, an optional GSSI, the status, an optional CCK and the accept type name |
| `RegLogger.RejectMessage` | MmRegistrationsLogger.cs:105-130 | the reject prefix, the SSI, the accept type name and the cause text |
| `RegLogger.StatusMessage` | MmRegistrationsLogger.cs:132-138 | the status prefix and the SSI, with the downlink status when it is present |
| `RegLogger.CauseName` | MmRegistrationsLogger.cs:119-127 | this logger's cause texts: causes 3 and 9 by name, any other cause as "Cause n" |
| `RegLogger.BuildMessage` | MmRegistrationsLogger.cs:57-143 | a message exactly for the four known PDU types, none for the rest |
| `RegLogger.MessageNamesSsi` | MmRegistrationsLogger.cs:60-138 | every built message contains "SSI: " and the SSI |
| `RegLogger.MessageStart` | MmRegistrationsLogger.cs:60-138 | each message starts with the fixed text of its kind |
| `RegLogger.AuthenticationDemandIff` | MmRegistrationsLogger.cs:62-74 | "demands" exactly when the sub-type is absent, 0 or 1 |
| `RegLogger.AcceptPrefixIff` | MmRegistrationsLogger.cs:95-96 | "registration/authentication" exactly when registration-required is 1 |
| `RegLogger.AcceptGssiIff` | MmRegistrationsLogger.cs:97-99 | a GSSI segment follows the SSI exactly when a non-negative GSSI is present, and it is that GSSI |
| `RegLogger.OptionalSegment` | MmRegistrationsLogger.cs:98-99 | an optional segment before " - " can be detected right after the head |
| `RegLogger.AcceptShowsCck` | MmRegistrationsLogger.cs:100 | a non-negative CCK identifier always appears |
| `RegLogger.AcceptTypeNames` | MmRegistrationsLogger.cs:81-92 | accept types 1 and 2 have their own names; any other value or a missing field reads as roaming |
| `RegLogger.CauseNameInjective` | MmRegistrationsLogger.cs:118-128 | different reject causes give different texts |
| `RegLogger.RejectCauseText` | MmRegistrationsLogger.cs:105-130 | a reject line ends with " CAUSE: " and the cause text, "Unknown" exactly when the cause is missing |
| `RegLogger.StatusOnlyWhenPresent` | MmRegistrationsLogger.cs:132-138 | a status segment follows exactly when the status is present, and shows it |
| `RegLogger.SsiOf` | MmRegistrationsLogger.cs:26-28 | MM_SSI when present, else SSI, else -1 |
| `RegLogger.MessageNotBlank` | MmRegistrationsLogger.cs:34 | no built message is blank, so the blank check only drops unknown types |
| `RegLogger.LoggedEntry` | MmRegistrationsLogger.cs:14-34 | the gates of `TryLog`: a present non-empty PDU with a type, a non-negative LA and SSI, and a built message that is not blank |
| `RegLogger.LoggedEntryIff` | MmRegistrationsLogger.cs:18-34 | an entry exactly for a present PDU with a type, non-negative LA and SSI and a known type; it holds that LA and the built message |
| `RegLogger.RegistrationLine` | MmRegistrationsLogger.cs:14-41 | the line `TryLog` appends for an entry: the total-hours time, the gap for the LA, the LA and the message |
| `RegLogger.RegistrationLineIff` | MmRegistrationsLogger.cs:18-41 | a line is written exactly when an entry is logged |
| `RegLogger.RegistrationLineParts` | MmRegistrationsLogger.cs:40-41 | a written line takes apart into the decimal LA and the built message |
| `RegLogger.RegistrationLineTime` | MmRegistrationsLogger.cs:36-37 | the time field is the elapsed time in total hours, minutes and seconds |
| `LogLine.TotalHms` | MmRegistrationsLogger.cs:36-37 | elapsed time as two-digit-padded total hours, minutes and seconds |
| `LogLine.ClockHms` | MmRegLogWriter.cs:26 | elapsed time as `hh:mm:ss` with the hours wrapping at 24 |
| `LogLine.Gap` | MmRegistrationsLogger.cs:39-40 | two spaces for an LA from 100 to 999, one space otherwise |
| `LogLine.Compose` | MmRegistrationsLogger.cs:41 | the line layout: a space, the time, the gap, "[LA: ", the LA text, "]", three spaces and the message |
| `LogLine.ReadHmsOfHms` | MmRegistrationsLogger.cs:37 | "00"-padded hours, minutes and seconds read back as themselves |
| `LogLine.TotalHmsDenotesElapsed` | Interface/MmRegistrationsLogger.cs:52-58 | the total-hours time denotes exactly the elapsed whole seconds |
| `LogLine.ClockHmsDenotesTimeOfDay` | MmRegLogWriter.cs:26 | the `hh\:mm\:ss` time denotes the elapsed seconds modulo one day |
| `LogLine.DecomposeCompose` | MmRegistrationsLogger.cs:41 | a composed line gives back its LA text and message, whatever the message holds |
| `LogLine.MessageColumn` | MmRegistrationsLogger.cs:39-41 | for three- and four-digit areas the message starts at the same column |
| `MmLogInterface.FormatPrefix` | Interface/MmRegistrationsLogger.cs:60-67 | the line prefix: two spaces after the time when the LA has three digits, a negative LA counting as one digit |
| `MmLogInterface.FormatPrefixLayout` | Interface/MmRegistrationsLogger.cs:60-67 | the prefix plus a message is the common line layout, two spaces exactly for LA 100..999 |
| `MmLogInterface.GetLa` | Interface/MmRegistrationsLogger.cs:83-89 | the decoded LA, or -1 when absent |
| `MmLogInterface.LogMmLine` | Interface/MmRegistrationsLogger.cs:101-112 | no line when logging is off; otherwise the prefix for the LA, shown as 0 when missing or negative, and the message as given |
| `MmLogInterface.LogMmLineParts` | Interface/MmRegistrationsLogger.cs:101-112 | a line exactly when logging is on; it gives back the shown LA (0 for a missing or negative one) and the message unchanged |
| `MmLogInterface.Remembered` | Interface/MmRegistrationsLogger.cs:114-121 | the store after remembering: unchanged for a non-positive SSI, otherwise that SSI mapped to the text, a null text as "" |
| `MmLogInterface.LastAuthText` | Interface/MmRegistrationsLogger.cs:123-130 | the stored text of a positive known SSI, "" otherwise |
| `MmLogInterface.LastAfterRemembered` | Interface/MmRegistrationsLogger.cs:114-130 | after remembering, the SSI reads the new text (a null text as empty), every other SSI what it read before |
| `MmLogInterface.RememberedKeepsPositive` | Interface/MmRegistrationsLogger.cs:116 | the store never holds a non-positive SSI |
| `MmLogInterface.AuthTextStore.constructor` | Interface/MmRegistrationsLogger.cs:25 | the store starts empty |
| `MmLogInterface.AuthTextStore.RememberAuthText` | Interface/MmRegistrationsLogger.cs:114-121 | the map becomes `Remembered` of the old map |
| `MmLogInterface.AuthTextStore.GetLastAuthText` | Interface/MmRegistrationsLogger.cs:123-130 | the stored text for a positive known SSI, the empty text otherwise |
| `RegLogWriter.WriterLine` | MmRegLogWriter.cs:18-39 | no line when logging is off or the message is missing or empty; otherwise the clock time, the writer's gap, the shown LA and the message under the SSI rule |
| `RegLogWriter.WriterLineIff` | MmRegLogWriter.cs:18-21 | a line exactly when logging is on and the message is non-empty |
| `RegLogWriter.WithSsi` | MmRegLogWriter.cs:34-39 | ": SSI: n" appended for a known SSI when the line does not hold "SSI:" yet |
| `RegLogWriter.WithSsiRule` | MmRegLogWriter.cs:35-39 | a known SSI is always named afterwards; the text is left alone exactly when the SSI is unknown or "SSI:" is already there |
| `RegLogWriter.WithSsiOnce` | MmRegLogWriter.cs:35-39 | the SSI suffix is never added twice |
| `RegLogWriter.WithSsiPastPrefix` | MmRegLogWriter.cs:35 | searching the whole line for "SSI:" is the same as searching the message |
| `RegLogWriter.WriterLineParts` | MmRegLogWriter.cs:23-39 | a line is the common layout and gives back the shown LA and the message with the SSI rule applied |
| `RegLogWriter.LaText` | MmRegLogWriter.cs:29 | the decimal LA when it is known and non-negative, "0" otherwise |
| `RegLogWriter.WriterGap` | MmRegLogWriter.cs:30 | two spaces when the LA text has at most three characters, one otherwise |
| `RegLogWriter.LaTextRule` | MmRegLogWriter.cs:29-30 | the shown LA is the area itself when non-negative and "0" otherwise; a single space exactly from 1000 on |
| `RegLogWriter.GapAgainstLoggers` | MmRegLogWriter.cs:28-30 | the writer agrees with the loggers' gap for 100..9999 and puts two spaces where they put one below 100 |
| `RegLogWriter.WriterLineTime` | MmRegLogWriter.cs:26 | the time field reads back as the elapsed seconds modulo one day |
| `RegLogWriter.DateTextRoundTrip` | MmRegLogWriter.cs:56 | "yyyy-MM-dd" has ten characters and reads back as the day |
| `RegLogWriter.FileNameRoundTrip` | MmRegLogWriter.cs:56 | the file name reads back as its day |
| `RegLogWriter.OneDayPerPath` | MmRegLogWriter.cs:56 | a path names one day only |
| `RegLogWriter.LogFolder` | MmRegLogWriter.cs:50-54 | the folder setting, or the base directory when the setting is missing or blank |
| `RegLogWriter.LogPath` | MmRegLogWriter.cs:50-56 | the day's file name combined with the chosen folder |
| `RegLogWriter.LogPathShape` | MmRegLogWriter.cs:50-56 | the path starts with the folder (the base directory for a blank or missing setting) and ends with the day's file name |
| `RegLogWriter.LogFile.constructor` | MmRegLogWriter.cs:15-16 | the minimum day and no path yet |
| `RegLogWriter.LogFile.WriteLine` | MmRegLogWriter.cs:44-60 | a new day or no path recomputes the path, otherwise the cached one is kept; the line and a line break go to that path, which names today's file |
| `RegLogWriter.LogFile.TryLog` | MmRegLogWriter.cs:18-42 | something is appended exactly when a line is built, and it is that line to today's file; otherwise the state is unchanged |
| `Text.ParseInt` | TetraMultiPanel.cs:161 | `int.TryParse`: surrounding whitespace, an optional sign and decimal digits whose value fits in 32 bits, nothing otherwise |
| `Text.IntToString` | TetraMultiPanel.cs:188 | the invariant-culture decimal text, with a minus sign for a negative value |
| `Text.Trim` | TetraMultiPanel.cs:160 | the text without `char.IsWhiteSpace` characters at either end |
| `Text.ParseIntToString` | TetraMultiPanel.cs:161 | parsing the rendering of a 32-bit integer gives it back |
| `Text.IntToStringInjective` | TetraMultiPanel.cs:188 | different ids render differently |
| `Text.TrimBothEnds` | TetraMultiPanel.cs:160 | no white space is left at either end after a trim |
| `Text.TrimNoop` | TetraMultiPanel.cs:160 | a text without white space at its ends is its own trim |
| `ChannelIds.IndexOfFrom` | TetraMultiPanel.cs:156-158 | the first position at or after `start` where the tag matches, or -1; a reported match lies within the text |
| `ChannelIds.IndexOfFromMatch` | TetraMultiPanel.cs:156-158 | a reported position is a case-insensitive match |
| `ChannelIds.IndexOfFromFirst` | TetraMultiPanel.cs:156-158 | no match lies before the reported position, and none at all when -1 is reported |
| `ChannelIds.TagPair` | TetraMultiPanel.cs:156-160 | an opening tag and the closing tag found after it do not overlap and enclose a text |
| `ChannelIds.IdsOfPositive` | TetraMultiPanel.cs:161 | every collected id is a positive 32-bit integer |
| `ChannelIds.InsertSorted` | TetraMultiPanel.cs:164 | inserting keeps the list ascending and duplicate-free and adds exactly the id |
| `ChannelIds.SortDistinctSpec` | TetraMultiPanel.cs:164 | `Distinct().OrderBy` gives an ascending duplicate-free list of exactly the input's elements |
| `ChannelIds.SortedUnique` | TetraMultiPanel.cs:164 | an ascending duplicate-free list is determined by its elements |
| `ChannelIds.Scan` | TetraMultiPanel.cs:154-163 | the ids the loop collects from the file text, in file order |
| `ChannelIds.Loaded` | TetraMultiPanel.cs:138-170 | no ids without a file, otherwise the scanned ids without duplicates, ascending |
| `ChannelIds.LoadedShape` | TetraMultiPanel.cs:138-170 | the loaded ids are ascending, distinct, positive 32-bit, and exactly the scanned ones; no file gives none |
| `ChannelIds.LoadStep` | TetraMultiPanel.cs:156-162 | one round either stops, when a tag is missing, with nothing left to collect, or moves strictly forward past the closing tag with the tag's positive id still to be added |
| `ChannelIds.LoadRound` | TetraMultiPanel.cs:156-162 | one loop round adds the id of a tag text that parses to a positive number and goes on after the closing tag |
| `ChannelIds.CollectScan` | TetraMultiPanel.cs:154-163 | the loop collects the ids of the scanned tag texts in order |
| `ChannelIds.LoadChannelIds` | TetraMultiPanel.cs:138-170 | the method returns `Loaded` of the file |
| `ChannelIds.Serialize` | TetraMultiPanel.cs:186-190 | the opening line, one indented tag line per id and the closing line, joined by the line break |
| `ChannelIds.SerializeScan` | TetraMultiPanel.cs:186-190 | the scanner finds exactly the rendered ids of a saved file, in order |
| `ChannelIds.SerializeRoundTrip` | TetraMultiPanel.cs:186-190 | loading a saved list gives its positive ids, distinct and ascending |
| `ChannelIds.SerializeLoadsBack` | TetraMultiPanel.cs:186-190 | a list as the loader returns it loads back unchanged |
| `ChannelIds.Split` | TetraMultiPanel.cs:181 | `Split(' ')`: the pieces between separators, empty ones included |
| `ChannelIds.TitleId` | TetraMultiPanel.cs:181-182 | the second piece of the title parsed as a 32-bit integer, nothing when there is no second piece or it does not parse |
| `ChannelIds.SplitWord` | TetraMultiPanel.cs:181 | a word then a space: the word is the first piece of the split |
| `ChannelIds.TitleIdOfTitle` | TetraMultiPanel.cs:181-182 | the title "Kanaal id" yields the id back |
| `ChannelIds.TitleIdsOfTitles` | TetraMultiPanel.cs:178-183 | the panel's titles give back exactly its ids, in order |
| `ChannelIds.TitleRound` | TetraMultiPanel.cs:178-183 | one round of the title loop adds the title's id if it has one |
| `ChannelIds.LineRound` | TetraMultiPanel.cs:188 | one round of the line loop appends the id's line |
| `ChannelIds.SavedText` | TetraMultiPanel.cs:172-190 | the file text for the tab titles: the title ids without duplicates, ascending, serialised |
| `ChannelIds.SaveChannelIds` | TetraMultiPanel.cs:172-193 | the method returns `SavedText` of the titles |
| `ChannelIds.SaveLoadRoundTrip` | TetraMultiPanel.cs:172-193 | loading what was saved gives the distinct positive title ids, ascending |
| `ChannelPanel.InstanceCounter.constructor` | TetraPlugin.cs:14 | the counter starts at 0 |
| `ChannelPanel.InstanceCounter.Next` | TetraPlugin.cs:16-19 | the 32-bit increment, wrapping from the largest value to the smallest; the new value is returned |
| `ChannelPanel.InstanceCounter.EnsureAtLeast` | TetraPlugin.cs:21-30 | the counter becomes the larger of itself and `v` |
| `ChannelPanel.Max` | TetraMultiPanel.cs:57 | the maximum is an element and bounds all elements |
| `ChannelPanel.RemovedKeeps` | TetraMultiPanel.cs:129 | removing a tab keeps ids 32-bit and below any bound |
| `ChannelPanel.AppendedKeeps` | TetraMultiPanel.cs:89-102 | an id above the bound is new, and the longer list stays within a bound that covers it |
| `ChannelPanel.LoadedInt32` | TetraMultiPanel.cs:53-57 | loaded ids and their maximum are 32-bit |
| `ChannelPanel.TabsFileLoads` | TetraMultiPanel.cs:172-193 | the file a tab list saves to loads as its distinct positive ids, ascending |
| `ChannelPanel.RestartKeepsTabs` | TetraMultiPanel.cs:53-61 | a panel restarted from the file of one with distinct ascending positive ids gets those tabs back |
| `ChannelPanel.MultiPanel.constructor` | TetraMultiPanel.cs:53-70 | the loaded ids become the tabs and the counter is raised to their maximum; with none, one new channel; the file is saved; no tab id is above the counter |
| `ChannelPanel.MultiPanel.AddChannel` | TetraMultiPanel.cs:89-106 | a tab for the counter's next number is appended and the file saved; below the largest 32-bit value the id is new |
| `ChannelPanel.MultiPanel.RemoveCurrentChannel` | TetraMultiPanel.cs:108-131 | refused with one tab, no-op without a selection, otherwise the selected tab goes and the file is saved |

## Left out

- **Environment.** File I/O, the clock, locks and the UI are not modelled.
  - The file's content, the elapsed seconds and today's date are parameters.
  - Appends are returned as values.
  - `MessageBox`, tab controls, the per-channel `TetraPanel` and its settings, and `SaveAll` are not modelled.
  - Errors of `Directory.CreateDirectory` and the swallowed exceptions are not modelled.
- **Floating point.** `MakeLowpass` is not part of this model. The taps of stage `s` are given as `lowpass(s)`, 63 of them.
  - Samples and taps are integers, so float rounding in the filter is not modelled.
  - The rate ratio is computed exactly for whole-number rates. Rounding of the `double` division and the overflow of `(int)` for huge ratios are not modelled.
- `Decimator.MultiStage.constructor`: requires a stage ratio of at least 1. For a ratio of 0, `Factor` never leaves its first loop, because 0 is divisible by 8 forever. `Create` models the throw for non-positive rates.
- `Decimator.MultiStage.Process`: requires every intermediate stage length to fit in `maxOut`. Otherwise the source's next stage reads output memory it never wrote. The unsafe pointers become a `seq` input and an `array` output.
- `MmDecode.ReadBits`: `TetraUtils.BitsToInt32` is not part of this model. It is read as a most-significant-bit-first field of a bit sequence.
- `MmDecode.ParseMm`: takes `ReceivedData` LA and SSI as integers, because `ReceivedData` is not part of this model.
- **Null values.** Null references are `None` values (a missing PDU dictionary, `MmInfo`, message or settings). A null `MmInfo.Message` in the writer is modelled as the empty message, which the writer refuses in the same way.
- `ChannelIds.IndexOfFromMatch`: `OrdinalIgnoreCase` is modelled with ASCII case folding only.
- **Interface logger paths.** `GetFilePath` and `AppendLine` of the interface logger are not modelled separately. Their file name is the one `RegLogWriter.FileName` states.
- `RegLogWriter.LogPathShape`: `Path.Combine` with a rooted file name is not modelled; the file names here are never rooted.
- `ChannelPanel.MultiPanel.constructor`: sets all loaded tabs at once instead of calling `AddChannel(id)` per id. The intermediate saves are overwritten by the last one, so the final file is the same.
- **Tab selection.** The selected tab is a parameter of `RemoveCurrentChannel`, and selection changes are not modelled.
- `ChannelPanel.InstanceCounter.EnsureAtLeast`: the compare-and-swap retry loop is modelled as one atomic step, because concurrency is out of scope.
