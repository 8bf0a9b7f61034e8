/** The registrations logger that other decoders call with a ready message
    (`Interface/MmRegistrationsLogger.cs`): the line prefix with its digit-count gap rule,
    the LA lookup, the line of `LogMmLine`, and the per-SSI store of the last
    authentication text. */
module MmLogInterface {
  import opened Text
  import opened Fields
  import opened LogLine
  import opened RegLogger

  /** `FormatPrefix`: two spaces after the time when the LA has exactly three decimal
      digits; a negative LA counts as one digit. */
  function FormatPrefix(la: int, elapsedSeconds: nat): string
  {
    var digits := if la >= 0 then |IntToString(la)| else 1;
    var gap := if digits == 3 then "  " else " ";
    " " + TotalHms(elapsedSeconds) + gap + "[LA: " + IntToString(la) + "]   "
  }

  /** The prefix followed by a message is the common line layout, with two spaces exactly
      for the three-digit areas 100..999. */
  lemma FormatPrefixLayout(la: int, elapsedSeconds: nat, message: string)
    ensures FormatPrefix(la, elapsedSeconds) + message
            == Compose(TotalHms(elapsedSeconds), Gap(la), IntToString(la), message)
  {
    if la >= 0 {
      ThreeDigits(la);
    }
    var time := TotalHms(elapsedSeconds);
    var p := " " + time + Gap(la) + "[LA: " + IntToString(la) + "]   ";
    assert FormatPrefix(la, elapsedSeconds) == p;
  }

  /** `GetLa`: the decoded location area, or -1. */
  function GetLa(d: Decoded): (la: int)
    ensures LocationArea in d ==> la == d[LocationArea]
    ensures LocationArea !in d ==> la == -1
  {
    FieldOr(d, LocationArea)
  }

  /** `LogMmLine` without the file append: nothing when logging is switched off; otherwise
      the prefix for the LA (a missing or negative LA shows as 0) followed by the message,
      unchanged (a null message adds nothing). The SSI argument is not used. */
  function LogMmLine(enabled: bool, d: Decoded, ssi: int, message: Option<string>, elapsedSeconds: nat): Option<string>
  {
    if !enabled then None
    else
      var la := if GetLa(d) < 0 then 0 else GetLa(d);
      Some(FormatPrefix(la, elapsedSeconds) + (if message.Some? then message.value else ""))
  }

  /** A line is produced exactly when logging is on; it takes apart into the shown LA and
      the message as given. */
  lemma LogMmLineParts(enabled: bool, d: Decoded, ssi: int, message: Option<string>, elapsedSeconds: nat)
    ensures LogMmLine(enabled, d, ssi, message, elapsedSeconds).Some? <==> enabled
    ensures enabled ==>
              var shown: nat := if LocationArea in d && d[LocationArea] >= 0 then d[LocationArea] else 0;
              var text := if message.Some? then message.value else "";
              Decompose(LogMmLine(enabled, d, ssi, message, elapsedSeconds).value)
                == Some(LineParts(NatToString(shown), text))
  {
    if enabled {
      var shown: nat := if LocationArea in d && d[LocationArea] >= 0 then d[LocationArea] else 0;
      var text := if message.Some? then message.value else "";
      var time := TotalHms(elapsedSeconds);
      FormatPrefixLayout(shown, elapsedSeconds, text);
      HmsHasNoBracket(elapsedSeconds / 3600, elapsedSeconds / 60 % 60, elapsedSeconds % 60);
      DigitsFree(NatToString(shown), ']');
      DecomposeCompose(time, Gap(shown), NatToString(shown), text);
    }
  }

  // ---- the last authentication text per SSI ----

  /** The store after `RememberAuthText(ssi, authText)`: SSIs that are not positive are
      ignored, a null text is kept as the empty text. */
  function Remembered(m: map<int, string>, ssi: int, authText: Option<string>): map<int, string>
  {
    if ssi <= 0 then m else m[ssi := if authText.Some? then authText.value else ""]
  }

  /** What `GetLastAuthText(ssi)` answers for a store. */
  function LastAuthText(m: map<int, string>, ssi: int): string
  {
    if ssi > 0 && ssi in m then m[ssi] else ""
  }

  /** Reading after remembering: the remembered SSI gives the new text, every other SSI
      (and every non-positive one) what it gave before. */
  lemma LastAfterRemembered(m: map<int, string>, ssi: int, authText: Option<string>, other: int)
    ensures LastAuthText(Remembered(m, ssi, authText), other)
            == if other == ssi && ssi > 0 then (if authText.Some? then authText.value else "")
               else LastAuthText(m, other)
  {
  }

  predicate PositiveKeys(m: map<int, string>) { forall k :: k in m ==> k > 0 }

  /** Remembering keeps the store free of non-positive SSIs. */
  lemma RememberedKeepsPositive(m: map<int, string>, ssi: int, authText: Option<string>)
    requires PositiveKeys(m)
    ensures PositiveKeys(Remembered(m, ssi, authText))
  {
  }

  /** The logger's dictionary `_lastAuthBySsi`. */
  class AuthTextStore {
    var lastAuthBySsi: map<int, string>

    predicate Valid()
      reads this
    {
      PositiveKeys(lastAuthBySsi)
    }

    constructor()
      ensures Valid() && lastAuthBySsi == map[]
    {
      lastAuthBySsi := map[];
    }

    method RememberAuthText(ssi: int, authText: Option<string>)
      requires Valid()
      modifies this
      ensures Valid()
      ensures lastAuthBySsi == Remembered(old(lastAuthBySsi), ssi, authText)
    {
      if ssi <= 0 {
        return;
      }
      lastAuthBySsi := lastAuthBySsi[ssi := if authText.Some? then authText.value else ""];
    }

    function GetLastAuthText(ssi: int): (t: string)
      reads this
      ensures ssi > 0 && ssi in lastAuthBySsi ==> t == lastAuthBySsi[ssi]
      ensures !(ssi > 0 && ssi in lastAuthBySsi) ==> t == ""
    {
      LastAuthText(lastAuthBySsi, ssi)
    }
  }
}
