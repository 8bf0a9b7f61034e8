/** The registrations log written straight from a decoded MM PDU
    (`MmRegistrationsLogger.TryLog` and `BuildMessage`): which PDUs produce a line,
    where LA and SSI come from, and the message text of each PDU type. */
module RegLogger {
  import opened Text
  import opened Fields
  import opened LogLine

  const AuthStatus := "Authentication successful or no authentication currently in progress"
  const Demands := "BS demands authentication: "
  const ResultPrefix := "BS result to MS authentication: "
  const MsRequest := "MS request for registration"
  const RegAuthAccepted := MsRequest + "/authentication ACCEPTED"
  const RegAccepted := MsRequest + " ACCEPTED"
  const RejectPrefix := "MS updating in the network " + "is NOT ACCEPTED for "
  const StatusPrefix := "MM status: "

  function SsiText(ssi: int): string { "SSI: " + IntToString(ssi) }

  /** The value of a field, or -1 when the PDU does not carry it. */
  function FieldOr(d: Decoded, f: Field): int { if f in d then d[f] else -1 }

  /** Names of the location-update accept types; unnamed values fall back to roaming. */
  function AcceptTypeName(d: Decoded): string
  {
    if LocationUpdateAcceptType in d && d[LocationUpdateAcceptType] == 1 then
      "Service restoration roaming location updating"
    else if LocationUpdateAcceptType in d && d[LocationUpdateAcceptType] == 2 then
      "ITSI attach"
    else "Roaming location updating"
  }

  /** The reject-cause texts of this logger: two named causes, the rest by number. */
  function CauseName(rc: int): string
  {
    if rc == 3 then "LA not allowed (LA rejection)"
    else if rc == 9 then "ITSI/ATSI unknown (system rejection)"
    else "Cause " + IntToString(rc)
  }

  function CauseText(d: Decoded): string
  {
    if RejectCause in d then CauseName(d[RejectCause]) else "Unknown"
  }

  predicate DemandsAuthentication(d: Decoded)
  {
    AuthenticationSubType !in d || d[AuthenticationSubType] == 0 || d[AuthenticationSubType] == 1
  }

  function AuthenticationMessage(d: Decoded, ssi: int): string
  {
    if DemandsAuthentication(d) then Demands + SsiText(ssi)
    else ResultPrefix + AuthStatus + " " + SsiText(ssi) + " - " + AuthStatus
  }

  function AcceptPrefix(d: Decoded): string
  {
    if RegistrationRequired in d && d[RegistrationRequired] == 1 then RegAuthAccepted else RegAccepted
  }

  function GssiPart(d: Decoded): string
  {
    if FieldOr(d, MmGssi) > -1 then " GSSI: " + IntToString(d[MmGssi]) else ""
  }

  function CckPart(d: Decoded): string
  {
    if FieldOr(d, CckIdentifier) > -1 then " - CCK_identifier: " + IntToString(d[CckIdentifier]) else ""
  }

  function AcceptHead(d: Decoded, ssi: int): string
  {
    AcceptPrefix(d) + " for " + SsiText(ssi)
  }

  function AcceptTail(d: Decoded): string
  {
    " - " + AuthStatus + CckPart(d) + " - " + AcceptTypeName(d)
  }

  function AcceptMessage(d: Decoded, ssi: int): string
  {
    AcceptHead(d, ssi) + GssiPart(d) + AcceptTail(d)
  }

  function RejectMessage(d: Decoded, ssi: int): string
  {
    RejectPrefix + SsiText(ssi) + " - " + AcceptTypeName(d) + " CAUSE: " + CauseText(d)
  }

  function StatusMessage(d: Decoded, ssi: int): string
  {
    StatusPrefix + SsiText(ssi)
    + (if StatusDownlink in d then " - Status: " + IntToString(d[StatusDownlink]) else "")
  }

  /** `BuildMessage`: a text for the four PDU types the log knows, nothing for the rest.
      (The LA argument is accepted but unused, as in the logger.) */
  function BuildMessage(pduType: int, d: Decoded, ssi: int, la: int): (r: Option<string>)
    ensures r.Some? <==> pduType in {D_AUTHENTICATION, D_LOCATION_UPDATE_ACCEPT, D_LOCATION_UPDATE_REJECT, D_MM_STATUS}
  {
    if pduType == D_AUTHENTICATION then Some(AuthenticationMessage(d, ssi))
    else if pduType == D_LOCATION_UPDATE_ACCEPT then Some(AcceptMessage(d, ssi))
    else if pduType == D_LOCATION_UPDATE_REJECT then Some(RejectMessage(d, ssi))
    else if pduType == D_MM_STATUS then Some(StatusMessage(d, ssi))
    else None
  }

  lemma {:induction false} ContainsMiddle(a: string, t: string, b: string)
    ensures Contains(a + t + b, t)
  {
    ContainsSelf(t);
    ContainsPrefix(t, b, t);
    ContainsSuffix(a, t + b, t);
    assert a + t + b == a + (t + b);
  }

  lemma ContainsAt(x: string, t: string)
    ensures Contains(x + t, t)
  {
    ContainsSelf(t);
    ContainsSuffix(x, t, t);
  }

  /** Every message the logger builds names the SSI it was built for. */
  lemma MessageNamesSsi(pduType: int, d: Decoded, ssi: int, la: int)
    requires BuildMessage(pduType, d, ssi, la).Some?
    ensures Contains(BuildMessage(pduType, d, ssi, la).value, SsiText(ssi))
  {
    var s := SsiText(ssi);
    if pduType == D_AUTHENTICATION {
      if DemandsAuthentication(d) {
        ContainsAt(Demands, s);
      } else {
        var x := ResultPrefix + AuthStatus + " ";
        ContainsAt(x, s);
        ContainsPrefix(x + s, " - ", s);
        ContainsPrefix(x + s + " - ", AuthStatus, s);
      }
    } else if pduType == D_LOCATION_UPDATE_ACCEPT {
      var x := AcceptPrefix(d) + " for ";
      ContainsAt(x, s);
      ContainsPrefix(AcceptHead(d, ssi), GssiPart(d), s);
      ContainsPrefix(AcceptHead(d, ssi) + GssiPart(d), AcceptTail(d), s);
    } else if pduType == D_LOCATION_UPDATE_REJECT {
      ContainsAt(RejectPrefix, s);
      ContainsPrefix(RejectPrefix + s, " - ", s);
      ContainsPrefix(RejectPrefix + s + " - ", AcceptTypeName(d), s);
      ContainsPrefix(RejectPrefix + s + " - " + AcceptTypeName(d), " CAUSE: ", s);
      ContainsPrefix(RejectPrefix + s + " - " + AcceptTypeName(d) + " CAUSE: ", CauseText(d), s);
    } else {
      ContainsAt(StatusPrefix, s);
      ContainsPrefix(StatusPrefix + s,
                     if StatusDownlink in d then " - Status: " + IntToString(d[StatusDownlink]) else "", s);
    }
  }

  lemma AuthenticationStart(d: Decoded, ssi: int)
    ensures StartsWith(AuthenticationMessage(d, ssi), if DemandsAuthentication(d) then Demands else ResultPrefix)
  {
    var s := SsiText(ssi);
    if DemandsAuthentication(d) {
      StartsWithAppend(Demands, s, Demands);
    } else {
      StartsWithAppend(ResultPrefix, AuthStatus, ResultPrefix);
      StartsWithAppend(ResultPrefix + AuthStatus, " ", ResultPrefix);
      StartsWithAppend(ResultPrefix + AuthStatus + " ", s, ResultPrefix);
      StartsWithAppend(ResultPrefix + AuthStatus + " " + s, " - ", ResultPrefix);
      StartsWithAppend(ResultPrefix + AuthStatus + " " + s + " - ", AuthStatus, ResultPrefix);
    }
  }

  lemma AcceptStart(d: Decoded, ssi: int)
    ensures StartsWith(AcceptMessage(d, ssi), AcceptPrefix(d))
  {
    var p := AcceptPrefix(d);
    StartsWithAppend(p, " for ", p);
    StartsWithAppend(p + " for ", SsiText(ssi), p);
    StartsWithAppend(AcceptHead(d, ssi), GssiPart(d), p);
    StartsWithAppend(AcceptHead(d, ssi) + GssiPart(d), AcceptTail(d), p);
  }

  lemma RejectStart(d: Decoded, ssi: int)
    ensures StartsWith(RejectMessage(d, ssi), RejectPrefix)
  {
    var s := SsiText(ssi);
    StartsWithAppend(RejectPrefix, s, RejectPrefix);
    StartsWithAppend(RejectPrefix + s, " - ", RejectPrefix);
    StartsWithAppend(RejectPrefix + s + " - ", AcceptTypeName(d), RejectPrefix);
    StartsWithAppend(RejectPrefix + s + " - " + AcceptTypeName(d), " CAUSE: ", RejectPrefix);
    StartsWithAppend(RejectPrefix + s + " - " + AcceptTypeName(d) + " CAUSE: ", CauseText(d), RejectPrefix);
  }

  lemma StatusStart(d: Decoded, ssi: int)
    ensures StartsWith(StatusMessage(d, ssi), StatusPrefix)
  {
    var s := SsiText(ssi);
    StartsWithAppend(StatusPrefix, s, StatusPrefix);
    StartsWithAppend(StatusPrefix + s,
                     if StatusDownlink in d then " - Status: " + IntToString(d[StatusDownlink]) else "", StatusPrefix);
  }

  /** Each message starts with the fixed text of its kind. */
  lemma MessageStart(pduType: int, d: Decoded, ssi: int, la: int)
    requires BuildMessage(pduType, d, ssi, la).Some?
    ensures var m := BuildMessage(pduType, d, ssi, la).value;
            if pduType == D_AUTHENTICATION then
              StartsWith(m, if DemandsAuthentication(d) then Demands else ResultPrefix)
            else if pduType == D_LOCATION_UPDATE_ACCEPT then StartsWith(m, AcceptPrefix(d))
            else if pduType == D_LOCATION_UPDATE_REJECT then StartsWith(m, RejectPrefix)
            else StartsWith(m, StatusPrefix)
  {
    if pduType == D_AUTHENTICATION {
      AuthenticationStart(d, ssi);
    } else if pduType == D_LOCATION_UPDATE_ACCEPT {
      AcceptStart(d, ssi);
    } else if pduType == D_LOCATION_UPDATE_REJECT {
      RejectStart(d, ssi);
    } else {
      StatusStart(d, ssi);
    }
  }

  /** The authentication line says "demands" exactly when the sub-type is absent, 0 or 1;
      any other sub-type gives the result text. */
  lemma AuthenticationDemandIff(d: Decoded, ssi: int, la: int)
    ensures StartsWith(BuildMessage(D_AUTHENTICATION, d, ssi, la).value, Demands) <==> DemandsAuthentication(d)
  {
    MessageStart(D_AUTHENTICATION, d, ssi, la);
    if !DemandsAuthentication(d) {
      StartsWithDiffer(BuildMessage(D_AUTHENTICATION, d, ssi, la).value, ResultPrefix, Demands, 3);
    }
  }

  /** The accept line reads "registration/authentication" exactly when the PDU says
      registration is required (value 1). */
  lemma AcceptPrefixIff(d: Decoded, ssi: int, la: int)
    ensures StartsWith(BuildMessage(D_LOCATION_UPDATE_ACCEPT, d, ssi, la).value, RegAuthAccepted)
            <==> RegistrationRequired in d && d[RegistrationRequired] == 1
  {
    MessageStart(D_LOCATION_UPDATE_ACCEPT, d, ssi, la);
    if !(RegistrationRequired in d && d[RegistrationRequired] == 1) {
      StartsWithDiffer(BuildMessage(D_LOCATION_UPDATE_ACCEPT, d, ssi, la).value, RegAccepted, RegAuthAccepted, 27);
    }
  }

  lemma AcceptTailStart(d: Decoded)
    ensures StartsWith(AcceptTail(d), " - ")
  {
    StartsWithAppend(" - ", AuthStatus, " - ");
    StartsWithAppend(" - " + AuthStatus, CckPart(d), " - ");
    StartsWithAppend(" - " + AuthStatus + CckPart(d), " - ", " - ");
    StartsWithAppend(" - " + AuthStatus + CckPart(d) + " - ", AcceptTypeName(d), " - ");
  }

  lemma AcceptGssi(d: Decoded, ssi: int)
    ensures var m := AcceptMessage(d, ssi);
            var head := AcceptHead(d, ssi);
            StartsWith(m, head)
            && (StartsWith(m[|head|..], " GSSI: ") <==> MmGssi in d && d[MmGssi] >= 0)
            && (MmGssi in d && d[MmGssi] >= 0 ==>
                  StartsWith(m[|head|..], " GSSI: " + IntToString(d[MmGssi]) + " - "))
  {
    var present := MmGssi in d && d[MmGssi] >= 0;
    AcceptTailStart(d);
    OptionalSegment(AcceptHead(d, ssi), GssiPart(d), AcceptTail(d),
                    if present then IntToString(d[MmGssi]) else "", present);
  }

  /** A text made of a head, an optional " GSSI: n" segment and a tail that starts with
      " - ": after the head it starts with " GSSI: " exactly when the segment is there. */
  lemma OptionalSegment(head: string, g: string, t: string, n: string, present: bool)
    requires StartsWith(t, " - ")
    requires g == if present then " GSSI: " + n else ""
    ensures var m := head + g + t;
            StartsWith(m, head)
            && (StartsWith(m[|head|..], " GSSI: ") <==> present)
            && (present ==> StartsWith(m[|head|..], " GSSI: " + n + " - "))
  {
    StartsWithAppend(head, g, head);
    StartsWithAppend(head + g, t, head);
    DropPrefix(head, g, t);
    if present {
      StartsWithBoth(g, t, " - ");
      StartsWithAppend(" GSSI: ", n, " GSSI: ");
      StartsWithAppend(g, t, " GSSI: ");
    } else {
      assert g + t == t;
      StartsWithDiffer(t, " - ", " GSSI: ", 1);
    }
  }

  /** Right after the SSI, the accept line carries a GSSI segment exactly when the PDU
      holds a non-negative GSSI, and then it is that GSSI. */
  lemma AcceptGssiIff(d: Decoded, ssi: int, la: int)
    ensures var m := BuildMessage(D_LOCATION_UPDATE_ACCEPT, d, ssi, la).value;
            var head := AcceptHead(d, ssi);
            StartsWith(m, head)
            && (StartsWith(m[|head|..], " GSSI: ") <==> MmGssi in d && d[MmGssi] >= 0)
            && (MmGssi in d && d[MmGssi] >= 0 ==>
                  StartsWith(m[|head|..], " GSSI: " + IntToString(d[MmGssi]) + " - "))
  {
    AcceptGssi(d, ssi);
  }

  /** A non-negative CCK identifier in the PDU always appears in the accept line. */
  lemma AcceptShowsCck(d: Decoded, ssi: int, la: int)
    requires CckIdentifier in d && d[CckIdentifier] >= 0
    ensures Contains(BuildMessage(D_LOCATION_UPDATE_ACCEPT, d, ssi, la).value,
                     " - CCK_identifier: " + IntToString(d[CckIdentifier]))
  {
    var c := CckPart(d);
    ContainsAt(" - " + AuthStatus, c);
    ContainsPrefix(" - " + AuthStatus + c, " - ", c);
    ContainsPrefix(" - " + AuthStatus + c + " - ", AcceptTypeName(d), c);
    ContainsSuffix(AcceptHead(d, ssi) + GssiPart(d), AcceptTail(d), c);
  }

  /** Accept and reject lines end with the accept-type name: values 1 and 2 have their own
      names, every other value and a missing field read as roaming. */
  lemma AcceptTypeNames(d: Decoded)
    ensures AcceptTypeName(d) == "ITSI attach"
            <==> LocationUpdateAcceptType in d && d[LocationUpdateAcceptType] == 2
    ensures AcceptTypeName(d) == "Service restoration roaming location updating"
            <==> LocationUpdateAcceptType in d && d[LocationUpdateAcceptType] == 1
    ensures AcceptTypeName(d) == "Roaming location updating"
            <==> !(LocationUpdateAcceptType in d && d[LocationUpdateAcceptType] in {1, 2})
  {
  }

  /** Different reject causes give different texts. */
  lemma {:induction false} CauseNameInjective(a: int, b: int)
    requires CauseName(a) == CauseName(b)
    ensures a == b
  {
    if a != 3 && a != 9 && b != 3 && b != 9 {
      assert CauseName(a)[6..] == IntToString(a);
      assert CauseName(b)[6..] == IntToString(b);
      IntToStringInjective(a, b);
    } else {
      CauseNameStart(a);
      CauseNameStart(b);
    }
  }

  lemma CauseNameStart(rc: int)
    ensures |CauseName(rc)| > 0
    ensures CauseName(rc)[0] == if rc == 3 then 'L' else if rc == 9 then 'I' else 'C'
  {
  }

  /** Reject lines end with " CAUSE: " and the cause text; only a missing cause reads
      "Unknown". */
  lemma RejectCauseText(d: Decoded, ssi: int, la: int)
    ensures EndsWith(BuildMessage(D_LOCATION_UPDATE_REJECT, d, ssi, la).value, " CAUSE: " + CauseText(d))
    ensures CauseText(d) == "Unknown" <==> RejectCause !in d
  {
    RejectEndsWithCause(d, ssi);
    CauseTextUnknown(d);
  }

  lemma RejectEndsWithCause(d: Decoded, ssi: int)
    ensures EndsWith(RejectMessage(d, ssi), " CAUSE: " + CauseText(d))
  {
    EndsWithLast(RejectPrefix + SsiText(ssi) + " - " + AcceptTypeName(d), " CAUSE: ", CauseText(d));
  }

  lemma CauseTextUnknown(d: Decoded)
    ensures CauseText(d) == "Unknown" <==> RejectCause !in d
  {
    if RejectCause in d {
      CauseNameStart(d[RejectCause]);
    }
  }

  /** The status line has a status segment only when the PDU carries the status. */
  lemma StatusOnlyWhenPresent(d: Decoded, ssi: int, la: int)
    ensures var m := BuildMessage(D_MM_STATUS, d, ssi, la).value;
            var head := StatusPrefix + SsiText(ssi);
            StartsWith(m, head)
            && (|m| > |head| <==> StatusDownlink in d)
            && (StatusDownlink in d ==> m[|head|..] == " - Status: " + IntToString(d[StatusDownlink]))
  {
  }

  // ---- TryLog ----

  /** The SSI a PDU is logged under: MM_SSI when present, else SSI, else -1 (also
      `GetSsi` of the interface logger). */
  function SsiOf(d: Decoded): (ssi: int)
    ensures MmSsi in d ==> ssi == d[MmSsi]
    ensures MmSsi !in d && Ssi in d ==> ssi == d[Ssi]
    ensures MmSsi !in d && Ssi !in d ==> ssi == -1
  {
    if MmSsi in d then d[MmSsi] else FieldOr(d, Ssi)
  }

  /** `string.IsNullOrWhiteSpace` of a message that is present. */
  predicate IsBlank(s: string) { forall i :: 0 <= i < |s| ==> IsWhiteSpace(s[i]) }

  /** What `TryLog` decides to log: the LA and the message, or nothing. */
  datatype Entry = Entry(la: nat, message: string)

  /** The checks of `TryLog`: a present, non-empty PDU with a type, a known non-negative
      LA and SSI, and a message that is not blank. */
  function LoggedEntry(d: Option<Decoded>): Option<Entry>
  {
    if d.None? || |d.value| == 0 || MmPduType !in d.value then None
    else
      var la := FieldOr(d.value, LocationArea);
      var ssi := SsiOf(d.value);
      if la < 0 || ssi < 0 then None
      else
        var msg := BuildMessage(d.value[MmPduType], d.value, ssi, la);
        if msg.None? || IsBlank(msg.value) then None
        else Some(Entry(la, msg.value))
  }

  /** `TryLog` without the file append: the line it writes, or nothing. Elapsed time is
      given in whole seconds. */
  function RegistrationLine(d: Option<Decoded>, elapsedSeconds: nat): Option<string>
  {
    var e := LoggedEntry(d);
    if e.None? then None
    else Some(Compose(TotalHms(elapsedSeconds), Gap(e.value.la), IntToString(e.value.la), e.value.message))
  }

  lemma NotBlank(m: string, p: string)
    requires StartsWith(m, p) && |p| > 0 && !IsWhiteSpace(p[0])
    ensures !IsBlank(m)
  {
    assert m[0] == m[..|p|][0];
  }

  /** No message the logger builds is blank: each starts with a letter. */
  lemma MessageNotBlank(pduType: int, d: Decoded, ssi: int, la: int)
    requires BuildMessage(pduType, d, ssi, la).Some?
    ensures !IsBlank(BuildMessage(pduType, d, ssi, la).value)
  {
    var m := BuildMessage(pduType, d, ssi, la).value;
    MessageStart(pduType, d, ssi, la);
    if pduType == D_AUTHENTICATION && DemandsAuthentication(d) {
      assert Demands[0] == 'B';
      NotBlank(m, Demands);
    } else if pduType == D_AUTHENTICATION {
      assert ResultPrefix[0] == 'B';
      NotBlank(m, ResultPrefix);
    } else if pduType == D_LOCATION_UPDATE_ACCEPT && AcceptPrefix(d) == RegAuthAccepted {
      assert RegAuthAccepted[0] == 'M';
      NotBlank(m, RegAuthAccepted);
    } else if pduType == D_LOCATION_UPDATE_ACCEPT {
      assert RegAccepted[0] == 'M';
      NotBlank(m, RegAccepted);
    } else if pduType == D_LOCATION_UPDATE_REJECT {
      assert RejectPrefix[0] == 'M';
      NotBlank(m, RejectPrefix);
    } else {
      assert StatusPrefix[0] == 'M';
      NotBlank(m, StatusPrefix);
    }
  }

  /** An entry is logged exactly when the PDU is present with a known type, LA and SSI
      are both known and non-negative, and the type is one of the four the log names;
      the entry holds that LA and the built message. */
  lemma LoggedEntryIff(d: Option<Decoded>)
    ensures LoggedEntry(d).Some?
            <==> d.Some? && MmPduType in d.value
                 && FieldOr(d.value, LocationArea) >= 0 && SsiOf(d.value) >= 0
                 && d.value[MmPduType] in {D_AUTHENTICATION, D_LOCATION_UPDATE_ACCEPT,
                                           D_LOCATION_UPDATE_REJECT, D_MM_STATUS}
    ensures LoggedEntry(d).Some? ==>
              var la := FieldOr(d.value, LocationArea);
              LoggedEntry(d).value
                == Entry(la, BuildMessage(d.value[MmPduType], d.value, SsiOf(d.value), la).value)
  {
    if d.Some? && MmPduType in d.value {
      assert MmPduType in d.value.Keys;
      var t, la, ssi := d.value[MmPduType], FieldOr(d.value, LocationArea), SsiOf(d.value);
      if BuildMessage(t, d.value, ssi, la).Some? {
        MessageNotBlank(t, d.value, ssi, la);
      }
    }
  }

  /** A line is written exactly when an entry is logged. */
  lemma RegistrationLineIff(d: Option<Decoded>, elapsedSeconds: nat)
    ensures RegistrationLine(d, elapsedSeconds).Some?
            <==> d.Some? && MmPduType in d.value
                 && FieldOr(d.value, LocationArea) >= 0 && SsiOf(d.value) >= 0
                 && d.value[MmPduType] in {D_AUTHENTICATION, D_LOCATION_UPDATE_ACCEPT,
                                           D_LOCATION_UPDATE_REJECT, D_MM_STATUS}
  {
    LoggedEntryIff(d);
  }

  /** A written line takes apart into the decimal LA and the built message (which names
      the SSI, by `MessageNamesSsi`). */
  lemma RegistrationLineParts(d: Option<Decoded>, elapsedSeconds: nat)
    requires RegistrationLine(d, elapsedSeconds).Some?
    ensures var e := LoggedEntry(d).value;
            Decompose(RegistrationLine(d, elapsedSeconds).value) == Some(LineParts(NatToString(e.la), e.message))
  {
    var e := LoggedEntry(d).value;
    HmsHasNoBracket(elapsedSeconds / 3600, elapsedSeconds / 60 % 60, elapsedSeconds % 60);
    DigitsFree(NatToString(e.la), ']');
    DecomposeCompose(TotalHms(elapsedSeconds), Gap(e.la), NatToString(e.la), e.message);
  }

  /** The time field of a written line is the elapsed time in total hours, minutes and
      seconds. */
  lemma RegistrationLineTime(d: Option<Decoded>, elapsedSeconds: nat)
    requires RegistrationLine(d, elapsedSeconds).Some?
    ensures var line := RegistrationLine(d, elapsedSeconds).value;
            |line| > |TotalHms(elapsedSeconds)|
            && line[1..1 + |TotalHms(elapsedSeconds)|] == TotalHms(elapsedSeconds)
  {
    var e := LoggedEntry(d).value;
    ComposeTime(TotalHms(elapsedSeconds), Gap(e.la), IntToString(e.la), e.message);
  }
}
