/** The clean MM (Mobility Management) PDU decoder: reads the 4-bit PDU type and a few
    guarded bit fields from a received logical channel and turns them into the text of
    a registrations-log message (`Class18.ParseMm` and the `MmText` tables). */
module MmDecode {
  import opened Text

  /** A received logical channel: `buf` is the bit memory behind its pointer, `length`
      the number of valid bits in it. */
  datatype LogicChannel = LogicChannel(buf: seq<bool>, length: int)

  predicate ValidChannel(ch: LogicChannel) { 0 <= ch.length <= |ch.buf| }

  /** What the decoder reports: LA and SSI are left unset when the lower layers did not
      supply them; the message is always set. */
  datatype MmInfo = MmInfo(locationArea: Option<int>, ssi: Option<int>, message: string)

  function Pow2(k: nat): (p: nat)
    ensures p >= 1
  {
    if k == 0 then 1 else 2 * Pow2(k - 1)
  }

  function BitValue(b: bool): nat { if b then 1 else 0 }

  /** `TetraUtils.BitsToInt32`: the value of `len` bits starting at `offset`, most
      significant bit first. */
  function ReadBits(buf: seq<bool>, offset: nat, len: nat): (v: nat)
    requires offset + len <= |buf|
    ensures v < Pow2(len)
  {
    if len == 0 then 0 else 2 * ReadBits(buf, offset, len - 1) + BitValue(buf[offset + len - 1])
  }

  /** The bits a transmitter puts on the channel for value `v` in a `len`-bit field,
      most significant first: the inverse of `ReadBits`. */
  function EncodeBits(v: nat, len: nat): (bits: seq<bool>)
    ensures |bits| == len
  {
    if len == 0 then [] else EncodeBits(v / 2, len - 1) + [v % 2 == 1]
  }

  /** Reading back an encoded field gives the value, wherever the field sits. */
  lemma {:induction false} ReadEncodedBits(pre: seq<bool>, v: nat, len: nat, post: seq<bool>)
    requires v < Pow2(len)
    ensures ReadBits(pre + EncodeBits(v, len) + post, |pre|, len) == v
  {
    if len > 0 {
      var buf := pre + EncodeBits(v, len) + post;
      var buf' := pre + EncodeBits(v / 2, len - 1) + ([v % 2 == 1] + post);
      assert buf == buf';
      ReadEncodedBits(pre, v / 2, len - 1, [v % 2 == 1] + post);
      ReadPrefixOnly(buf, buf', |pre|, len - 1);
    }
  }

  lemma {:induction false} ReadPrefixOnly(a: seq<bool>, b: seq<bool>, offset: nat, len: nat)
    requires offset + len <= |a| && offset + len <= |b|
    requires a[offset..offset + len] == b[offset..offset + len]
    ensures ReadBits(a, offset, len) == ReadBits(b, offset, len)
  {
    if len > 0 {
      assert a[offset + len - 1] == a[offset..offset + len][len - 1];
      assert a[offset..offset + len - 1] == a[offset..offset + len][..len - 1];
      assert b[offset..offset + len - 1] == b[offset..offset + len][..len - 1];
      ReadPrefixOnly(a, b, offset, len - 1);
    }
  }

  /** `SafeBits`: -1 exactly when the field runs past the valid bits, otherwise the
      field's value (every caller reads fewer than 32 bits, so a value is never negative). */
  function SafeBits(ch: LogicChannel, offset: nat, len: nat): (r: int)
    requires ValidChannel(ch) && len < 32
    ensures r == -1 <==> offset + len > ch.length
    ensures r != -1 ==> 0 <= r < Pow2(len) && r == ReadBits(ch.buf, offset, len)
  {
    if offset + len > ch.length then -1 else ReadBits(ch.buf, offset, len)
  }

  // ---- MmText: the fixed message texts ----

  function MapBasic(pduType: int): string
  {
    "MM: PDU " + IntToString(pduType)
  }

  const AuthDemanded := "BS demands authentication"
  const AuthFailed := "BS result to MS authentication: Authentication failed"
  const AuthSuccessful := "BS result to MS authentication: Authentication successful or no authentication currently in progress"

  function MapAuthentication(pduType: int, subType: int): string
  {
    if pduType == 1 then AuthDemanded
    else if pduType == 2 then (if subType == 1 then AuthFailed else AuthSuccessful)
    else "Authentication"
  }

  const Accepted := "MS request for registration/authentication ACCEPTED"

  /** The accept text ignores both the accept type and the SSI. */
  function MapRegistrationAccepted(acceptType: int, ssi: Option<int>): string
  {
    Accepted
  }

  const LuTypeSuffixes: seq<string> := [
    " - Roaming location updating",
    " - Periodic location updating",
    " - Demand location updating",
    " - Service restoration roaming location updating"
  ]

  function MapLuTypeSuffix(luType: int): string
  {
    if 0 <= luType < 4 then LuTypeSuffixes[luType] else ""
  }

  /** Different location-update types give different suffixes. */
  lemma LuTypeSuffixInjective(a: int, b: int)
    requires 0 <= a < 4 && 0 <= b < 4
    requires MapLuTypeSuffix(a) == MapLuTypeSuffix(b)
    ensures a == b
  {
  }

  const RejectCauseTexts: seq<string> := [
    "Illegal MS (system rejection)",
    "Requested cipher key type not available (cell rejection)",
    "Identified cipher key not available (cell rejection)",
    "Roaming not supported (LA rejection)",
    "LA unknown (LA rejection)",
    "Identified cipher KSG not supported (cell rejection)",
    "Use of DA cell not permitted (cell type rejection)",
    "Ciphering required (cell rejection)",
    "Migration not supported (system rejection)",
    "Congestion (cell rejection)",
    "Mandatory element error (system rejection)",
    "No cipher KSG (cell rejection)",
    "LA not allowed (LA rejection)",
    "ITSI/ATSI unknown (system rejection)",
    "Message consistency error (system rejection)",
    "Forward registration failure (cell rejection)",
    "Service not subscribed (LA rejection)",
    "Network failure (cell rejection)",
    "Use of CA cell not permitted (cell type rejection)",
    "Authentication failure (system rejection)"
  ]

  /** Fixed texts for causes 0..19, "Cause n" for every other value. */
  function MapRejectCause(cause: int): string
  {
    if 0 <= cause < 20 then RejectCauseTexts[cause] else "Cause " + IntToString(cause)
  }

  function MapRegistrationRejected(luType: int, cause: int, ssi: Option<int>): string
  {
    "MS request for registration REJECTED" + MapLuTypeSuffix(luType) + " CAUSE: " + MapRejectCause(cause)
  }

  // ---- ParseMm ----

  /** Which text `ParseMm` settles on, with the fields it passes to the `MmText` map that
      renders it. */
  datatype MmMessage =
    | Basic(pduType: int)
    | Authentication(pduType: int, subType: int)
    | RegistrationAccepted(acceptType: int)
    | RegistrationRejected(luType: int, cause: int)

  /** The `MmText` call for each message. */
  function MessageText(m: MmMessage, ssi: Option<int>): string
  {
    match m
    case Basic(t) => MapBasic(t)
    case Authentication(t, sub) => MapAuthentication(t, sub)
    case RegistrationAccepted(acc) => MapRegistrationAccepted(acc, ssi)
    case RegistrationRejected(lu, cause) => MapRegistrationRejected(lu, cause, ssi)
  }

  /** The 4-bit PDU type at the start of the MM PDU. */
  function PduType(ch: LogicChannel, offset: nat): (t: nat)
    requires offset + 4 <= |ch.buf|
    ensures t < 16
  {
    ReadBits(ch.buf, offset, 4)
  }

  /** The field reads of `ParseMm`: the PDU type is read without a bounds check, so its
      four bits must lie in the channel's memory; every later field goes through
      `SafeBits`, and a field that runs past the valid bits leaves the message as it was. */
  function DecodeMm(ch: LogicChannel, offset: nat): MmMessage
    requires ValidChannel(ch) && offset + 4 <= |ch.buf|
  {
    var pduType := ReadBits(ch.buf, offset, 4);
    var afterType := offset + 4;
    var authSub := if pduType == 1 || pduType == 2 then SafeBits(ch, afterType, 2) else -1;
    var m := if authSub >= 0 then Authentication(pduType, authSub) else Basic(pduType);
    var afterAuth := if authSub >= 0 then afterType + 2 else afterType;
    if pduType == 8 then
      var accType := SafeBits(ch, afterAuth, 2);
      if accType >= 0 then RegistrationAccepted(accType) else m
    else if pduType == 9 then
      var luType := SafeBits(ch, afterAuth, 2);
      var causeAt := if luType >= 0 then afterAuth + 2 else afterAuth;
      var cause := SafeBits(ch, causeAt, 5);
      if cause >= 0 then RegistrationRejected(luType, cause) else m
    else m
  }

  /** `Class18.ParseMm`: LA and SSI come from the lower layers, the message from the
      PDU's bits. */
  function ParseMm(ch: LogicChannel, offset: nat, receivedLa: int, receivedSsi: int): (info: MmInfo)
    requires ValidChannel(ch) && offset + 4 <= |ch.buf|
    ensures info.locationArea == (if receivedLa >= 0 then Some(receivedLa) else None)
    ensures info.ssi == (if receivedSsi >= 0 then Some(receivedSsi) else None)
  {
    var la := if receivedLa >= 0 then Some(receivedLa) else None;
    var ssi := if receivedSsi >= 0 then Some(receivedSsi) else None;
    MmInfo(la, ssi, MessageText(DecodeMm(ch, offset), ssi))
  }

  /** PDU types without a decoder of their own, and known types whose first field is cut
      off, are reported by number. */
  lemma DecodeMmBasic(ch: LogicChannel, offset: nat)
    requires ValidChannel(ch) && offset + 4 <= |ch.buf|
    requires var t := PduType(ch, offset);
             t !in {1, 2, 8, 9} || (t in {1, 2, 8} && offset + 6 > ch.length)
    ensures DecodeMm(ch, offset) == Basic(PduType(ch, offset))
  {
  }

  /** The two authentication PDUs carry their 2-bit sub-type. */
  lemma DecodeMmAuthentication(ch: LogicChannel, offset: nat)
    requires ValidChannel(ch) && offset + 4 <= |ch.buf|
    requires PduType(ch, offset) in {1, 2} && offset + 6 <= ch.length
    ensures DecodeMm(ch, offset) == Authentication(PduType(ch, offset), ReadBits(ch.buf, offset + 4, 2))
  {
  }

  /** A location-update accept carries its 2-bit accept type. */
  lemma DecodeMmAccept(ch: LogicChannel, offset: nat)
    requires ValidChannel(ch) && offset + 4 <= |ch.buf|
    requires PduType(ch, offset) == 8 && offset + 6 <= ch.length
    ensures DecodeMm(ch, offset) == RegistrationAccepted(ReadBits(ch.buf, offset + 4, 2))
  {
  }

  /** A location-update reject: the 2-bit update type when it is present (-1 otherwise)
      and the 5-bit cause after it; without a readable cause the PDU is reported by
      number. */
  lemma DecodeMmReject(ch: LogicChannel, offset: nat)
    requires ValidChannel(ch) && offset + 4 <= |ch.buf|
    requires PduType(ch, offset) == 9
    ensures var luReadable := offset + 6 <= ch.length;
            var causeAt := if luReadable then offset + 6 else offset + 4;
            DecodeMm(ch, offset)
              == if causeAt + 5 <= ch.length then
                   RegistrationRejected(if luReadable then ReadBits(ch.buf, offset + 4, 2) else -1,
                                        ReadBits(ch.buf, causeAt, 5))
                 else Basic(9)
  {
  }

  // ---- the partner: an encoder for the PDUs the decoder names ----

  /** Messages a transmitter can put in the fields `ParseMm` reads. */
  predicate Encodable(m: MmMessage)
  {
    match m
    case Basic(t) => 0 <= t < 16 && t !in {1, 2, 8, 9}
    case Authentication(t, sub) => t in {1, 2} && 0 <= sub < 4
    case RegistrationAccepted(acc) => 0 <= acc < 4
    case RegistrationRejected(lu, cause) => 0 <= lu < 4 && 0 <= cause < 32
  }

  /** The PDU bits for a message: the type and then its fields, most significant bit
      first. */
  function EncodeMm(m: MmMessage): (bits: seq<bool>)
    requires Encodable(m)
  {
    match m
    case Basic(t) => EncodeBits(t, 4)
    case Authentication(t, sub) => EncodeBits(t, 4) + EncodeBits(sub, 2)
    case RegistrationAccepted(acc) => EncodeBits(8, 4) + EncodeBits(acc, 2)
    case RegistrationRejected(lu, cause) => EncodeBits(9, 4) + EncodeBits(lu, 2) + EncodeBits(cause, 5)
  }

  /** An encoded field read at the offset where it was placed. */
  lemma FieldAt(pre: seq<bool>, v: nat, len: nat, post: seq<bool>, bits: seq<bool>, at: nat)
    requires v < Pow2(len) && bits == pre + EncodeBits(v, len) + post && at == |pre|
    ensures at + len <= |bits| && ReadBits(bits, at, len) == v
  {
    ReadEncodedBits(pre, v, len, post);
  }

  /** A 4-bit type followed by a 2-bit field reads back as both values. */
  lemma ReadTypeAndField(pre: seq<bool>, t: nat, f: nat, post: seq<bool>)
    requires t < 16 && f < 4
    ensures var bits := pre + EncodeBits(t, 4) + EncodeBits(f, 2) + post;
            ReadBits(bits, |pre|, 4) == t && ReadBits(bits, |pre| + 4, 2) == f
  {
    var et, ef := EncodeBits(t, 4), EncodeBits(f, 2);
    var bits := pre + et + ef + post;
    FieldAt(pre, t, 4, ef + post, bits, |pre|);
    FieldAt(pre + et, f, 2, post, bits, |pre| + 4);
  }

  /** The reject layout, a 4-bit type, the 2-bit update type and the 5-bit cause, reads
      back as its three values. */
  lemma ReadRejectFields(pre: seq<bool>, t: nat, lu: nat, cause: nat, post: seq<bool>)
    requires t < 16 && lu < 4 && cause < 32
    ensures var bits := pre + EncodeBits(t, 4) + EncodeBits(lu, 2) + EncodeBits(cause, 5) + post;
            ReadBits(bits, |pre|, 4) == t && ReadBits(bits, |pre| + 4, 2) == lu
            && ReadBits(bits, |pre| + 6, 5) == cause
  {
    var et, el, ec := EncodeBits(t, 4), EncodeBits(lu, 2), EncodeBits(cause, 5);
    var bits := pre + et + el + ec + post;
    assert bits == pre + et + el + (ec + post);
    ReadTypeAndField(pre, t, lu, ec + post);
    FieldAt(pre + et + el, cause, 5, post, bits, |pre| + 6);
  }

  lemma DecodeEncodeBasic(t: nat, pre: seq<bool>, post: seq<bool>)
    requires t < 16 && t !in {1, 2, 8, 9}
    ensures var bits := pre + EncodeMm(Basic(t)) + post;
            DecodeMm(LogicChannel(bits, |bits|), |pre|) == Basic(t)
  {
    var bits := pre + EncodeBits(t, 4) + post;
    ReadEncodedBits(pre, t, 4, post);
    DecodeMmBasic(LogicChannel(bits, |bits|), |pre|);
  }

  lemma DecodeEncodeAuthentication(t: nat, sub: nat, pre: seq<bool>, post: seq<bool>)
    requires t in {1, 2} && sub < 4
    ensures var bits := pre + EncodeMm(Authentication(t, sub)) + post;
            DecodeMm(LogicChannel(bits, |bits|), |pre|) == Authentication(t, sub)
  {
    var et, es := EncodeBits(t, 4), EncodeBits(sub, 2);
    var bits := pre + et + es + post;
    assert pre + EncodeMm(Authentication(t, sub)) + post == bits;
    ReadTypeAndField(pre, t, sub, post);
    DecodeMmAuthentication(LogicChannel(bits, |bits|), |pre|);
  }

  lemma DecodeEncodeAccept(acc: nat, pre: seq<bool>, post: seq<bool>)
    requires acc < 4
    ensures var bits := pre + EncodeMm(RegistrationAccepted(acc)) + post;
            DecodeMm(LogicChannel(bits, |bits|), |pre|) == RegistrationAccepted(acc)
  {
    var et, ea := EncodeBits(8, 4), EncodeBits(acc, 2);
    var bits := pre + et + ea + post;
    assert pre + EncodeMm(RegistrationAccepted(acc)) + post == bits;
    ReadTypeAndField(pre, 8, acc, post);
    DecodeMmAccept(LogicChannel(bits, |bits|), |pre|);
  }

  lemma DecodeEncodeReject(lu: nat, cause: nat, pre: seq<bool>, post: seq<bool>)
    requires lu < 4 && cause < 32
    ensures var bits := pre + EncodeMm(RegistrationRejected(lu, cause)) + post;
            DecodeMm(LogicChannel(bits, |bits|), |pre|) == RegistrationRejected(lu, cause)
  {
    var et, el, ec := EncodeBits(9, 4), EncodeBits(lu, 2), EncodeBits(cause, 5);
    var bits := pre + et + el + ec + post;
    assert pre + EncodeMm(RegistrationRejected(lu, cause)) + post == bits;
    ReadRejectFields(pre, 9, lu, cause, post);
    DecodeMmReject(LogicChannel(bits, |bits|), |pre|);
  }

  /** Decoding an encoded PDU gives the message back, wherever the PDU sits in the
      channel and whatever follows it. */
  lemma DecodeEncodeMm(m: MmMessage, pre: seq<bool>, post: seq<bool>)
    requires Encodable(m)
    ensures var bits := pre + EncodeMm(m) + post;
            DecodeMm(LogicChannel(bits, |bits|), |pre|) == m
  {
    match m
    case Basic(t) => DecodeEncodeBasic(t, pre, post);
    case Authentication(t, sub) => DecodeEncodeAuthentication(t, sub, pre, post);
    case RegistrationAccepted(acc) => DecodeEncodeAccept(acc, pre, post);
    case RegistrationRejected(lu, cause) => DecodeEncodeReject(lu, cause, pre, post);
  }

  /** A reject PDU put on the channel by its encoder is logged with the reject text of
      its location-update type and cause. */
  lemma RejectPduText(luType: nat, cause: nat, rest: seq<bool>)
    requires luType < 4 && cause < 32
    ensures var bits := EncodeMm(RegistrationRejected(luType, cause)) + rest;
            ParseMm(LogicChannel(bits, |bits|), 0, -1, -1).message
              == "MS request for registration REJECTED" + LuTypeSuffixes[luType]
                 + " CAUSE: " + MapRejectCause(cause)
  {
    var m := RegistrationRejected(luType, cause);
    var bits := EncodeMm(m) + rest;
    DecodeEncodeMm(m, [], rest);
    assert [] + EncodeMm(m) + rest == bits;
    assert ParseMm(LogicChannel(bits, |bits|), 0, -1, -1).message == MessageText(m, None);
  }

  /** A cause without a fixed text is logged by its number, and the number can be
      read back: two such causes never share a log text. */
  lemma {:induction false} NumberedCauseInjective(a: int, b: int)
    requires !(0 <= a < 20) && !(0 <= b < 20)
    requires MapRejectCause(a) == MapRejectCause(b)
    ensures a == b
  {
    assert MapRejectCause(a)[6..] == IntToString(a);
    assert MapRejectCause(b)[6..] == IntToString(b);
    IntToStringInjective(a, b);
  }

  /** Every 5-bit cause above 19 is rendered by number. */
  lemma FiveBitCausesAboveTable(cause: nat)
    requires 20 <= cause < 32
    ensures MapRejectCause(cause) == "Cause " + NatToString(cause)
  {
  }
}
