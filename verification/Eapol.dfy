/**
 EAPOL: the bounded frame parser and the neighbour entry it fills.
 */
module Eapol {
  import opened Bytes
  import opened Neighbors
  import opened Texts

  datatype Info = Info(
    sourceMac: MacAddress,
    identity: Chars64,
    version: byte,
    packetType: byte,
    eapCode: byte,
    eapType: byte,
    hasIdentity: bool,
    valid: bool)

  const BLANK: Info := Info([0, 0, 0, 0, 0, 0], Zeros(64), 0, 0, 0, 0, false, false)

  const PACKET_EAP := 0
  const PACKET_START := 1
  const PACKET_LOGOFF := 2
  const PACKET_KEY := 3
  const CODE_REQUEST := 1
  const CODE_RESPONSE := 2
  const CODE_SUCCESS := 3
  const CODE_FAILURE := 4
  const TYPE_IDENTITY := 1

  predicate IsEapol(frame: seq<byte>) {
    |frame| >= 18 && ReadBe16(frame[12..14]) == 0x888E
  }

  function ParseEap(body: seq<byte>, info: Info): Option<Info> {
    if |body| < 4 then None
    else
      var code, length := body[0], ReadBe16(body[2..4]) as nat;
      if length < 4 || length > |body| then None
      else if code == CODE_SUCCESS || code == CODE_FAILURE then
        if length == 4 then Some(info.(eapCode := code)) else None
      else if (code != CODE_REQUEST && code != CODE_RESPONSE) || length < 5 then None
      else
        var typed := info.(eapCode := code, eapType := body[4]);
        if code == CODE_RESPONSE && body[4] == TYPE_IDENTITY then
          var identity := ShownInto(info.identity, body[5..length]);
          Some(typed.(identity := identity, hasIdentity := identity[0] != 0))
        else Some(typed)
  }

  function ParseEapol(frame: seq<byte>): Option<Info> {
    if !IsEapol(frame) then None
    else
      var version, packetType, bodyLength := frame[14], frame[15], ReadBe16(frame[16..18]) as nat;
      if version < 1 || version > 3 || bodyLength > |frame| - 18 then None
      else
        var body := frame[18..18 + bodyLength];
        var info := BLANK.(sourceMac := frame[6..12], version := version, packetType := packetType);
        if packetType == PACKET_EAP then
          match ParseEap(body, info)
          case None => None
          case Some(i) => Some(i.(valid := true))
        else if packetType == PACKET_START || packetType == PACKET_LOGOFF then
          if bodyLength == 0 then Some(info.(valid := true)) else None
        else if packetType == PACKET_KEY then
          if bodyLength >= 1 then Some(info.(valid := true)) else None
        else None
  }

  function FillNeighbor(info: Info): Option<Neighbor> {
    if !info.valid then None
    else
      Some(EMPTY.(
           mac := info.sourceMac, sources := SourceBit(Protocol.Eapol), occupied := true,
           name := if info.hasIdentity then info.identity[63 := 0] else Zeros(64),
           eapolVersion := info.version, eapolPacketType := info.packetType,
           eapCode := info.eapCode, eapType := info.eapType))
  }

  /** Where the frame of an EAP identity response has its identity. */
  predicate IsIdentityResponse(frame: seq<byte>) {
    |frame| >= 23 && frame[15] == 0 && frame[18] == 2 && frame[22] == 1 &&
    5 <= ReadBe16(frame[20..22]) as int <= |frame| - 18
  }

  /** The identity a frame carries, shown as printable text; only an EAP identity response has one. */
  function IdentityOf(frame: seq<byte>): seq<byte> {
    if IsIdentityResponse(frame) then Shown(frame[23..18 + ReadBe16(frame[20..22]) as nat], 64) else []
  }

  /** The entry filled from an accepted frame is named after the identity in it. */
  lemma FilledName(frame: seq<byte>)
    requires ParseEapol(frame).Some?
    ensures FillNeighbor(ParseEapol(frame).value).Some?
    ensures var n := FillNeighbor(ParseEapol(frame).value).value;
      Terminated(n.name) && Text(n.name) == IdentityOf(frame)
  {
    hide ShownInto, Shown, Text, Terminated, ReadBe16;
    var info := ParseEapol(frame).value;
    var bodyLength := ReadBe16(frame[16..18]) as nat;
    var body := frame[18..18 + bodyLength];
    BlankText(64);
    if frame[15] == PACKET_EAP {
      var length := ReadBe16(body[2..4]) as nat;
      SliceOfSlice(frame, 18, 18 + bodyLength, 2, 4);
      if body[0] == CODE_RESPONSE && body[4] == TYPE_IDENTITY {
        SliceOfSlice(frame, 18, 18 + bodyLength, 5, length);
        ShownIntoReads(Zeros(64), body[5..length]);
        NameOfIdentity(info.identity);
      }
    }
  }

  /** An EAP packet: its length is inside the body, and the code says how long it is at least or exactly. */
  predicate EapComplete(frame: seq<byte>, bodyLength: nat) {
    && |frame| >= 22 && bodyLength >= 4
    && var length := ReadBe16(frame[20..22]) as nat;
    && length <= bodyLength
    && (if frame[18] == 3 || frame[18] == 4 then length == 4 else (frame[18] == 1 || frame[18] == 2) && length >= 5)
  }

  /** The frames that are accepted: versions 1 to 3, and by packet type an EAP packet, no body, or some body. */
  predicate Complete(frame: seq<byte>) {
    && |frame| >= 18 && frame[12] == 0x88 && frame[13] == 0x8E && 1 <= frame[14] <= 3
    && var bodyLength := ReadBe16(frame[16..18]) as nat;
    && bodyLength <= |frame| - 18
    && (match frame[15]
        case 0 => EapComplete(frame, bodyLength)
        case 1 | 2 => bodyLength == 0
        case 3 => bodyLength >= 1
        case _ => false)
  }

  /** The entry of an accepted frame, but for its name. */
  predicate Shows(frame: seq<byte>, n: Neighbor) {
    && |frame| >= 18 && n.occupied && n.sources == 4 && n.mac == frame[6..12]
    && n.eapolVersion == frame[14] && n.eapolPacketType == frame[15]
    && n.eapCode == (if frame[15] == 0 && |frame| >= 19 then frame[18] else 0)
    && n.eapType == (if frame[15] == 0 && |frame| >= 23 && frame[18] <= 2 then frame[22] else 0)
    && n == EMPTY.(mac := n.mac, sources := 4, occupied := true, name := n.name, eapolVersion := n.eapolVersion,
      eapolPacketType := n.eapolPacketType, eapCode := n.eapCode, eapType := n.eapType)
  }

  lemma EapBody(frame: seq<byte>, bodyLength: nat)
    requires 18 + bodyLength <= |frame| && bodyLength >= 4
    ensures var body := frame[18..18 + bodyLength];
      body[0] == frame[18] && body[2..4] == frame[20..22] && (bodyLength >= 5 ==> body[4] == frame[22])
  {
    SliceOfSlice(frame, 18, 18 + bodyLength, 2, 4);
  }

  /** Exactly those frames are accepted, and the entry says what they say. */
  lemma FrameExact(frame: seq<byte>)
    ensures ParseEapol(frame).Some? <==> Complete(frame)
    ensures ParseEapol(frame).Some? ==>
      FillNeighbor(ParseEapol(frame).value).Some? && Shows(frame, FillNeighbor(ParseEapol(frame).value).value)
  {
    hide ShownInto;
    if |frame| >= 18 {
      assert ReadBe16(frame[12..14]) == 0x888E <==> frame[12] == 0x88 && frame[13] == 0x8E;
      var bodyLength := ReadBe16(frame[16..18]) as nat;
      if 4 <= bodyLength <= |frame| - 18 {
        EapBody(frame, bodyLength);
      }
    }
  }

  lemma BlankText(size: nat)
    requires size > 0
    ensures Terminated(Zeros(size)) && Text(Zeros(size)) == []
  {
  }

  lemma NameOfIdentity(identity: Chars64)
    requires Terminated(identity)
    ensures Terminated(identity[63 := 0]) && Text(identity[63 := 0]) == Text(identity)
    ensures identity[0] == 0 <==> Text(identity) == []
  {
    var n := CLen(identity);
    CLenIs(identity[63 := 0], n);
    assert identity[63 := 0][..n] == identity[..n];
  }
}
