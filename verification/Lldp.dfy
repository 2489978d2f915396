/**
 LLDP: the frame parser as a walk over TLVs, and the neighbour entry it fills.
 A frame is accepted exactly when its TLVs run, complete, up to an End TLV; what it
 yields is the fold of the per-type handlers over the TLVs before that one.
 */
module Lldp {
  import opened Bytes
  import opened Neighbors
  import opened Texts

  datatype Info = Info(
    chassisId: Chars64,
    portId: Chars64,
    systemName: Chars64,
    systemDescription: Chars128,
    managementAddress: Chars48,
    sourceMac: MacAddress,
    chassisIdSubtype: byte,
    portIdSubtype: byte,
    ttl: u16,
    systemCapabilities: u16,
    enabledCapabilities: u16,
    vlanId: u16,
    pvid: u16,
    vlanName: Chars64,
    hasPvid: bool,
    hasVlanName: bool,
    networkPolicyVlan: u16,
    hasNetworkPolicy: bool,
    poeSupported: bool,
    poePowerPair: byte,
    poePowerClass: byte,
    poeTypeSourcePriority: byte,
    poeRequestedPower: u16,
    poeAllocatedPower: u16,
    poePowerWatts: u16,
    poeRequestedPowerWatts: u16,
    poeAllocatedPowerWatts: u16,
    poePowerType: byte,
    poePowerSource: byte,
    poePowerPriority: byte,
    hasPoeMdi: bool,
    hasPoe: bool,
    hasPoePowerValues: bool,
    valid: bool)

  const BLANK: Info := Info(
    Zeros(64), Zeros(64), Zeros(64), Zeros(128), Zeros(48), [0, 0, 0, 0, 0, 0], 0, 0, 0, 0, 0,
    0, 0, Zeros(64), false, false, 0, false,
    false, 0, 0, 0, 0, 0, 0, 0, 0, 0, 0, 0, false, false, false, false)

  // ---- TLVs ----

  type TlvType = n: int | 0 <= n < 128

  datatype Tlv = Tlv(kind: TlvType, value: seq<byte>)

  const END: TlvType := 0
  const CHASSIS_ID: TlvType := 1
  const PORT_ID: TlvType := 2
  const TTL: TlvType := 3
  const SYSTEM_NAME: TlvType := 5
  const SYSTEM_DESCRIPTION: TlvType := 6
  const SYSTEM_CAPABILITIES: TlvType := 7
  const MANAGEMENT_ADDRESS: TlvType := 8
  const ORG_SPECIFIC: TlvType := 127

  const OUI_IEEE_802_1 := 0x00_80C2
  const OUI_IEEE_802_3 := 0x00_120F
  const OUI_MED := 0x00_12BB

  predicate Buildable(t: Tlv) {
    |t.value| <= 511
  }

  predicate AllBuildable(ts: seq<Tlv>) {
    forall k :: 0 <= k < |ts| ==> Buildable(ts[k])
  }

  /** The sender's encoding of a TLV: seven bits of type, nine bits of length. */
  function BuildTlv(t: Tlv): seq<byte>
    requires Buildable(t)
  {
    Be16(t.kind * 512 + |t.value|) + t.value
  }

  function BuildAll(ts: seq<Tlv>): seq<byte>
    requires AllBuildable(ts)
  {
    if ts == [] then [] else BuildTlv(ts[0]) + BuildAll(ts[1..])
  }

  // ---- What each TLV does ----

  /** The chassis ID after a value of at least two bytes, by its subtype. */
  function ChassisIdInto(id: Chars64, v: seq<byte>): Chars64
    requires |v| >= 2
  {
    match v[0]
    case 4 => if |v| == 7 then TextInto(id, MacText(v[1..7])) else id
    case 5 => if |v| == 6 && v[1] == 1 then TextInto(id, IpText(v[2..6])) else id
    case 1 | 2 | 3 | 6 | 7 => CopyInto(id, v[1..])
    case _ => id
  }

  function HandleChassisId(v: seq<byte>, info: Info): Info {
    if |v| < 2 then info
    else info.(chassisIdSubtype := v[0], chassisId := ChassisIdInto(info.chassisId, v))
  }

  function PortIdInto(id: Chars64, v: seq<byte>): Chars64
    requires |v| >= 2
  {
    match v[0]
    case 3 => if |v| == 7 then TextInto(id, MacText(v[1..7])) else id
    case 4 => if |v| == 6 && v[1] == 1 then TextInto(id, IpText(v[2..6])) else id
    case 1 | 2 | 5 | 6 | 7 => CopyInto(id, v[1..])
    case _ => id
  }

  function HandlePortId(v: seq<byte>, info: Info): Info {
    if |v| < 2 then info
    else info.(portIdSubtype := v[0], portId := PortIdInto(info.portId, v))
  }

  function HandleTtl(v: seq<byte>, info: Info): Info {
    if |v| != 2 then info else info.(ttl := ReadBe16(v))
  }

  function HandleSystemName(v: seq<byte>, info: Info): Info {
    if v == [] then info else info.(systemName := CopyInto(info.systemName, v))
  }

  function HandleSystemDescription(v: seq<byte>, info: Info): Info {
    if v == [] then info else info.(systemDescription := CopyInto(info.systemDescription, v))
  }

  function HandleCapabilities(v: seq<byte>, info: Info): Info {
    if |v| != 4 then info
    else info.(systemCapabilities := ReadBe16(v), enabledCapabilities := ReadBe16(v[2..]))
  }

  function HandleManagementAddress(v: seq<byte>, info: Info): Info {
    if |v| < 2 || v[0] != 5 || v[1] != 1 || |v| < 6 then info
    else info.(managementAddress := TextInto(info.managementAddress, IpText(v[2..6])))
  }

  /** The 24-bit organization number at the front. */
  function Oui(v: seq<byte>): nat
    requires |v| >= 3
  {
    0x1_0000 * v[0] as int + 0x100 * v[1] as int + v[2] as int
  }

  function HandlePvid(v: seq<byte>, info: Info): Info {
    if |v| != 6 then info else info.(pvid := ReadBe16(v[4..]), hasPvid := true)
  }

  function HandleVlanName(v: seq<byte>, info: Info): Info {
    if |v| < 7 || v[6] == 0 || 7 + v[6] as int != |v| then info
    else info.(vlanName := CopyInto(info.vlanName, v[7..]), vlanId := ReadBe16(v[4..]), hasVlanName := true)
  }

  function HandlePowerViaMdi(v: seq<byte>, info: Info): Info {
    if |v| < 7 then info
    else info.(
         poePowerType := if v[4] % 2 == 1 then 0 else 1,
         poeSupported := v[4] / 2 % 2 == 1,
         poeTypeSourcePriority := v[4], poePowerPair := v[5], poePowerClass := v[6],
         hasPoeMdi := true, hasPoe := true)
  }

  function HandleNetworkPolicy(v: seq<byte>, info: Info): Info {
    if |v| != 8 then info
    else info.(networkPolicyVlan := 128 * (v[5] as int % 32) + v[6] as int / 2, hasNetworkPolicy := true)
  }

  function HandleMedPower(v: seq<byte>, info: Info): Info {
    if |v| != 7 then info
    else info.(
         poeTypeSourcePriority := v[4], poePowerType := v[4] / 64, poePowerSource := v[4] / 16 % 4,
         poePowerPriority := v[4] % 16, poePowerWatts := ReadBe16(v[5..]),
         hasPoe := true, hasPoePowerValues := true)
  }

  function HandleOrganizational(v: seq<byte>, info: Info): Info {
    if |v| < 4 then info
    else
      var oui, subtype := Oui(v), v[3];
      if oui == OUI_IEEE_802_1 && subtype == 1 then HandlePvid(v, info)
      else if oui == OUI_IEEE_802_1 && subtype == 3 then HandleVlanName(v, info)
      else if oui == OUI_IEEE_802_3 && subtype == 2 then HandlePowerViaMdi(v, info)
      else if oui == OUI_MED && subtype == 2 then HandleNetworkPolicy(v, info)
      else if oui == OUI_MED && subtype == 4 then HandleMedPower(v, info)
      else info
  }

  function Handle(t: Tlv, info: Info): Info {
    if t.kind == CHASSIS_ID then HandleChassisId(t.value, info)
    else if t.kind == PORT_ID then HandlePortId(t.value, info)
    else if t.kind == TTL then HandleTtl(t.value, info)
    else if t.kind == SYSTEM_NAME then HandleSystemName(t.value, info)
    else if t.kind == SYSTEM_DESCRIPTION then HandleSystemDescription(t.value, info)
    else if t.kind == SYSTEM_CAPABILITIES then HandleCapabilities(t.value, info)
    else if t.kind == MANAGEMENT_ADDRESS then HandleManagementAddress(t.value, info)
    else if t.kind == ORG_SPECIFIC then HandleOrganizational(t.value, info)
    else info
  }

  function Fold(ts: seq<Tlv>, info: Info): Info {
    if ts == [] then info else Fold(ts[1..], Handle(ts[0], info))
  }

  // ---- The parser ----

  /** The low nine bits of a TLV header. */
  function DeclaredLength(a: byte, b: byte): nat {
    a as int % 2 * 256 + b as int
  }

  function Kind(a: byte): TlvType {
    a / 2
  }

  /** The header as one 16-bit number, split by shifts and masks. */
  method ReadHeader(a: byte, b: byte) returns (kind: TlvType, length: nat)
    ensures kind == Kind(a) && length == DeclaredLength(a, b)
  {
    var header: nat := 256 * a as int + b as int;
    ghost var k: nat := a as int / 2;
    assert a == 2 * k + a as int % 2;
    assert header == 512 * k + (256 * (a as int % 2) + b as int);
    kind, length := header / 512 % 128, header % 512;
  }

  /** What the parser yields for the bytes behind the Ethernet header. */
  function ParseTlvs(data: seq<byte>, info: Info): Option<Info>
    decreases |data|
  {
    if |data| < 2 then None
    else
      var length := DeclaredLength(data[0], data[1]);
      if length > |data| - 2 then None
      else if Kind(data[0]) == END then Some(info.(valid := true))
      else ParseTlvs(data[2 + length..], Handle(Tlv(Kind(data[0]), data[2..2 + length]), info))
  }

  function ParseFrame(frame: seq<byte>): Option<Info> {
    if |frame| <= 14 then None else ParseTlvs(frame[14..], BLANK.(sourceMac := frame[6..12]))
  }

  lemma ParseEnds(data: seq<byte>, info: Info)
    requires |data| < 2
    ensures ParseTlvs(data, info) == None
  {
  }

  /** One turn of the parser's loop, in terms of frame offsets. */
  lemma ParseStep(frame: seq<byte>, ptr: nat, info: Info)
    requires ptr + 2 <= |frame|
    ensures var length, at := DeclaredLength(frame[ptr], frame[ptr + 1]), ptr + 2;
      ParseTlvs(frame[ptr..], info) ==
      if at + length > |frame| then None
      else if Kind(frame[ptr]) == END then Some(info.(valid := true))
      else ParseTlvs(frame[at + length..], Handle(Tlv(Kind(frame[ptr]), frame[at..at + length]), info))
  {
    hide Handle;
    var data, length, at := frame[ptr..], DeclaredLength(frame[ptr], frame[ptr + 1]), ptr + 2;
    if at + length <= |frame| {
      assert data[2..2 + length] == frame[at..at + length];
      assert data[2 + length..] == frame[at + length..];
    }
  }

  /** One pass over the frame with a cursor, filling `info` as it goes. */
  method Parse(frame: seq<byte>) returns (r: Option<Info>)
    ensures r == ParseFrame(frame)
  {
    hide Handle, ParseTlvs, Kind, DeclaredLength;
    if |frame| <= 14 {
      return None;
    }
    var ptr, end := 14, |frame|;
    var info := BLANK.(sourceMac := frame[6..12]);
    while ptr + 2 <= end
      invariant 14 <= ptr <= end
      invariant ParseTlvs(frame[ptr..], info) == ParseFrame(frame)
      decreases end - ptr
    {
      var kind, length := ReadHeader(frame[ptr], frame[ptr + 1]);
      ParseStep(frame, ptr, info);
      ptr := ptr + 2;
      if ptr + length > end {
        return None;
      }
      if kind == END {
        return Some(info.(valid := true));
      }
      info := Handle(Tlv(kind, frame[ptr..ptr + length]), info);
      ptr := ptr + length;
    }
    ParseEnds(frame[ptr..], info);
    return None;
  }

  // ---- Parsing what was built ----

  lemma BuiltHeader(t: Tlv, rest: seq<byte>)
    requires Buildable(t)
    ensures var data := BuildTlv(t) + rest;
      && |data| == 2 + |t.value| + |rest|
      && Kind(data[0]) == t.kind && DeclaredLength(data[0], data[1]) == |t.value|
      && data[2..2 + |t.value|] == t.value && data[2 + |t.value|..] == rest
  {
    var n: nat, k: nat := |t.value|, t.kind;
    assert (k * 512 + n) / 256 == 2 * k + n / 256 && (k * 512 + n) % 256 == n % 256;
  }

  /** The TLVs before the first End. */
  function BeforeEnd(ts: seq<Tlv>): seq<Tlv> {
    if ts == [] || ts[0].kind == END then [] else [ts[0]] + BeforeEnd(ts[1..])
  }

  predicate NoEnd(ts: seq<Tlv>) {
    forall k :: 0 <= k < |ts| ==> ts[k].kind != END
  }

  lemma {:induction false} BeforeEndAll(ts: seq<Tlv>)
    requires NoEnd(ts)
    ensures BeforeEnd(ts) == ts
  {
    if ts != [] {
      BeforeEndAll(ts[1..]);
    }
  }

  lemma ParseBuiltTlv(t: Tlv, rest: seq<byte>, info: Info)
    requires Buildable(t)
    ensures ParseTlvs(BuildTlv(t) + rest, info) ==
      if t.kind == END then Some(info.(valid := true)) else ParseTlvs(rest, Handle(t, info))
  {
    hide Handle, BuildTlv;
    BuiltHeader(t, rest);
  }

  /** Any TLV list, closed by an End TLV, parses to the fold over what precedes its first End. */
  lemma {:induction false} ParseBuilt(ts: seq<Tlv>, end: Tlv, trailing: seq<byte>, info: Info)
    requires AllBuildable(ts) && Buildable(end) && end.kind == END
    ensures ParseTlvs(BuildAll(ts) + (BuildTlv(end) + trailing), info) ==
      Some(Fold(BeforeEnd(ts), info).(valid := true))
  {
    hide Handle, BuildTlv, ParseTlvs;
    var tail := BuildTlv(end) + trailing;
    if ts == [] {
      ParseBuiltTlv(end, trailing, info);
      assert BuildAll(ts) + tail == tail;
    } else {
      ConcatAssociative(BuildTlv(ts[0]), BuildAll(ts[1..]), tail);
      ParseBuiltTlv(ts[0], BuildAll(ts[1..]) + tail, info);
      if ts[0].kind != END {
        ParseBuilt(ts[1..], end, trailing, Handle(ts[0], info));
        assert BeforeEnd(ts)[1..] == BeforeEnd(ts[1..]);
      }
    }
  }

  /** Too short for a TLV: less than a header, or less than the header announces. */
  predicate CutShort(data: seq<byte>) {
    |data| < 2 || |data| - 2 < DeclaredLength(data[0], data[1])
  }

  /** A list without End that stops, or is cut inside a TLV, is rejected. */
  lemma {:induction false} ParseRejects(ts: seq<Tlv>, cut: seq<byte>, info: Info)
    requires AllBuildable(ts) && NoEnd(ts) && CutShort(cut)
    ensures ParseTlvs(BuildAll(ts) + cut, info) == None
  {
    hide Handle, BuildTlv;
    if ts == [] {
      assert BuildAll(ts) + cut == cut;
    } else {
      ConcatAssociative(BuildTlv(ts[0]), BuildAll(ts[1..]), cut);
      ParseBuiltTlv(ts[0], BuildAll(ts[1..]) + cut, info);
      ParseRejects(ts[1..], cut, Handle(ts[0], info));
    }
  }

  lemma TlvSplit(data: seq<byte>) returns (t: Tlv, rest: seq<byte>)
    requires !CutShort(data)
    ensures Buildable(t) && data == BuildTlv(t) + rest && t.kind == Kind(data[0]) && |rest| < |data|
  {
    var length := DeclaredLength(data[0], data[1]);
    t, rest := Tlv(Kind(data[0]), data[2..2 + length]), data[2 + length..];
    var k: nat, a: nat := data[0] as int / 2, data[0] as int;
    assert a == 2 * k + a % 2;
    assert (k * 512 + length) / 256 == a && (k * 512 + length) % 256 == data[1];
    assert BuildTlv(t) == [data[0], data[1]] + data[2..2 + length];
  }

  /** Every byte string is a TLV list without End followed by an End TLV or by a cut one. */
  lemma {:induction false} Decomposed(data: seq<byte>) returns (ts: seq<Tlv>, rest: seq<byte>)
    ensures AllBuildable(ts) && NoEnd(ts) && data == BuildAll(ts) + rest
    ensures CutShort(rest) || Kind(rest[0]) == END
    decreases |data|
  {
    hide BuildTlv;
    if CutShort(data) || Kind(data[0]) == END {
      ts, rest := [], data;
      assert BuildAll(ts) + rest == data;
    } else {
      var t, tail := TlvSplit(data);
      ts, rest := Decomposed(tail);
      ConcatAssociative(BuildTlv(t), BuildAll(ts), rest);
      assert ([t] + ts)[1..] == ts;
      ts := [t] + ts;
    }
  }

  /** The parser accepts exactly the TLV lists closed by an End TLV, and yields their fold. */
  lemma ParseExact(data: seq<byte>, info: Info, r: Info)
    ensures ParseTlvs(data, info) == Some(r) <==>
      exists ts, end, trailing :: AllBuildable(ts) && NoEnd(ts) && Buildable(end) && end.kind == END &&
        data == BuildAll(ts) + (BuildTlv(end) + trailing) && r == Fold(ts, info).(valid := true)
  {
    hide Handle, BuildTlv, Fold, ParseTlvs, BuildAll, NoEnd, AllBuildable;
    var ts, rest := Decomposed(data);
    if CutShort(rest) {
      ParseRejects(ts, rest, info);
    } else {
      var end, trailing := TlvSplit(rest);
      ParseBuilt(ts, end, trailing, info);
      BeforeEndAll(ts);
    }
    forall ts, end, trailing | AllBuildable(ts) && NoEnd(ts) && Buildable(end) && end.kind == END &&
      data == BuildAll(ts) + (BuildTlv(end) + trailing) && r == Fold(ts, info).(valid := true)
      ensures ParseTlvs(data, info) == Some(r)
    {
      ParseBuilt(ts, end, trailing, info);
      BeforeEndAll(ts);
    }
  }

  // ---- The neighbour entry ----

  function FillNeighbor(info: Info): Option<Neighbor> {
    if !info.valid then None
    else
      var named := EMPTY.(
        mac := info.sourceMac, sources := SourceBit(Protocol.Lldp), occupied := true,
        lldpChassisSubtype := info.chassisIdSubtype, lldpPortSubtype := info.portIdSubtype,
        name := Stored(info.systemName, 64), port := Stored(info.portId, 64),
        managementAddress := Stored(info.managementAddress, 48), chassisId := Stored(info.chassisId, 64),
        description := Stored(info.systemDescription, 128),
        ttl := info.ttl, capabilities := info.systemCapabilities, enabledCapabilities := info.enabledCapabilities,
        pvid := info.pvid, hasPvid := info.hasPvid, vlanId := info.vlanId,
        vlanName := if info.hasVlanName then Stored(info.vlanName, 64) else Zeros(64), hasVlanName := info.hasVlanName,
        networkPolicyVlan := if info.hasNetworkPolicy then info.networkPolicyVlan else 0,
        hasNetworkPolicy := info.hasNetworkPolicy);
      Some(named.(
           poeSupported := info.poeSupported, poePowerPair := info.poePowerPair, poePowerClass := info.poePowerClass,
           poeTypeSourcePriority := info.poeTypeSourcePriority,
           poeRequestedPower := info.poeRequestedPower, poeAllocatedPower := info.poeAllocatedPower,
           poePowerWatts := info.poePowerWatts, poeRequestedPowerWatts := info.poeRequestedPowerWatts,
           poeAllocatedPowerWatts := info.poeAllocatedPowerWatts, poePowerType := info.poePowerType,
           poePowerSource := info.poePowerSource, poePowerPriority := info.poePowerPriority,
           hasPoeMdi := info.hasPoeMdi, hasPoe := info.hasPoe, hasPoePowerValues := info.hasPoePowerValues))
  }
}
