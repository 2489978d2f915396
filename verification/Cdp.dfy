/**
 CDP: the frame envelope, the TLV walk with its address lists, and the neighbour
 entry it fills.
 */
module Cdp {
  import opened Bytes
  import opened Checksum
  import opened Neighbors
  import opened Texts

  type Chars16 = s: seq<byte> | |s| == 16 ghost witness Zeros(16)

  datatype Info = Info(
    sourceMac: MacAddress,
    deviceId: Chars64,
    portId: Chars64,
    softwareVersion: Chars128,
    platform: Chars64,
    managementAddress: Chars16,
    capabilities: u32,
    ttl: byte,
    version: byte,
    valid: bool)

  const BLANK: Info :=
    Info([0, 0, 0, 0, 0, 0], Zeros(64), Zeros(64), Zeros(128), Zeros(64), Zeros(16), 0, 0, 0, false)

  const DESTINATION: seq<byte> := [0x01, 0x00, 0x0C, 0xCC, 0xCC, 0xCC]
  const LLC_SNAP: seq<byte> := [0xAA, 0xAA, 0x03, 0x00, 0x00, 0x0C, 0x20, 0x00]

  const DEVICE_ID := 1
  const ADDRESS := 2
  const PORT_ID := 3
  const CAPABILITIES := 4
  const SOFTWARE_VERSION := 5
  const PLATFORM := 6
  const MANAGEMENT_ADDRESS := 0x16

  // ---- The envelope ----

  /** The CDP data of an IEEE 802.3 frame with the Cisco SNAP header. */
  function GetPdu(frame: seq<byte>): (r: Option<seq<byte>>)
    ensures r.Some? ==> 4 <= |r.value| <= 1492
  {
    if |frame| < 26 || frame[..6] != DESTINATION then None
    else
      var declared := ReadBe16(frame[12..14]) as nat;
      if declared < 12 || declared > 1500 || declared > |frame| - 14 || frame[14..22] != LLC_SNAP then None
      else Some(frame[22..14 + declared])
  }

  /** The frame around a PDU. */
  function Wrapped(source: MacAddress, pdu: seq<byte>): seq<byte>
    requires |pdu| <= 1492
  {
    DESTINATION + source + Be16(8 + |pdu|) + LLC_SNAP + pdu
  }

  /** The envelope is accepted exactly when the frame begins with a PDU of legal size wrapped so. */
  lemma GetPduExact(frame: seq<byte>, pdu: seq<byte>)
    ensures GetPdu(frame) == Some(pdu) <==>
      4 <= |pdu| <= 1492 && exists source: MacAddress, trailing :: frame == Wrapped(source, pdu) + trailing
  {
    if GetPdu(frame) == Some(pdu) {
      PduUnwrapped(frame, pdu);
    } else if 4 <= |pdu| <= 1492 && exists source: MacAddress, trailing :: frame == Wrapped(source, pdu) + trailing {
      var source: MacAddress, trailing :| frame == Wrapped(source, pdu) + trailing;
      PduWrapped(source, pdu, trailing);
      assert false;
    }
  }

  lemma PduWrapped(source: MacAddress, pdu: seq<byte>, trailing: seq<byte>)
    requires 4 <= |pdu| <= 1492
    ensures GetPdu(Wrapped(source, pdu) + trailing) == Some(pdu)
    ensures (Wrapped(source, pdu) + trailing)[6..12] == source
  {
    var frame := Wrapped(source, pdu) + trailing;
    assert frame[..6] == DESTINATION && frame[12..14] == Be16(8 + |pdu|) && frame[14..22] == LLC_SNAP;
    assert frame[22..22 + |pdu|] == pdu;
    ReadBe16OfBe16(8 + |pdu|);
  }

  lemma PduUnwrapped(frame: seq<byte>, pdu: seq<byte>)
    requires GetPdu(frame) == Some(pdu)
    ensures frame == Wrapped(frame[6..12], pdu) + frame[22 + |pdu|..]
  {
    Be16OfReadBe16(frame[12..14]);
    var w := Wrapped(frame[6..12], pdu);
    assert frame[..6] + frame[6..12] + frame[12..14] + frame[14..22] + frame[22..22 + |pdu|] == w;
  }

  // ---- Address lists ----

  datatype Address = Address(kind: byte, protocol: seq<byte>, address: seq<byte>)

  predicate Encodable(a: Address) {
    |a.protocol| < 0x100 && |a.address| < 0x1_0000
  }

  predicate IsIpv4(a: Address) {
    a.kind == 1 && a.protocol == [0xCC]
  }

  predicate AddressOk(a: Address) {
    Encodable(a) && (IsIpv4(a) ==> |a.address| == 4)
  }

  function EncodeAddress(a: Address): seq<byte>
    requires Encodable(a)
  {
    [a.kind, |a.protocol|] + a.protocol + Be16(|a.address|) + a.address
  }

  predicate AllOk(addresses: seq<Address>) {
    forall k :: 0 <= k < |addresses| ==> AddressOk(addresses[k])
  }

  function EncodeAddresses(addresses: seq<Address>): seq<byte>
    requires AllOk(addresses)
  {
    if addresses == [] then [] else EncodeAddress(addresses[0]) + EncodeAddresses(addresses[1..])
  }

  /** One address off the front. */
  function TakeAddress(data: seq<byte>): Option<(Address, seq<byte>)> {
    if |data| < 2 then None
    else
      var n := data[1] as nat;
      if n > |data| - 2 || |data| - 2 - n < 2 then None
      else
        var length := ReadBe16(data[2 + n..4 + n]) as nat;
        if length > |data| - 4 - n then None
        else
          var a := Address(data[0], data[2..2 + n], data[4 + n..4 + n + length]);
          if IsIpv4(a) && length != 4 then None else Some((a, data[4 + n + length..]))
  }

  function TakeAddresses(data: seq<byte>, count: nat): Option<seq<Address>>
    decreases count
  {
    if count == 0 then if data == [] then Some([]) else None
    else
      match TakeAddress(data)
      case None => None
      case Some((a, rest)) =>
        match TakeAddresses(rest, count - 1)
        case None => None
        case Some(more) => Some([a] + more)
  }

  lemma TakenAddress(data: seq<byte>)
    requires TakeAddress(data).Some?
    ensures var (a, rest) := TakeAddress(data).value; AddressOk(a) && data == EncodeAddress(a) + rest
  {
    var n := data[1] as nat;
    var (a, rest) := TakeAddress(data).value;
    assert Be16(ReadBe16(data[2 + n..4 + n])) == data[2 + n..4 + n];
    assert data == data[..2] + data[2..2 + n] + data[2 + n..4 + n] + data[4 + n..4 + n + |a.address|] + rest;
    assert data[..2] == [a.kind, |a.protocol|];
  }

  lemma EncodedAddress(a: Address, rest: seq<byte>)
    requires AddressOk(a)
    ensures TakeAddress(EncodeAddress(a) + rest) == Some((a, rest))
  {
    var data, n := EncodeAddress(a) + rest, |a.protocol|;
    assert data[1] == n && data[2..2 + n] == a.protocol;
    assert data[2 + n..4 + n] == Be16(|a.address|);
    assert ReadBe16(Be16(|a.address|)) == |a.address|;
    assert data[4 + n..4 + n + |a.address|] == a.address && data[4 + n + |a.address|..] == rest;
  }

  /** A list is read back exactly when the data is its encoding and each IPv4 entry has four bytes. */
  lemma {:induction false} AddressesExact(data: seq<byte>, count: nat, addresses: seq<Address>)
    ensures TakeAddresses(data, count) == Some(addresses) <==>
      |addresses| == count && AllOk(addresses) && data == EncodeAddresses(addresses)
    decreases count
  {
    hide TakeAddress, EncodeAddress, AddressOk;
    if count > 0 {
      if TakeAddress(data).Some? {
        var (a, rest) := TakeAddress(data).value;
        TakenAddress(data);
        var more := TakeAddresses(rest, count - 1);
        if more.Some? {
          AddressesExact(rest, count - 1, more.value);
          ConsAddress(a, more.value);
        }
      }
      if |addresses| == count && AllOk(addresses) && data == EncodeAddresses(addresses) {
        EncodedAddress(addresses[0], EncodeAddresses(addresses[1..]));
        AddressesExact(EncodeAddresses(addresses[1..]), count - 1, addresses[1..]);
        assert [addresses[0]] + addresses[1..] == addresses;
      }
    }
  }

  lemma ConsAddress(a: Address, more: seq<Address>)
    requires AddressOk(a) && AllOk(more)
    ensures AllOk([a] + more) && EncodeAddresses([a] + more) == EncodeAddress(a) + EncodeAddresses(more)
  {
    assert ([a] + more)[1..] == more;
  }

  /** The first IPv4 address of a list fills an empty field. */
  function ManagementOf(addresses: seq<Address>, field: Chars16): Chars16
    requires AllOk(addresses)
  {
    if field[0] != 0 || addresses == [] then field
    else if IsIpv4(addresses[0]) then TextInto(field, IpText(addresses[0].address))
    else ManagementOf(addresses[1..], field)
  }

  function AddressList(data: seq<byte>): Option<seq<Address>> {
    if |data| < 4 then None else TakeAddresses(data[4..], ReadBe32(data))
  }

  lemma TakenAllOk(data: seq<byte>, count: nat)
    ensures TakeAddresses(data, count).Some? ==> AllOk(TakeAddresses(data, count).value)
  {
    if TakeAddresses(data, count).Some? {
      AddressesExact(data, count, TakeAddresses(data, count).value);
    }
  }

  function HandleAddresses(data: seq<byte>, field: Chars16): Option<Chars16> {
    match AddressList(data)
    case None => None
    case Some(addresses) =>
      TakenAllOk(data[4..], ReadBe32(data));
      Some(ManagementOf(addresses, field))
  }

  /** The rest of the list, with the field as it is by now. */
  function Remaining(data: seq<byte>, count: nat, field: Chars16): Option<Chars16> {
    match TakeAddresses(data, count)
    case None => None
    case Some(addresses) =>
      TakenAllOk(data, count);
      Some(ManagementOf(addresses, field))
  }

  lemma RemainingStep(data: seq<byte>, count: nat, field: Chars16)
    requires count > 0
    ensures TakeAddress(data).None? ==> Remaining(data, count, field).None?
    ensures TakeAddress(data).Some? ==>
      var (a, rest) := TakeAddress(data).value;
      var next := if field[0] == 0 && IsIpv4(a) && |a.address| == 4 then TextInto(field, IpText(a.address)) else field;
      Remaining(data, count, field) == Remaining(rest, count - 1, next)
  {
    hide TakeAddress, EncodeAddress;
    if TakeAddress(data).Some? {
      var (a, rest) := TakeAddress(data).value;
      TakenAddress(data);
      if TakeAddresses(rest, count - 1).Some? {
        var more := TakeAddresses(rest, count - 1).value;
        TakenAllOk(rest, count - 1);
        ConsAddress(a, more);
        assert ([a] + more)[1..] == more;
        if IsIpv4(a) {
          assert IpText(a.address)[0] == TextInto(field, IpText(a.address))[0];
        }
      }
    }
  }

  lemma AddressPieces(data: seq<byte>, offset: nat)
    requires offset <= |data|
    ensures TakeAddress(data[offset..]) ==
      if |data| - offset < 2 then None
      else
        var n, at := data[offset + 1] as nat, offset + 2;
        if n > |data| - at || |data| - at - n < 2 then None
        else
          var length, start := ReadBe16(data[at + n..at + n + 2]) as nat, at + n + 2;
          if length > |data| - start then None
          else
            var a := Address(data[offset], data[at..at + n], data[start..start + length]);
            if IsIpv4(a) && length != 4 then None else Some((a, data[start + length..]))
  {
    var d := data[offset..];
    if |d| >= 2 {
      var n := d[1] as nat;
      if n <= |d| - 2 && |d| - 2 - n >= 2 {
        assert d[2 + n..4 + n] == data[offset + 2 + n..offset + 4 + n];
        var length := ReadBe16(d[2 + n..4 + n]) as nat;
        assert d[2..2 + n] == data[offset + 2..offset + 2 + n];
        if length <= |d| - 4 - n {
          assert d[4 + n..4 + n + length] == data[offset + 4 + n..offset + 4 + n + length];
          assert d[4 + n + length..] == data[offset + 4 + n + length..];
        }
      }
    }
  }

  method ParseAddresses(data: seq<byte>, field: Chars16) returns (r: Option<Chars16>)
    ensures r == HandleAddresses(data, field)
  {
    hide TakeAddress, TakeAddresses, IpText, TextInto;
    if |data| < 4 {
      return None;
    }
    var count: nat := ReadBe32(data);
    var offset := 4;
    var management := field;
    for index := 0 to count
      invariant 4 <= offset <= |data|
      invariant HandleAddresses(data, field) == Remaining(data[offset..], count - index, management)
    {
      AddressPieces(data, offset);
      RemainingStep(data[offset..], count - index, management);
      if |data| - offset < 2 {
        return None;
      }
      var protocolType, protocolLength := data[offset], data[offset + 1] as nat;
      offset := offset + 2;
      if protocolLength > |data| - offset {
        return None;
      }
      var protocol := data[offset..offset + protocolLength];
      offset := offset + protocolLength;
      if |data| - offset < 2 {
        return None;
      }
      var addressLength := ReadBe16(data[offset..offset + 2]) as nat;
      offset := offset + 2;
      if addressLength > |data| - offset {
        return None;
      }
      if protocolType == 1 && protocolLength == 1 && protocol[0] == 0xCC {
        assert protocol == [0xCC];
        if addressLength != 4 {
          return None;
        }
        if management[0] == 0 {
          management := TextInto(management, IpText(data[offset..offset + 4]));
        }
      }
      offset := offset + addressLength;
    }
    NothingRemains(data[offset..], management);
    r := if offset == |data| then Some(management) else None;
  }

  lemma NothingRemains(data: seq<byte>, field: Chars16)
    ensures Remaining(data, 0, field) == if data == [] then Some(field) else None
  {
  }

  // ---- TLVs ----

  datatype Tlv = Tlv(kind: u16, value: seq<byte>)

  /** The record while the TLVs are walked: the fields, and whether the last device ID was not blank. */
  datatype Progress = Progress(info: Info, sawDeviceId: bool)

  function Handle(t: Tlv, p: Progress): Option<Progress> {
    var i := p.info;
    if t.kind == DEVICE_ID then
      var text := ShownInto(i.deviceId, t.value);
      Some(Progress(i.(deviceId := text), text[0] != 0))
    else if t.kind == ADDRESS || t.kind == MANAGEMENT_ADDRESS then
      match HandleAddresses(t.value, i.managementAddress)
      case None => None
      case Some(field) => Some(p.(info := i.(managementAddress := field)))
    else if t.kind == PORT_ID then Some(p.(info := i.(portId := ShownInto(i.portId, t.value))))
    else if t.kind == CAPABILITIES then
      if |t.value| != 4 then None else Some(p.(info := i.(capabilities := ReadBe32(t.value))))
    else if t.kind == SOFTWARE_VERSION then
      Some(p.(info := i.(softwareVersion := ShownInto(i.softwareVersion, t.value))))
    else if t.kind == PLATFORM then Some(p.(info := i.(platform := ShownInto(i.platform, t.value))))
    else Some(p)
  }

  function Fold(ts: seq<Tlv>, p: Progress): Option<Progress> {
    if ts == [] then Some(p)
    else
      match Handle(ts[0], p)
      case None => None
      case Some(q) => Fold(ts[1..], q)
  }

  function WalkTlvs(data: seq<byte>, p: Progress): Option<Progress>
    decreases |data|
  {
    if data == [] then Some(p)
    else if |data| < 4 then None
    else
      var length := ReadBe16(data[2..4]) as nat;
      if length < 4 || length > |data| then None
      else
        match Handle(Tlv(ReadBe16(data[..2]), data[4..length]), p)
        case None => None
        case Some(q) => WalkTlvs(data[length..], q)
  }

  predicate AllShort(ts: seq<Tlv>) {
    forall k :: 0 <= k < |ts| ==> |ts[k].value| < 0x1_0000 - 4
  }

  function EncodeTlv(t: Tlv): seq<byte>
    requires |t.value| < 0x1_0000 - 4
  {
    Be16(t.kind) + Be16(|t.value| + 4) + t.value
  }

  function EncodeTlvs(ts: seq<Tlv>): seq<byte>
    requires AllShort(ts)
  {
    if ts == [] then [] else EncodeTlv(ts[0]) + EncodeTlvs(ts[1..])
  }

  lemma WalkEncodedTlv(t: Tlv, rest: seq<byte>, p: Progress)
    requires |t.value| < 0x1_0000 - 4
    ensures WalkTlvs(EncodeTlv(t) + rest, p) == match Handle(t, p) case None => None case Some(q) => WalkTlvs(rest, q)
  {
    hide Handle;
    var data, length := EncodeTlv(t) + rest, |t.value| + 4;
    assert data[..2] == Be16(t.kind) && data[2..4] == Be16(length);
    assert ReadBe16(Be16(t.kind)) == t.kind && ReadBe16(Be16(length)) == length;
    assert data[4..length] == t.value && data[length..] == rest;
  }

  /** Walking an encoded list is folding the handlers over it. */
  lemma {:induction false} WalkEncoded(ts: seq<Tlv>, p: Progress)
    requires AllShort(ts)
    ensures WalkTlvs(EncodeTlvs(ts), p) == Fold(ts, p)
  {
    hide Handle, EncodeTlv;
    if ts != [] {
      WalkEncodedTlv(ts[0], EncodeTlvs(ts[1..]), p);
      if Handle(ts[0], p).Some? {
        WalkEncoded(ts[1..], Handle(ts[0], p).value);
      }
    }
  }

  /** Whatever is walked to its end is an encoded list. */
  lemma {:induction false} WalkedIsEncoded(data: seq<byte>, p: Progress) returns (ts: seq<Tlv>)
    requires WalkTlvs(data, p).Some?
    ensures AllShort(ts) && data == EncodeTlvs(ts)
    decreases |data|
  {
    hide Handle, EncodeTlv;
    if data == [] {
      return [];
    }
    var length := ReadBe16(data[2..4]) as nat;
    var t := Tlv(ReadBe16(data[..2]), data[4..length]);
    var more := WalkedIsEncoded(data[length..], Handle(t, p).value);
    ts := [t] + more;
    assert ts[1..] == more;
    TlvPieces(data, length);
  }

  lemma TlvPieces(data: seq<byte>, length: nat)
    requires 4 <= length <= |data| && ReadBe16(data[2..4]) == length
    ensures data == EncodeTlv(Tlv(ReadBe16(data[..2]), data[4..length])) + data[length..]
  {
    assert Be16(ReadBe16(data[..2])) == data[..2] && Be16(ReadBe16(data[2..4])) == data[2..4];
    assert data == data[..2] + data[2..4] + data[4..length] + data[length..];
  }

  // ---- The parser ----

  function ParseCdp(frame: seq<byte>): Option<Info> {
    match GetPdu(frame)
    case None => None
    case Some(pdu) =>
      if !Resums(pdu) || (pdu[0] != 1 && pdu[0] != 2) then None
      else
        var start := BLANK.(version := pdu[0], ttl := pdu[1], sourceMac := frame[6..12]);
        match WalkTlvs(pdu[4..], Progress(start, false))
        case None => None
        case Some(p) => if p.sawDeviceId then Some(p.info.(valid := true)) else None
  }

  lemma WalkStep(pdu: seq<byte>, offset: nat, p: Progress)
    requires offset < |pdu|
    ensures WalkTlvs(pdu[offset..], p) ==
      if |pdu| - offset < 4 then None
      else
        var length := ReadBe16(pdu[offset + 2..offset + 4]) as nat;
        if length < 4 || length > |pdu| - offset then None
        else
          match Handle(Tlv(ReadBe16(pdu[offset..offset + 2]), pdu[offset + 4..offset + length]), p)
          case None => None
          case Some(q) => WalkTlvs(pdu[offset + length..], q)
  {
    hide Handle;
    var data := pdu[offset..];
    if |data| >= 4 {
      assert data[2..4] == pdu[offset + 2..offset + 4] && data[..2] == pdu[offset..offset + 2];
      var length := ReadBe16(data[2..4]) as nat;
      if 4 <= length <= |data| {
        assert data[4..length] == pdu[offset + 4..offset + length] && data[length..] == pdu[offset + length..];
      }
    }
  }

  method Parse(frame: seq<byte>) returns (r: Option<Info>)
    ensures r == ParseCdp(frame)
  {
    hide Handle, WalkTlvs, Resums;
    var envelope := GetPdu(frame);
    if envelope.None? {
      return None;
    }
    var pdu := envelope.value;
    var valid := CdpChecksumIsValid(pdu);
    ResumsExact(pdu);
    if !valid || (pdu[0] != 1 && pdu[0] != 2) {
      return None;
    }
    var p := Progress(BLANK.(version := pdu[0], ttl := pdu[1], sourceMac := frame[6..12]), false);
    ghost var walked := WalkTlvs(pdu[4..], p);
    var offset, sawTlv := 4, false;
    while offset < |pdu|
      invariant 4 <= offset <= |pdu| && walked == WalkTlvs(pdu[offset..], p)
      invariant p.sawDeviceId ==> sawTlv
    {
      WalkStep(pdu, offset, p);
      if |pdu| - offset < 4 {
        return None;
      }
      var kind, length := ReadBe16(pdu[offset..offset + 2]), ReadBe16(pdu[offset + 2..offset + 4]) as nat;
      if length < 4 || length > |pdu| - offset {
        return None;
      }
      sawTlv := true;
      var next := Handle(Tlv(kind, pdu[offset + 4..offset + length]), p);
      if next.None? {
        return None;
      }
      p := next.value;
      offset := offset + length;
    }
    WalkNothing(p);
    assert pdu[offset..] == [];
    r := if !sawTlv || !p.sawDeviceId then None else Some(p.info.(valid := true));
  }

  lemma WalkNothing(p: Progress)
    ensures WalkTlvs([], p) == Some(p)
  {
  }

  lemma ResumsExact(d: seq<byte>)
    ensures Resums(d) <==> WordSum(d) > 0 && WordSum(d) % 0xFFFF == 0
  {
    RepFull(WordSum(d));
  }

  // ---- A frame with a correct checksum ----

  /** PDU with the checksum field filled in. */
  function BuildPdu(version: byte, ttl: byte, ts: seq<Tlv>): seq<byte>
    requires AllShort(ts)
  {
    var rest := EncodeTlvs(ts);
    WithField([version, ttl], InternetChecksum(WithField([version, ttl], 0, rest)), rest)
  }

  function BuildFrame(source: MacAddress, version: byte, ttl: byte, ts: seq<Tlv>): seq<byte>
    requires AllShort(ts) && |EncodeTlvs(ts)| <= 1488
  {
    Wrapped(source, BuildPdu(version, ttl, ts))
  }

  /** Such a frame is accepted exactly when every TLV is and the last device ID is not blank; it yields the fold. */
  lemma BuiltFrameParses(source: MacAddress, version: byte, ttl: byte, ts: seq<Tlv>)
    requires AllShort(ts) && |EncodeTlvs(ts)| <= 1488
    ensures var start := BLANK.(version := version, ttl := ttl, sourceMac := source);
      var p := Fold(ts, Progress(start, false));
      ParseCdp(BuildFrame(source, version, ttl, ts)) ==
      if (version == 1 || version == 2) && p.Some? && p.value.sawDeviceId then Some(p.value.info.(valid := true))
      else None
  {
    hide Handle, WalkTlvs, Fold, Resums, InternetChecksum, EncodeTlvs, GetPdu, Wrapped, AllShort;
    var frame, pdu, rest := BuildFrame(source, version, ttl, ts), BuildPdu(version, ttl, ts), EncodeTlvs(ts);
    PduWrapped(source, pdu, []);
    assert frame + [] == frame;
    assert pdu[4..] == rest;
    ChecksumFills([version, ttl], rest);
    WalkEncoded(ts, Progress(BLANK.(version := version, ttl := ttl, sourceMac := source), false));
  }

  // ---- The neighbour entry ----

  /** How much of the platform and of the software version the description has room for. */
  function DescriptionCuts(platform: nat, software: nat): (r: (nat, nat))
    requires platform <= 63 && software <= 127
    ensures r.0 <= platform && r.1 <= software
    ensures if platform + software <= 124 then r == (platform, software) else r.0 + r.1 == 124
    ensures (r.0 == platform || r.0 >= 47) && (r.1 == software || r.1 >= 77)
  {
    var p := if platform < 47 then platform else 47;
    var s := if software < 77 then software else 77;
    var s' := if p + s < 124 && s < software then (if software - s > 124 - p - s then 124 - p else software) else s;
    var p' := if p + s' < 124 && p < platform then (if platform - p > 124 - p - s' then 124 - s' else platform) else p;
    (p', s')
  }

  /** Platform and software version around a separator; nothing when both are blank. */
  function Description(platform: seq<byte>, software: seq<byte>): (text: seq<byte>)
    requires |platform| <= 63 && |software| <= 127
    ensures |text| <= 127
    ensures NulFree(platform) && NulFree(software) ==> NulFree(text)
  {
    if platform == [] && software == [] then []
    else
      var (p, s) := DescriptionCuts(|platform|, |software|);
      platform[..p] + [0x20, 0x7C, 0x20] + software[..s]
  }

  function FillNeighbor(info: Info): Option<Neighbor> {
    if !info.valid then None
    else
      Some(EMPTY.(
           mac := info.sourceMac, sources := SourceBit(Protocol.Cdp), occupied := true,
           name := Stored(info.deviceId, 64), port := Stored(info.portId, 64),
           managementAddress := Stored(info.managementAddress, 48),
           description :=
             CharArray(Description(Cut(Text(info.platform), 63), Cut(Text(info.softwareVersion), 127)), 128),
           ttl := info.ttl, capabilities := info.capabilities % 0x1_0000))
  }
}
