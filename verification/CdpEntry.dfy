/**
 What a CDP frame means: for every list of TLVs, in any order and any number, whether the
 frame is accepted and what the neighbour entry then says.
 */
module CdpEntry {
  import opened Bytes
  import opened Checksum
  import opened Neighbors
  import opened Texts
  import opened Cdp
  import LiveTable

  // ---- The frame, byte by byte ----

  function TlvBytes(ts: seq<Tlv>): seq<byte>
    requires AllShort(ts)
  {
    if ts == [] then []
    else Be16(ts[0].kind) + Be16(4 + |ts[0].value|) + ts[0].value + TlvBytes(ts[1..])
  }

  function Pdu(version: byte, ttl: byte, checksum: u16, ts: seq<Tlv>): seq<byte>
    requires AllShort(ts)
  {
    [version, ttl] + Be16(checksum) + TlvBytes(ts)
  }

  function FrameOf(source: MacAddress, pdu: seq<byte>, trailing: seq<byte>): seq<byte>
    requires |pdu| <= 1492
  {
    [0x01, 0x00, 0x0C, 0xCC, 0xCC, 0xCC] + source + Be16(8 + |pdu|) +
    [0xAA, 0xAA, 0x03, 0x00, 0x00, 0x0C, 0x20, 0x00] + pdu + trailing
  }

  lemma {:induction false} TlvBytesEncode(ts: seq<Tlv>)
    requires AllShort(ts)
    ensures TlvBytes(ts) == EncodeTlvs(ts)
  {
    if ts != [] {
      TlvBytesEncode(ts[1..]);
    }
  }

  // ---- What the TLVs say ----

  /** The last TLV of a type, as the text it is shown as; nothing when there is none. */
  function LastText(ts: seq<Tlv>, kind: u16, size: nat): (text: seq<byte>)
    requires size > 0
    ensures |text| < size && NulFree(text)
  {
    if ts == [] then []
    else if ts[|ts| - 1].kind == kind then Shown(ts[|ts| - 1].value, size)
    else LastText(ts[..|ts| - 1], kind, size)
  }

  /** The capability bits announced last. */
  function LastCapabilities(ts: seq<Tlv>): u32 {
    if ts == [] then 0
    else
      var t := ts[|ts| - 1];
      if t.kind == 4 && |t.value| == 4 then ReadBe32(t.value) else LastCapabilities(ts[..|ts| - 1])
  }

  predicate IsAddressTlv(t: Tlv) {
    t.kind == 2 || t.kind == 0x16
  }

  /** The value of an address TLV: a count and that many addresses, the IPv4 ones of four bytes each. */
  predicate IsAddressList(value: seq<byte>, list: seq<Address>) {
    |list| < 0x1_0000_0000 && AllOk(list) && value == Be32(|list|) + EncodeAddresses(list)
  }

  /** A capability word has four bytes, and an address list can be read. */
  predicate TlvOk(t: Tlv) {
    (t.kind == 4 ==> |t.value| == 4) && (IsAddressTlv(t) ==> AddressList(t.value).Some?)
  }

  predicate AllTlvsOk(ts: seq<Tlv>) {
    forall k :: 0 <= k < |ts| ==> TlvOk(ts[k])
  }

  /** The IPv4 addresses of a list: those of protocol type 1 with the one-byte protocol CC. */
  function Ipv4Of(list: seq<Address>): seq<seq<byte>> {
    if list == [] then []
    else (if list[0].kind == 1 && list[0].protocol == [0xCC] then [list[0].address] else []) + Ipv4Of(list[1..])
  }

  /** Those of every address TLV, in order. */
  function Announced(ts: seq<Tlv>): seq<seq<byte>> {
    if ts == [] then []
    else
      var t, before := ts[|ts| - 1], Announced(ts[..|ts| - 1]);
      if IsAddressTlv(t) && AddressList(t.value).Some? then before + Ipv4Of(AddressList(t.value).value) else before
  }

  /** The first of them in dotted form; nothing when there is none. */
  function Dotted(ips: seq<seq<byte>>): seq<byte> {
    if ips == [] || |ips[0]| != 4 then [] else IpText(ips[0])
  }

  /** Platform and software version around a bar, cut so that together they take 124 bytes; nothing for two blanks. */
  predicate Describes(platform: seq<byte>, software: seq<byte>, text: seq<byte>) {
    if platform == [] && software == [] then text == []
    else
      exists p: nat, s: nat :: p <= |platform| && s <= |software| &&
        text == platform[..p] + [0x20, 0x7C, 0x20] + software[..s] && CutsOk(|platform|, |software|, p, s)
  }

  predicate CutsOk(platform: nat, software: nat, p: nat, s: nat) {
    if platform + software <= 124 then p == platform && s == software
    else p + s == 124 && (p == platform || p >= 47) && (s == software || s >= 77)
  }

  // ---- Address lists ----

  lemma AddressListExact(value: seq<byte>, list: seq<Address>)
    ensures AddressList(value) == Some(list) <==> IsAddressList(value, list)
  {
    hide TakeAddresses, EncodeAddresses, AllOk;
    if |value| >= 4 {
      AddressesExact(value[4..], ReadBe32(value), list);
      if AddressList(value) == Some(list) {
        Be32OfReadBe32(value[..4]);
        assert ReadBe32(value[..4]) == ReadBe32(value);
        assert value == value[..4] + value[4..];
      }
    }
    if IsAddressList(value, list) {
      ReadBe32OfBe32(|list|);
      assert value[4..] == EncodeAddresses(list) && ReadBe32(value) == ReadBe32(Be32(|list|));
    }
  }

  /** A list fills an empty field with its first IPv4 address and leaves any other field alone. */
  lemma {:induction false} ManagementReads(list: seq<Address>, field: Chars16)
    requires AllOk(list) && Terminated(field)
    ensures var r := ManagementOf(list, field);
      Terminated(r) && Text(r) == if field[0] == 0 then Dotted(Ipv4Of(list)) else Text(field)
  {
    hide IpText, TextInto, Text, Terminated;
    FirstByte(field);
    if field[0] == 0 && list != [] {
      if IsIpv4(list[0]) {
        IpTextReads(list[0].address);
        TextIntoReads(field, IpText(list[0].address));
      } else {
        ManagementReads(list[1..], field);
      }
    }
  }

  lemma FirstByte(a: seq<byte>)
    requires a != []
    ensures a[0] == 0 <==> Text(a) == []
  {
  }

  lemma {:induction false} Ipv4Sizes(list: seq<Address>)
    requires AllOk(list)
    ensures forall k :: 0 <= k < |Ipv4Of(list)| ==> |Ipv4Of(list)[k]| == 4
  {
    if list != [] {
      Ipv4Sizes(list[1..]);
    }
  }

  // ---- Walking the TLVs ----

  lemma {:induction false} FoldSnoc(ts: seq<Tlv>, t: Tlv, p: Progress)
    ensures Fold(ts + [t], p) == match Fold(ts, p) case None => None case Some(q) => Handle(t, q)
  {
    hide Handle;
    if ts == [] {
      assert (ts + [t])[1..] == [];
    } else {
      assert (ts + [t])[1..] == ts[1..] + [t];
      if Handle(ts[0], p).Some? {
        FoldSnoc(ts[1..], t, Handle(ts[0], p).value);
      }
    }
  }

  lemma LastSnoc(ts: seq<Tlv>, t: Tlv)
    ensures forall kind, size: nat | size > 0 ::
      LastText(ts + [t], kind, size) == if t.kind == kind then Shown(t.value, size) else LastText(ts, kind, size)
    ensures LastCapabilities(ts + [t]) ==
      if t.kind == 4 && |t.value| == 4 then ReadBe32(t.value) else LastCapabilities(ts)
    ensures Announced(ts + [t]) == if IsAddressTlv(t) && AddressList(t.value).Some?
                                   then Announced(ts) + Ipv4Of(AddressList(t.value).value) else Announced(ts)
  {
    hide Shown, AddressList;
    assert (ts + [t])[..|ts|] == ts;
  }

  /** The texts of the record are the last ones of their types. */
  predicate TextsRead(ts: seq<Tlv>, i: Info) {
    && Terminated(i.deviceId) && Text(i.deviceId) == LastText(ts, 1, 64)
    && Terminated(i.portId) && Text(i.portId) == LastText(ts, 3, 64)
    && Terminated(i.softwareVersion) && Text(i.softwareVersion) == LastText(ts, 5, 128)
    && Terminated(i.platform) && Text(i.platform) == LastText(ts, 6, 64)
  }

  predicate AddressRead(ts: seq<Tlv>, field: Chars16) {
    && Terminated(field) && Text(field) == Dotted(Announced(ts))
    && forall k :: 0 <= k < |Announced(ts)| ==> |Announced(ts)[k]| == 4
  }

  /** The record after the TLVs, apart from what the header fixed. */
  predicate Reads(ts: seq<Tlv>, p: Progress, start: Info) {
    && TextsRead(ts, p.info) && AddressRead(ts, p.info.managementAddress)
    && p.info.capabilities == LastCapabilities(ts)
    && (p.sawDeviceId <==> LastText(ts, 1, 64) != [])
    && p.info.sourceMac == start.sourceMac && p.info.version == start.version && p.info.ttl == start.ttl
  }

  lemma HandleText(ts: seq<Tlv>, t: Tlv, p: Progress, start: Info)
    requires Reads(ts, p, start) && t.kind in {1, 3, 5, 6}
    ensures Handle(t, p).Some? && Reads(ts + [t], Handle(t, p).value, start)
  {
    hide ShownInto, Shown, Text, Terminated, LastText, LastCapabilities, Announced, Dotted;
    var i := p.info;
    LastSnoc(ts, t);
    ShownIntoReads(i.deviceId, t.value);
    ShownIntoReads(i.portId, t.value);
    ShownIntoReads(i.softwareVersion, t.value);
    ShownIntoReads(i.platform, t.value);
    FirstByte(ShownInto(i.deviceId, t.value));
  }

  lemma HandleAddressTlv(ts: seq<Tlv>, t: Tlv, p: Progress, start: Info)
    requires Reads(ts, p, start) && IsAddressTlv(t)
    ensures Handle(t, p).Some? <==> AddressList(t.value).Some?
    ensures Handle(t, p).Some? ==> Reads(ts + [t], Handle(t, p).value, start)
  {
    hide Text, Terminated, LastText, LastCapabilities, Announced, TakeAddresses, IpText;
    LastSnoc(ts, t);
    if AddressList(t.value).Some? {
      var list, field := AddressList(t.value).value, p.info.managementAddress;
      TakenAllOk(t.value[4..], ReadBe32(t.value));
      ManagementReads(list, field);
      Ipv4Sizes(list);
      FirstByte(field);
      IpFirst(Announced(ts));
    }
  }

  lemma IpFirst(ips: seq<seq<byte>>)
    ensures ips != [] && |ips[0]| == 4 ==> Dotted(ips) != []
  {
  }

  lemma HandleOther(ts: seq<Tlv>, t: Tlv, p: Progress, start: Info)
    requires Reads(ts, p, start) && t.kind !in {1, 3, 5, 6} && !IsAddressTlv(t)
    ensures Handle(t, p).Some? <==> TlvOk(t)
    ensures Handle(t, p).Some? ==> Reads(ts + [t], Handle(t, p).value, start)
  {
    hide Shown, Text, Terminated, LastText, LastCapabilities, Announced, Dotted;
    LastSnoc(ts, t);
  }

  lemma NothingRead(start: Info)
    requires start == BLANK.(version := start.version, ttl := start.ttl, sourceMac := start.sourceMac)
    ensures Reads([], Progress(start, false), start)
  {
    assert Zeros(64)[0] == 0 && Zeros(128)[0] == 0 && Zeros(16)[0] == 0;
  }

  /** The walk succeeds exactly when every TLV is well formed, and the record is what the TLVs say. */
  lemma {:induction false} FoldReads(ts: seq<Tlv>, start: Info)
    requires start == BLANK.(version := start.version, ttl := start.ttl, sourceMac := start.sourceMac)
    ensures var p := Fold(ts, Progress(start, false));
      (p.Some? <==> AllTlvsOk(ts)) && (p.Some? ==> Reads(ts, p.value, start))
  {
    hide Handle, Reads, TlvOk;
    if ts == [] {
      NothingRead(start);
    } else {
      var before, t := ts[..|ts| - 1], ts[|ts| - 1];
      assert ts == before + [t];
      FoldReads(before, start);
      FoldSnoc(before, t, Progress(start, false));
      if AllTlvsOk(before) {
        StepReads(before, t, Fold(before, Progress(start, false)).value, start);
      }
    }
  }

  lemma StepReads(ts: seq<Tlv>, t: Tlv, p: Progress, start: Info)
    requires Reads(ts, p, start)
    ensures Handle(t, p).Some? <==> TlvOk(t)
    ensures Handle(t, p).Some? ==> Reads(ts + [t], Handle(t, p).value, start)
  {
    hide Handle, Reads, AddressList;
    if t.kind in {1, 3, 5, 6} {
      HandleText(ts, t, p, start);
    } else if IsAddressTlv(t) {
      HandleAddressTlv(ts, t, p, start);
    } else {
      HandleOther(ts, t, p, start);
    }
  }

  // ---- The entry ----

  /** The texts of the entry of a frame with these TLVs. */
  predicate ShowsTexts(ts: seq<Tlv>, n: Neighbor) {
    && Text(n.name) == LastText(ts, 1, 64) && Text(n.port) == LastText(ts, 3, 64)
    && Describes(LastText(ts, 6, 64), LastText(ts, 5, 128), Text(n.description))
    && Text(n.managementAddress) == Dotted(Announced(ts))
  }

  /** An entry of these texts and numbers, and nothing else. */
  function CdpNeighbor(source: MacAddress, ttl: byte, capabilities: u16, texts: Neighbor): Neighbor {
    EMPTY.(mac := source, ttl := ttl, capabilities := capabilities, sources := 2, occupied := true,
    name := texts.name, port := texts.port, description := texts.description,
    managementAddress := texts.managementAddress)
  }

  function LowWord(n: u32): u16 {
    n % 0x1_0000
  }

  predicate Shows(source: MacAddress, ttl: byte, ts: seq<Tlv>, n: Neighbor) {
    ShowsTexts(ts, n) && n == CdpNeighbor(source, ttl, LowWord(LastCapabilities(ts)), n)
  }

  lemma CutWhole(text: seq<byte>, size: nat)
    requires |text| <= size
    ensures Cut(text, size) == text
  {
  }

  lemma DescriptionDescribes(platform: seq<byte>, software: seq<byte>)
    requires |platform| <= 63 && |software| <= 127
    ensures Describes(platform, software, Description(platform, software))
  {
    var (p, s) := DescriptionCuts(|platform|, |software|);
    assert CutsOk(|platform|, |software|, p, s);
  }

  lemma DottedLength(ips: seq<seq<byte>>)
    ensures |Dotted(ips)| <= 15
  {
  }

  lemma FilledShows(ts: seq<Tlv>, p: Progress, start: Info)
    requires Reads(ts, p, start)
    ensures var n := FillNeighbor(p.info.(valid := true));
      n.Some? && Shows(start.sourceMac, start.ttl, ts, n.value)
  {
    hide Text, Terminated, LastText, LastCapabilities, Announced, Dotted, Stored, Description, Describes, Zeros;
    var i, platform, software := p.info, LastText(ts, 6, 64), LastText(ts, 5, 128);
    StoredReads(i.deviceId, 64);
    StoredReads(i.portId, 64);
    StoredReads(i.managementAddress, 48);
    DottedLength(Announced(ts));
    CutWhole(Dotted(Announced(ts)), 47);
    CutWhole(LastText(ts, 1, 64), 63);
    CutWhole(LastText(ts, 3, 64), 63);
    CutWhole(platform, 63);
    CutWhole(software, 127);
    DescriptionDescribes(platform, software);
    TextOfCharArray(Description(platform, software), 128);
  }

  /**
   A frame built by hand is accepted exactly when its PDU sums to all ones, its version is 1 or 2, its TLVs
   are well formed and the last device ID is not blank; then the entry says what the TLVs say.
   */
  lemma FrameShown(source: MacAddress, version: byte, ttl: byte, checksum: u16, ts: seq<Tlv>, trailing: seq<byte>)
    requires AllShort(ts) && |TlvBytes(ts)| <= 1488
    ensures var pdu := Pdu(version, ttl, checksum, ts);
      var n := LiveTable.Observed(Protocol.Cdp, FrameOf(source, pdu, trailing));
      && (n.Some? <==> Resums(pdu) && (version == 1 || version == 2) && AllTlvsOk(ts) && LastText(ts, 1, 64) != [])
      && (n.Some? ==> Shows(source, ttl, ts, n.value))
  {
    hide Handle, WalkTlvs, Fold, Resums, EncodeTlvs, TlvBytes, GetPdu, Wrapped, AllShort, Shows, FillNeighbor;
    hide AllTlvsOk, LastText, FrameOf;
    var pdu := Pdu(version, ttl, checksum, ts);
    var frame := FrameOf(source, pdu, trailing);
    FrameIsWrapped(source, pdu, trailing);
    PduWrapped(source, pdu, trailing);
    TlvBytesEncode(ts);
    assert pdu[4..] == TlvBytes(ts);
    var start := BLANK.(version := version, ttl := ttl, sourceMac := source);
    WalkEncoded(ts, Progress(start, false));
    FoldReads(ts, start);
    if AllTlvsOk(ts) {
      FilledShows(ts, Fold(ts, Progress(start, false)).value, start);
    }
  }

  lemma FrameIsWrapped(source: MacAddress, pdu: seq<byte>, trailing: seq<byte>)
    requires |pdu| <= 1492
    ensures FrameOf(source, pdu, trailing) == Wrapped(source, pdu) + trailing
  {
  }

  /** Every accepted frame is of that form. */
  lemma ShownIsBuilt(frame: seq<byte>)
    returns (source: MacAddress, version: byte, ttl: byte, checksum: u16, ts: seq<Tlv>, trailing: seq<byte>)
    requires LiveTable.Observed(Protocol.Cdp, frame).Some?
    ensures AllShort(ts) && |TlvBytes(ts)| <= 1488
    ensures frame == FrameOf(source, Pdu(version, ttl, checksum, ts), trailing)
  {
    hide WalkTlvs, Resums, EncodeTlvs, TlvBytes, Wrapped, AllShort, FillNeighbor;
    var pdu := GetPdu(frame).value;
    PduUnwrapped(frame, pdu);
    source, version, ttl, checksum := frame[6..12], pdu[0], pdu[1], ReadBe16(pdu[2..4]);
    trailing := frame[22 + |pdu|..];
    ts := WalkedIsEncoded(pdu[4..], Progress(BLANK.(version := version, ttl := ttl, sourceMac := source), false));
    TlvBytesEncode(ts);
    Be16OfReadBe16(pdu[2..4]);
    assert pdu == pdu[..2] + pdu[2..4] + pdu[4..];
    assert pdu == Pdu(version, ttl, checksum, ts);
    FrameIsWrapped(source, pdu, trailing);
  }
}
