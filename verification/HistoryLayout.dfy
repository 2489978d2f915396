/**
 The saved-neighbour file byte by byte: where the header, every record and every field lie.
 */
module HistoryLayout {
  import opened Bytes
  import opened Crc32
  import opened Neighbors
  import opened HistoryPayload
  import opened HistoryFile

  // ---- Payloads ----

  /** A string as a payload holds it: a length octet, then the text. */
  function Counted(text: seq<byte>): (s: seq<byte>)
    requires |text| < 0x100
  {
    [|text|] + text
  }

  function CdpPayload(n: Neighbor): seq<byte> {
    Le16(n.ttl) + Le16(n.capabilities) + Counted(Text(n.name)) + Counted(Text(n.port)) +
    Counted(Text(n.managementAddress)) + Counted(Text(n.description))
  }

  function EapolPayload(n: Neighbor): seq<byte> {
    [n.eapolVersion, n.eapolPacketType, n.eapCode, n.eapType] + Counted(Text(n.name))
  }

  function LldpNumbers(n: Neighbor): seq<byte> {
    [n.lldpChassisSubtype, n.lldpPortSubtype] + Le16(n.ttl) + Le16(n.capabilities) + Le16(n.enabledCapabilities) +
    Le16(n.vlanId) + Le16(n.pvid) + Le16(n.networkPolicyVlan)
  }

  function LldpPower(n: Neighbor): seq<byte> {
    [n.poePowerPair, n.poePowerClass, n.poeTypeSourcePriority] + Le16(n.poeRequestedPower) +
    Le16(n.poeAllocatedPower) + Le16(n.poePowerWatts) + Le16(n.poeRequestedPowerWatts) +
    Le16(n.poeAllocatedPowerWatts)
  }

  function LldpPowerType(n: Neighbor): seq<byte> {
    [n.poePowerType, n.poePowerSource, n.poePowerPriority, if n.poeSupported then 1 else 0]
  }

  function LldpStrings(n: Neighbor): seq<byte> {
    Counted(Text(n.chassisId)) + Counted(Text(n.name)) + Counted(Text(n.description)) + Counted(Text(n.port)) +
    Counted(Text(n.managementAddress)) + Counted(Text(n.vlanName))
  }

  function LldpPayload(n: Neighbor): seq<byte> {
    LldpNumbers(n) + LldpPower(n) + LldpPowerType(n) + LldpStrings(n)
  }

  lemma EncodeOne(a: Item)
    requires Encodable(a)
    ensures EncodeItems([a]) == EncodeItem(a)
  {
    assert [a][1..] == [];
  }

  lemma EncodeTwo(a: Item, b: Item)
    requires Encodable(a) && Encodable(b)
    ensures EncodeItems([a, b]) == EncodeItem(a) + EncodeItem(b)
  {
    hide EncodeItem;
    EncodeOne(a);
    EncodeItemsSnoc([a], b);
    assert [a, b] == [a] + [b];
  }

  lemma EncodeFour(a: Item, b: Item, c: Item, d: Item)
    requires Encodable(a) && Encodable(b) && Encodable(c) && Encodable(d)
    ensures EncodeItems([a, b, c, d]) == EncodeItem(a) + EncodeItem(b) + EncodeItem(c) + EncodeItem(d)
  {
    hide EncodeItem, EncodeItems;
    EncodeTwo(a, b);
    EncodeItemsSnoc([a, b], c);
    assert [a, b] + [c] == [a, b, c];
    EncodeItemsSnoc([a, b, c], d);
    assert [a, b, c] + [d] == [a, b, c, d];
  }

  lemma EncodeSix(items: seq<Item>)
    requires AllEncodable(items) && |items| == 6
    ensures EncodeItems(items) == EncodeItem(items[0]) + EncodeItem(items[1]) + EncodeItem(items[2]) +
                                  EncodeItem(items[3]) + EncodeItem(items[4]) + EncodeItem(items[5])
  {
    hide EncodeItem, EncodeItems;
    EncodeFour(items[0], items[1], items[2], items[3]);
    var front := [items[0], items[1], items[2], items[3]];
    EncodeItemsSnoc(front, items[4]);
    EncodeItemsSnoc(front + [items[4]], items[5]);
    assert items == front + [items[4]] + [items[5]];
  }

  lemma EncodeEight(items: seq<Item>)
    requires AllEncodable(items) && |items| == 8
    ensures EncodeItems(items) ==
      EncodeItem(items[0]) + EncodeItem(items[1]) + EncodeItem(items[2]) + EncodeItem(items[3]) +
      EncodeItem(items[4]) + EncodeItem(items[5]) + EncodeItem(items[6]) + EncodeItem(items[7])
  {
    hide EncodeItem, EncodeItems;
    EncodeSix(items[..6]);
    EncodeItemsSnoc(items[..6], items[6]);
    EncodeItemsSnoc(items[..6] + [items[6]], items[7]);
    assert items == items[..6] + [items[6]] + [items[7]];
  }

  lemma CdpLayout(n: Neighbor)
    ensures EncodeItems(ItemsOf(Cdp, n)) == CdpPayload(n)
  {
    hide EncodeItems, Text, Le16;
    EncodeSix(ItemsOf(Cdp, n));
  }

  lemma EapolLayout(n: Neighbor)
    ensures EncodeItems(ItemsOf(Eapol, n)) == EapolPayload(n)
  {
    hide EncodeItems, Text;
    var items := ItemsOf(Eapol, n);
    EncodeFour(items[0], items[1], items[2], items[3]);
    EncodeItemsSnoc([items[0], items[1], items[2], items[3]], items[4]);
    assert items == [items[0], items[1], items[2], items[3]] + [items[4]];
  }

  lemma LldpNumbersLayout(n: Neighbor)
    ensures AllEncodable(LldpVlanItems(n)) && EncodeItems(LldpVlanItems(n)) == LldpNumbers(n)
  {
    hide EncodeItems, Le16;
    EncodeEight(LldpVlanItems(n));
  }

  lemma LldpPowerLayout(n: Neighbor)
    ensures AllEncodable(LldpPowerItems(n)) && EncodeItems(LldpPowerItems(n)) == LldpPower(n)
    ensures AllEncodable(LldpPowerTypeItems(n)) && EncodeItems(LldpPowerTypeItems(n)) == LldpPowerType(n)
  {
    hide EncodeItems, Le16;
    EncodeEight(LldpPowerItems(n));
    var c := LldpPowerTypeItems(n);
    EncodeFour(c[0], c[1], c[2], c[3]);
  }

  lemma LldpStringsLayout(n: Neighbor)
    ensures AllEncodable(LldpStringItems(n)) && EncodeItems(LldpStringItems(n)) == LldpStrings(n)
  {
    hide EncodeItems, Text;
    StringsEncodable(n);
    EncodeSix(LldpStringItems(n));
  }

  lemma StringsEncodable(n: Neighbor)
    ensures AllEncodable(LldpStringItems(n))
  {
  }

  lemma LldpLayout(n: Neighbor)
    ensures EncodeItems(ItemsOf(Lldp, n)) == LldpPayload(n)
  {
    hide EncodeItems, Text, Le16, LldpNumbers, LldpPower, LldpPowerType, LldpStrings;
    hide LldpVlanItems, LldpPowerItems, LldpPowerTypeItems, LldpStringItems;
    LldpNumbersLayout(n);
    LldpPowerLayout(n);
    LldpStringsLayout(n);
    EncodeItemsConcat(LldpVlanItems(n), LldpPowerItems(n));
    EncodeItemsConcat(LldpVlanItems(n) + LldpPowerItems(n), LldpPowerTypeItems(n));
    EncodeItemsConcat(LldpVlanItems(n) + LldpPowerItems(n) + LldpPowerTypeItems(n), LldpStringItems(n));
  }

  /** What a record of each protocol stores, in file order. */
  lemma PayloadLayout(p: Protocol, n: Neighbor)
    ensures EncodeItems(ItemsOf(p, n)) ==
      match p case Lldp => LldpPayload(n) case Cdp => CdpPayload(n) case Eapol => EapolPayload(n)
  {
    hide EncodeItems, ItemsOf, LldpPayload, CdpPayload, EapolPayload;
    match p
    case Lldp => LldpLayout(n);
    case Cdp => CdpLayout(n);
    case Eapol => EapolLayout(n);
  }

  // ---- Flag words ----

  /** The bits of the presence word: the texts that are there, and for LLDP the marks of its optional parts. */
  lemma FlagLayout(p: Protocol, n: Neighbor)
    ensures var f := FlagsOf(p, n);
      && (Bit(f, 0) <==> Text(n.name) != []) && (Bit(f, 1) <==> Text(n.port) != [])
      && (Bit(f, 2) <==> Text(n.managementAddress) != []) && (Bit(f, 4) <==> Text(n.description) != [])
      && (Bit(f, 3) <==> p == Lldp && Text(n.chassisId) != [])
      && (Bit(f, 5) <==> p == Lldp && Text(n.vlanName) != [])
      && (Bit(f, 6) <==> p == Lldp && n.hasPvid) && (Bit(f, 7) <==> p == Lldp && n.hasVlanName)
      && (Bit(f, 8) <==> p == Lldp && n.hasNetworkPolicy) && (Bit(f, 9) <==> p == Lldp && n.hasPoeMdi)
      && (Bit(f, 10) <==> p == Lldp && n.hasPoe) && (Bit(f, 11) <==> p == Lldp && n.hasPoePowerValues)
      && (Bit(f, 12) <==> p == Lldp && n.poeSupported)
      && !Bit(f, 13) && !Bit(f, 14) && !Bit(f, 15)
  {
    hide FlagsOf, Bit, Text;
    TextsPresent(n);
    forall k: nat | k < 16
      ensures Bit(FlagsOf(p, n), k) == FlagSet(p, n, k)
    {
      FlagBit(p, n, k);
    }
  }

  // ---- Records and the file ----

  /** Bytes of the first k records. */
  function SizeBefore(rs: seq<Record>, k: nat): nat
    requires k <= |rs|
  {
    if k == 0 then 0 else SizeBefore(rs, k - 1) + 16 + |rs[k - 1].payload|
  }

  lemma {:induction false} RecordAt(rs: seq<Record>, k: nat)
    requires PayloadsFit(rs) && k < |rs|
    ensures SizeBefore(rs, k) + 16 + |rs[k].payload| <= |Body(rs)|
    ensures Body(rs)[SizeBefore(rs, k)..SizeBefore(rs, k) + 16 + |rs[k].payload|] == RecordBytes(rs[k])
    ensures k + 1 == |rs| ==> SizeBefore(rs, k) + 16 + |rs[k].payload| == |Body(rs)|
    decreases |rs|
  {
    hide RecordBytes;
    var n := |rs| - 1;
    assert rs == rs[..n] + [rs[n]];
    BodySnoc(rs[..n], rs[n]);
    BodySize(rs[..n]);
    SizeBeforePrefix(rs, n, k);
    SizeBeforePrefix(rs, n, n);
    RecordSize(rs[n]);
    if k < n {
      RecordAt(rs[..n], k);
    }
  }

  lemma RecordSize(r: Record)
    requires |r.payload| <= PAYLOAD_MAX
    ensures |RecordBytes(r)| == 16 + |r.payload|
  {
  }

  lemma {:induction false} BodySize(rs: seq<Record>)
    requires PayloadsFit(rs)
    ensures |Body(rs)| == SizeBefore(rs, |rs|)
    decreases |rs|
  {
    hide RecordBytes;
    if rs != [] {
      var n := |rs| - 1;
      assert rs == rs[..n] + [rs[n]];
      BodySnoc(rs[..n], rs[n]);
      BodySize(rs[..n]);
      SizeBeforePrefix(rs, n, n);
      RecordSize(rs[n]);
    }
  }

  lemma {:induction false} SizeBeforePrefix(rs: seq<Record>, n: nat, k: nat)
    requires k <= n <= |rs|
    ensures SizeBefore(rs[..n], k) == SizeBefore(rs, k)
    decreases k
  {
    if k > 0 {
      SizeBeforePrefix(rs, n, k - 1);
    }
  }

  /** The file: magic "PSH1", version 1, a header of 20 bytes, the count, the size and the two CRCs; then the body. */
  lemma FileLayout(rs: seq<Record>)
    requires PayloadsFit(rs) && |rs| <= MAX_RECORDS
    ensures var f := FileBytes(rs);
      && |f| == 20 + SizeBefore(rs, |rs|)
      && f[..4] == [0x50, 0x53, 0x48, 0x31] && f[4] == 1 && f[5] == 20 && f[6] == |rs| && f[7] == 0
      && f[8..12] == Le32(|f| - 20) && f[12..16] == Le32(Crc(f[20..])) && f[16..20] == Le32(Crc(f[..16]))
  {
    hide Crc, Le32;
    BodySize(rs);
    var f, fields := FileBytes(rs), HeaderFields(|rs|, |Body(rs)|, Crc(Body(rs)));
    assert f[20..] == Body(rs);
    assert f[..16] == fields && f[16..20] == Le32(Crc(fields));
    assert f[..4] == MAGIC && f[8..12] == fields[8..12] && f[12..16] == fields[12..16];
  }

  /** Each record lies behind those before it: version 1, protocol 1, 2 or 3, flags, length, address, CRC, payload. */
  lemma RecordLayout(rs: seq<Record>, k: nat)
    requires PayloadsFit(rs) && |rs| <= MAX_RECORDS && k < |rs|
    ensures var f, at, r := FileBytes(rs), 20 + SizeBefore(rs, k), rs[k];
      && at + 16 + |r.payload| <= |f|
      && f[at] == 1 && f[at + 1] == (match r.protocol case Lldp => 1 case Cdp => 2 case Eapol => 3)
      && f[at + 2..at + 4] == Le16(r.flags) && f[at + 4..at + 6] == Le16(|r.payload|)
      && f[at + 6..at + 12] == r.mac && f[at + 12..at + 16] == Le32(Crc(r.payload))
      && f[at + 16..at + 16 + |r.payload|] == r.payload
  {
    hide Crc, Le32, Le16, Body, RecordBytes, FileHeader;
    RecordAt(rs, k);
    var f, at, r := FileBytes(rs), 20 + SizeBefore(rs, k), rs[k];
    var b := RecordBytes(r);
    assert f[at..at + 16 + |r.payload|] == b;
    RecordParts(r);
    RecordSize(r);
    PartsOf(f, at, b);
  }

  lemma PartsOf(f: seq<byte>, at: nat, b: seq<byte>)
    requires |b| >= 16 && at + |b| <= |f| && f[at..at + |b|] == b
    ensures f[at] == b[0] && f[at + 1] == b[1]
    ensures f[at + 2..at + 4] == b[2..4] && f[at + 4..at + 6] == b[4..6] && f[at + 6..at + 12] == b[6..12]
    ensures f[at + 12..at + 16] == b[12..16] && f[at + 16..at + |b|] == b[16..]
  {
    var end := at + |b|;
    SliceOfSlice(f, at, end, 2, 4);
    SliceOfSlice(f, at, end, 4, 6);
    SliceOfSlice(f, at, end, 6, 12);
    SliceOfSlice(f, at, end, 12, 16);
    SliceOfSlice(f, at, end, 16, |b|);
    assert f[at] == b[0] && f[at + 1] == b[1];
    assert b[16..|b|] == b[16..];
  }

  lemma RecordParts(r: Record)
    requires |r.payload| <= PAYLOAD_MAX
    ensures var b := RecordBytes(r);
      && |b| >= 16 && b[0] == 1 && b[1] == (match r.protocol case Lldp => 1 case Cdp => 2 case Eapol => 3)
      && b[2..4] == Le16(r.flags) && b[4..6] == Le16(|r.payload|) && b[6..12] == r.mac
      && b[12..16] == Le32(Crc(r.payload)) && b[16..] == r.payload
  {
    hide Crc;
    Sections([RECORD_VERSION, ProtocolCode(r.protocol)], Le16(r.flags), Le16(|r.payload|), r.mac, Le32(Crc(r.payload)),
             r.payload);
  }

  lemma Sections(a: seq<byte>, b: seq<byte>, c: seq<byte>, d: seq<byte>, e: seq<byte>, rest: seq<byte>)
    requires |a| == |b| == |c| == 2 && |d| == 6 && |e| == 4
    ensures var s := a + b + c + d + e + rest;
      && |s| >= 16 && s[0] == a[0] && s[1] == a[1] && s[2..4] == b && s[4..6] == c && s[6..12] == d
      && s[12..16] == e && s[16..] == rest
  {
    var s := a + b + c + d + e + rest;
    assert s[2..4] == b;
    assert s[4..6] == c;
    assert s[6..12] == d;
    assert s[12..16] == e;
    assert s[16..] == rest;
  }
}
