/**
 The payload writer and reader of the saved-neighbour file, with their cursors,
 and the two per-protocol codecs built on them.
 */
module HistoryCodec {
  import opened Bytes
  import opened Neighbors
  import opened HistoryPayload

  method StringLength(s: seq<byte>) returns (length: nat)
    ensures length == CLen(s)
  {
    length := 0;
    while length < |s| && s[length] != 0
      invariant length <= |s|
      invariant length + CLen(s[length..]) == CLen(s)
    {
      assert s[length..][1..] == s[length + 1..];
      length := length + 1;
    }
    assert s[length..] == [] || s[length..][0] == 0;
  }

  lemma CountedSnoc(items: seq<Item>, text: seq<byte>)
    requires AllEncodable(items) && |text| < 0x100
    ensures AllEncodable(items + [String(text)])
    ensures EncodeItems(items + [String(text)]) == EncodeItems(items) + [|text|] + text
  {
    hide EncodeItems;
    EncodeItemsSnoc(items, String(text));
    ConcatAssociative(EncodeItems(items), [|text|], text);
  }

  /** A buffer being filled; the items written so far determine the filled part. */
  class PayloadWriter {
    const data: array<byte>
    var position: nat
    ghost var items: seq<Item>

    ghost predicate Valid()
      reads this, data
    {
      && position <= data.Length
      && AllEncodable(items)
      && data[..position] == EncodeItems(items)
    }

    constructor (capacity: nat)
      ensures Valid() && fresh(data) && data.Length == capacity
      ensures items == [] && position == 0
    {
      data := new byte[capacity](_ => 0);
      position := 0;
      items := [];
    }

    method PutU8(value: byte) returns (ok: bool)
      requires Valid()
      modifies this, data
      ensures Valid() && ok == (old(position) < data.Length)
      ensures items == old(items) + (if ok then [Octet(value)] else [])
      ensures position == old(position) + (if ok then 1 else 0)
    {
      if position >= data.Length {
        return false;
      }
      EncodeItemsSnoc(items, Octet(value));
      data[position] := value;
      position := position + 1;
      items := items + [Octet(value)];
      assert data[..position] == old(data[..position]) + [value];
      return true;
    }

    method PutU16(value: u16) returns (ok: bool)
      requires Valid()
      modifies this, data
      ensures Valid() && ok == (old(position) + 2 <= data.Length)
      ensures items == old(items) + (if ok then [Word(value)] else [])
      ensures position == old(position) + (if ok then 2 else 0)
    {
      if data.Length - position < 2 {
        return false;
      }
      EncodeItemsSnoc(items, Word(value));
      data[position] := value % 0x100;
      data[position + 1] := value / 0x100;
      position := position + 2;
      items := items + [Word(value)];
      assert data[..position] == old(data[..position]) + Le16(value);
      return true;
    }

    /** `memcpy` to the cursor; the items lag behind until the caller names what was written. */
    method Append(bytes: seq<byte>)
      requires position + |bytes| <= data.Length
      modifies this`position, data
      ensures position == old(position) + |bytes|
      ensures data[..position] == old(data[..position]) + bytes
    {
      forall k | 0 <= k < |bytes| {
        data[position + k] := bytes[k];
      }
      position := position + |bytes|;
    }

    method PutCounted(text: seq<byte>)
      requires Valid() && |text| < 0x100 && position + |text| + 1 <= data.Length
      modifies this, data
      ensures Valid()
      ensures items == old(items) + [String(text)] && position == old(position) + 1 + |text|
    {
      hide EncodeItems, AllEncodable;
      CountedSnoc(items, text);
      Append([|text|]);
      Append(text);
      items := items + [String(text)];
    }

    method PutString(s: seq<byte>) returns (ok: bool)
      requires Valid()
      modifies this, data
      ensures Valid()
      ensures ok == (Terminated(s) && CLen(s) < 0x100 && old(position) + CLen(s) + 1 <= data.Length)
      ensures items == old(items) + (if ok then [String(Text(s))] else [])
      ensures position == old(position) + (if ok then 1 + CLen(s) else 0)
    {
      var length := StringLength(s);
      if length >= |s| || length > 0xFF || data.Length - position < length + 1 {
        return false;
      }
      PutCounted(s[..length]);
      return true;
    }
  }

  method PutIds(writer: PayloadWriter, a: byte, b: byte, c: u16, d: u16) returns (ok: bool)
    requires writer.Valid() && writer.position + 6 <= writer.data.Length
    modifies writer, writer.data
    ensures writer.Valid() && ok && writer.position == old(writer.position) + 6
    ensures writer.items == old(writer.items) + [Octet(a), Octet(b), Word(c), Word(d)]
  {
    hide PayloadWriter.Valid;
    ok := writer.PutU8(a);
    if ok { ok := writer.PutU8(b); }
    if ok { ok := writer.PutU16(c); }
    if ok { ok := writer.PutU16(d); }
  }

  method PutWords(writer: PayloadWriter, a: u16, b: u16, c: u16, d: u16) returns (ok: bool)
    requires writer.Valid() && writer.position + 8 <= writer.data.Length
    modifies writer, writer.data
    ensures writer.Valid() && ok && writer.position == old(writer.position) + 8
    ensures writer.items == old(writer.items) + [Word(a), Word(b), Word(c), Word(d)]
  {
    hide PayloadWriter.Valid;
    ok := writer.PutU16(a);
    if ok { ok := writer.PutU16(b); }
    if ok { ok := writer.PutU16(c); }
    if ok { ok := writer.PutU16(d); }
  }

  method PutOctetsAndWord(writer: PayloadWriter, a: byte, b: byte, c: byte, d: u16) returns (ok: bool)
    requires writer.Valid() && writer.position + 5 <= writer.data.Length
    modifies writer, writer.data
    ensures writer.Valid() && ok && writer.position == old(writer.position) + 5
    ensures writer.items == old(writer.items) + [Octet(a), Octet(b), Octet(c), Word(d)]
  {
    hide PayloadWriter.Valid;
    ok := writer.PutU8(a);
    if ok { ok := writer.PutU8(b); }
    if ok { ok := writer.PutU8(c); }
    if ok { ok := writer.PutU16(d); }
  }

  method PutOctets(writer: PayloadWriter, a: byte, b: byte, c: byte, d: byte) returns (ok: bool)
    requires writer.Valid() && writer.position + 4 <= writer.data.Length
    modifies writer, writer.data
    ensures writer.Valid() && ok && writer.position == old(writer.position) + 4
    ensures writer.items == old(writer.items) + [Octet(a), Octet(b), Octet(c), Octet(d)]
  {
    hide PayloadWriter.Valid;
    ok := writer.PutU8(a);
    if ok { ok := writer.PutU8(b); }
    if ok { ok := writer.PutU8(c); }
    if ok { ok := writer.PutU8(d); }
  }

  method PutLldpNumbers(writer: PayloadWriter, n: Neighbor) returns (ok: bool)
    requires writer.Valid() && writer.items == [] && writer.position == 0 && writer.data.Length == PAYLOAD_MAX
    modifies writer, writer.data
    ensures writer.Valid() && ok && writer.position == 31
    ensures writer.items == LldpVlanItems(n) + LldpPowerItems(n) + LldpPowerTypeItems(n)
  {
    hide PayloadWriter.Valid;
    ok := PutIds(writer, n.lldpChassisSubtype, n.lldpPortSubtype, n.ttl, n.capabilities);
    if ok { ok := PutWords(writer, n.enabledCapabilities, n.vlanId, n.pvid, n.networkPolicyVlan); }
    assert writer.items == LldpVlanItems(n);
    if ok {
      ok := PutOctetsAndWord(writer, n.poePowerPair, n.poePowerClass, n.poeTypeSourcePriority, n.poeRequestedPower);
    }
    if ok {
      ok := PutWords(writer, n.poeAllocatedPower, n.poePowerWatts, n.poeRequestedPowerWatts, n.poeAllocatedPowerWatts);
    }
    assert writer.items == LldpVlanItems(n) + LldpPowerItems(n);
    if ok {
      var supported := if n.poeSupported then 1 else 0;
      ok := PutOctets(writer, n.poePowerType, n.poePowerSource, n.poePowerPriority, supported);
    }
  }

  method PutLldpNames(writer: PayloadWriter, n: Neighbor) returns (ok: bool)
    requires writer.Valid() && writer.position + 256 <= writer.data.Length
    modifies writer, writer.data
    ensures writer.Valid() && writer.position <= old(writer.position) + 256
    ensures ok == (Terminated(n.chassisId) && Terminated(n.name) && Terminated(n.description))
    ensures ok ==> writer.items == old(writer.items) + LldpStringItems(n)[..3]
  {
    hide PayloadWriter.Valid;
    ok := writer.PutString(n.chassisId);
    if ok { ok := writer.PutString(n.name); }
    if ok { ok := writer.PutString(n.description); }
  }

  method PutLldpPlaces(writer: PayloadWriter, n: Neighbor) returns (ok: bool)
    requires writer.Valid() && writer.position + 176 <= writer.data.Length
    modifies writer, writer.data
    ensures writer.Valid()
    ensures ok == (Terminated(n.port) && Terminated(n.managementAddress) && Terminated(n.vlanName))
    ensures ok ==> writer.items == old(writer.items) + LldpStringItems(n)[3..]
  {
    hide PayloadWriter.Valid;
    ok := writer.PutString(n.port);
    if ok { ok := writer.PutString(n.managementAddress); }
    if ok { ok := writer.PutString(n.vlanName); }
  }

  method PutCdp(writer: PayloadWriter, n: Neighbor) returns (ok: bool)
    requires writer.Valid() && writer.items == [] && writer.position == 0 && writer.data.Length == PAYLOAD_MAX
    modifies writer, writer.data
    ensures writer.Valid() && ok == StringsTerminated(Cdp, n)
    ensures ok ==> writer.items == ItemsOf(Cdp, n)
  {
    hide PayloadWriter.Valid, CLen, Text;
    ok := writer.PutU16(n.ttl);
    if ok { ok := writer.PutU16(n.capabilities); }
    if ok { ok := writer.PutString(n.name); }
    if ok { ok := writer.PutString(n.port); }
    if !ok { return; }
    ok := writer.PutString(n.managementAddress);
    if ok { ok := writer.PutString(n.description); }
  }

  method PutEapol(writer: PayloadWriter, n: Neighbor) returns (ok: bool)
    requires writer.Valid() && writer.items == [] && writer.position == 0 && writer.data.Length == PAYLOAD_MAX
    modifies writer, writer.data
    ensures writer.Valid() && ok == StringsTerminated(Eapol, n)
    ensures ok ==> writer.items == ItemsOf(Eapol, n)
  {
    hide PayloadWriter.Valid;
    ok := writer.PutU8(n.eapolVersion);
    if ok { ok := writer.PutU8(n.eapolPacketType); }
    if ok { ok := writer.PutU8(n.eapCode); }
    if ok { ok := writer.PutU8(n.eapType); }
    if ok { ok := writer.PutString(n.name); }
  }

  method PutLldp(writer: PayloadWriter, n: Neighbor) returns (ok: bool)
    requires writer.Valid() && writer.items == [] && writer.position == 0 && writer.data.Length == PAYLOAD_MAX
    modifies writer, writer.data
    ensures writer.Valid() && ok == StringsTerminated(Lldp, n)
    ensures ok ==> writer.items == ItemsOf(Lldp, n)
  {
    ok := PutLldpNumbers(writer, n);
    if ok { ok := PutLldpNames(writer, n); }
    if ok { ok := PutLldpPlaces(writer, n); }
  }

  /** Encode one record payload. It fails only for a string without a terminator. */
  method EncodePayload(p: Protocol, n: Neighbor) returns (ok: bool, payload: seq<byte>, flags: u16)
    ensures ok == StringsTerminated(p, n)
    ensures ok ==> payload == EncodeItems(ItemsOf(p, n))
    ensures flags == FlagsOf(p, n)
  {
    var writer := new PayloadWriter(PAYLOAD_MAX);
    flags := FlagsOf(p, n);
    match p {
      case Lldp => ok := PutLldp(writer, n);
      case Cdp => ok := PutCdp(writer, n);
      case Eapol => ok := PutEapol(writer, n);
    }
    payload := writer.data[..writer.position];
  }

  // ---- Reading ----

  function Prepend(items: seq<Item>, r: Option<seq<Item>>): Option<seq<Item>> {
    match r
    case None => None
    case Some(more) => Some(items + more)
  }

  lemma PrependTwice(a: seq<Item>, b: seq<Item>, r: Option<seq<Item>>)
    ensures Prepend(a, Prepend(b, r)) == Prepend(a + b, r)
    ensures Prepend([], r) == r
  {
    if r.Some? {
      assert a + (b + r.value) == a + b + r.value;
      assert [] + r.value == r.value;
    }
  }

  lemma ParseAfterItem(plan: seq<Shape>, item: Item, tail: seq<byte>, data: seq<byte>, next: seq<Shape>)
    requires plan != [] && Fits(item, plan[0]) && next == plan[1..]
    requires data == EncodeItem(item) + tail
    ensures ParseItems(plan, data) == Prepend([item], ParseItems(next, tail))
  {
    ParseItemOfEncoding(plan[0], item, tail);
  }

  /** Parsing goes on from the items already read. */
  lemma {:induction false} PlanResumes(shapes: seq<Shape>, after: seq<Shape>, items: seq<Item>, rest: seq<byte>)
    requires AllFit(items, shapes) && AllEncodable(items)
    ensures ParseItems(shapes + after, EncodeItems(items) + rest) == Prepend(items, ParseItems(after, rest))
    decreases |items|
  {
    var r := ParseItems(after, rest);
    if items == [] {
      assert EncodeItems(items) + rest == rest && shapes + after == after;
      PrependTwice([], [], r);
    } else {
      var head, tail := EncodeItem(items[0]), EncodeItems(items[1..]);
      assert (shapes + after)[1..] == shapes[1..] + after;
      ConcatAssociative(head, tail, rest);
      ParseAfterItem(shapes + after, items[0], tail + rest, EncodeItems(items) + rest, shapes[1..] + after);
      PlanResumes(shapes[1..], after, items[1..], rest);
      PrependTwice([items[0]], items[1..], r);
      assert [items[0]] + items[1..] == items;
    }
  }

  /** A cursor over a payload; `plan` is what the layout asks for. */
  class PayloadReader {
    const data: seq<byte>
    var position: nat
    ghost const plan: seq<Shape>
    ghost var items: seq<Item>  // what has been delivered
    ghost var failed: bool

    ghost predicate Valid()
      reads this
    {
      && position <= |data|
      && |items| <= |plan|
      && AllEncodable(items)
      && (forall k :: 0 <= k < |items| ==> Fits(items[k], plan[k]))
      && data[..position] == EncodeItems(items)
      && (failed ==> Refused())
    }

    ghost predicate Refused()
    {
      ParseItems(plan, data).None?
    }

    /** The next item is to be read, and has the given shape. */
    ghost predicate Expects(s: Shape)
      reads this
    {
      Valid() && !failed && |items| < |plan| && plan[|items|] == s
    }

    /** The next four shapes of the plan. */
    ghost predicate ExpectsFour(a: Shape, b: Shape, c: Shape, d: Shape)
      reads this
    {
      && Valid() && !failed && |items| + 4 <= |plan|
      && plan[|items|] == a && plan[|items| + 1] == b && plan[|items| + 2] == c && plan[|items| + 3] == d
    }

    constructor (payload: seq<byte>, ghost plan: seq<Shape>)
      ensures Valid() && data == payload && this.plan == plan
      ensures items == [] && position == 0 && !failed
    {
      data := payload;
      this.plan := plan;
      position := 0;
      items := [];
      failed := false;
    }

    /** Account for the item that was asked for, read from `start`. */
    ghost method Record(s: Shape, start: nat, item: Option<Item>)
      requires !failed && start <= position <= |data|
      requires AllEncodable(items) && data[..start] == EncodeItems(items)
      requires |items| < |plan| && plan[|items|] == s
      requires forall k :: 0 <= k < |items| ==> Fits(items[k], plan[k])
      requires ParseItem(s, data[start..]) == if item.Some? then Some((item.value, data[position..])) else None
      requires item.None? ==> position == start
      modifies `items, `failed
      ensures Valid() && failed == item.None?
      ensures items == old(items) + (if item.Some? then [item.value] else [])
    {
      assert data == data[..start] + data[start..];
      if item.Some? {
        EncodeItemsSnoc(items, item.value);
        assert EncodeItem(item.value) + data[position..] == data[start..];
        assert data[..position] == data[..start] + EncodeItem(item.value);
        items := items + [item.value];
      } else {
        assert plan == plan[..|items|] + plan[|items|..];
        PlanResumes(plan[..|items|], plan[|items|..], items, data[start..]);
        failed := true;
      }
    }

    method GetU8() returns (ok: bool, value: byte)
      requires Expects(OctetShape)
      modifies this
      ensures Valid() && failed == !ok
      ensures items == old(items) + (if ok then [Octet(value)] else [])
    {
      if position >= |data| {
        Record(OctetShape, position, None);
        return false, 0;
      }
      value := data[position];
      assert data[position..][1..] == data[position + 1..];
      position := position + 1;
      Record(OctetShape, position - 1, Some(Octet(value)));
      ok := true;
    }

    method GetU16() returns (ok: bool, value: u16)
      requires Expects(WordShape)
      modifies this
      ensures Valid() && failed == !ok
      ensures items == old(items) + (if ok then [Word(value)] else [])
    {
      if |data| - position < 2 {
        Record(WordShape, position, None);
        return false, 0;
      }
      value := ReadLe16(data[position..]);
      assert data[position..][2..] == data[position + 2..];
      position := position + 2;
      Record(WordShape, position - 2, Some(Word(value)));
      ok := true;
    }

    /** A string into a zeroed array of the given size. */
    method GetString(capacity: nat, present: bool) returns (ok: bool, s: seq<byte>, ghost text: seq<byte>)
      requires Expects(StringShape(capacity, present)) && capacity > 0
      modifies this
      ensures Valid() && failed == !ok && |s| == capacity
      ensures items == old(items) + (if ok then [String(text)] else [])
      ensures ok ==> |text| < capacity && s == CharArray(text, capacity)
    {
      ghost var start, rest := position, data[position..];
      if position >= |data| || data[position] >= capacity || |data| - position - 1 < data[position]
         || present != (data[position] != 0)
      {
        Record(StringShape(capacity, present), position, None);
        return false, Zeros(capacity), [];
      }
      var length := data[position];
      position := position + 1;
      var bytes := data[position..position + length];
      assert bytes == rest[1..1 + length];
      position := position + length;
      assert data[position..] == rest[1 + length..];
      Record(StringShape(capacity, present), start, Some(String(bytes)));
      return true, CharArray(bytes, capacity), bytes;
    }

    /** Whatever the payload parses to begins with the items read so far; a complete plan must also use up the data. */
    lemma ParsedSoFar()
      requires Valid()
      ensures ParseItems(plan, data).Some? ==> items <= ParseItems(plan, data).value
      ensures |items| == |plan| ==> ParseItems(plan, data) == if position == |data| then Some(items) else None
    {
      assert data == data[..position] + data[position..];
      assert plan == plan[..|items|] + plan[|items|..];
      PlanResumes(plan[..|items|], plan[|items|..], items, data[position..]);
      if |items| == |plan| {
        assert items + [] == items;
      }
    }
  }

  method GetIds(reader: PayloadReader) returns (ok: bool, a: byte, b: byte, c: u16, d: u16)
    requires reader.ExpectsFour(OctetShape, OctetShape, WordShape, WordShape)
    modifies reader
    ensures reader.Valid() && reader.failed == !ok
    ensures ok ==> reader.items == old(reader.items) + [Octet(a), Octet(b), Word(c), Word(d)]
  {
    hide PayloadReader.Valid;
    a, b, c, d := 0, 0, 0, 0;
    ok, a := reader.GetU8();
    if ok { ok, b := reader.GetU8(); }
    if ok { ok, c := reader.GetU16(); }
    if ok { ok, d := reader.GetU16(); }
  }

  method GetWords(reader: PayloadReader) returns (ok: bool, a: u16, b: u16, c: u16, d: u16)
    requires reader.ExpectsFour(WordShape, WordShape, WordShape, WordShape)
    modifies reader
    ensures reader.Valid() && reader.failed == !ok
    ensures ok ==> reader.items == old(reader.items) + [Word(a), Word(b), Word(c), Word(d)]
  {
    hide PayloadReader.Valid;
    a, b, c, d := 0, 0, 0, 0;
    ok, a := reader.GetU16();
    if ok { ok, b := reader.GetU16(); }
    if ok { ok, c := reader.GetU16(); }
    if ok { ok, d := reader.GetU16(); }
  }

  method GetOctetsAndWord(reader: PayloadReader) returns (ok: bool, a: byte, b: byte, c: byte, d: u16)
    requires reader.ExpectsFour(OctetShape, OctetShape, OctetShape, WordShape)
    modifies reader
    ensures reader.Valid() && reader.failed == !ok
    ensures ok ==> reader.items == old(reader.items) + [Octet(a), Octet(b), Octet(c), Word(d)]
  {
    hide PayloadReader.Valid;
    a, b, c, d := 0, 0, 0, 0;
    ok, a := reader.GetU8();
    if ok { ok, b := reader.GetU8(); }
    if ok { ok, c := reader.GetU8(); }
    if ok { ok, d := reader.GetU16(); }
  }

  method GetOctets(reader: PayloadReader) returns (ok: bool, a: byte, b: byte, c: byte, d: byte)
    requires reader.ExpectsFour(OctetShape, OctetShape, OctetShape, OctetShape)
    modifies reader
    ensures reader.Valid() && reader.failed == !ok
    ensures ok ==> reader.items == old(reader.items) + [Octet(a), Octet(b), Octet(c), Octet(d)]
  {
    hide PayloadReader.Valid;
    a, b, c, d := 0, 0, 0, 0;
    ok, a := reader.GetU8();
    if ok { ok, b := reader.GetU8(); }
    if ok { ok, c := reader.GetU8(); }
    if ok { ok, d := reader.GetU8(); }
  }

  method GetStrings(reader: PayloadReader, size0: nat, has0: bool, size1: nat, has1: bool, size2: nat, has2: bool)
    returns (ok: bool, s0: seq<byte>, s1: seq<byte>, s2: seq<byte>,
             ghost t0: seq<byte>, ghost t1: seq<byte>, ghost t2: seq<byte>)
    requires reader.Valid() && !reader.failed && |reader.items| + 3 <= |reader.plan|
    requires reader.plan[|reader.items|] == StringShape(size0, has0) && size0 > 0
    requires reader.plan[|reader.items| + 1] == StringShape(size1, has1) && size1 > 0
    requires reader.plan[|reader.items| + 2] == StringShape(size2, has2) && size2 > 0
    modifies reader
    ensures reader.Valid() && reader.failed == !ok
    ensures ok ==> reader.items == old(reader.items) + [String(t0), String(t1), String(t2)]
    ensures ok ==> |t0| < size0 && s0 == CharArray(t0, size0)
    ensures ok ==> |t1| < size1 && s1 == CharArray(t1, size1)
    ensures ok ==> |t2| < size2 && s2 == CharArray(t2, size2)
  {
    hide PayloadReader.Valid;
    s0, s1, s2, t0, t1, t2 := [], [], [], [], [], [];
    ok, s0, t0 := reader.GetString(size0, has0);
    if ok { ok, s1, t1 := reader.GetString(size1, has1); }
    if ok { ok, s2, t2 := reader.GetString(size2, has2); }
  }

  function PowerTypes(n: Neighbor, supported: byte): seq<Item> {
    [Octet(n.poePowerType), Octet(n.poePowerSource), Octet(n.poePowerPriority), Octet(supported)]
  }

  /** The fields that no LLDP payload carries. */
  predicate SameOutsideLldp(a: Neighbor, b: Neighbor) {
    && a.mac == b.mac && a.sources == b.sources && a.occupied == b.occupied
    && a.eapolVersion == b.eapolVersion && a.eapolPacketType == b.eapolPacketType
    && a.eapCode == b.eapCode && a.eapType == b.eapType
  }

  /** The numeric part of an LLDP payload. */
  method GetLldpNumbers(reader: PayloadReader, n: Neighbor) returns (ok: bool, r: Neighbor, supported: byte)
    requires reader.Valid() && !reader.failed && reader.items == [] && |reader.plan| >= 20
    requires reader.plan[..20] == LLDP_VLAN_SHAPES + LLDP_POWER_SHAPES + LLDP_POWER_TYPE_SHAPES
    modifies reader
    ensures reader.Valid() && reader.failed == !ok
    ensures ok ==> |reader.items| == 20
    ensures ok ==> reader.items[..8] == LldpVlanItems(r) && reader.items[8..16] == LldpPowerItems(r)
    ensures ok ==> reader.items[16..] == PowerTypes(r, supported)
    ensures SameOutsideLldp(r, n)
  {
    hide PayloadReader.Valid;
    r, supported := n, 0;
    assert forall k :: 0 <= k < 20 ==>
      reader.plan[k] == (LLDP_VLAN_SHAPES + LLDP_POWER_SHAPES + LLDP_POWER_TYPE_SHAPES)[k];
    var chassisSubtype, portSubtype, ttl, capabilities;
    ok, chassisSubtype, portSubtype, ttl, capabilities := GetIds(reader);
    if !ok { return; }
    var enabled, vlanId, pvid, policyVlan;
    ok, enabled, vlanId, pvid, policyVlan := GetWords(reader);
    if !ok { return; }
    var pair, powerClass, priorities, requested;
    ok, pair, powerClass, priorities, requested := GetOctetsAndWord(reader);
    if !ok { return; }
    var allotted, watts, requestedWatts, allottedWatts;
    ok, allotted, watts, requestedWatts, allottedWatts := GetWords(reader);
    if !ok { return; }
    var powerType, source, priority;
    ok, powerType, source, priority, supported := GetOctets(reader);
    if !ok { return; }
    r := n.(
    lldpChassisSubtype := chassisSubtype, lldpPortSubtype := portSubtype, ttl := ttl, capabilities := capabilities,
    enabledCapabilities := enabled, vlanId := vlanId, pvid := pvid, networkPolicyVlan := policyVlan,
    poePowerPair := pair, poePowerClass := powerClass, poeTypeSourcePriority := priorities,
    poeRequestedPower := requested, poeAllocatedPower := allotted, poePowerWatts := watts,
    poeRequestedPowerWatts := requestedWatts, poeAllocatedPowerWatts := allottedWatts,
    poePowerType := powerType, poePowerSource := source, poePowerPriority := priority);
  }

  /** The fields of r are those of the LLDP items. */
  predicate LldpFields(flags: u16, items: seq<Item>, r: Neighbor) {
    && |items| == 26
    && items[..8] == LldpVlanItems(r) && items[8..16] == LldpPowerItems(r)
    && items[19].Octet? && items[16..20] == PowerTypes(r, items[19].value)
    && r.poeSupported == (items[19].value != 0)
    && HoldsText(items[20], r.chassisId) && HoldsText(items[21], r.name) && HoldsText(items[22], r.description)
    && HoldsText(items[23], r.port) && HoldsText(items[24], r.managementAddress) && HoldsText(items[25], r.vlanName)
    && r.hasPvid == Bit(flags, FLAG_HAS_PVID) && r.hasVlanName == Bit(flags, FLAG_HAS_VLAN_NAME)
    && r.hasNetworkPolicy == Bit(flags, FLAG_HAS_POLICY) && r.hasPoeMdi == Bit(flags, FLAG_HAS_POE_MDI)
    && r.hasPoe == Bit(flags, FLAG_HAS_POE) && r.hasPoePowerValues == Bit(flags, FLAG_HAS_POE_VALUES)
  }

  predicate HoldsText(item: Item, s: seq<byte>) {
    item.String? && |item.text| <= |s| && s == CharArray(item.text, |s|)
  }

  method GetLldpStrings(reader: PayloadReader, flags: u16)
    returns (ok: bool, chassisId: seq<byte>, name: seq<byte>, description: seq<byte>,
             port: seq<byte>, managementAddress: seq<byte>, vlanName: seq<byte>)
    requires reader.Valid() && !reader.failed && |reader.items| == 20 && |reader.plan| == 26
    requires reader.plan[20..] == LldpStringShapes(flags)
    modifies reader
    ensures reader.Valid() && reader.failed == !ok
    ensures ok ==> |chassisId| == |name| == |port| == |vlanName| == 64
    ensures ok ==> |description| == 128 && |managementAddress| == 48
    ensures ok ==> |reader.items| == 26 && reader.items[..20] == old(reader.items)
    ensures ok ==> HoldsText(reader.items[20], chassisId) && HoldsText(reader.items[21], name)
    ensures ok ==> HoldsText(reader.items[22], description) && HoldsText(reader.items[23], port)
    ensures ok ==> HoldsText(reader.items[24], managementAddress) && HoldsText(reader.items[25], vlanName)
  {
    hide PayloadReader.Valid;
    port, managementAddress, vlanName := [], [], [];
    ghost var plan, strings := reader.plan, reader.plan[20..];
    assert plan[20] == strings[0] && plan[21] == strings[1] && plan[22] == strings[2];
    assert plan[23] == strings[3] && plan[24] == strings[4] && plan[25] == strings[5];
    var named, c, n, d, t0, t1, t2 := GetStrings(reader,
      64, Bit(flags, FLAG_CHASSIS), 64, Bit(flags, FLAG_NAME), 128, Bit(flags, FLAG_DESCRIPTION));
    ok, chassisId, name, description := named, c, n, d;
    if !named { return; }
    var placed, p, m, v, t3, t4, t5 := GetStrings(reader,
      64, Bit(flags, FLAG_PORT), 48, Bit(flags, FLAG_MANAGEMENT), 64, Bit(flags, FLAG_VLAN_NAME_STRING));
    ok, port, managementAddress, vlanName := placed, p, m, v;
  }

  method GetLldp(reader: PayloadReader, flags: u16, base: Neighbor) returns (ok: bool, r: Neighbor)
    requires reader.Valid() && !reader.failed && reader.items == [] && |reader.plan| == 26
    requires reader.plan[..20] == LLDP_VLAN_SHAPES + LLDP_POWER_SHAPES + LLDP_POWER_TYPE_SHAPES
    requires reader.plan[20..] == LldpStringShapes(flags)
    modifies reader
    ensures var parsed := ParseItems(reader.plan, reader.data);
      ok == (parsed.Some? && parsed.value[19].Octet? && SupportedOk(flags, parsed.value[19].value))
    ensures ok ==> LldpFields(flags, ParseItems(reader.plan, reader.data).value, r) && SameOutsideLldp(r, base)
  {
    var supported;
    ok, r, supported := GetLldpNumbers(reader, base);
    if !ok { return; }
    ghost var numbers := reader.items;
    assert numbers[19] == numbers[16..][3];
    reader.ParsedSoFar();
    if supported > 1 { return false, r; }
    var chassisId, name, description, port, managementAddress, vlanName;
    ok, chassisId, name, description, port, managementAddress, vlanName := GetLldpStrings(reader, flags);
    if !ok { return; }
    reader.ParsedSoFar();
    ghost var items := reader.items;
    assert items[..8] == numbers[..8] && items[8..16] == numbers[8..16] && items[16..20] == numbers[16..];
    if (supported != 0) != Bit(flags, FLAG_POE_SUPPORTED) || reader.position != |reader.data| { return false, r; }
    r := r.(poeSupported := supported != 0,
    chassisId := chassisId, name := name, description := description,
    port := port, managementAddress := managementAddress, vlanName := vlanName,
    hasPvid := Bit(flags, FLAG_HAS_PVID), hasVlanName := Bit(flags, FLAG_HAS_VLAN_NAME),
    hasNetworkPolicy := Bit(flags, FLAG_HAS_POLICY), hasPoeMdi := Bit(flags, FLAG_HAS_POE_MDI),
    hasPoe := Bit(flags, FLAG_HAS_POE), hasPoePowerValues := Bit(flags, FLAG_HAS_POE_VALUES));
  }

  lemma LldpAssembled(flags: u16, items: seq<Item>, r: Neighbor, base: Neighbor)
    requires AllFit(items, ShapesOf(Lldp, flags)) && LldpFields(flags, items, r) && SameOutsideLldp(r, base)
    ensures LldpRuns(flags, items[..8], items[8..16], items[16..20], items[20..])
    ensures LldpNeighborOf(flags, items[..8], items[8..16], items[16..20], items[20..], base) == r
  {
    SplitLldp(flags, items);
  }

  /** Decode one record payload. */
  method DecodePayload(p: Protocol, flags: u16, payload: seq<byte>, mac: MacAddress) returns (r: Option<Neighbor>)
    ensures r == Decode(p, flags, payload, mac)
  {
    var base := EMPTY.(mac := mac, sources := SourceBit(p), occupied := true);
    var reader := new PayloadReader(payload, ShapesOf(p, flags));
    match p {
      case Lldp =>
        var ok, n := GetLldp(reader, flags, base);
        if !ok { return None; }
        LldpAssembled(flags, ParseItems(reader.plan, payload).value, n, base);
        return Some(n);
      case Cdp =>
        var n := GetCdp(reader, flags, base);
        return n;
      case Eapol =>
        var n := GetEapol(reader, flags, base);
        return n;
    }
  }

  method GetCdp(reader: PayloadReader, flags: u16, base: Neighbor) returns (r: Option<Neighbor>)
    requires reader.Valid() && !reader.failed && reader.items == [] && reader.plan == ShapesOf(Cdp, flags)
    modifies reader
    ensures r == match ParseItems(reader.plan, reader.data)
      case None => None
      case Some(items) => Some(base.(ttl := items[0].word, capabilities := items[1].word,
        name := CharArray(items[2].text, 64), port := CharArray(items[3].text, 64),
        managementAddress := CharArray(items[4].text, 48), description := CharArray(items[5].text, 128)))
  {
    var ok, ttl := reader.GetU16();
    if !ok { return None; }
    var capabilities;
    ok, capabilities := reader.GetU16();
    if !ok { return None; }
    var named, name, port, managementAddress, t0, t1, t2 := GetStrings(reader,
      64, Bit(flags, FLAG_NAME), 64, Bit(flags, FLAG_PORT), 48, Bit(flags, FLAG_MANAGEMENT));
    if !named { return None; }
    var described, description, t3 := reader.GetString(128, Bit(flags, FLAG_DESCRIPTION));
    if !described { return None; }
    reader.ParsedSoFar();
    if reader.position != |reader.data| { return None; }
    return Some(base.(ttl := ttl, capabilities := capabilities, name := name, port := port,
      managementAddress := managementAddress, description := description));
  }

  method GetEapol(reader: PayloadReader, flags: u16, base: Neighbor) returns (r: Option<Neighbor>)
    requires reader.Valid() && !reader.failed && reader.items == [] && reader.plan == ShapesOf(Eapol, flags)
    modifies reader
    ensures r == match ParseItems(reader.plan, reader.data)
      case None => None
      case Some(items) => Some(base.(eapolVersion := items[0].value, eapolPacketType := items[1].value,
        eapCode := items[2].value, eapType := items[3].value, name := CharArray(items[4].text, 64)))
  {
    var ok, version, packetType, code, eapType := GetOctets(reader);
    if !ok { return None; }
    var named, name, t0 := reader.GetString(64, Bit(flags, FLAG_NAME));
    if !named { return None; }
    reader.ParsedSoFar();
    if reader.position != |reader.data| { return None; }
    return Some(base.(eapolVersion := version, eapolPacketType := packetType,
      eapCode := code, eapType := eapType, name := name));
  }
}
