/**
 The per-protocol record payloads of the saved-neighbour file.

 A payload is a list of items: octets, little-endian words, and strings behind a
 length octet. The writer and the reader are proved against that list.
 */
module HistoryPayload {
  import opened Bytes
  import opened Neighbors

  const LLDP_PAYLOAD_MAX := 463
  const CDP_PAYLOAD_MAX := 308
  const EAPOL_PAYLOAD_MAX := 68
  const PAYLOAD_MAX := LLDP_PAYLOAD_MAX

  // Flag word: bit numbers
  const FLAG_NAME := 0
  const FLAG_PORT := 1
  const FLAG_MANAGEMENT := 2
  const FLAG_CHASSIS := 3
  const FLAG_DESCRIPTION := 4
  const FLAG_VLAN_NAME_STRING := 5
  const FLAG_HAS_PVID := 6
  const FLAG_HAS_VLAN_NAME := 7
  const FLAG_HAS_POLICY := 8
  const FLAG_HAS_POE_MDI := 9
  const FLAG_HAS_POE := 10
  const FLAG_HAS_POE_VALUES := 11
  const FLAG_POE_SUPPORTED := 12

  // ---- Items and their encoding ----

  datatype Item = Octet(value: byte) | Word(word: u16) | String(text: seq<byte>)

  predicate Encodable(i: Item) {
    i.String? ==> |i.text| < 0x100
  }

  function EncodeItem(i: Item): seq<byte>
    requires Encodable(i)
  {
    match i
    case Octet(v) => [v]
    case Word(w) => Le16(w)
    case String(t) => [|t|] + t
  }

  predicate AllEncodable(items: seq<Item>) {
    forall k :: 0 <= k < |items| ==> Encodable(items[k])
  }

  function EncodeItems(items: seq<Item>): seq<byte>
    requires AllEncodable(items)
  {
    if items == [] then [] else EncodeItem(items[0]) + EncodeItems(items[1..])
  }

  lemma {:induction false} EncodeItemsSnoc(items: seq<Item>, i: Item)
    requires AllEncodable(items) && Encodable(i)
    ensures EncodeItems(items + [i]) == EncodeItems(items) + EncodeItem(i)
  {
    if items == [] {
      assert items + [i] == [i] && [i][1..] == [];
    } else {
      assert (items + [i])[1..] == items[1..] + [i];
      EncodeItemsSnoc(items[1..], i);
    }
  }

  // ---- What the reader expects ----

  /** The kind of the next item; a string has an array size and must be non-empty exactly when flagged. */
  datatype Shape = OctetShape | WordShape | StringShape(capacity: nat, present: bool)

  predicate Fits(i: Item, s: Shape) {
    match s
    case OctetShape => i.Octet?
    case WordShape => i.Word?
    case StringShape(capacity, present) =>
      i.String? && |i.text| < capacity && |i.text| < 0x100 && present == (i.text != [])
  }

  predicate AllFit(items: seq<Item>, shapes: seq<Shape>) {
    |items| == |shapes| && forall k :: 0 <= k < |items| ==> Fits(items[k], shapes[k])
  }

  /** Read one item off the front. */
  function ParseItem(s: Shape, data: seq<byte>): (r: Option<(Item, seq<byte>)>)
    ensures r.Some? ==> Fits(r.value.0, s) && EncodeItem(r.value.0) + r.value.1 == data
  {
    match s
    case OctetShape => if |data| < 1 then None else Some((Octet(data[0]), data[1..]))
    case WordShape => if |data| < 2 then None else Some((Word(ReadLe16(data)), data[2..]))
    case StringShape(capacity, present) =>
      if |data| < 1 || data[0] >= capacity || |data| - 1 < data[0] || present != (data[0] != 0) then None
      else
        assert [|data[1..1 + data[0]]|] + data[1..1 + data[0]] + data[1 + data[0]..] == data;
        Some((String(data[1..1 + data[0]]), data[1 + data[0]..]))
  }

  /** Read all the items; nothing may be left over. */
  function ParseItems(shapes: seq<Shape>, data: seq<byte>): (r: Option<seq<Item>>)
    ensures r.Some? ==> AllFit(r.value, shapes)
    decreases |shapes|
  {
    if shapes == [] then if data == [] then Some([]) else None
    else match ParseItem(shapes[0], data)
      case None => None
      case Some((item, rest)) =>
        match ParseItems(shapes[1..], rest)
        case None => None
        case Some(items) => Some([item] + items)
  }

  /** The reader accepts exactly the encodings of the item lists that fit. */
  lemma {:induction false} ParseItemsExact(shapes: seq<Shape>, data: seq<byte>)
    ensures ParseItems(shapes, data).Some? ==>
      EncodeItems(ParseItems(shapes, data).value) == data
    decreases |shapes|
  {
    if shapes != [] && ParseItem(shapes[0], data).Some? {
      var (item, rest) := ParseItem(shapes[0], data).value;
      ParseItemsExact(shapes[1..], rest);
      if ParseItems(shapes[1..], rest).Some? {
        var items := ParseItems(shapes[1..], rest).value;
        assert ([item] + items)[1..] == items;
      }
    }
  }

  lemma {:induction false} ParseItemsOfEncoding(shapes: seq<Shape>, items: seq<Item>)
    requires AllFit(items, shapes)
    ensures ParseItems(shapes, EncodeItems(items)) == Some(items)
    decreases |shapes|
  {
    if shapes != [] {
      var rest := EncodeItems(items[1..]);
      ParseItemOfEncoding(shapes[0], items[0], rest);
      ParseItemsOfEncoding(shapes[1..], items[1..]);
      assert [items[0]] + items[1..] == items;
    }
  }

  lemma ParseItemOfEncoding(s: Shape, i: Item, rest: seq<byte>)
    requires Fits(i, s)
    ensures ParseItem(s, EncodeItem(i) + rest) == Some((i, rest))
  {
    var data := EncodeItem(i) + rest;
    assert data[|EncodeItem(i)|..] == rest;
    if i.String? {
      assert data[1..1 + |i.text|] == i.text;
    }
  }

  // ---- The three layouts ----

  // The LLDP layout, in four runs.

  function LldpVlanItems(n: Neighbor): seq<Item> {
    [Octet(n.lldpChassisSubtype), Octet(n.lldpPortSubtype),
     Word(n.ttl), Word(n.capabilities), Word(n.enabledCapabilities),
     Word(n.vlanId), Word(n.pvid), Word(n.networkPolicyVlan)]
  }

  function LldpPowerItems(n: Neighbor): seq<Item> {
    [Octet(n.poePowerPair), Octet(n.poePowerClass), Octet(n.poeTypeSourcePriority),
     Word(n.poeRequestedPower), Word(n.poeAllocatedPower), Word(n.poePowerWatts),
     Word(n.poeRequestedPowerWatts), Word(n.poeAllocatedPowerWatts)]
  }

  function LldpPowerTypeItems(n: Neighbor): seq<Item> {
    [Octet(n.poePowerType), Octet(n.poePowerSource), Octet(n.poePowerPriority),
     Octet(if n.poeSupported then 1 else 0)]
  }

  function LldpStringItems(n: Neighbor): seq<Item> {
    [String(Text(n.chassisId)), String(Text(n.name)), String(Text(n.description)),
     String(Text(n.port)), String(Text(n.managementAddress)), String(Text(n.vlanName))]
  }

  /** The items a record of the protocol stores, in file order. */
  function ItemsOf(p: Protocol, n: Neighbor): (items: seq<Item>)
    ensures AllEncodable(items)
  {
    match p
    case Lldp => LldpVlanItems(n) + LldpPowerItems(n) + LldpPowerTypeItems(n) + LldpStringItems(n)
    case Cdp => [
        Word(n.ttl), Word(n.capabilities),
        String(Text(n.name)), String(Text(n.port)),
        String(Text(n.managementAddress)), String(Text(n.description))]
    case Eapol => [
        Octet(n.eapolVersion), Octet(n.eapolPacketType), Octet(n.eapCode), Octet(n.eapType),
        String(Text(n.name))]
  }

  const LLDP_VLAN_SHAPES: seq<Shape> :=
    [OctetShape, OctetShape, WordShape, WordShape, WordShape, WordShape, WordShape, WordShape]
  const LLDP_POWER_SHAPES: seq<Shape> :=
    [OctetShape, OctetShape, OctetShape, WordShape, WordShape, WordShape, WordShape, WordShape]
  const LLDP_POWER_TYPE_SHAPES: seq<Shape> :=
    [OctetShape, OctetShape, OctetShape, OctetShape]

  function LldpStringShapes(flags: nat): seq<Shape> {
    [StringShape(64, Bit(flags, FLAG_CHASSIS)), StringShape(64, Bit(flags, FLAG_NAME)),
     StringShape(128, Bit(flags, FLAG_DESCRIPTION)), StringShape(64, Bit(flags, FLAG_PORT)),
     StringShape(48, Bit(flags, FLAG_MANAGEMENT)), StringShape(64, Bit(flags, FLAG_VLAN_NAME_STRING))]
  }

  function ShapesOf(p: Protocol, flags: nat): seq<Shape> {
    match p
    case Lldp => LLDP_VLAN_SHAPES + LLDP_POWER_SHAPES + LLDP_POWER_TYPE_SHAPES + LldpStringShapes(flags)
    case Cdp => [
        WordShape, WordShape,
        StringShape(64, Bit(flags, FLAG_NAME)), StringShape(64, Bit(flags, FLAG_PORT)),
        StringShape(48, Bit(flags, FLAG_MANAGEMENT)), StringShape(128, Bit(flags, FLAG_DESCRIPTION))]
    case Eapol => [
        OctetShape, OctetShape, OctetShape, OctetShape, StringShape(64, Bit(flags, FLAG_NAME))]
  }

  /** The strings the protocol's payload holds are C strings. */
  predicate StringsTerminated(p: Protocol, n: Neighbor) {
    && Terminated(n.name)
    && (p != Eapol ==> Terminated(n.port) && Terminated(n.managementAddress) && Terminated(n.description))
    && (p == Lldp ==> Terminated(n.chassisId) && Terminated(n.vlanName))
  }

  /** Bit k of the presence word; only LLDP sets the bits past the description. */
  predicate FlagSet(p: Protocol, n: Neighbor, k: nat) {
    if k == FLAG_NAME then n.name[0] != 0
    else if k == FLAG_PORT then n.port[0] != 0
    else if k == FLAG_MANAGEMENT then n.managementAddress[0] != 0
    else if k == FLAG_DESCRIPTION then n.description[0] != 0
    else p == Lldp && LldpFlagSet(n, k)
  }

  predicate LldpFlagSet(n: Neighbor, k: nat) {
    if k == FLAG_CHASSIS then n.chassisId[0] != 0
    else if k == FLAG_VLAN_NAME_STRING then n.vlanName[0] != 0
    else if k == FLAG_HAS_PVID then n.hasPvid
    else if k == FLAG_HAS_VLAN_NAME then n.hasVlanName
    else if k == FLAG_HAS_POLICY then n.hasNetworkPolicy
    else if k == FLAG_HAS_POE_MDI then n.hasPoeMdi
    else if k == FLAG_HAS_POE then n.hasPoe
    else if k == FLAG_HAS_POE_VALUES then n.hasPoePowerValues
    else k == FLAG_POE_SUPPORTED && n.poeSupported
  }

  /** The presence word. */
  function FlagsOf(p: Protocol, n: Neighbor): u16 {
    Pow2Of16();
    FromBits(seq(16, k requires 0 <= k < 16 => FlagSet(p, n, k)))
  }

  lemma Pow2Of16()
    ensures Pow2(16) == 0x1_0000
  {
    assert Pow2(16) == 4 * Pow2(14) == 16 * Pow2(12) == 64 * Pow2(10) == 256 * Pow2(8);
    assert Pow2(8) == 4 * Pow2(6) == 16 * Pow2(4) == 64 * Pow2(2);
  }

  /** The bits a stored flag word may have. */
  predicate FlagAllowed(p: Protocol, k: nat) {
    match p
    case Lldp => k <= FLAG_POE_SUPPORTED
    case Cdp => k in {FLAG_NAME, FLAG_PORT, FLAG_MANAGEMENT, FLAG_DESCRIPTION}
    case Eapol => k == FLAG_NAME
  }

  /** `!(flags & ~mask)` */
  predicate FlagsValid(p: Protocol, flags: u16) {
    forall k :: 0 <= k < 16 && Bit(flags, k) ==> FlagAllowed(p, k)
  }

  /** The runs of an LLDP item list. */
  predicate LldpRuns(flags: nat, a: seq<Item>, b: seq<Item>, c: seq<Item>, d: seq<Item>) {
    && AllFit(a, LLDP_VLAN_SHAPES)
    && AllFit(b, LLDP_POWER_SHAPES)
    && AllFit(c, LLDP_POWER_TYPE_SHAPES)
    && AllFit(d, LldpStringShapes(flags))
  }

  function LldpNeighborOf(flags: u16, a: seq<Item>, b: seq<Item>, c: seq<Item>, d: seq<Item>, base: Neighbor): Neighbor
    requires LldpRuns(flags, a, b, c, d)
  {
    base.(
    lldpChassisSubtype := a[0].value, lldpPortSubtype := a[1].value,
    ttl := a[2].word, capabilities := a[3].word, enabledCapabilities := a[4].word,
    vlanId := a[5].word, pvid := a[6].word, networkPolicyVlan := a[7].word,
    poePowerPair := b[0].value, poePowerClass := b[1].value, poeTypeSourcePriority := b[2].value,
    poeRequestedPower := b[3].word, poeAllocatedPower := b[4].word, poePowerWatts := b[5].word,
    poeRequestedPowerWatts := b[6].word, poeAllocatedPowerWatts := b[7].word,
    poePowerType := c[0].value, poePowerSource := c[1].value, poePowerPriority := c[2].value,
    poeSupported := c[3].value != 0,
    chassisId := CharArray(d[0].text, 64), name := CharArray(d[1].text, 64),
    description := CharArray(d[2].text, 128), port := CharArray(d[3].text, 64),
    managementAddress := CharArray(d[4].text, 48), vlanName := CharArray(d[5].text, 64),
    hasPvid := Bit(flags, FLAG_HAS_PVID), hasVlanName := Bit(flags, FLAG_HAS_VLAN_NAME),
    hasNetworkPolicy := Bit(flags, FLAG_HAS_POLICY), hasPoeMdi := Bit(flags, FLAG_HAS_POE_MDI),
    hasPoe := Bit(flags, FLAG_HAS_POE), hasPoePowerValues := Bit(flags, FLAG_HAS_POE_VALUES))
  }

  lemma SplitLldp(flags: nat, items: seq<Item>)
    ensures AllFit(items, ShapesOf(Lldp, flags)) <==>
      |items| == 26 && LldpRuns(flags, items[..8], items[8..16], items[16..20], items[20..])
  {
    if |items| == 26 {
      AllFitConcat(items[..8], LLDP_VLAN_SHAPES, items[8..16], LLDP_POWER_SHAPES);
      assert items[..8] + items[8..16] == items[..16];
      AllFitConcat(items[..16], LLDP_VLAN_SHAPES + LLDP_POWER_SHAPES, items[16..20], LLDP_POWER_TYPE_SHAPES);
      assert items[..16] + items[16..20] == items[..20];
      AllFitConcat(items[..20], LLDP_VLAN_SHAPES + LLDP_POWER_SHAPES + LLDP_POWER_TYPE_SHAPES,
                   items[20..], LldpStringShapes(flags));
      assert items[..20] + items[20..] == items;
    }
  }

  lemma AllFitConcat(a: seq<Item>, sa: seq<Shape>, b: seq<Item>, sb: seq<Shape>)
    requires |a| == |sa| && |b| == |sb|
    ensures AllFit(a + b, sa + sb) <==> AllFit(a, sa) && AllFit(b, sb)
  {
    if AllFit(a + b, sa + sb) {
      forall k | 0 <= k < |a|
        ensures Fits(a[k], sa[k])
      {
        assert Fits((a + b)[k], (sa + sb)[k]);
      }
      forall k | 0 <= k < |b|
        ensures Fits(b[k], sb[k])
      {
        assert Fits((a + b)[|a| + k], (sa + sb)[|a| + k]);
      }
    }
  }

  /** The record a payload stands for. */
  function NeighborOf(p: Protocol, flags: u16, items: seq<Item>, mac: MacAddress): Neighbor
    requires AllFit(items, ShapesOf(p, flags))
  {
    var base := EMPTY.(mac := mac, sources := SourceBit(p), occupied := true);
    match p
    case Lldp =>
      SplitLldp(flags, items);
      LldpNeighborOf(flags, items[..8], items[8..16], items[16..20], items[20..], base)
    case Cdp =>
      base.(
      ttl := items[0].word, capabilities := items[1].word,
      name := CharArray(items[2].text, 64), port := CharArray(items[3].text, 64),
      managementAddress := CharArray(items[4].text, 48), description := CharArray(items[5].text, 128))
    case Eapol =>
      base.(
      eapolVersion := items[0].value, eapolPacketType := items[1].value,
      eapCode := items[2].value, eapType := items[3].value,
      name := CharArray(items[4].text, 64))
  }

  /** The stored support octet is 0 or 1 and agrees with its flag. */
  predicate SupportedOk(flags: u16, supported: byte) {
    supported <= 1 && (supported != 0) == Bit(flags, FLAG_POE_SUPPORTED)
  }

  predicate SupportOctetOk(p: Protocol, flags: u16, items: seq<Item>)
    requires AllFit(items, ShapesOf(p, flags))
  {
    p == Lldp ==> SupportedOk(flags, items[19].value)
  }

  function Decode(p: Protocol, flags: u16, payload: seq<byte>, mac: MacAddress): Option<Neighbor> {
    match ParseItems(ShapesOf(p, flags), payload)
    case None => None
    case Some(items) => if SupportOctetOk(p, flags, items) then Some(NeighborOf(p, flags, items, mac)) else None
  }

  // ---- decode after encode ----

  /** A character array with everything after its text cleared. */
  function Clean(s: seq<byte>): (r: seq<byte>)
    ensures |r| == |s|
  {
    CharArray(Text(s), |s|)
  }

  /** What a history record keeps of a neighbour: the protocol's own fields, texts cut at their NUL. */
  function Restrict(p: Protocol, n: Neighbor): Neighbor {
    var base := EMPTY.(mac := n.mac, sources := SourceBit(p), occupied := true, name := Clean(n.name));
    match p
    case Lldp =>
      n.(sources := SourceBit(p), occupied := true,
      eapolVersion := 0, eapolPacketType := 0, eapCode := 0, eapType := 0,
      chassisId := Clean(n.chassisId), name := Clean(n.name), description := Clean(n.description),
      port := Clean(n.port), managementAddress := Clean(n.managementAddress), vlanName := Clean(n.vlanName))
    case Cdp =>
      base.(ttl := n.ttl, capabilities := n.capabilities, port := Clean(n.port),
      managementAddress := Clean(n.managementAddress), description := Clean(n.description))
    case Eapol =>
      base.(eapolVersion := n.eapolVersion, eapolPacketType := n.eapolPacketType,
      eapCode := n.eapCode, eapType := n.eapType)
  }

  lemma FlagBit(p: Protocol, n: Neighbor, k: nat)
    ensures Bit(FlagsOf(p, n), k) == FlagSet(p, n, k)
  {
    BitOfFromBits(seq(16, k requires 0 <= k < 16 => FlagSet(p, n, k)), k);
  }

  /** A string is flagged exactly when it is not empty. */
  lemma TextPresent(s: seq<byte>)
    requires s != []
    ensures (Text(s) != []) == (s[0] != 0)
    ensures |Text(s)| == CLen(s)
  {
  }

  lemma TextsPresent(n: Neighbor)
    ensures (Text(n.name) != []) == (n.name[0] != 0)
    ensures (Text(n.port) != []) == (n.port[0] != 0)
    ensures (Text(n.managementAddress) != []) == (n.managementAddress[0] != 0)
    ensures (Text(n.description) != []) == (n.description[0] != 0)
    ensures (Text(n.chassisId) != []) == (n.chassisId[0] != 0)
    ensures (Text(n.vlanName) != []) == (n.vlanName[0] != 0)
  {
    TextPresent(n.name);
    TextPresent(n.port);
    TextPresent(n.managementAddress);
    TextPresent(n.description);
    TextPresent(n.chassisId);
    TextPresent(n.vlanName);
  }

  lemma LldpItemsSplit(n: Neighbor)
    ensures var items := ItemsOf(Lldp, n);
      && |items| == 26
      && items[..8] == LldpVlanItems(n)
      && items[8..16] == LldpPowerItems(n)
      && items[16..20] == LldpPowerTypeItems(n)
      && items[20..] == LldpStringItems(n)
  {
  }

  /** The flag word marks exactly the non-empty texts. */
  predicate FlagsMarkTexts(p: Protocol, n: Neighbor, flags: nat) {
    && Bit(flags, FLAG_NAME) == (Text(n.name) != [])
    && Bit(flags, FLAG_PORT) == (Text(n.port) != [])
    && Bit(flags, FLAG_MANAGEMENT) == (Text(n.managementAddress) != [])
    && Bit(flags, FLAG_DESCRIPTION) == (Text(n.description) != [])
    && (p == Lldp ==> Bit(flags, FLAG_CHASSIS) == (Text(n.chassisId) != []))
    && (p == Lldp ==> Bit(flags, FLAG_VLAN_NAME_STRING) == (Text(n.vlanName) != []))
  }

  lemma FlagsOfMarkTexts(p: Protocol, n: Neighbor)
    ensures FlagsMarkTexts(p, n, FlagsOf(p, n))
  {
    hide FlagsOf, Bit, Text;
    FlagBit(p, n, FLAG_NAME);
    FlagBit(p, n, FLAG_PORT);
    FlagBit(p, n, FLAG_MANAGEMENT);
    FlagBit(p, n, FLAG_DESCRIPTION);
    FlagBit(p, n, FLAG_CHASSIS);
    FlagBit(p, n, FLAG_VLAN_NAME_STRING);
    TextsPresent(n);
  }

  lemma LldpItemsFit(n: Neighbor, flags: nat)
    requires StringsTerminated(Lldp, n) && FlagsMarkTexts(Lldp, n, flags)
    ensures AllFit(ItemsOf(Lldp, n), ShapesOf(Lldp, flags))
  {
    hide AllFit, ItemsOf, ShapesOf, StringsTerminated, FlagsMarkTexts, LldpVlanItems, LldpPowerItems;
    hide LldpPowerTypeItems, LldpStringItems;
    LldpStringsFit(n, flags);
    LldpNumbersFit(n);
    LldpItemsSplit(n);
    SplitLldp(flags, ItemsOf(Lldp, n));
  }

  lemma LldpNumbersFit(n: Neighbor)
    ensures AllFit(LldpVlanItems(n), LLDP_VLAN_SHAPES) && AllFit(LldpPowerItems(n), LLDP_POWER_SHAPES)
    ensures AllFit(LldpPowerTypeItems(n), LLDP_POWER_TYPE_SHAPES)
  {
  }

  lemma LldpStringsFit(n: Neighbor, flags: nat)
    requires StringsTerminated(Lldp, n) && FlagsMarkTexts(Lldp, n, flags)
    ensures AllFit(LldpStringItems(n), LldpStringShapes(flags))
  {
  }

  lemma CdpItemsFit(n: Neighbor, flags: nat)
    requires StringsTerminated(Cdp, n) && FlagsMarkTexts(Cdp, n, flags)
    ensures AllFit(ItemsOf(Cdp, n), ShapesOf(Cdp, flags))
  {
  }

  lemma EapolItemsFit(n: Neighbor, flags: nat)
    requires StringsTerminated(Eapol, n) && FlagsMarkTexts(Eapol, n, flags)
    ensures AllFit(ItemsOf(Eapol, n), ShapesOf(Eapol, flags))
  {
  }

  lemma ItemsFit(p: Protocol, n: Neighbor)
    requires StringsTerminated(p, n)
    ensures AllFit(ItemsOf(p, n), ShapesOf(p, FlagsOf(p, n)))
  {
    var flags := FlagsOf(p, n);
    FlagsOfMarkTexts(p, n);
    match p
    case Lldp => LldpItemsFit(n, flags);
    case Cdp => CdpItemsFit(n, flags);
    case Eapol => EapolItemsFit(n, flags);
  }

  /** Reading back a written payload gives the neighbour restricted to the protocol's fields. */
  lemma DecodeOfEncode(p: Protocol, n: Neighbor)
    requires StringsTerminated(p, n)
    ensures Decode(p, FlagsOf(p, n), EncodeItems(ItemsOf(p, n)), n.mac) == Some(Restrict(p, n))
  {
    ItemsFit(p, n);
    ParseItemsOfEncoding(ShapesOf(p, FlagsOf(p, n)), ItemsOf(p, n));
    NeighborOfItems(p, n);
  }

  lemma NeighborOfItems(p: Protocol, n: Neighbor)
    requires AllFit(ItemsOf(p, n), ShapesOf(p, FlagsOf(p, n)))
    ensures SupportOctetOk(p, FlagsOf(p, n), ItemsOf(p, n))
    ensures NeighborOf(p, FlagsOf(p, n), ItemsOf(p, n), n.mac) == Restrict(p, n)
  {
    match p
    case Lldp =>
      FlagsOfMarkOptions(n);
      LldpNeighborOfItems(n, FlagsOf(p, n));
    case Cdp =>
    case Eapol =>
  }

  /** The flag word repeats the LLDP presence markers. */
  predicate FlagsMarkOptions(n: Neighbor, flags: nat) {
    && Bit(flags, FLAG_HAS_PVID) == n.hasPvid
    && Bit(flags, FLAG_HAS_VLAN_NAME) == n.hasVlanName
    && Bit(flags, FLAG_HAS_POLICY) == n.hasNetworkPolicy
    && Bit(flags, FLAG_HAS_POE_MDI) == n.hasPoeMdi
    && Bit(flags, FLAG_HAS_POE) == n.hasPoe
    && Bit(flags, FLAG_HAS_POE_VALUES) == n.hasPoePowerValues
    && Bit(flags, FLAG_POE_SUPPORTED) == n.poeSupported
  }

  lemma FlagsOfMarkOptions(n: Neighbor)
    ensures FlagsMarkOptions(n, FlagsOf(Lldp, n))
  {
    hide FlagsOf, Bit;
    FlagBit(Lldp, n, FLAG_HAS_PVID);
    FlagBit(Lldp, n, FLAG_HAS_VLAN_NAME);
    FlagBit(Lldp, n, FLAG_HAS_POLICY);
    FlagBit(Lldp, n, FLAG_HAS_POE_MDI);
    FlagBit(Lldp, n, FLAG_HAS_POE);
    FlagBit(Lldp, n, FLAG_HAS_POE_VALUES);
    FlagBit(Lldp, n, FLAG_POE_SUPPORTED);
  }

  lemma LldpNeighborOfItems(n: Neighbor, flags: u16)
    requires AllFit(ItemsOf(Lldp, n), ShapesOf(Lldp, flags)) && FlagsMarkOptions(n, flags)
    ensures SupportOctetOk(Lldp, flags, ItemsOf(Lldp, n))
    ensures NeighborOf(Lldp, flags, ItemsOf(Lldp, n), n.mac) == Restrict(Lldp, n)
  {
    LldpItemsSplit(n);
    SplitLldp(flags, ItemsOf(Lldp, n));
    assert ItemsOf(Lldp, n)[19] == LldpPowerTypeItems(n)[3];
  }

  // ---- encode after decode ----

  /** Every text among the items is free of NULs. */
  predicate TextsNulFree(items: seq<Item>) {
    forall k :: 0 <= k < |items| && items[k].String? ==> NulFree(items[k].text)
  }

  /** No string of the payload has a NUL in it. */
  predicate StringsNulFree(p: Protocol, flags: u16, payload: seq<byte>) {
    var r := ParseItems(ShapesOf(p, flags), payload);
    r.Some? ==> TextsNulFree(r.value)
  }

  lemma ItemsOfDecoded(p: Protocol, flags: u16, items: seq<Item>, mac: MacAddress)
    requires AllFit(items, ShapesOf(p, flags)) && SupportOctetOk(p, flags, items) && TextsNulFree(items)
    ensures ItemsOf(p, NeighborOf(p, flags, items, mac)) == items
    ensures StringsTerminated(p, NeighborOf(p, flags, items, mac))
  {
    match p
    case Lldp => LldpItemsOfDecoded(flags, items, mac);
    case Cdp => CdpItemsOfDecoded(flags, items, mac);
    case Eapol => TextOfCharArray(items[4].text, 64);
  }

  lemma CdpItemsOfDecoded(flags: u16, items: seq<Item>, mac: MacAddress)
    requires AllFit(items, ShapesOf(Cdp, flags)) && TextsNulFree(items)
    ensures ItemsOf(Cdp, NeighborOf(Cdp, flags, items, mac)) == items
    ensures StringsTerminated(Cdp, NeighborOf(Cdp, flags, items, mac))
  {
    hide CharArray, Text, Terminated, CLen, NulFree, Bit, SourceBit;
    var shapes := ShapesOf(Cdp, flags);
    assert Fits(items[0], shapes[0]) && Fits(items[1], shapes[1]) && Fits(items[2], shapes[2]);
    assert Fits(items[3], shapes[3]) && Fits(items[4], shapes[4]) && Fits(items[5], shapes[5]);
    TextOfCharArray(items[2].text, 64);
    TextOfCharArray(items[3].text, 64);
    TextOfCharArray(items[4].text, 48);
    TextOfCharArray(items[5].text, 128);
  }

  lemma LldpItemsOfDecoded(flags: u16, items: seq<Item>, mac: MacAddress)
    requires AllFit(items, ShapesOf(Lldp, flags)) && SupportOctetOk(Lldp, flags, items) && TextsNulFree(items)
    ensures ItemsOf(Lldp, NeighborOf(Lldp, flags, items, mac)) == items
    ensures StringsTerminated(Lldp, NeighborOf(Lldp, flags, items, mac))
  {
    SplitLldp(flags, items);
    var a, b, c, d := items[..8], items[8..16], items[16..20], items[20..];
    var base := EMPTY.(mac := mac, sources := SourceBit(Lldp), occupied := true);
    assert c[3] == items[19];
    LldpNumbersOfDecoded(flags, a, b, c, d, base);
    forall k | 0 <= k < |d| && d[k].String?
      ensures NulFree(d[k].text)
    {
      assert d[k] == items[20 + k];
    }
    var n := NeighborOf(Lldp, flags, items, mac);
    LldpStringsOfDecoded(flags, n, d);
    LldpRunsJoin(n, items);
  }

  lemma LldpNumbersOfDecoded(flags: u16, a: seq<Item>, b: seq<Item>, c: seq<Item>, d: seq<Item>, base: Neighbor)
    requires LldpRuns(flags, a, b, c, d) && c[3].value <= 1
    ensures var n := LldpNeighborOf(flags, a, b, c, d, base);
      LldpVlanItems(n) == a && LldpPowerItems(n) == b && LldpPowerTypeItems(n) == c
  {
  }

  lemma LldpStringsOfDecoded(flags: u16, n: Neighbor, d: seq<Item>)
    requires AllFit(d, LldpStringShapes(flags)) && TextsNulFree(d)
    requires n.chassisId == CharArray(d[0].text, 64) && n.name == CharArray(d[1].text, 64)
    requires n.description == CharArray(d[2].text, 128) && n.port == CharArray(d[3].text, 64)
    requires n.managementAddress == CharArray(d[4].text, 48) && n.vlanName == CharArray(d[5].text, 64)
    ensures LldpStringItems(n) == d && StringsTerminated(Lldp, n)
  {
    TextOfCharArray(d[0].text, 64);
    TextOfCharArray(d[1].text, 64);
    TextOfCharArray(d[2].text, 128);
    TextOfCharArray(d[3].text, 64);
    TextOfCharArray(d[4].text, 48);
    TextOfCharArray(d[5].text, 64);
  }

  lemma LldpRunsJoin(n: Neighbor, items: seq<Item>)
    requires |items| == 26
    requires items[..8] == LldpVlanItems(n) && items[8..16] == LldpPowerItems(n)
    requires items[16..20] == LldpPowerTypeItems(n) && items[20..] == LldpStringItems(n)
    ensures ItemsOf(Lldp, n) == items
  {
    assert items == items[..8] + items[8..16] + items[16..20] + items[20..];
  }

  lemma FlagsOfDecoded(p: Protocol, flags: u16, items: seq<Item>, mac: MacAddress)
    requires AllFit(items, ShapesOf(p, flags)) && SupportOctetOk(p, flags, items)
    requires TextsNulFree(items)
    requires FlagsValid(p, flags)
    ensures FlagsOf(p, NeighborOf(p, flags, items, mac)) == flags
  {
    hide NeighborOf, FlagsOf, FlagSet, AllFit, ShapesOf, TextsNulFree, SupportOctetOk, Bit;
    var n := NeighborOf(p, flags, items, mac);
    forall k | 0 <= k < 16
      ensures Bit(FlagsOf(p, n), k) == Bit(flags, k)
    {
      FlagBit(p, n, k);
      assert Bit(flags, k) ==> FlagAllowed(p, k);
      match p
      case Lldp => LldpFlagDecoded(flags, items, mac, k);
      case Cdp => CdpFlagDecoded(flags, items, mac, k);
      case Eapol => EapolFlagDecoded(flags, items, mac, k);
    }
    Pow2Of16();
    BitsDetermine(FlagsOf(p, n), flags, 16);
  }

  /** A decoded text has its flag. */
  lemma TextFlag(s: Shape, i: Item)
    requires s.StringShape? && Fits(i, s) && NulFree(i.text) && s.capacity > 0
    ensures (CharArray(i.text, s.capacity)[0] != 0) == s.present
  {
    if i.text != [] {
      assert CharArray(i.text, s.capacity)[0] == i.text[0];
    }
  }

  lemma EapolFlagDecoded(flags: u16, items: seq<Item>, mac: MacAddress, k: nat)
    requires AllFit(items, ShapesOf(Eapol, flags)) && TextsNulFree(items) && (Bit(flags, k) ==> FlagAllowed(Eapol, k))
    ensures FlagSet(Eapol, NeighborOf(Eapol, flags, items, mac), k) == Bit(flags, k)
  {
    hide CharArray, NulFree, Bit;
    TextFlag(ShapesOf(Eapol, flags)[4], items[4]);
    EmptyStarts();
  }

  lemma EmptyStarts()
    ensures EMPTY.port[0] == 0 && EMPTY.managementAddress[0] == 0 && EMPTY.description[0] == 0
  {
  }

  lemma CdpFlagDecoded(flags: u16, items: seq<Item>, mac: MacAddress, k: nat)
    requires AllFit(items, ShapesOf(Cdp, flags)) && TextsNulFree(items) && (Bit(flags, k) ==> FlagAllowed(Cdp, k))
    ensures FlagSet(Cdp, NeighborOf(Cdp, flags, items, mac), k) == Bit(flags, k)
  {
    hide CharArray, NulFree, Bit;
    TextFlag(ShapesOf(Cdp, flags)[2], items[2]);
    TextFlag(ShapesOf(Cdp, flags)[3], items[3]);
    TextFlag(ShapesOf(Cdp, flags)[4], items[4]);
    TextFlag(ShapesOf(Cdp, flags)[5], items[5]);
  }

  lemma LldpFlagDecoded(flags: u16, items: seq<Item>, mac: MacAddress, k: nat)
    requires AllFit(items, ShapesOf(Lldp, flags)) && SupportOctetOk(Lldp, flags, items)
    requires TextsNulFree(items) && (Bit(flags, k) ==> FlagAllowed(Lldp, k))
    ensures FlagSet(Lldp, NeighborOf(Lldp, flags, items, mac), k) == Bit(flags, k)
  {
    hide CharArray, NulFree, Bit, AllFit, ShapesOf;
    SplitLldp(flags, items);
    var c, d := items[16..20], items[20..];
    assert c[3] == items[19];
    LldpTextFlags(flags, items, d);
  }

  lemma LldpTextFlags(flags: u16, items: seq<Item>, d: seq<Item>)
    requires |items| == 26 && d == items[20..] && AllFit(d, LldpStringShapes(flags)) && TextsNulFree(items)
    ensures (CharArray(d[0].text, 64)[0] != 0) == Bit(flags, FLAG_CHASSIS)
    ensures (CharArray(d[1].text, 64)[0] != 0) == Bit(flags, FLAG_NAME)
    ensures (CharArray(d[2].text, 128)[0] != 0) == Bit(flags, FLAG_DESCRIPTION)
    ensures (CharArray(d[3].text, 64)[0] != 0) == Bit(flags, FLAG_PORT)
    ensures (CharArray(d[4].text, 48)[0] != 0) == Bit(flags, FLAG_MANAGEMENT)
    ensures (CharArray(d[5].text, 64)[0] != 0) == Bit(flags, FLAG_VLAN_NAME_STRING)
  {
    hide CharArray, NulFree, Bit;
    var shapes := LldpStringShapes(flags);
    forall j | 0 <= j < 6
      ensures NulFree(d[j].text) && Fits(d[j], shapes[j])
    {
      assert d[j] == items[20 + j];
    }
    TextFlag(shapes[0], d[0]);
    TextFlag(shapes[1], d[1]);
    TextFlag(shapes[2], d[2]);
    TextFlag(shapes[3], d[3]);
    TextFlag(shapes[4], d[4]);
    TextFlag(shapes[5], d[5]);
  }

  /** Writing back a decoded payload reproduces it and its flags. */
  lemma EncodeOfDecode(p: Protocol, flags: u16, payload: seq<byte>, mac: MacAddress)
    requires FlagsValid(p, flags) && StringsNulFree(p, flags, payload)
    requires Decode(p, flags, payload, mac).Some?
    ensures var n := Decode(p, flags, payload, mac).value;
      && StringsTerminated(p, n)
      && EncodeItems(ItemsOf(p, n)) == payload
      && FlagsOf(p, n) == flags
  {
    var items := ParseItems(ShapesOf(p, flags), payload).value;
    ParseItemsExact(ShapesOf(p, flags), payload);
    ItemsOfDecoded(p, flags, items, mac);
    FlagsOfDecoded(p, flags, items, mac);
  }

  // ---- Payload sizes ----

  function ItemSize(i: Item): nat {
    match i
    case Octet(_) => 1
    case Word(_) => 2
    case String(t) => 1 + |t|
  }

  function SizeFrom(items: seq<Item>, k: nat): nat
    requires k <= |items|
    decreases |items| - k
  {
    if k == |items| then 0 else ItemSize(items[k]) + SizeFrom(items, k + 1)
  }

  lemma {:induction false} EncodedSize(items: seq<Item>, k: nat)
    requires k <= |items| && AllEncodable(items)
    ensures |EncodeItems(items[k..])| == SizeFrom(items, k)
    decreases |items| - k
  {
    if k < |items| {
      assert items[k..][1..] == items[k + 1..];
      EncodedSize(items, k + 1);
    }
  }

  function PayloadMax(p: Protocol): nat {
    match p
    case Lldp => LLDP_PAYLOAD_MAX
    case Cdp => CDP_PAYLOAD_MAX
    case Eapol => EAPOL_PAYLOAD_MAX
  }

  /** Total length of the texts a payload of the protocol holds. */
  function TextTotal(p: Protocol, n: Neighbor): nat {
    match p
    case Lldp => CLen(n.chassisId) + CLen(n.name) + CLen(n.description) + CLen(n.port) + CLen(n.managementAddress) +
      CLen(n.vlanName)
    case Cdp => CLen(n.name) + CLen(n.port) + CLen(n.managementAddress) + CLen(n.description)
    case Eapol => CLen(n.name)
  }

  /** The bytes of a payload that are there whatever the texts are. */
  function FixedSize(p: Protocol): nat {
    match p
    case Lldp => 37
    case Cdp => 8
    case Eapol => 5
  }

  lemma {:induction false} EncodeItemsConcat(a: seq<Item>, b: seq<Item>)
    requires AllEncodable(a) && AllEncodable(b)
    ensures EncodeItems(a + b) == EncodeItems(a) + EncodeItems(b)
  {
    if a == [] {
      assert a + b == b;
    } else {
      assert (a + b)[1..] == a[1..] + b;
      EncodeItemsConcat(a[1..], b);
    }
  }

  lemma RunSize(items: seq<Item>)
    requires AllEncodable(items)
    ensures |EncodeItems(items)| == SizeFrom(items, 0)
  {
    EncodedSize(items, 0);
    assert items[0..] == items;
  }

  lemma LldpNumbersSize(n: Neighbor)
    ensures |EncodeItems(LldpVlanItems(n))| == 14
    ensures |EncodeItems(LldpPowerItems(n))| == 13
    ensures |EncodeItems(LldpPowerTypeItems(n))| == 4
  {
    var a, b, c := LldpVlanItems(n), LldpPowerItems(n), LldpPowerTypeItems(n);
    RunSize(a);
    RunSize(b);
    RunSize(c);
    assert SizeFrom(a, 7) == 2;
    assert SizeFrom(a, 5) == 6;
    assert SizeFrom(a, 3) == 10;
    assert SizeFrom(a, 1) == 13;
    assert SizeFrom(b, 7) == 2;
    assert SizeFrom(b, 5) == 6;
    assert SizeFrom(b, 3) == 10;
    assert SizeFrom(b, 1) == 12;
    assert SizeFrom(c, 3) == 1;
    assert SizeFrom(c, 1) == 3;
  }

  lemma LldpStringsSize(n: Neighbor)
    ensures |EncodeItems(LldpStringItems(n))| == 6 + TextTotal(Lldp, n)
  {
    var d := LldpStringItems(n);
    RunSize(d);
    assert SizeFrom(d, 5) == 1 + CLen(n.vlanName);
    assert SizeFrom(d, 3) == 3 + CLen(n.port) + CLen(n.managementAddress) + CLen(n.vlanName);
    assert SizeFrom(d, 1) == 2 + CLen(n.name) + CLen(n.description) + SizeFrom(d, 3);
  }

  lemma PayloadSize(p: Protocol, n: Neighbor)
    ensures |EncodeItems(ItemsOf(p, n))| == FixedSize(p) + TextTotal(p, n)
  {
    match p
    case Lldp => LldpSize(n);
    case Cdp => CdpSize(n);
    case Eapol => EapolSize(n);
  }

  lemma LldpSize(n: Neighbor)
    ensures |EncodeItems(ItemsOf(Lldp, n))| == FixedSize(Lldp) + TextTotal(Lldp, n)
  {
    hide EncodeItems, CLen;
    assert AllEncodable(LldpVlanItems(n)) && AllEncodable(LldpPowerItems(n)) && AllEncodable(LldpPowerTypeItems(n));
    assert AllEncodable(LldpStringItems(n));
    EncodeItemsConcat(LldpVlanItems(n), LldpPowerItems(n));
    EncodeItemsConcat(LldpVlanItems(n) + LldpPowerItems(n), LldpPowerTypeItems(n));
    EncodeItemsConcat(LldpVlanItems(n) + LldpPowerItems(n) + LldpPowerTypeItems(n), LldpStringItems(n));
    LldpNumbersSize(n);
    LldpStringsSize(n);
  }

  lemma CdpSize(n: Neighbor)
    ensures |EncodeItems(ItemsOf(Cdp, n))| == FixedSize(Cdp) + TextTotal(Cdp, n)
  {
    hide EncodeItems;
    var items := ItemsOf(Cdp, n);
    RunSize(items);
    assert SizeFrom(items, 5) == 1 + CLen(n.description);
    assert SizeFrom(items, 3) == 3 + CLen(n.port) + CLen(n.managementAddress) + CLen(n.description);
    assert SizeFrom(items, 1) == 3 + CLen(n.name) + SizeFrom(items, 3);
  }

  lemma EapolSize(n: Neighbor)
    ensures |EncodeItems(ItemsOf(Eapol, n))| == FixedSize(Eapol) + TextTotal(Eapol, n)
  {
    hide EncodeItems;
    var items := ItemsOf(Eapol, n);
    RunSize(items);
    assert SizeFrom(items, 4) == 1 + CLen(n.name);
    assert SizeFrom(items, 2) == 3 + CLen(n.name);
  }

  /** Encoding a neighbour whose texts are terminated never needs more than the declared maximum. */
  lemma PayloadFits(p: Protocol, n: Neighbor)
    requires StringsTerminated(p, n)
    ensures |EncodeItems(ItemsOf(p, n))| <= PayloadMax(p) <= PAYLOAD_MAX
  {
    PayloadSize(p, n);
  }

  /** The maxima are exact: texts that fill their arrays reach them. */
  lemma PayloadMaxReached(p: Protocol) returns (n: Neighbor)
    ensures StringsTerminated(p, n) && |EncodeItems(ItemsOf(p, n))| == PayloadMax(p)
  {
    var a63, a127, a47 := seq(63, _ => 65), seq(127, _ => 65), seq(47, _ => 65);
    TextOfCharArray(a63, 64);
    TextOfCharArray(a127, 128);
    TextOfCharArray(a47, 48);
    var c := CharArray(a63, 64);
    n := EMPTY.(chassisId := c, name := c, port := c, vlanName := c,
      description := CharArray(a127, 128), managementAddress := CharArray(a47, 48));
    PayloadSize(p, n);
  }
}
