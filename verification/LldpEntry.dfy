/**
 What an LLDP frame means: for every list of TLVs, in any order and any number, what the
 neighbour entry says. Each field is that of the last TLV that announces it.
 */
module LldpEntry {
  import opened Bytes
  import opened Neighbors
  import opened Texts
  import opened Lldp
  import LiveTable

  // ---- What one TLV announces ----

  /** The C string of a field of at most `size` bytes. */
  function FieldText(v: seq<byte>, size: nat): (text: seq<byte>)
    ensures |text| <= size
  {
    Text(Cut(v, size))
  }

  function NameIn(t: Tlv): Option<seq<byte>> {
    if t.kind == 5 && t.value != [] then Some(FieldText(t.value, 63)) else None
  }

  function DescriptionIn(t: Tlv): Option<seq<byte>> {
    if t.kind == 6 && t.value != [] then Some(FieldText(t.value, 127)) else None
  }

  function ChassisSubtypeIn(t: Tlv): Option<byte> {
    if t.kind == 1 && |t.value| >= 2 then Some(t.value[0]) else None
  }

  function PortSubtypeIn(t: Tlv): Option<byte> {
    if t.kind == 2 && |t.value| >= 2 then Some(t.value[0]) else None
  }

  /** An identifier whose subtype says that it is a MAC address, an address with its family, or text. */
  function IdentifierIn(v: seq<byte>, mac: byte, address: byte): Option<seq<byte>> {
    if |v| < 2 then None
    else if v[0] == mac then if |v| == 7 then Some(MacText(v[1..7])) else None
    else if v[0] == address then if |v| == 6 && v[1] == 1 then Some(IpText(v[2..6])) else None
    else if 1 <= v[0] <= 7 then Some(FieldText(v[1..], 63))
    else None
  }

  function ChassisIn(t: Tlv): Option<seq<byte>> {
    if t.kind == 1 then IdentifierIn(t.value, 4, 5) else None
  }

  function PortIn(t: Tlv): Option<seq<byte>> {
    if t.kind == 2 then IdentifierIn(t.value, 3, 4) else None
  }

  function TtlIn(t: Tlv): Option<u16> {
    if t.kind == 3 && |t.value| == 2 then Some(ReadBe16(t.value)) else None
  }

  function CapabilitiesIn(t: Tlv): Option<(u16, u16)> {
    if t.kind == 7 && |t.value| == 4 then Some((ReadBe16(t.value[..2]), ReadBe16(t.value[2..]))) else None
  }

  /** An IPv4 management address: its length with the family byte, the family, and four bytes. */
  function ManagementIn(t: Tlv): Option<seq<byte>> {
    if t.kind == 8 && |t.value| >= 6 && t.value[..2] == [5, 1] then Some(IpText(t.value[2..6])) else None
  }

  /** An organizationally specific TLV that begins with these four bytes. */
  predicate Begins(t: Tlv, a: byte, b: byte, c: byte, subtype: byte) {
    t.kind == 127 && |t.value| >= 4 && t.value[..4] == [a, b, c, subtype]
  }

  function PvidIn(t: Tlv): Option<u16> {
    if Begins(t, 0x00, 0x80, 0xC2, 1) && |t.value| == 6 then Some(ReadBe16(t.value[4..])) else None
  }

  predicate IsVlanName(t: Tlv) {
    Begins(t, 0x00, 0x80, 0xC2, 3) && |t.value| > 7 && t.value[6] as int == |t.value| - 7
  }

  function VlanIdIn(t: Tlv): Option<u16> {
    if IsVlanName(t) then Some(ReadBe16(t.value[4..6])) else None
  }

  function VlanNameIn(t: Tlv): Option<seq<byte>> {
    if IsVlanName(t) then Some(FieldText(t.value[7..], 63)) else None
  }

  predicate IsMdi(t: Tlv) {
    Begins(t, 0x00, 0x12, 0x0F, 2) && |t.value| >= 7
  }

  predicate IsMedPower(t: Tlv) {
    Begins(t, 0x00, 0x12, 0xBB, 4) && |t.value| == 7
  }

  /** Whether power is supported, the pair and the class. */
  function MdiIn(t: Tlv): Option<(bool, byte, byte)> {
    if IsMdi(t) then Some((t.value[4] / 2 % 2 == 1, t.value[5], t.value[6])) else None
  }

  /** Source, priority and power. */
  function MedPowerIn(t: Tlv): Option<(byte, byte, u16)> {
    if IsMedPower(t) then Some((t.value[4] / 16 % 4, t.value[4] % 16, ReadBe16(t.value[5..]))) else None
  }

  /** The octet with the type, and the type in it: the lowest bit for the one TLV, the two highest for the other. */
  function PowerTypeIn(t: Tlv): Option<(byte, byte)> {
    if IsMdi(t) then Some((t.value[4], 1 - t.value[4] % 2))
    else if IsMedPower(t) then Some((t.value[4], t.value[4] / 64))
    else None
  }

  /** Bits 9 to 20 of three bytes. */
  function VlanBits(b: byte, c: byte, d: byte): nat {
    (0x1_0000 * b as nat + 0x100 * c as nat + d as nat) / 512 % 4096
  }

  /** The VLAN in the policy word. */
  function PolicyIn(t: Tlv): Option<nat> {
    if Begins(t, 0x00, 0x12, 0xBB, 2) && |t.value| == 8
    then Some(VlanBits(t.value[5], t.value[6], t.value[7]))
    else None
  }

  // ---- What a list announces ----

  /** What the last of the TLVs that say something says. */
  function LastOf<T>(ts: seq<Tlv>, read: Tlv -> Option<T>): Option<T> {
    if ts == [] then None
    else if read(ts[|ts| - 1]).Some? then read(ts[|ts| - 1])
    else LastOf(ts[..|ts| - 1], read)
  }

  function OrElse<T>(o: Option<T>, otherwise: T): T {
    if o.Some? then o.value else otherwise
  }

  lemma LastSnoc<T>(ts: seq<Tlv>, t: Tlv, read: Tlv -> Option<T>)
    ensures LastOf(ts + [t], read) == if read(t).Some? then read(t) else LastOf(ts, read)
  {
    assert (ts + [t])[..|ts|] == ts;
  }

  predicate TextsRead(ts: seq<Tlv>, i: Info) {
    && Text(i.systemName) == OrElse(LastOf(ts, NameIn), [])
    && Text(i.systemDescription) == OrElse(LastOf(ts, DescriptionIn), [])
    && Text(i.chassisId) == OrElse(LastOf(ts, ChassisIn), [])
    && Text(i.portId) == OrElse(LastOf(ts, PortIn), [])
    && Text(i.managementAddress) == OrElse(LastOf(ts, ManagementIn), [])
    && Text(i.vlanName) == OrElse(LastOf(ts, VlanNameIn), [])
  }

  predicate NumbersRead(ts: seq<Tlv>, i: Info) {
    && i.chassisIdSubtype == OrElse(LastOf(ts, ChassisSubtypeIn), 0)
    && i.portIdSubtype == OrElse(LastOf(ts, PortSubtypeIn), 0)
    && i.ttl == OrElse(LastOf(ts, TtlIn), 0)
    && (i.systemCapabilities, i.enabledCapabilities) == OrElse(LastOf(ts, CapabilitiesIn), (0, 0))
    && i.pvid == OrElse(LastOf(ts, PvidIn), 0) && i.hasPvid == LastOf(ts, PvidIn).Some?
    && i.vlanId == OrElse(LastOf(ts, VlanIdIn), 0) && i.hasVlanName == LastOf(ts, VlanIdIn).Some?
    && i.networkPolicyVlan == OrElse(LastOf(ts, PolicyIn), 0) && i.hasNetworkPolicy == LastOf(ts, PolicyIn).Some?
  }

  predicate PowersRead(ts: seq<Tlv>, i: Info) {
    && (i.poeSupported, i.poePowerPair, i.poePowerClass) == OrElse(LastOf(ts, MdiIn), (false, 0, 0))
    && (i.poePowerSource, i.poePowerPriority, i.poePowerWatts) == OrElse(LastOf(ts, MedPowerIn), (0, 0, 0))
    && (i.poeTypeSourcePriority, i.poePowerType) == OrElse(LastOf(ts, PowerTypeIn), (0, 0))
    && i.hasPoeMdi == LastOf(ts, MdiIn).Some? && i.hasPoePowerValues == LastOf(ts, MedPowerIn).Some?
    && i.hasPoe == (LastOf(ts, MdiIn).Some? || LastOf(ts, MedPowerIn).Some?)
    && i.poeRequestedPower == i.poeAllocatedPower == 0
    && i.poeRequestedPowerWatts == i.poeAllocatedPowerWatts == 0
  }

  // ---- One TLV ----

  lemma CopyIntoReads(dst: seq<byte>, src: seq<byte>)
    requires dst != []
    ensures Text(CopyInto(dst, src)) == FieldText(src, |dst| - 1)
  {
    TextIntoReads(dst, Cut(src, |dst| - 1));
  }

  lemma MacIntoReads(dst: seq<byte>, mac: seq<byte>)
    requires |dst| > 17 && |mac| == 6
    ensures Text(TextInto(dst, MacText(mac))) == MacText(mac)
  {
    MacTextReads(mac);
    TextIntoReads(dst, MacText(mac));
  }

  lemma IpIntoReads(dst: seq<byte>, ip: seq<byte>)
    requires |dst| > 15 && |ip| == 4
    ensures Text(TextInto(dst, IpText(ip))) == IpText(ip)
  {
    IpTextReads(ip);
    TextIntoReads(dst, IpText(ip));
  }

  /** The record after one TLV: each field as the TLV announces it, or as it was. */
  predicate TextsHandled(t: Tlv, i: Info, r: Info) {
    && Text(r.systemName) == OrElse(NameIn(t), Text(i.systemName))
    && Text(r.systemDescription) == OrElse(DescriptionIn(t), Text(i.systemDescription))
    && Text(r.chassisId) == OrElse(ChassisIn(t), Text(i.chassisId))
    && Text(r.portId) == OrElse(PortIn(t), Text(i.portId))
    && Text(r.managementAddress) == OrElse(ManagementIn(t), Text(i.managementAddress))
    && Text(r.vlanName) == OrElse(VlanNameIn(t), Text(i.vlanName))
    && r.sourceMac == i.sourceMac
  }

  predicate NumbersHandled(t: Tlv, i: Info, r: Info) {
    && r.chassisIdSubtype == OrElse(ChassisSubtypeIn(t), i.chassisIdSubtype)
    && r.portIdSubtype == OrElse(PortSubtypeIn(t), i.portIdSubtype)
    && r.ttl == OrElse(TtlIn(t), i.ttl)
    && (r.systemCapabilities, r.enabledCapabilities) ==
      OrElse(CapabilitiesIn(t), (i.systemCapabilities, i.enabledCapabilities))
    && r.pvid == OrElse(PvidIn(t), i.pvid) && r.hasPvid == (i.hasPvid || PvidIn(t).Some?)
    && r.vlanId == OrElse(VlanIdIn(t), i.vlanId) && r.hasVlanName == (i.hasVlanName || VlanIdIn(t).Some?)
    && r.networkPolicyVlan == OrElse(PolicyIn(t), i.networkPolicyVlan)
    && r.hasNetworkPolicy == (i.hasNetworkPolicy || PolicyIn(t).Some?)
  }

  predicate PowersHandled(t: Tlv, i: Info, r: Info) {
    && (r.poeSupported, r.poePowerPair, r.poePowerClass) ==
      OrElse(MdiIn(t), (i.poeSupported, i.poePowerPair, i.poePowerClass))
    && (r.poePowerSource, r.poePowerPriority, r.poePowerWatts) ==
      OrElse(MedPowerIn(t), (i.poePowerSource, i.poePowerPriority, i.poePowerWatts))
    && (r.poeTypeSourcePriority, r.poePowerType) == OrElse(PowerTypeIn(t), (i.poeTypeSourcePriority, i.poePowerType))
    && r.hasPoeMdi == (i.hasPoeMdi || MdiIn(t).Some?)
    && r.hasPoePowerValues == (i.hasPoePowerValues || MedPowerIn(t).Some?)
    && r.hasPoe == (i.hasPoe || MdiIn(t).Some? || MedPowerIn(t).Some?)
    && r.poeRequestedPower == i.poeRequestedPower && r.poeAllocatedPower == i.poeAllocatedPower
    && r.poeRequestedPowerWatts == i.poeRequestedPowerWatts && r.poeAllocatedPowerWatts == i.poeAllocatedPowerWatts
  }

  predicate Handled(t: Tlv, i: Info, r: Info) {
    TextsHandled(t, i, r) && NumbersHandled(t, i, r) && PowersHandled(t, i, r)
  }

  // ---- What a TLV leaves alone ----

  predicate QuietOnVlans(t: Tlv) {
    PvidIn(t).None? && VlanIdIn(t).None? && VlanNameIn(t).None?
  }

  predicate QuietOnPower(t: Tlv) {
    MdiIn(t).None? && MedPowerIn(t).None? && PowerTypeIn(t).None?
  }

  predicate QuietOnOrganizations(t: Tlv) {
    QuietOnVlans(t) && QuietOnPower(t) && PolicyIn(t).None?
  }

  /** A basic TLV speaks of the fields of its own type. */
  predicate QuietOnBasicsBut(t: Tlv, kind: nat) {
    && (kind == 5 || NameIn(t).None?) && (kind == 6 || DescriptionIn(t).None?)
    && (kind == 1 || (ChassisIn(t).None? && ChassisSubtypeIn(t).None?))
    && (kind == 2 || (PortIn(t).None? && PortSubtypeIn(t).None?))
    && (kind == 8 || ManagementIn(t).None?)
    && (kind == 3 || TtlIn(t).None?) && (kind == 7 || CapabilitiesIn(t).None?)
  }

  lemma BasicsQuiet(t: Tlv)
    ensures QuietOnBasicsBut(t, t.kind)
  {
    hide ReadBe16, Text, MacText, IpText, FieldText;
  }

  lemma OrganizationsQuiet(t: Tlv)
    requires t.kind != 127 || |t.value| < 4
    ensures QuietOnOrganizations(t)
  {
    hide ReadBe16, Text, FieldText;
  }

  /** A TLV that announces nothing. */
  lemma NothingHandled(t: Tlv, i: Info)
    requires QuietOnBasicsBut(t, 0) && QuietOnOrganizations(t)
    ensures Handled(t, i, i)
  {
    hide Text, NameIn, DescriptionIn, ChassisIn, PortIn, ManagementIn;
    hide ChassisSubtypeIn, PortSubtypeIn, TtlIn, CapabilitiesIn;
    hide PvidIn, VlanIdIn, VlanNameIn, PolicyIn, MdiIn, MedPowerIn, PowerTypeIn;
  }

  // ---- The basic TLVs ----

  lemma ChassisUpdated(t: Tlv, i: Info, subtype: byte, id: Chars64)
    requires QuietOnBasicsBut(t, 1) && QuietOnOrganizations(t)
    requires ChassisSubtypeIn(t) == Some(subtype) && Text(id) == OrElse(ChassisIn(t), Text(i.chassisId))
    ensures Handled(t, i, i.(chassisIdSubtype := subtype, chassisId := id))
  {
    hide Text, NameIn, DescriptionIn, ChassisIn, PortIn, ManagementIn;
    hide ChassisSubtypeIn, PortSubtypeIn, TtlIn, CapabilitiesIn;
    hide PvidIn, VlanIdIn, VlanNameIn, PolicyIn, MdiIn, MedPowerIn, PowerTypeIn;
  }

  lemma PortUpdated(t: Tlv, i: Info, subtype: byte, id: Chars64)
    requires QuietOnBasicsBut(t, 2) && QuietOnOrganizations(t)
    requires PortSubtypeIn(t) == Some(subtype) && Text(id) == OrElse(PortIn(t), Text(i.portId))
    ensures Handled(t, i, i.(portIdSubtype := subtype, portId := id))
  {
    hide Text, NameIn, DescriptionIn, ChassisIn, PortIn, ManagementIn;
    hide ChassisSubtypeIn, PortSubtypeIn, TtlIn, CapabilitiesIn;
    hide PvidIn, VlanIdIn, VlanNameIn, PolicyIn, MdiIn, MedPowerIn, PowerTypeIn;
  }

  lemma NameUpdated(t: Tlv, i: Info, name: Chars64)
    requires QuietOnBasicsBut(t, 5) && QuietOnOrganizations(t)
    requires Text(name) == OrElse(NameIn(t), Text(i.systemName))
    ensures Handled(t, i, i.(systemName := name))
  {
    hide Text, NameIn, DescriptionIn, ChassisIn, PortIn, ManagementIn;
    hide ChassisSubtypeIn, PortSubtypeIn, TtlIn, CapabilitiesIn;
    hide PvidIn, VlanIdIn, VlanNameIn, PolicyIn, MdiIn, MedPowerIn, PowerTypeIn;
  }

  lemma DescriptionUpdated(t: Tlv, i: Info, description: Chars128)
    requires QuietOnBasicsBut(t, 6) && QuietOnOrganizations(t)
    requires Text(description) == OrElse(DescriptionIn(t), Text(i.systemDescription))
    ensures Handled(t, i, i.(systemDescription := description))
  {
    hide Text, NameIn, DescriptionIn, ChassisIn, PortIn, ManagementIn;
    hide ChassisSubtypeIn, PortSubtypeIn, TtlIn, CapabilitiesIn;
    hide PvidIn, VlanIdIn, VlanNameIn, PolicyIn, MdiIn, MedPowerIn, PowerTypeIn;
  }

  lemma AddressUpdated(t: Tlv, i: Info, address: Chars48)
    requires QuietOnBasicsBut(t, 8) && QuietOnOrganizations(t)
    requires Text(address) == OrElse(ManagementIn(t), Text(i.managementAddress))
    ensures Handled(t, i, i.(managementAddress := address))
  {
    hide Text, NameIn, DescriptionIn, ChassisIn, PortIn, ManagementIn;
    hide ChassisSubtypeIn, PortSubtypeIn, TtlIn, CapabilitiesIn;
    hide PvidIn, VlanIdIn, VlanNameIn, PolicyIn, MdiIn, MedPowerIn, PowerTypeIn;
  }

  lemma TtlUpdated(t: Tlv, i: Info, ttl: u16)
    requires QuietOnBasicsBut(t, 3) && QuietOnOrganizations(t) && ttl == OrElse(TtlIn(t), i.ttl)
    ensures Handled(t, i, i.(ttl := ttl))
  {
    hide Text, NameIn, DescriptionIn, ChassisIn, PortIn, ManagementIn;
    hide ChassisSubtypeIn, PortSubtypeIn, TtlIn, CapabilitiesIn;
    hide PvidIn, VlanIdIn, VlanNameIn, PolicyIn, MdiIn, MedPowerIn, PowerTypeIn;
  }

  lemma CapabilitiesUpdated(t: Tlv, i: Info, all: u16, enabled: u16)
    requires QuietOnBasicsBut(t, 7) && QuietOnOrganizations(t)
    requires (all, enabled) == OrElse(CapabilitiesIn(t), (i.systemCapabilities, i.enabledCapabilities))
    ensures Handled(t, i, i.(systemCapabilities := all, enabledCapabilities := enabled))
  {
    hide Text, NameIn, DescriptionIn, ChassisIn, PortIn, ManagementIn;
    hide ChassisSubtypeIn, PortSubtypeIn, TtlIn, CapabilitiesIn;
    hide PvidIn, VlanIdIn, VlanNameIn, PolicyIn, MdiIn, MedPowerIn, PowerTypeIn;
  }

  lemma ChassisIdReads(id: Chars64, v: seq<byte>)
    requires |v| >= 2
    ensures Text(ChassisIdInto(id, v)) == OrElse(IdentifierIn(v, 4, 5), Text(id))
  {
    hide Text, CopyInto, TextInto, MacText, IpText, FieldText;
    CopyIntoReads(id, v[1..]);
    if |v| == 7 {
      MacIntoReads(id, v[1..7]);
    } else if |v| == 6 {
      IpIntoReads(id, v[2..6]);
    }
  }

  lemma ChassisHandled(t: Tlv, i: Info)
    requires t.kind == 1 && |t.value| >= 2 && QuietOnBasicsBut(t, 1) && QuietOnOrganizations(t)
    ensures Handled(t, i, HandleChassisId(t.value, i))
  {
    hide Handled, QuietOnBasicsBut, QuietOnOrganizations, Text, IdentifierIn, ChassisIdInto;
    ChassisIdReads(i.chassisId, t.value);
    ChassisUpdated(t, i, t.value[0], ChassisIdInto(i.chassisId, t.value));
  }

  lemma PortIdReads(id: Chars64, v: seq<byte>)
    requires |v| >= 2
    ensures Text(PortIdInto(id, v)) == OrElse(IdentifierIn(v, 3, 4), Text(id))
  {
    hide Text, CopyInto, TextInto, MacText, IpText, FieldText;
    CopyIntoReads(id, v[1..]);
    if |v| == 7 {
      MacIntoReads(id, v[1..7]);
    } else if |v| == 6 {
      IpIntoReads(id, v[2..6]);
    }
  }

  lemma PortHandled(t: Tlv, i: Info)
    requires t.kind == 2 && |t.value| >= 2 && QuietOnBasicsBut(t, 2) && QuietOnOrganizations(t)
    ensures Handled(t, i, HandlePortId(t.value, i))
  {
    hide Handled, QuietOnBasicsBut, QuietOnOrganizations, Text, IdentifierIn, PortIdInto;
    PortIdReads(i.portId, t.value);
    PortUpdated(t, i, t.value[0], PortIdInto(i.portId, t.value));
  }

  lemma NamesHandled(t: Tlv, i: Info)
    requires QuietOnBasicsBut(t, t.kind) && QuietOnOrganizations(t) && t.value != []
    ensures t.kind == 5 ==> Handled(t, i, HandleSystemName(t.value, i))
    ensures t.kind == 6 ==> Handled(t, i, HandleSystemDescription(t.value, i))
  {
    hide Handled, QuietOnBasicsBut, QuietOnOrganizations, Text, CopyInto, FieldText;
    if t.kind == 5 {
      CopyIntoReads(i.systemName, t.value);
      NameUpdated(t, i, CopyInto(i.systemName, t.value));
    } else if t.kind == 6 {
      CopyIntoReads(i.systemDescription, t.value);
      DescriptionUpdated(t, i, CopyInto(i.systemDescription, t.value));
    }
  }

  lemma TtlHandled(t: Tlv, i: Info)
    requires t.kind == 3 && |t.value| == 2 && QuietOnBasicsBut(t, 3) && QuietOnOrganizations(t)
    ensures Handled(t, i, HandleTtl(t.value, i))
  {
    hide Handled, QuietOnBasicsBut, QuietOnOrganizations, ReadBe16;
    TtlUpdated(t, i, ReadBe16(t.value));
  }

  lemma CapabilitiesHandled(t: Tlv, i: Info)
    requires t.kind == 7 && |t.value| == 4 && QuietOnBasicsBut(t, 7) && QuietOnOrganizations(t)
    ensures Handled(t, i, HandleCapabilities(t.value, i))
  {
    hide Handled, QuietOnBasicsBut, QuietOnOrganizations, ReadBe16;
    WordAt(t.value, 0);
    assert t.value[0..] == t.value;
    CapabilitiesUpdated(t, i, ReadBe16(t.value), ReadBe16(t.value[2..]));
  }

  lemma WordAt(v: seq<byte>, k: nat)
    requires k + 2 <= |v|
    ensures ReadBe16(v[k..k + 2]) == ReadBe16(v[k..])
  {
  }

  lemma AddressHandled(t: Tlv, i: Info)
    requires t.kind == 8 && ManagementIn(t).Some? && QuietOnBasicsBut(t, 8) && QuietOnOrganizations(t)
    ensures Handled(t, i, HandleManagementAddress(t.value, i))
  {
    hide Handled, QuietOnBasicsBut, QuietOnOrganizations, Text, TextInto, IpText;
    var v := t.value;
    assert v[..2] == [v[0], v[1]];
    IpIntoReads(i.managementAddress, v[2..6]);
    AddressUpdated(t, i, TextInto(i.managementAddress, IpText(v[2..6])));
  }

  /** A TLV of a basic type whose value is too short for it, or of another family, is passed over. */
  lemma Ignored(t: Tlv, i: Info)
    requires t.kind in {1, 2} ==> |t.value| < 2
    requires t.kind in {5, 6} ==> t.value == []
    requires t.kind == 3 ==> |t.value| != 2
    requires t.kind == 7 ==> |t.value| != 4
    requires t.kind == 8 ==> ManagementIn(t).None?
    requires t.kind != 127
    ensures QuietOnBasicsBut(t, 0) && Handle(t, i) == i
  {
    hide Text, MacText, IpText, FieldText, ReadBe16;
    if t.kind == 8 && |t.value| >= 6 {
      assert t.value[..2] == [t.value[0], t.value[1]];
    }
  }

  // ---- The organizational TLVs ----

  lemma OuiExact(t: Tlv, a: byte, b: byte, c: byte, subtype: byte)
    requires t.kind == 127 && |t.value| >= 4
    ensures Begins(t, a, b, c, subtype) <==>
      Oui(t.value) == 0x1_0000 * a as int + 0x100 * b as int + c as int && t.value[3] == subtype
  {
    var v := t.value;
    assert v[..4] == [v[0], v[1], v[2], v[3]];
    assert Oui(v) == 0x1_0000 * a as int + 0x100 * b as int + c as int <==> v[0] == a && v[1] == b && v[2] == c;
  }

  lemma PolicyVlan(b: byte, c: byte, d: byte)
    ensures VlanBits(b, c, d) == 128 * (b as int % 32) + c as int / 2
  {
    var h: nat, l: nat := c as nat / 2, c as nat % 2;
    var top: nat, low: nat := b as nat / 32, b as nat % 32;
    DropLow(128 * b as nat + h, 256 * l + d as nat);
    DropHigh(top, 128 * low + h);
    assert 128 * b as nat + h == 4096 * top + (128 * low + h);
  }

  lemma DropLow(q: nat, r: nat)
    requires r < 512
    ensures (512 * q + r) / 512 == q
  {
  }

  lemma DropHigh(q: nat, r: nat)
    requires r < 4096
    ensures (4096 * q + r) % 4096 == r
  {
  }

  /** Four bytes at the front say at most one thing. */
  lemma BeginsOnce(t: Tlv, a: byte, b: byte, c: byte, subtype: byte)
    requires Begins(t, a, b, c, subtype)
    ensures t.kind == 127 && |t.value| >= 4 && QuietOnBasicsBut(t, 0)
    ensures forall d, e, f, s :: Begins(t, d, e, f, s) ==> d == a && e == b && f == c && s == subtype
  {
    BasicsQuiet(t);
    forall d, e, f, s | Begins(t, d, e, f, s)
      ensures d == a && e == b && f == c && s == subtype
    {
      assert t.value[..4][0] == d && t.value[..4][1] == e && t.value[..4][2] == f && t.value[..4][3] == s;
    }
  }

  lemma PvidUpdated(t: Tlv, i: Info, vlan: u16)
    requires QuietOnBasicsBut(t, 0) && QuietOnPower(t) && VlanIdIn(t).None? && VlanNameIn(t).None? && PolicyIn(t).None?
    requires PvidIn(t) == Some(vlan)
    ensures Handled(t, i, i.(pvid := vlan, hasPvid := true))
  {
    hide Text, NameIn, DescriptionIn, ChassisIn, PortIn, ManagementIn;
    hide ChassisSubtypeIn, PortSubtypeIn, TtlIn, CapabilitiesIn;
    hide PvidIn, VlanIdIn, VlanNameIn, PolicyIn, MdiIn, MedPowerIn, PowerTypeIn;
  }

  lemma VlanUpdated(t: Tlv, i: Info, vlan: u16, name: Chars64)
    requires QuietOnBasicsBut(t, 0) && QuietOnPower(t) && PvidIn(t).None? && PolicyIn(t).None?
    requires VlanIdIn(t) == Some(vlan) && VlanNameIn(t) == Some(Text(name))
    ensures Handled(t, i, i.(vlanName := name, vlanId := vlan, hasVlanName := true))
  {
    hide Text, NameIn, DescriptionIn, ChassisIn, PortIn, ManagementIn;
    hide ChassisSubtypeIn, PortSubtypeIn, TtlIn, CapabilitiesIn;
    hide PvidIn, VlanIdIn, VlanNameIn, PolicyIn, MdiIn, MedPowerIn, PowerTypeIn;
  }

  lemma PolicyUpdated(t: Tlv, i: Info, vlan: u16)
    requires QuietOnBasicsBut(t, 0) && QuietOnPower(t) && QuietOnVlans(t) && PolicyIn(t) == Some(vlan)
    ensures Handled(t, i, i.(networkPolicyVlan := vlan, hasNetworkPolicy := true))
  {
    hide Text, NameIn, DescriptionIn, ChassisIn, PortIn, ManagementIn;
    hide ChassisSubtypeIn, PortSubtypeIn, TtlIn, CapabilitiesIn;
    hide PvidIn, VlanIdIn, VlanNameIn, PolicyIn, MdiIn, MedPowerIn, PowerTypeIn;
  }

  lemma MdiUpdated(t: Tlv, i: Info, octet: byte, powerType: byte, supported: bool, pair: byte, class_: byte)
    requires QuietOnBasicsBut(t, 0) && QuietOnVlans(t) && PolicyIn(t).None? && MedPowerIn(t).None?
    requires PowerTypeIn(t) == Some((octet, powerType)) && MdiIn(t) == Some((supported, pair, class_))
    ensures Handled(t, i, i.(
      poePowerType := powerType, poeSupported := supported, poeTypeSourcePriority := octet,
      poePowerPair := pair, poePowerClass := class_, hasPoeMdi := true, hasPoe := true))
  {
    hide Text, NameIn, DescriptionIn, ChassisIn, PortIn, ManagementIn;
    hide ChassisSubtypeIn, PortSubtypeIn, TtlIn, CapabilitiesIn;
    hide PvidIn, VlanIdIn, VlanNameIn, PolicyIn, MdiIn, MedPowerIn, PowerTypeIn;
  }

  lemma MedPowerUpdated(t: Tlv, i: Info, octet: byte, powerType: byte, source: byte, priority: byte, watts: u16)
    requires QuietOnBasicsBut(t, 0) && QuietOnVlans(t) && PolicyIn(t).None? && MdiIn(t).None?
    requires PowerTypeIn(t) == Some((octet, powerType)) && MedPowerIn(t) == Some((source, priority, watts))
    ensures Handled(t, i, i.(
      poeTypeSourcePriority := octet, poePowerType := powerType, poePowerSource := source,
      poePowerPriority := priority, poePowerWatts := watts, hasPoe := true, hasPoePowerValues := true))
  {
    hide Text, NameIn, DescriptionIn, ChassisIn, PortIn, ManagementIn;
    hide ChassisSubtypeIn, PortSubtypeIn, TtlIn, CapabilitiesIn;
    hide PvidIn, VlanIdIn, VlanNameIn, PolicyIn, MdiIn, MedPowerIn, PowerTypeIn;
  }

  /** What an organizational TLV does not announce, by its first four bytes. */
  lemma QuietByFront(t: Tlv)
    ensures !Begins(t, 0x00, 0x80, 0xC2, 1) ==> PvidIn(t).None?
    ensures !Begins(t, 0x00, 0x80, 0xC2, 3) ==> VlanIdIn(t).None? && VlanNameIn(t).None?
    ensures !Begins(t, 0x00, 0x12, 0xBB, 2) ==> PolicyIn(t).None?
    ensures !Begins(t, 0x00, 0x12, 0x0F, 2) ==> MdiIn(t).None?
    ensures !Begins(t, 0x00, 0x12, 0xBB, 4) ==> MedPowerIn(t).None?
    ensures MdiIn(t).None? && MedPowerIn(t).None? ==> PowerTypeIn(t).None?
  {
    hide Begins, ReadBe16, FieldText, VlanBits;
  }

  lemma PvidHandled(t: Tlv, i: Info)
    requires Begins(t, 0x00, 0x80, 0xC2, 1) && |t.value| == 6
    ensures Handled(t, i, HandlePvid(t.value, i))
  {
    hide Handled, Begins, ReadBe16, QuietOnBasicsBut, VlanIdIn, VlanNameIn, PolicyIn, MdiIn, MedPowerIn, PowerTypeIn;
    BeginsOnce(t, 0x00, 0x80, 0xC2, 1);
    QuietByFront(t);
    PvidUpdated(t, i, ReadBe16(t.value[4..]));
  }

  lemma VlanHandled(t: Tlv, i: Info)
    requires Begins(t, 0x00, 0x80, 0xC2, 3) && IsVlanName(t)
    ensures Handled(t, i, HandleVlanName(t.value, i))
  {
    hide Handled, Begins, ReadBe16, QuietOnBasicsBut, PvidIn, PolicyIn, MdiIn, MedPowerIn, PowerTypeIn;
    hide Text, CopyInto, FieldText;
    BeginsOnce(t, 0x00, 0x80, 0xC2, 3);
    QuietByFront(t);
    CopyIntoReads(i.vlanName, t.value[7..]);
    WordAt(t.value, 4);
    VlanUpdated(t, i, ReadBe16(t.value[4..]), CopyInto(i.vlanName, t.value[7..]));
  }

  lemma PolicyHandled(t: Tlv, i: Info)
    requires Begins(t, 0x00, 0x12, 0xBB, 2) && |t.value| == 8
    ensures Handled(t, i, HandleNetworkPolicy(t.value, i))
  {
    hide Handled, Begins, VlanBits, QuietOnBasicsBut, PvidIn, VlanIdIn, VlanNameIn, MdiIn, MedPowerIn, PowerTypeIn;
    BeginsOnce(t, 0x00, 0x12, 0xBB, 2);
    QuietByFront(t);
    PolicyVlan(t.value[5], t.value[6], t.value[7]);
    PolicyUpdated(t, i, 128 * (t.value[5] as int % 32) + t.value[6] as int / 2);
  }

  lemma MdiHandled(t: Tlv, i: Info)
    requires Begins(t, 0x00, 0x12, 0x0F, 2) && |t.value| >= 7
    ensures Handled(t, i, HandlePowerViaMdi(t.value, i))
  {
    hide Handled, Begins, QuietOnBasicsBut, PvidIn, VlanIdIn, VlanNameIn, PolicyIn, MedPowerIn;
    BeginsOnce(t, 0x00, 0x12, 0x0F, 2);
    QuietByFront(t);
    var v := t.value;
    MdiUpdated(t, i, v[4], if v[4] % 2 == 1 then 0 else 1, v[4] / 2 % 2 == 1, v[5], v[6]);
  }

  lemma MedPowerHandled(t: Tlv, i: Info)
    requires Begins(t, 0x00, 0x12, 0xBB, 4) && |t.value| == 7
    ensures Handled(t, i, HandleMedPower(t.value, i))
  {
    hide Handled, Begins, ReadBe16, QuietOnBasicsBut, PvidIn, VlanIdIn, VlanNameIn, PolicyIn, MdiIn;
    BeginsOnce(t, 0x00, 0x12, 0xBB, 4);
    QuietByFront(t);
    var v := t.value;
    MedPowerUpdated(t, i, v[4], v[4] / 64, v[4] / 16 % 4, v[4] % 16, ReadBe16(v[5..]));
  }

  /** One of the five whose length is wrong, or none of them. */
  lemma OrganizationIgnored(t: Tlv, i: Info)
    requires t.kind == 127
    requires Begins(t, 0x00, 0x80, 0xC2, 1) ==> |t.value| != 6
    requires !IsVlanName(t)
    requires Begins(t, 0x00, 0x12, 0xBB, 2) ==> |t.value| != 8
    requires Begins(t, 0x00, 0x12, 0x0F, 2) ==> |t.value| < 7
    requires Begins(t, 0x00, 0x12, 0xBB, 4) ==> |t.value| != 7
    ensures QuietOnBasicsBut(t, 0) && QuietOnOrganizations(t)
    ensures HandleOrganizational(t.value, i) == i
  {
    hide Begins, Oui, ReadBe16, FieldText, VlanBits, QuietOnBasicsBut, CopyInto;
    BasicsQuietForOrganizations(t);
    if |t.value| >= 4 {
      OuiExact(t, 0x00, 0x80, 0xC2, 1);
      OuiExact(t, 0x00, 0x80, 0xC2, 3);
      OuiExact(t, 0x00, 0x12, 0x0F, 2);
      OuiExact(t, 0x00, 0x12, 0xBB, 2);
      OuiExact(t, 0x00, 0x12, 0xBB, 4);
    }
  }

  lemma BasicsQuietForOrganizations(t: Tlv)
    requires t.kind == 127
    ensures QuietOnBasicsBut(t, 0)
  {
    BasicsQuiet(t);
  }

  lemma OrganizationalHandled(t: Tlv, i: Info)
    requires t.kind == 127
    ensures Handled(t, i, HandleOrganizational(t.value, i))
  {
    hide Handled, Begins, Oui, HandlePvid, HandleVlanName, HandlePowerViaMdi, HandleNetworkPolicy, HandleMedPower;
    hide QuietOnBasicsBut, QuietOnOrganizations;
    if |t.value| >= 4 {
      OuiExact(t, 0x00, 0x80, 0xC2, 1);
      OuiExact(t, 0x00, 0x80, 0xC2, 3);
      OuiExact(t, 0x00, 0x12, 0x0F, 2);
      OuiExact(t, 0x00, 0x12, 0xBB, 2);
      OuiExact(t, 0x00, 0x12, 0xBB, 4);
    }
    if Begins(t, 0x00, 0x80, 0xC2, 1) && |t.value| == 6 {
      PvidHandled(t, i);
    } else if IsVlanName(t) {
      VlanHandled(t, i);
    } else if Begins(t, 0x00, 0x12, 0x0F, 2) && |t.value| >= 7 {
      MdiHandled(t, i);
    } else if Begins(t, 0x00, 0x12, 0xBB, 2) && |t.value| == 8 {
      PolicyHandled(t, i);
    } else if Begins(t, 0x00, 0x12, 0xBB, 4) && |t.value| == 7 {
      MedPowerHandled(t, i);
    } else {
      OrganizationIgnored(t, i);
      NothingHandled(t, i);
    }
  }

  lemma HandleReads(t: Tlv, i: Info)
    ensures Handled(t, i, Handle(t, i))
  {
    hide Handled, HandleChassisId, HandlePortId, HandleTtl, HandleSystemName, HandleSystemDescription, ManagementIn;
    hide HandleCapabilities, HandleManagementAddress, HandleOrganizational, QuietOnBasicsBut, QuietOnOrganizations;
    if t.kind == 127 {
      OrganizationalHandled(t, i);
      return;
    }
    BasicsQuiet(t);
    OrganizationsQuiet(t);
    if t.kind == 1 && |t.value| >= 2 {
      ChassisHandled(t, i);
    } else if t.kind == 2 && |t.value| >= 2 {
      PortHandled(t, i);
    } else if t.kind in {5, 6} && t.value != [] {
      NamesHandled(t, i);
    } else if t.kind == 3 && |t.value| == 2 {
      TtlHandled(t, i);
    } else if t.kind == 7 && |t.value| == 4 {
      CapabilitiesHandled(t, i);
    } else if t.kind == 8 && ManagementIn(t).Some? {
      AddressHandled(t, i);
    } else {
      Ignored(t, i);
      NothingHandled(t, i);
    }
  }

  // ---- All of them ----

  lemma {:induction false} FoldSnoc(ts: seq<Tlv>, t: Tlv, i: Info)
    ensures Fold(ts + [t], i) == Handle(t, Fold(ts, i))
  {
    hide Handle;
    if ts == [] {
      assert (ts + [t])[1..] == [];
    } else {
      assert (ts + [t])[1..] == ts[1..] + [t];
      FoldSnoc(ts[1..], t, Handle(ts[0], i));
    }
  }

  /** Each field of the record is that of the last TLV that announces it, whatever stands around it. */
  lemma {:induction false} FoldReads(ts: seq<Tlv>, source: MacAddress)
    ensures var i := Fold(ts, BLANK.(sourceMac := source));
      TextsRead(ts, i) && NumbersRead(ts, i) && PowersRead(ts, i) && i.sourceMac == source
  {
    hide TextsRead, NumbersRead, PowersRead, Handle, Handled;
    if ts == [] {
      NothingRead(source);
    } else {
      var before, t := ts[..|ts| - 1], ts[|ts| - 1];
      assert ts == before + [t];
      FoldReads(before, source);
      FoldSnoc(before, t, BLANK.(sourceMac := source));
      var i := Fold(before, BLANK.(sourceMac := source));
      HandleReads(t, i);
      TextsStep(before, t, i, Handle(t, i));
      NumbersStep(before, t, i, Handle(t, i));
      PowersStep(before, t, i, Handle(t, i));
      SourceKept(t, i, Handle(t, i));
    }
  }

  lemma SourceKept(t: Tlv, i: Info, r: Info)
    requires Handled(t, i, r)
    ensures r.sourceMac == i.sourceMac
  {
  }

  lemma NothingRead(source: MacAddress)
    ensures var i := BLANK.(sourceMac := source); TextsRead([], i) && NumbersRead([], i) && PowersRead([], i)
  {
    assert Zeros(64)[0] == 0 && Zeros(128)[0] == 0 && Zeros(48)[0] == 0;
  }

  lemma TextsStep(ts: seq<Tlv>, t: Tlv, i: Info, r: Info)
    requires TextsRead(ts, i) && Handled(t, i, r)
    ensures TextsRead(ts + [t], r)
  {
    hide Text, LastOf, NameIn, DescriptionIn, ChassisIn, PortIn, ManagementIn, VlanNameIn;
    LastSnoc(ts, t, NameIn);
    LastSnoc(ts, t, DescriptionIn);
    LastSnoc(ts, t, ChassisIn);
    LastSnoc(ts, t, PortIn);
    LastSnoc(ts, t, ManagementIn);
    LastSnoc(ts, t, VlanNameIn);
  }

  lemma NumbersStep(ts: seq<Tlv>, t: Tlv, i: Info, r: Info)
    requires NumbersRead(ts, i) && Handled(t, i, r)
    ensures NumbersRead(ts + [t], r)
  {
    hide Text, LastOf, ChassisSubtypeIn, PortSubtypeIn, TtlIn, CapabilitiesIn, PvidIn, VlanIdIn, PolicyIn;
    LastSnoc(ts, t, ChassisSubtypeIn);
    LastSnoc(ts, t, PortSubtypeIn);
    LastSnoc(ts, t, TtlIn);
    LastSnoc(ts, t, CapabilitiesIn);
    LastSnoc(ts, t, PvidIn);
    LastSnoc(ts, t, VlanIdIn);
    LastSnoc(ts, t, PolicyIn);
  }

  lemma PowersStep(ts: seq<Tlv>, t: Tlv, i: Info, r: Info)
    requires PowersRead(ts, i) && Handled(t, i, r)
    ensures PowersRead(ts + [t], r)
  {
    hide LastOf, MdiIn, MedPowerIn, PowerTypeIn;
    LastSnoc(ts, t, MdiIn);
    LastSnoc(ts, t, MedPowerIn);
    LastSnoc(ts, t, PowerTypeIn);
  }

  // ---- The frame and the entry ----

  /** The frame, byte by byte: each TLV with seven bits of type and nine bits of length, then one of type 0. */
  function TlvBytes(ts: seq<Tlv>): seq<byte>
    requires AllBuildable(ts)
  {
    if ts == [] then []
    else
      var t := ts[0];
      [2 * t.kind + |t.value| / 256, |t.value| % 256] + t.value + TlvBytes(ts[1..])
  }

  function FrameOf(destination: MacAddress, source: MacAddress, ts: seq<Tlv>, rest: seq<byte>): seq<byte>
    requires AllBuildable(ts)
  {
    destination + source + [0x88, 0xCC] + (TlvBytes(ts) + rest)
  }

  /** A complete TLV of type 0 at the front. */
  predicate Closes(rest: seq<byte>) {
    |rest| >= 2 && rest[0] < 2 && 256 * rest[0] as int + rest[1] as int <= |rest| - 2
  }

  /** No further TLV: the data ends here, is cut inside a TLV, or closes. */
  predicate Stops(rest: seq<byte>) {
    Closes(rest) || |rest| < 2 || 256 * (rest[0] as int % 2) + rest[1] as int > |rest| - 2
  }

  lemma {:induction false} TlvBytesBuilt(ts: seq<Tlv>)
    requires AllBuildable(ts)
    ensures TlvBytes(ts) == BuildAll(ts)
  {
    if ts != [] {
      var k, n: nat := ts[0].kind, |ts[0].value|;
      assert (k * 512 + n) / 256 == 2 * k + n / 256 && (k * 512 + n) % 256 == n % 256;
      TlvBytesBuilt(ts[1..]);
    }
  }

  predicate ShowsTexts(ts: seq<Tlv>, n: Neighbor) {
    && Text(n.name) == OrElse(LastOf(ts, NameIn), [])
    && Text(n.description) == OrElse(LastOf(ts, DescriptionIn), [])
    && Text(n.chassisId) == OrElse(LastOf(ts, ChassisIn), [])
    && Text(n.port) == OrElse(LastOf(ts, PortIn), [])
    && Text(n.managementAddress) == OrElse(LastOf(ts, ManagementIn), [])
    && Text(n.vlanName) == OrElse(LastOf(ts, VlanNameIn), [])
  }

  predicate ShowsNumbers(ts: seq<Tlv>, n: Neighbor) {
    && n.lldpChassisSubtype == OrElse(LastOf(ts, ChassisSubtypeIn), 0)
    && n.lldpPortSubtype == OrElse(LastOf(ts, PortSubtypeIn), 0)
    && n.ttl == OrElse(LastOf(ts, TtlIn), 0)
    && (n.capabilities, n.enabledCapabilities) == OrElse(LastOf(ts, CapabilitiesIn), (0, 0))
    && n.pvid == OrElse(LastOf(ts, PvidIn), 0) && n.hasPvid == LastOf(ts, PvidIn).Some?
    && n.vlanId == OrElse(LastOf(ts, VlanIdIn), 0) && n.hasVlanName == LastOf(ts, VlanIdIn).Some?
    && n.networkPolicyVlan == OrElse(LastOf(ts, PolicyIn), 0) && n.hasNetworkPolicy == LastOf(ts, PolicyIn).Some?
  }

  predicate ShowsPowers(ts: seq<Tlv>, n: Neighbor) {
    && (n.poeSupported, n.poePowerPair, n.poePowerClass) == OrElse(LastOf(ts, MdiIn), (false, 0, 0))
    && (n.poePowerSource, n.poePowerPriority, n.poePowerWatts) == OrElse(LastOf(ts, MedPowerIn), (0, 0, 0))
    && (n.poeTypeSourcePriority, n.poePowerType) == OrElse(LastOf(ts, PowerTypeIn), (0, 0))
    && n.hasPoeMdi == LastOf(ts, MdiIn).Some? && n.hasPoePowerValues == LastOf(ts, MedPowerIn).Some?
    && n.hasPoe == (LastOf(ts, MdiIn).Some? || LastOf(ts, MedPowerIn).Some?)
    && n.poeRequestedPower == n.poeAllocatedPower == 0 && n.poeRequestedPowerWatts == n.poeAllocatedPowerWatts == 0
  }

  /** The entry of a frame with these TLVs. */
  predicate Shows(source: MacAddress, ts: seq<Tlv>, n: Neighbor) {
    && ShowsTexts(ts, n) && ShowsNumbers(ts, n) && ShowsPowers(ts, n)
    && n.mac == source && n.sources == 1 && n.occupied
    && n.eapolVersion == n.eapolPacketType == n.eapCode == n.eapType == 0
  }

  // ---- From the record to the entry ----

  lemma {:induction false} LastFrom<T>(ts: seq<Tlv>, read: Tlv -> Option<T>)
    ensures LastOf(ts, read).Some? ==> exists k :: 0 <= k < |ts| && LastOf(ts, read) == read(ts[k])
  {
    if ts != [] && read(ts[|ts| - 1]).None? {
      var before := ts[..|ts| - 1];
      LastFrom(before, read);
      if LastOf(before, read).Some? {
        var k :| 0 <= k < |before| && LastOf(before, read) == read(before[k]);
        assert before[k] == ts[k];
      }
    }
  }

  /** Every announced text fits its array. */
  lemma TextsFit(ts: seq<Tlv>)
    ensures |OrElse(LastOf(ts, NameIn), [])| <= 63 && |OrElse(LastOf(ts, DescriptionIn), [])| <= 127
    ensures |OrElse(LastOf(ts, ChassisIn), [])| <= 63 && |OrElse(LastOf(ts, PortIn), [])| <= 63
    ensures |OrElse(LastOf(ts, ManagementIn), [])| <= 47 && |OrElse(LastOf(ts, VlanNameIn), [])| <= 63
  {
    hide LastOf, FieldText, MacText, IpText, Begins;
    LastFrom(ts, NameIn);
    LastFrom(ts, DescriptionIn);
    LastFrom(ts, ChassisIn);
    LastFrom(ts, PortIn);
    LastFrom(ts, ManagementIn);
    LastFrom(ts, VlanNameIn);
  }

  lemma {:induction false} VlanTogether(ts: seq<Tlv>)
    ensures LastOf(ts, VlanIdIn).Some? <==> LastOf(ts, VlanNameIn).Some?
  {
    hide IsVlanName, FieldText;
    if ts != [] {
      VlanTogether(ts[..|ts| - 1]);
    }
  }

  /** A text that fits is stored whole. */
  lemma StoredWhole(src: seq<byte>, text: seq<byte>, size: nat)
    requires Text(src) == text && |text| < size
    ensures Text(Stored(src, size)) == text
  {
    hide Text;
    StoredReads(src, size);
  }

  lemma BlankStored(size: nat)
    requires size > 0
    ensures Text(Zeros(size)) == []
  {
  }

  lemma FilledTexts(ts: seq<Tlv>, i: Info)
    requires TextsRead(ts, i) && NumbersRead(ts, i) && i.valid
    ensures ShowsTexts(ts, FillNeighbor(i).value)
  {
    hide Text, Stored, LastOf, Zeros, OrElse;
    TextsFit(ts);
    VlanTogether(ts);
    StoredWhole(i.systemName, OrElse(LastOf(ts, NameIn), []), 64);
    StoredWhole(i.systemDescription, OrElse(LastOf(ts, DescriptionIn), []), 128);
    StoredWhole(i.chassisId, OrElse(LastOf(ts, ChassisIn), []), 64);
    StoredWhole(i.portId, OrElse(LastOf(ts, PortIn), []), 64);
    StoredWhole(i.managementAddress, OrElse(LastOf(ts, ManagementIn), []), 48);
    StoredWhole(i.vlanName, OrElse(LastOf(ts, VlanNameIn), []), 64);
    BlankStored(64);
    NothingElse(LastOf(ts, VlanNameIn));
  }

  lemma NothingElse(o: Option<seq<byte>>)
    ensures o.None? ==> OrElse(o, []) == []
  {
  }

  lemma FilledNumbers(ts: seq<Tlv>, i: Info)
    requires NumbersRead(ts, i) && PowersRead(ts, i) && i.valid
    ensures ShowsNumbers(ts, FillNeighbor(i).value) && ShowsPowers(ts, FillNeighbor(i).value)
  {
    hide Stored, LastOf, Zeros;
  }

  lemma FilledShows(source: MacAddress, ts: seq<Tlv>, i: Info)
    requires TextsRead(ts, i) && NumbersRead(ts, i) && PowersRead(ts, i) && i.valid && i.sourceMac == source
    ensures FillNeighbor(i).Some? && Shows(source, ts, FillNeighbor(i).value)
  {
    hide Stored, Zeros, TextsRead, NumbersRead, PowersRead, ShowsTexts, ShowsNumbers, ShowsPowers;
    FilledTexts(ts, i);
    FilledNumbers(ts, i);
  }

  lemma ClosesExact(rest: seq<byte>)
    requires Stops(rest)
    ensures Closes(rest) <==> !CutShort(rest)
    ensures Closes(rest) ==> Kind(rest[0]) == END
  {
  }

  lemma ParsedReads(ts: seq<Tlv>, source: MacAddress)
    ensures var i := Fold(ts, BLANK.(sourceMac := source)).(valid := true);
      TextsRead(ts, i) && NumbersRead(ts, i) && PowersRead(ts, i) && i.sourceMac == source
  {
    hide Fold, LastOf, Text;
    FoldReads(ts, source);
  }

  lemma FrameData(destination: MacAddress, source: MacAddress, ts: seq<Tlv>, rest: seq<byte>)
    requires AllBuildable(ts)
    ensures var frame := FrameOf(destination, source, ts, rest);
      && |frame| >= 14 && ReadBe16(frame[12..14]) == 0x88CC
      && frame[6..12] == source && frame[14..] == BuildAll(ts) + rest
  {
    hide TlvBytes, BuildAll;
    TlvBytesBuilt(ts);
    assert FrameOf(destination, source, ts, rest)[12..14] == [0x88, 0xCC];
  }

  /**
   A frame built by hand is accepted exactly when its TLVs are closed by a complete one of type 0;
   then each field of the entry is what the last TLV that announces it says.
   */
  lemma FrameShown(destination: MacAddress, source: MacAddress, ts: seq<Tlv>, rest: seq<byte>)
    requires AllBuildable(ts) && Stops(rest) && forall k :: 0 <= k < |ts| ==> ts[k].kind != 0
    ensures var n := LiveTable.Observed(Protocol.Lldp, FrameOf(destination, source, ts, rest));
      && (n.Some? <==> Closes(rest))
      && (n.Some? ==> Shows(source, ts, n.value))
  {
    hide Handle, BuildAll, ParseTlvs, Fold, Shows, FillNeighbor, FrameOf, TextsRead, NumbersRead, PowersRead, Stops;
    hide Closes, CutShort, BuildTlv, ReadBe16;
    FrameData(destination, source, ts, rest);
    ClosesExact(rest);
    var start := BLANK.(sourceMac := source);
    if Closes(rest) {
      var end, trailing := TlvSplit(rest);
      ParseBuilt(ts, end, trailing, start);
      BeforeEndAll(ts);
      ParsedReads(ts, source);
      FilledShows(source, ts, Fold(ts, start).(valid := true));
    } else {
      ParseRejects(ts, rest, start);
    }
  }

  /** Every frame of the EtherType is of that form. */
  lemma EveryFrame(frame: seq<byte>)
    returns (destination: MacAddress, source: MacAddress, ts: seq<Tlv>, rest: seq<byte>)
    requires |frame| >= 14 && ReadBe16(frame[12..14]) == 0x88CC
    ensures AllBuildable(ts) && Stops(rest) && forall k :: 0 <= k < |ts| ==> ts[k].kind != 0
    ensures frame == FrameOf(destination, source, ts, rest)
  {
    hide BuildAll, TlvBytes;
    destination, source := frame[..6], frame[6..12];
    ts, rest := Decomposed(frame[14..]);
    TlvBytesBuilt(ts);
    Be16OfReadBe16(frame[12..14]);
    assert frame[12..14] == [0x88, 0xCC];
    assert frame == frame[..6] + frame[6..12] + frame[12..14] + frame[14..];
  }

  /** Every accepted frame is such a list that is closed. */
  lemma ShownIsBuilt(frame: seq<byte>)
    returns (destination: MacAddress, source: MacAddress, ts: seq<Tlv>, rest: seq<byte>)
    requires LiveTable.Observed(Protocol.Lldp, frame).Some?
    ensures AllBuildable(ts) && Closes(rest) && forall k :: 0 <= k < |ts| ==> ts[k].kind != 0
    ensures frame == FrameOf(destination, source, ts, rest)
  {
    hide FrameOf, AllBuildable, Closes, Stops, ParseFrame, FillNeighbor;
    destination, source, ts, rest := EveryFrame(frame);
    FrameShown(destination, source, ts, rest);
  }
}
