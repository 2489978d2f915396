/**
 The test sender's TLV builders, and what a receiver gets back from the frame they make.
 */
module LldpSender {
  import opened Bytes
  import opened Neighbors
  import opened Texts
  import opened Lldp
  import LiveTable
  import E = LldpEntry

  datatype Advert = Advert(
    destination: MacAddress,
    sourceMac: MacAddress,
    chassisMac: MacAddress,
    portMac: MacAddress,
    ttl: u16,
    systemName: seq<byte>,
    systemDescription: seq<byte>,
    capabilities: u16,
    managementIp: seq<byte>,
    ifIndex: u32,
    portVlan: u16,
    namedVlan: u16,
    vlanName: seq<byte>,
    mdiPower: seq<byte>,
    medCapabilities: u16,
    medClass: byte,
    application: byte,
    tagged: bool,
    policyVlan: nat,
    priority: nat,
    dscp: nat,
    powerType: nat,
    powerSource: nat,
    powerPriority: nat,
    powerTenths: u16)

  /** What the builders themselves require of their arguments. */
  predicate Sendable(a: Advert) {
    && |a.systemName| <= 511 && |a.systemDescription| <= 511 && |a.managementIp| == 4
    && |a.vlanName| <= 32 && |a.mdiPower| == 3
    && a.policyVlan < 4096 && a.priority < 8 && a.dscp < 64
    && a.powerType < 4 && a.powerSource < 4 && a.powerPriority < 16
  }

  const IEEE_802_1: seq<byte> := [0x00, 0x80, 0xC2]
  const IEEE_802_3: seq<byte> := [0x00, 0x12, 0x0F]
  const TIA_MED: seq<byte> := [0x00, 0x12, 0xBB]

  function OrgTlv(oui: seq<byte>, subtype: byte, data: seq<byte>): Tlv {
    Tlv(ORG_SPECIFIC, oui + [subtype] + data)
  }

  function ChassisIdTlv(mac: MacAddress): Tlv {
    Tlv(CHASSIS_ID, [4] + mac)
  }

  function PortIdTlv(mac: MacAddress): Tlv {
    Tlv(PORT_ID, [3] + mac)
  }

  function ManagementTlv(ip: seq<byte>, ifIndex: u32): Tlv {
    Tlv(MANAGEMENT_ADDRESS, [5, 1] + ip + [2] + Be32(ifIndex) + [0])
  }

  function PortVlanTlv(vlan: u16): Tlv {
    OrgTlv(IEEE_802_1, 1, Be16(vlan))
  }

  function VlanNameTlv(vlan: u16, name: seq<byte>): Tlv
    requires |name| <= 32
  {
    OrgTlv(IEEE_802_1, 3, Be16(vlan) + [|name|] + name)
  }

  /** Two flags, twelve bits of VLAN, three of priority and six of DSCP. */
  function PolicyWord(unknown: bool, tagged: bool, vlan: nat, priority: nat, dscp: nat): (w: nat)
    requires vlan < 4096 && priority < 8 && dscp < 64
    ensures w < 0x100_0000
  {
    (if unknown then 0x80_0000 else 0) + (if tagged then 0x40_0000 else 0) + 512 * vlan + 64 * priority + dscp
  }

  /** Four bytes: the application, then the policy word in 24 bits. */
  function NetworkPolicyTlv(application: byte, unknown: bool, tagged: bool, vlan: nat, priority: nat, dscp: nat): Tlv
    requires vlan < 4096 && priority < 8 && dscp < 64
  {
    var policy := PolicyWord(unknown, tagged, vlan, priority, dscp);
    OrgTlv(TIA_MED, 2, [application, policy / 0x1_0000, policy / 0x100 % 0x100, policy % 0x100])
  }

  function MedPowerTlv(powerType: nat, source: nat, priority: nat, tenths: u16): Tlv
    requires powerType < 4 && source < 4 && priority < 16
  {
    OrgTlv(TIA_MED, 4, [64 * powerType + 16 * source + priority] + Be16(tenths))
  }

  /** The TLVs of one advertisement, in the sender's order, without the End TLV. */
  function AdvertTlvs(a: Advert): seq<Tlv>
    requires Sendable(a)
  {
    StandardTlvs(a) + OrganizationTlvs(a)
  }

  function StandardTlvs(a: Advert): seq<Tlv> {
    [ChassisIdTlv(a.chassisMac), PortIdTlv(a.portMac), Tlv(TTL, Be16(a.ttl)),
     Tlv(SYSTEM_NAME, a.systemName), Tlv(SYSTEM_DESCRIPTION, a.systemDescription),
     Tlv(SYSTEM_CAPABILITIES, Be16(a.capabilities) + Be16(a.capabilities)),
     ManagementTlv(a.managementIp, a.ifIndex)]
  }

  function OrganizationTlvs(a: Advert): seq<Tlv>
    requires Sendable(a)
  {
    [PortVlanTlv(a.portVlan), VlanNameTlv(a.namedVlan, a.vlanName),
     OrgTlv(IEEE_802_3, 2, a.mdiPower), OrgTlv(TIA_MED, 1, Be16(a.medCapabilities) + [a.medClass]),
     NetworkPolicyTlv(a.application, false, a.tagged, a.policyVlan, a.priority, a.dscp),
     MedPowerTlv(a.powerType, a.powerSource, a.powerPriority, a.powerTenths)]
  }

  lemma AdvertBuildable(a: Advert)
    requires Sendable(a)
    ensures AllBuildable(AdvertTlvs(a)) && NoEnd(AdvertTlvs(a))
  {
  }

  function BuildFrame(a: Advert): seq<byte>
    requires Sendable(a)
  {
    AdvertBuildable(a);
    a.destination + a.sourceMac + [0x88, 0xCC] + (BuildAll(AdvertTlvs(a)) + BuildTlv(Tlv(END, [])))
  }

  // ---- What each built TLV does to the receiver's record ----

  lemma HandleChassisMac(mac: MacAddress, i: Info)
    ensures Handle(ChassisIdTlv(mac), i) == i.(chassisIdSubtype := 4, chassisId := TextInto(i.chassisId, MacText(mac)))
  {
    hide MacText, TextInto;
    assert ([4] + mac)[1..7] == mac;
  }

  lemma HandlePortMac(mac: MacAddress, i: Info)
    ensures Handle(PortIdTlv(mac), i) == i.(portIdSubtype := 3, portId := TextInto(i.portId, MacText(mac)))
  {
    hide MacText, TextInto;
    assert ([3] + mac)[1..7] == mac;
  }

  lemma HandleWords(n: u16, i: Info)
    ensures Handle(Tlv(TTL, Be16(n)), i) == i.(ttl := n)
    ensures Handle(Tlv(SYSTEM_CAPABILITIES, Be16(n) + Be16(n)), i) ==
      i.(systemCapabilities := n, enabledCapabilities := n)
    ensures Handle(PortVlanTlv(n), i) == i.(pvid := n, hasPvid := true)
  {
    ReadBe16OfBe16(n);
    assert (Be16(n) + Be16(n))[2..] == Be16(n);
    var v := IEEE_802_1 + [1] + Be16(n);
    assert v[0] == 0 && v[1] == 0x80 && v[2] == 0xC2 && v[3] == 1 && v[4..] == Be16(n);
  }

  lemma HandleManagement(ip: seq<byte>, ifIndex: u32, i: Info)
    requires |ip| == 4
    ensures Handle(ManagementTlv(ip, ifIndex), i) == i.(managementAddress := TextInto(i.managementAddress, IpText(ip)))
  {
    assert ManagementTlv(ip, ifIndex).value[2..6] == ip;
  }

  lemma HandleVlan(vlan: u16, name: seq<byte>, i: Info)
    requires |name| <= 32
    ensures Handle(VlanNameTlv(vlan, name), i) ==
      if name == [] then i else i.(vlanName := CopyInto(i.vlanName, name), vlanId := vlan, hasVlanName := true)
  {
    var v := VlanNameTlv(vlan, name).value;
    assert v[0] == 0 && v[1] == 0x80 && v[2] == 0xC2 && v[3] == 3 && v[6] == |name|;
    assert v[7..] == name;
    assert v[4..] == Be16(vlan) + ([|name|] + name);
    ReadBe16OfBe16(vlan);
  }

  /** The VLAN survives its trip through the packed 24-bit word. */
  lemma HandlePolicy(application: byte, unknown: bool, tagged: bool, vlan: nat, priority: nat, dscp: nat, i: Info)
    requires vlan < 4096 && priority < 8 && dscp < 64
    ensures Handle(NetworkPolicyTlv(application, unknown, tagged, vlan, priority, dscp), i) ==
      i.(networkPolicyVlan := vlan, hasNetworkPolicy := true)
  {
    hide Handle, OrgTlv, PolicyWord;
    var policy := PolicyWord(unknown, tagged, vlan, priority, dscp);
    PolicyWordVlan(unknown, tagged, vlan, priority, dscp);
    HandlePolicyBytes(application, policy / 0x1_0000, policy / 0x100 % 0x100, policy % 0x100, i);
  }

  lemma PolicyWordVlan(unknown: bool, tagged: bool, vlan: nat, priority: nat, dscp: nat)
    requires vlan < 4096 && priority < 8 && dscp < 64
    ensures var policy := PolicyWord(unknown, tagged, vlan, priority, dscp);
      128 * (policy / 0x1_0000 % 32) + policy / 0x100 % 0x100 / 2 == vlan
  {
    var t := (if unknown then 128 else 0) + (if tagged then 64 else 0);
    PolicyPacking(t, vlan, 64 * priority + dscp);
    assert PolicyWord(unknown, tagged, vlan, priority, dscp) == 0x1_0000 * t + 512 * vlan + (64 * priority + dscp);
  }

  lemma HandlePolicyBytes(a: byte, b: byte, c: byte, d: byte, i: Info)
    ensures Handle(OrgTlv(TIA_MED, 2, [a, b, c, d]), i) ==
      i.(networkPolicyVlan := 128 * (b as int % 32) + c as int / 2, hasNetworkPolicy := true)
  {
    var v := TIA_MED + [2] + [a, b, c, d];
    assert v[0] == 0 && v[1] == 0x12 && v[2] == 0xBB && v[3] == 2 && v[5] == b && v[6] == c;
  }

  lemma PolicyPacking(t: nat, vlan: nat, low: nat)
    requires t % 32 == 0 && vlan < 4096 && low < 512
    ensures var policy := 0x1_0000 * t + 512 * vlan + low;
      && policy / 0x1_0000 == t + vlan / 128
      && 128 * (policy / 0x1_0000 % 32) + policy / 0x100 % 0x100 / 2 == vlan
  {
    var policy := 0x1_0000 * t + 512 * vlan + low;
    var hi, lo := vlan / 128, vlan % 128;
    var top, middle := t + hi, 2 * lo + low / 256;
    Digits(policy / 0x100, 0x100, top, middle);
    Digits(policy, 0x100, 0x100 * top + middle, low % 256);
    Digits(policy, 0x1_0000, top, 0x100 * middle + low % 256);
    Digits(middle, 2, lo, low / 256);
    assert top % 32 == hi;
  }

  lemma Digits(n: nat, base: nat, high: nat, low: nat)
    requires low < base && base in {2, 0x100, 0x1_0000}
    ensures n == base * high + low ==> n / base == high && n % base == low
  {
  }

  lemma HandlePower(powerType: nat, source: nat, priority: nat, tenths: u16, i: Info)
    requires powerType < 4 && source < 4 && priority < 16
    ensures var octet := 64 * powerType + 16 * source + priority;
      Handle(MedPowerTlv(powerType, source, priority, tenths), i) ==
      i.(poeTypeSourcePriority := octet, poePowerType := powerType, poePowerSource := source,
         poePowerPriority := priority, poePowerWatts := tenths, hasPoe := true, hasPoePowerValues := true)
  {
    var octet: nat := 64 * powerType + 16 * source + priority;
    var v := MedPowerTlv(powerType, source, priority, tenths).value;
    assert v[0] == 0 && v[1] == 0x12 && v[2] == 0xBB && v[3] == 4 && v[4] == octet && v[5..] == Be16(tenths);
    assert octet / 16 == 4 * powerType + source;
    ReadBe16OfBe16(tenths);
  }

  lemma HandleOthers(mdi: seq<byte>, capabilities: u16, class_: byte, i: Info)
    requires |mdi| == 3
    ensures var r := Handle(OrgTlv(IEEE_802_3, 2, mdi), i);
      r == i.(poePowerType := r.poePowerType, poeSupported := r.poeSupported,
              poeTypeSourcePriority := r.poeTypeSourcePriority,
              poePowerPair := r.poePowerPair, poePowerClass := r.poePowerClass, hasPoeMdi := true, hasPoe := true)
    ensures Handle(OrgTlv(TIA_MED, 1, Be16(capabilities) + [class_]), i) == i
  {
    var v := IEEE_802_3 + [2] + mdi;
    assert v[0] == 0 && v[1] == 0x12 && v[2] == 0x0F && v[3] == 2;
    var w := TIA_MED + [1] + (Be16(capabilities) + [class_]);
    assert w[0] == 0 && w[1] == 0x12 && w[2] == 0xBB && w[3] == 1;
  }

  // ---- What comes back ----

  /** The advertised values, as the receiver's record shows them. */
  predicate ComesBack(a: Advert, r: Info) {
    && r.valid && r.sourceMac == a.sourceMac
    && r.chassisIdSubtype == 4 && Text(r.chassisId) == MacText(a.chassisMac)
    && r.portIdSubtype == 3 && Text(r.portId) == MacText(a.portMac)
    && r.ttl == a.ttl && r.systemCapabilities == r.enabledCapabilities == a.capabilities
    && Text(r.systemName) == Cut(a.systemName, 63)
    && Text(r.systemDescription) == Cut(a.systemDescription, 127)
    && |a.managementIp| == 4 && Text(r.managementAddress) == IpText(a.managementIp)
    && r.hasPvid && r.pvid == a.portVlan
    && Text(r.vlanName) == a.vlanName && r.hasVlanName == (a.vlanName != [])
    && r.vlanId == (if a.vlanName != [] then a.namedVlan else 0)
    && r.hasNetworkPolicy && r.networkPolicyVlan == a.policyVlan
    && r.hasPoe && r.hasPoeMdi && r.hasPoePowerValues
    && r.poePowerType == a.powerType && r.poePowerSource == a.powerSource
    && r.poePowerPriority == a.powerPriority && r.poePowerWatts == a.powerTenths
  }

  predicate TextsNulFree(a: Advert) {
    NulFree(a.systemName) && NulFree(a.systemDescription) && NulFree(a.vlanName)
  }

  lemma FoldCons(t: Tlv, ts: seq<Tlv>, i: Info)
    ensures Fold([t] + ts, i) == Fold(ts, Handle(t, i))
  {
    hide Handle;
    assert ([t] + ts)[1..] == ts;
  }

  lemma {:induction false} FoldConcat(ts: seq<Tlv>, us: seq<Tlv>, i: Info)
    ensures Fold(ts + us, i) == Fold(us, Fold(ts, i))
  {
    hide Handle;
    if ts == [] {
      assert ts + us == us;
    } else {
      assert (ts + us)[1..] == ts[1..] + us;
      FoldConcat(ts[1..], us, Handle(ts[0], i));
    }
  }

  /** The record after the three mandatory TLVs. */
  function AfterMandatory(a: Advert, i: Info): Info {
    i.(chassisIdSubtype := 4, chassisId := TextInto(i.chassisId, MacText(a.chassisMac)),
       portIdSubtype := 3, portId := TextInto(i.portId, MacText(a.portMac)), ttl := a.ttl)
  }

  /** The record after the system name and the system description. */
  function AfterTexts(a: Advert, i: Info): Info {
    i.(systemName := if a.systemName == [] then i.systemName else CopyInto(i.systemName, a.systemName),
       systemDescription :=
         if a.systemDescription == [] then i.systemDescription
         else CopyInto(i.systemDescription, a.systemDescription))
  }

  /** The record after the capabilities and the management address. */
  function AfterNumbers(a: Advert, i: Info): Info
    requires Sendable(a)
  {
    i.(systemCapabilities := a.capabilities, enabledCapabilities := a.capabilities,
       managementAddress := TextInto(i.managementAddress, IpText(a.managementIp)))
  }

  lemma FoldMandatory(a: Advert, i: Info)
    ensures var ts := StandardTlvs(a); Handle(ts[2], Handle(ts[1], Handle(ts[0], i))) == AfterMandatory(a, i)
  {
    hide Handle, MacText, TextInto, ChassisIdTlv, PortIdTlv;
    var i1 := Handle(ChassisIdTlv(a.chassisMac), i);
    HandleChassisMac(a.chassisMac, i);
    HandlePortMac(a.portMac, i1);
    HandleWords(a.ttl, Handle(PortIdTlv(a.portMac), i1));
  }

  lemma FoldTexts(a: Advert, i: Info)
    ensures var ts := StandardTlvs(a); Handle(ts[4], Handle(ts[3], i)) == AfterTexts(a, i)
  {
    hide Handle, CopyInto;
    HandleTexts(a.systemName, i);
    HandleTexts(a.systemDescription, Handle(Tlv(SYSTEM_NAME, a.systemName), i));
  }

  lemma FoldNumbers(a: Advert, i: Info)
    requires Sendable(a)
    ensures var ts := StandardTlvs(a); Handle(ts[6], Handle(ts[5], i)) == AfterNumbers(a, i)
  {
    hide Handle, IpText, TextInto, ManagementTlv, Be16;
    var ts := StandardTlvs(a);
    HandleWords(a.capabilities, i);
    HandleManagement(a.managementIp, a.ifIndex, Handle(ts[5], i));
  }

  function AfterStandard(a: Advert, i: Info): Info
    requires Sendable(a)
  {
    AfterNumbers(a, AfterTexts(a, AfterMandatory(a, i)))
  }

  lemma FoldStandard(a: Advert, i: Info)
    requires Sendable(a)
    ensures Fold(StandardTlvs(a), i) == AfterStandard(a, i)
  {
    hide Handle, Fold, StandardTlvs, AfterMandatory, AfterTexts, AfterNumbers;
    StandardCount(a);
    FoldMandatory(a, i);
    FoldTexts(a, AfterMandatory(a, i));
    FoldNumbers(a, AfterTexts(a, AfterMandatory(a, i)));
    FoldSeven(StandardTlvs(a), i);
  }

  lemma StandardCount(a: Advert)
    ensures |StandardTlvs(a)| == 7
  {
  }

  lemma HandleTexts(text: seq<byte>, i: Info)
    ensures Handle(Tlv(SYSTEM_NAME, text), i) ==
      if text == [] then i else i.(systemName := CopyInto(i.systemName, text))
    ensures Handle(Tlv(SYSTEM_DESCRIPTION, text), i) ==
      if text == [] then i else i.(systemDescription := CopyInto(i.systemDescription, text))
  {
  }

  lemma FoldSeven(ts: seq<Tlv>, i: Info)
    requires |ts| == 7
    ensures Fold(ts, i) ==
      Handle(ts[6], Handle(ts[5], Handle(ts[4], Handle(ts[3], Handle(ts[2], Handle(ts[1], Handle(ts[0], i)))))))
  {
    hide Handle;
    assert ts == ts[..3] + ts[3..];
    FoldConcat(ts[..3], ts[3..], i);
    FoldThree(ts[..3], i);
    assert ts[3..] == ts[3..6] + [ts[6]];
    var j := Handle(ts[2], Handle(ts[1], Handle(ts[0], i)));
    FoldConcat(ts[3..6], [ts[6]], j);
    FoldThree(ts[3..6], j);
  }

  lemma FoldThree(ts: seq<Tlv>, i: Info)
    requires |ts| == 3
    ensures Fold(ts, i) == Handle(ts[2], Handle(ts[1], Handle(ts[0], i)))
  {
    hide Handle;
    assert ts[1..][1..] == [ts[2]] && ts[1..][0] == ts[1];
    assert Fold([ts[2]], Handle(ts[1], Handle(ts[0], i))) == Handle(ts[2], Handle(ts[1], Handle(ts[0], i)));
  }

  lemma FoldOrganization(a: Advert, i: Info)
    requires Sendable(a)
    ensures AfterPowers(a, AfterVlans(a, i), Fold(OrganizationTlvs(a), i))
  {
    hide Handle, Fold, CopyInto, OrganizationTlvs, AfterVlans;
    FoldVlans(a, i);
    var j := AfterVlans(a, i);
    OrganizationSplit(a);
    FoldConcat(OrganizationTlvs(a)[..2], OrganizationTlvs(a)[2..], i);
    FoldPowers(a, j);
  }

  /** The record after the two VLAN TLVs. */
  function AfterVlans(a: Advert, i: Info): Info {
    var j := i.(pvid := a.portVlan, hasPvid := true);
    if a.vlanName == [] then j
    else j.(vlanName := CopyInto(i.vlanName, a.vlanName), vlanId := a.namedVlan, hasVlanName := true)
  }

  predicate AfterPowers(a: Advert, i: Info, r: Info)
    requires Sendable(a)
  {
    r == i.(
    networkPolicyVlan := a.policyVlan, hasNetworkPolicy := true,
    hasPoe := true, hasPoeMdi := true, hasPoePowerValues := true,
    poePowerType := a.powerType, poePowerSource := a.powerSource, poePowerPriority := a.powerPriority,
    poePowerWatts := a.powerTenths, poeSupported := r.poeSupported, poePowerPair := r.poePowerPair,
    poePowerClass := r.poePowerClass, poeTypeSourcePriority := r.poeTypeSourcePriority)
  }

  lemma OrganizationSplit(a: Advert)
    requires Sendable(a)
    ensures |OrganizationTlvs(a)| == 6
    ensures OrganizationTlvs(a) == OrganizationTlvs(a)[..2] + OrganizationTlvs(a)[2..]
  {
  }

  lemma FoldVlans(a: Advert, i: Info)
    requires Sendable(a)
    ensures |OrganizationTlvs(a)| == 6 && Fold(OrganizationTlvs(a)[..2], i) == AfterVlans(a, i)
  {
    hide Handle, CopyInto, OrgTlv, PortVlanTlv, VlanNameTlv;
    HandleWords(a.portVlan, i);
    var j := Handle(PortVlanTlv(a.portVlan), i);
    HandleVlan(a.namedVlan, a.vlanName, j);
    var ts := OrganizationTlvs(a)[..2];
    assert ts == [PortVlanTlv(a.portVlan)] + [VlanNameTlv(a.namedVlan, a.vlanName)];
    FoldCons(ts[0], [ts[1]], i);
    assert [ts[1]] == [ts[1]] + [];
    FoldCons(ts[1], [], j);
  }

  lemma FoldPowers(a: Advert, i: Info)
    requires Sendable(a)
    ensures |OrganizationTlvs(a)| == 6 && AfterPowers(a, i, Fold(OrganizationTlvs(a)[2..], i))
  {
    hide Handle, Fold, OrgTlv, PortVlanTlv, VlanNameTlv, NetworkPolicyTlv, MedPowerTlv;
    var ts := OrganizationTlvs(a)[2..];
    var i1 := Handle(ts[0], i);
    var i2 := Handle(ts[1], i1);
    var i3 := Handle(ts[2], i2);
    HandleOthers(a.mdiPower, a.medCapabilities, a.medClass, i);
    HandleOthers(a.mdiPower, a.medCapabilities, a.medClass, i1);
    HandlePolicy(a.application, false, a.tagged, a.policyVlan, a.priority, a.dscp, i2);
    HandlePower(a.powerType, a.powerSource, a.powerPriority, a.powerTenths, i3);
    FoldFour(ts, i);
  }

  lemma FoldFour(ts: seq<Tlv>, i: Info)
    requires |ts| == 4
    ensures Fold(ts, i) == Handle(ts[3], Handle(ts[2], Handle(ts[1], Handle(ts[0], i))))
  {
    hide Handle;
    FoldThree(ts[1..], Handle(ts[0], i));
  }

  lemma CopiedText(text: seq<byte>, size: nat)
    requires NulFree(text) && size > 0
    ensures Text(CopyInto(Zeros(size), text)) == Cut(text, size - 1)
    ensures Text(Zeros(size)) == []
  {
    CutNulFree(text, size - 1);
    TextIntoReads(Zeros(size), Cut(text, size - 1));
  }

  /** A receiver of the frame gets the advertised values back, texts cut to their fields. */
  lemma AdvertComesBack(a: Advert)
    requires Sendable(a) && TextsNulFree(a)
    ensures ParseFrame(BuildFrame(a)).Some? && ComesBack(a, ParseFrame(BuildFrame(a)).value)
  {
    hide Handle, Fold, MacText, IpText, TextInto, CopyInto, AdvertTlvs, BuildTlv, BuildAll, ParseTlvs, Text;
    var frame, ts, start := BuildFrame(a), AdvertTlvs(a), BLANK.(sourceMac := a.sourceMac);
    AdvertBuildable(a);
    var tail := BuildAll(ts) + BuildTlv(Tlv(END, []));
    assert frame[14..] == tail && frame[6..12] == a.sourceMac;
    assert BuildTlv(Tlv(END, [])) + [] == BuildTlv(Tlv(END, []));
    BuiltHeader(Tlv(END, []), []);
    ParseBuilt(ts, Tlv(END, []), [], start);
    BeforeEndAll(ts);
    AdvertFold(a, start);
    var middle := AfterStandard(a, start);
    FoldOrganization(a, middle);
    MacTextReads(a.chassisMac);
    MacTextReads(a.portMac);
    IpTextReads(a.managementIp);
    TextIntoReads(Zeros(64), MacText(a.chassisMac));
    TextIntoReads(Zeros(64), MacText(a.portMac));
    TextIntoReads(Zeros(48), IpText(a.managementIp));
    CopiedText(a.systemName, 64);
    CopiedText(a.systemDescription, 128);
    CopiedText(a.vlanName, 64);
  }

  lemma AdvertFold(a: Advert, i: Info)
    requires Sendable(a)
    ensures Fold(AdvertTlvs(a), i) == Fold(OrganizationTlvs(a), AfterStandard(a, i))
  {
    hide Fold, StandardTlvs, OrganizationTlvs, AfterStandard;
    FoldConcat(StandardTlvs(a), OrganizationTlvs(a), i);
    FoldStandard(a, i);
  }

  // ---- What the receiver's table shows ----

  /** The advertised values, as the neighbour entry shows them. */
  predicate ShowsAdvert(a: Advert, n: Neighbor) {
    && n.mac == a.sourceMac && n.sources == 1 && n.occupied
    && n.lldpChassisSubtype == 4 && Text(n.chassisId) == MacText(a.chassisMac)
    && n.lldpPortSubtype == 3 && Text(n.port) == MacText(a.portMac)
    && n.ttl == a.ttl && n.capabilities == n.enabledCapabilities == a.capabilities
    && Text(n.name) == Cut(a.systemName, 63) && Text(n.description) == Cut(a.systemDescription, 127)
    && |a.managementIp| == 4 && Text(n.managementAddress) == IpText(a.managementIp)
    && n.hasPvid && n.pvid == a.portVlan
    && Text(n.vlanName) == a.vlanName && n.hasVlanName == (a.vlanName != [])
    && n.vlanId == (if a.vlanName != [] then a.namedVlan else 0)
    && n.hasNetworkPolicy && n.networkPolicyVlan == a.policyVlan
    && n.hasPoe && n.hasPoeMdi && n.hasPoePowerValues
    && n.poePowerType == a.powerType && n.poePowerSource == a.powerSource
    && n.poePowerPriority == a.powerPriority && n.poePowerWatts == a.powerTenths
  }

  lemma FilledShown(a: Advert, i: Info)
    requires Sendable(a) && ComesBack(a, i)
    ensures FillNeighbor(i).Some? && ShowsAdvert(a, FillNeighbor(i).value)
  {
    hide Text, MacText, IpText, Stored, Zeros, Cut;
    TextLengths(a);
    E.StoredWhole(i.systemName, Cut(a.systemName, 63), 64);
    E.StoredWhole(i.systemDescription, Cut(a.systemDescription, 127), 128);
    E.StoredWhole(i.chassisId, MacText(a.chassisMac), 64);
    E.StoredWhole(i.portId, MacText(a.portMac), 64);
    E.StoredWhole(i.managementAddress, IpText(a.managementIp), 48);
    E.StoredWhole(i.vlanName, a.vlanName, 64);
    E.BlankStored(64);
  }

  lemma TextLengths(a: Advert)
    requires Sendable(a)
    ensures |MacText(a.chassisMac)| == |MacText(a.portMac)| == 17 && |IpText(a.managementIp)| <= 15
  {
  }

  /** The frame the sender makes puts an entry with the advertised values in the receiver's table. */
  lemma AdvertShown(a: Advert)
    requires Sendable(a) && TextsNulFree(a)
    ensures var n := LiveTable.Observed(Protocol.Lldp, BuildFrame(a)); n.Some? && ShowsAdvert(a, n.value)
  {
    hide BuildAll, BuildTlv, AdvertTlvs, ParseFrame, ComesBack, ShowsAdvert, FillNeighbor;
    AdvertComesBack(a);
    AdvertBuildable(a);
    assert BuildFrame(a)[12..14] == [0x88, 0xCC];
    FilledShown(a, ParseFrame(BuildFrame(a)).value);
  }
}
