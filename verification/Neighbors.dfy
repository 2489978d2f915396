/**
 One discovered neighbour, as the live table and the saved history share it.
 Character arrays keep their declared sizes; the text in them ends at the first NUL.
 */
module Neighbors {
  import opened Bytes

  type MacAddress = s: seq<byte> | |s| == 6 witness [0, 0, 0, 0, 0, 0]
  type Chars48 = s: seq<byte> | |s| == 48 ghost witness Zeros(48)
  type Chars64 = s: seq<byte> | |s| == 64 ghost witness Zeros(64)
  type Chars128 = s: seq<byte> | |s| == 128 ghost witness Zeros(128)

  datatype Option<+T> = None | Some(value: T)

  datatype Protocol = Lldp | Cdp | Eapol

  /** The protocol argument of the history operations; Other stands for a value outside the enumeration. */
  datatype Filter = All | Only(protocol: Protocol) | Other

  predicate FilterMatches(filter: Filter, p: Protocol) {
    filter == All || filter == Only(p)
  }

  /** The discovery-source bit of a protocol. */
  function SourceBit(p: Protocol): byte {
    match p
    case Lldp => 1
    case Cdp => 2
    case Eapol => 4
  }

  datatype Neighbor = Neighbor(
    mac: MacAddress,
    chassisId: Chars64,
    name: Chars64,
    description: Chars128,
    port: Chars64,
    managementAddress: Chars48,
    ttl: u16,
    capabilities: u16,
    enabledCapabilities: u16,
    sources: byte,
    eapolVersion: byte,
    eapolPacketType: byte,
    eapCode: byte,
    eapType: byte,
    lldpChassisSubtype: byte,
    lldpPortSubtype: byte,
    vlanId: u16,
    pvid: u16,
    vlanName: Chars64,
    networkPolicyVlan: u16,
    hasPvid: bool,
    hasVlanName: bool,
    hasNetworkPolicy: bool,
    poeSupported: bool,
    poePowerPair: byte,
    poePowerClass: byte,
    poeTypeSourcePriority: byte,
    poeRequestedPower: u16,
    poeAllocatedPower: u16,
    poePowerWatts: u16,
    poeRequestedPowerWatts: u16,
    poeAllocatedPowerWatts: u16,
    poePowerType: byte,
    poePowerSource: byte,
    poePowerPriority: byte,
    hasPoeMdi: bool,
    hasPoe: bool,
    hasPoePowerValues: bool,
    occupied: bool)

  /** The slot contents after `memset(n, 0, sizeof(*n))`. */
  const EMPTY: Neighbor := Neighbor(
    [0, 0, 0, 0, 0, 0], Zeros(64), Zeros(64), Zeros(128), Zeros(64), Zeros(48),
    0, 0, 0, 0, 0, 0, 0, 0, 0, 0, 0, 0, Zeros(64), 0,
    false, false, false, false, 0, 0, 0, 0, 0, 0, 0, 0, 0, 0, 0, false, false, false, false)

  /** The source mask of n and the given mask share a bit. */
  predicate HasSource(n: Neighbor, mask: byte) {
    And(n.sources, mask) != 0
  }
}
