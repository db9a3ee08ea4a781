/** One peer's reachable addresses and port (tracker/src/peerinfo.rs). */
module Peers {
  import opened Wrappers
  import opened Bytes

  type Ipv4 = s: seq<byte> | |s| == 4 witness [0, 0, 0, 0]
  type Ipv6 = s: seq<byte> | |s| == 16 witness [0, 0, 0, 0, 0, 0, 0, 0, 0, 0, 0, 0, 0, 0, 0, 0]

  /** The all-zero addresses a field holds while its family is absent. */
  const UnspecifiedV4: Ipv4 := [0, 0, 0, 0]
  const UnspecifiedV6: Ipv6 := [0, 0, 0, 0, 0, 0, 0, 0, 0, 0, 0, 0, 0, 0, 0, 0]

  /**
   * A peer's addresses and port. Both address fields always hold a value;
   * the `has` flags say whether that family is really present, so an absent
   * address is told apart from the unspecified one.
   */
  datatype PeerInfo = PeerInfo(ipv4: Ipv4, ipv6: Ipv6, port: u16, hasV4: bool, hasV6: bool)

  function GetIpv4(p: PeerInfo): Option<Ipv4> {
    if p.hasV4 then Some(p.ipv4) else None
  }

  function GetIpv6(p: PeerInfo): Option<Ipv6> {
    if p.hasV6 then Some(p.ipv6) else None
  }

  function GetPort(p: PeerInfo): u16 {
    p.port
  }

  /** `PeerInfo::new` (also `Default`): no address of either family, port 0. */
  function New(): (p: PeerInfo)
    ensures GetIpv4(p) == None && GetIpv6(p) == None && GetPort(p) == 0
  {
    PeerInfo(UnspecifiedV4, UnspecifiedV6, 0, false, false)
  }

  /** `PeerInfo::from`: the getters give back exactly what was passed in. */
  function From(v4: Option<Ipv4>, v6: Option<Ipv6>, port: u16): (p: PeerInfo)
    ensures GetIpv4(p) == v4 && GetIpv6(p) == v6 && GetPort(p) == port
  {
    PeerInfo(v4.GetOr(UnspecifiedV4), v6.GetOr(UnspecifiedV6), port, v4.Some?, v6.Some?)
  }

  /**
   * `PeerInfo::update`: each family that `p2` carries overwrites this peer's
   * address of that family; families `p2` lacks are left alone. The port is
   * never taken from `p2`.
   */
  function Update(p: PeerInfo, p2: PeerInfo): (r: PeerInfo)
    ensures GetPort(r) == GetPort(p)
    ensures GetIpv4(r) == GetIpv4(p2).Or(GetIpv4(p))
    ensures GetIpv6(r) == GetIpv6(p2).Or(GetIpv6(p))
    ensures GetIpv4(p).Some? ==> GetIpv4(r).Some?
    ensures GetIpv6(p).Some? ==> GetIpv6(r).Some?
  {
    var withV4 := match GetIpv4(p2)
      case Some(ip) => p.(ipv4 := ip, hasV4 := true)
      case None => p;
    match GetIpv6(p2)
    case Some(ip) => withV4.(ipv6 := ip, hasV6 := true)
    case None => withV4
  }

  /** Applying the same update twice is the same as applying it once. */
  lemma UpdateIdempotent(p: PeerInfo, p2: PeerInfo)
    ensures Update(Update(p, p2), p2) == Update(p, p2)
  {
  }

  /** An IPv4-only peer updated by an IPv6-only announce ends up with both, its IPv4 untouched. */
  lemma UpdateJoinsFamilies(p: PeerInfo, p2: PeerInfo)
    requires GetIpv4(p).Some? && GetIpv6(p).None?
    requires GetIpv4(p2).None? && GetIpv6(p2).Some?
    ensures GetIpv4(Update(p, p2)) == GetIpv4(p)
    ensures GetIpv6(Update(p, p2)) == GetIpv6(p2)
  {
  }
}
