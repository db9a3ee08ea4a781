/**
 * Compact peer lists: BEP 23 (`peers`, 4-byte IPv4 address then 2-byte
 * big-endian port per peer) and BEP 7 (`peers6`, 16-byte IPv6 address then
 * port). Also the reader's side, used to state what a list denotes.
 */
module CompactPeers {
  import opened Wrappers
  import opened Bytes
  import opened Peers

  /** An address and a port as a client reads them out of a compact list. */
  datatype Addr = Addr(ip: seq<byte>, port: int)

  /** One peer's entry in `peers`: nothing when the peer has no IPv4. */
  function Entry4(p: PeerInfo): seq<byte> {
    match GetIpv4(p)
    case Some(v4) => v4 + BE16(GetPort(p))
    case None => []
  }

  /** One peer's entry in `peers6`: nothing when the peer has no IPv6. */
  function Entry6(p: PeerInfo): seq<byte> {
    match GetIpv6(p)
    case Some(v6) => v6 + BE16(GetPort(p))
    case None => []
  }

  /** The addresses a client should find in `peers` for these peers, in order. */
  function Addrs4(ps: seq<PeerInfo>): seq<Addr> {
    if |ps| == 0 then []
    else (if ps[0].hasV4 then [Addr(ps[0].ipv4, ps[0].port)] else []) + Addrs4(ps[1..])
  }

  /** The addresses a client should find in `peers6` for these peers, in order. */
  function Addrs6(ps: seq<PeerInfo>): seq<Addr> {
    if |ps| == 0 then []
    else (if ps[0].hasV6 then [Addr(ps[0].ipv6, ps[0].port)] else []) + Addrs6(ps[1..])
  }

  /** Reads a compact list whose addresses are `width` bytes long. */
  function Decode(buf: seq<byte>, width: nat): Option<seq<Addr>>
    requires 0 < width
    decreases |buf|
  {
    if |buf| == 0 then Some([])
    else if |buf| < width + 2 then None
    else match Decode(buf[width + 2..], width)
      case Some(rest) => Some([Addr(buf[..width], DecodeBE16(buf[width..width + 2]))] + rest)
      case None => None
  }

  /** A list made of whole entries reads as the entries' addresses followed by the rest. */
  lemma DecodeCons(entry: seq<byte>, rest: seq<byte>, width: nat, a: Addr)
    requires 0 < width && |entry| == width + 2
    requires a == Addr(entry[..width], DecodeBE16(entry[width..]))
    ensures Decode(entry + rest, width) == (match Decode(rest, width)
      case Some(r) => Some([a] + r)
      case None => None)
  {
    var buf := entry + rest;
    assert buf[width + 2..] == rest;
    assert buf[..width] == entry[..width];
    assert buf[width..width + 2] == entry[width..];
  }

  /** One peer's `peers` entry reads back as its IPv4 address, ahead of whatever follows. */
  lemma Entry4Decodes(p: PeerInfo, rest: seq<byte>)
    ensures Decode(Entry4(p) + rest, 4) == (match Decode(rest, 4)
      case Some(a) => Some(Addrs4([p]) + a) case None => None)
  {
    assert [p][1..] == [];
    if p.hasV4 {
      var e := Entry4(p);
      assert e[..4] == p.ipv4 && e[4..] == BE16(p.port);
      assert Addrs4([p]) == [Addr(p.ipv4, p.port)];
      DecodeCons(e, rest, 4, Addr(p.ipv4, p.port));
    } else {
      assert Entry4(p) + rest == rest;
      assert Addrs4([p]) == [];
      match Decode(rest, 4)
      case Some(a) => assert [] + a == a;
      case None =>
    }
  }

  /** One peer's `peers6` entry reads back as its IPv6 address, ahead of whatever follows. */
  lemma Entry6Decodes(p: PeerInfo, rest: seq<byte>)
    ensures Decode(Entry6(p) + rest, 16) == (match Decode(rest, 16)
      case Some(a) => Some(Addrs6([p]) + a) case None => None)
  {
    assert [p][1..] == [];
    if p.hasV6 {
      var e := Entry6(p);
      assert e[..16] == p.ipv6 && e[16..] == BE16(p.port);
      assert Addrs6([p]) == [Addr(p.ipv6, p.port)];
      DecodeCons(e, rest, 16, Addr(p.ipv6, p.port));
    } else {
      assert Entry6(p) + rest == rest;
      assert Addrs6([p]) == [];
      match Decode(rest, 16)
      case Some(a) => assert [] + a == a;
      case None =>
    }
  }

  /** Serialises peers, in order, into the `peers` and `peers6` lists. */
  function Lists(ps: seq<PeerInfo>): (r: (seq<byte>, seq<byte>))
    ensures Decode(r.0, 4) == Some(Addrs4(ps))
    ensures Decode(r.1, 16) == Some(Addrs6(ps))
  {
    if |ps| == 0 then ([], [])
    else
      var rest := Lists(ps[1..]);
      ListsCons4(ps, rest.0);
      ListsCons6(ps, rest.1);
      (Entry4(ps[0]) + rest.0, Entry6(ps[0]) + rest.1)
  }

  /** The first peer's entry, ahead of a list that reads as the other peers, reads as all of them. */
  lemma ListsCons4(ps: seq<PeerInfo>, rest: seq<byte>)
    requires |ps| > 0 && Decode(rest, 4) == Some(Addrs4(ps[1..]))
    ensures Decode(Entry4(ps[0]) + rest, 4) == Some(Addrs4(ps))
  {
    Entry4Decodes(ps[0], rest);
    assert [ps[0]][1..] == [];
    assert Addrs4(ps) == Addrs4([ps[0]]) + Addrs4(ps[1..]);
  }

  /** The same for `peers6`. */
  lemma ListsCons6(ps: seq<PeerInfo>, rest: seq<byte>)
    requires |ps| > 0 && Decode(rest, 16) == Some(Addrs6(ps[1..]))
    ensures Decode(Entry6(ps[0]) + rest, 16) == Some(Addrs6(ps))
  {
    Entry6Decodes(ps[0], rest);
    assert [ps[0]][1..] == [];
    assert Addrs6(ps) == Addrs6([ps[0]]) + Addrs6(ps[1..]);
  }
}
