/**
 * The proxy's announce data (proxy/src/tracker_route/data.rs): address
 * normalisation, the `ANNOUNCE` command sent to the tracker, the record
 * relayed to the backend, and the bencoded reply to the client.
 */
module AnnounceData {
  import opened Wrappers
  import opened Bytes
  import Decimal
  import Peers
  import Tracker
  import opened RedisValues
  import Bencode

  datatype IpAddr = V4(v4: Peers.Ipv4) | V6(v6: Peers.Ipv6)

  /** The announce query as the proxy deserialises it; `peerId` holds the id's UTF-8 bytes. */
  datatype AnnounceRequestData = AnnounceRequestData(
    peerId: seq<byte>,
    port: u16,
    uid: i64,
    tid: i64,
    passkey: string,
    ip: Option<IpAddr>,
    ipv4: Option<Peers.Ipv4>,
    ipv6: Option<Peers.Ipv6>,
    event: Tracker.Event,
    numwant: u16,
    upload: i64,
    download: i64)

  /** `default_num_want`. */
  const DEFAULT_NUM_WANT: u16 := 50

  /** A panic of the proxy's request task. */
  datatype Aborted = Aborted

  /**
   * `fix_ip`, given the address of the connection when known. An `ip`
   * parameter of one family yields the explicit field of that family when
   * present, else itself; the explicit fields are otherwise dropped. The
   * connection address then fills a family still unset. With no family set
   * at the end the request handler panics.
   */
  function FixIp(req: AnnounceRequestData, peerAddr: Option<IpAddr>): (r: Result<AnnounceRequestData, Aborted>)
    ensures r.Ok? ==> r.value == req.(ipv4 := r.value.ipv4, ipv6 := r.value.ipv6)
    ensures r.Ok? ==> r.value.ipv4.Some? || r.value.ipv6.Some?
    ensures r.Err? <==> FromIp4(req).None? && FromIp6(req).None? && peerAddr.None?
    ensures r.Ok? && FromIp4(req).Some? ==> r.value.ipv4 == FromIp4(req)
    ensures r.Ok? && FromIp6(req).Some? ==> r.value.ipv6 == FromIp6(req)
    ensures r.Ok? && FromIp4(req).None? ==> r.value.ipv4 == (if peerAddr.Some? && peerAddr.value.V4? then Some(peerAddr.value.v4) else None)
    ensures r.Ok? && FromIp6(req).None? ==> r.value.ipv6 == (if peerAddr.Some? && peerAddr.value.V6? then Some(peerAddr.value.v6) else None)
  {
    var v4 := FromIp4(req);
    var v6 := FromIp6(req);
    var v4' := match peerAddr case Some(V4(a)) => v4.Or(Some(a)) case _ => v4;
    var v6' := match peerAddr case Some(V6(a)) => v6.Or(Some(a)) case _ => v6;
    if v4'.None? && v6'.None? then Err(Aborted)
    else Ok(req.(ipv4 := v4', ipv6 := v6'))
  }

  /** The IPv4 address `fix_ip` takes from the request itself: only when `ip` is an IPv4 address. */
  function FromIp4(req: AnnounceRequestData): (r: Option<Peers.Ipv4>)
    ensures req.ip.None? ==> r.None?
    ensures req.ip.Some? && req.ip.value.V4? ==> r == req.ipv4.Or(Some(req.ip.value.v4))
    ensures req.ip.Some? && req.ip.value.V6? ==> r.None?
  {
    match req.ip
    case Some(V4(a)) => req.ipv4.Or(Some(a))
    case _ => None
  }

  /** The IPv6 address `fix_ip` takes from the request itself: only when `ip` is an IPv6 address. */
  function FromIp6(req: AnnounceRequestData): (r: Option<Peers.Ipv6>)
    ensures req.ip.None? ==> r.None?
    ensures req.ip.Some? && req.ip.value.V6? ==> r == req.ipv6.Or(Some(req.ip.value.v6))
    ensures req.ip.Some? && req.ip.value.V4? ==> r.None?
  {
    match req.ip
    case Some(V6(a)) => req.ipv6.Or(Some(a))
    case _ => None
  }

  /** `Event::to_string`. */
  function EventName(e: Tracker.Event): (s: string)
    ensures Tracker.ParseEvent(s) == e
  {
    match e
    case Started => "started"
    case Completed => "completed"
    case Stopped => "stopped"
  }

  /** An optional address argument: its text, or the tracker's "none" sentinel. */
  function AddrArg<A>(a: Option<A>, show: A -> string): string {
    match a
    case Some(x) => show(x)
    case None => Tracker.NONE_ADDR
  }

  /**
   * `generate_announce_cmd`: the command name, then torrent id, user id,
   * IPv4, IPv6, port, numwant and event name, each as text. `show4` and
   * `show6` stand for the address types' `to_string`.
   */
  function AnnounceCmd(req: AnnounceRequestData, show4: Peers.Ipv4 -> string, show6: Peers.Ipv6 -> string)
    : (cmd: seq<string>)
    ensures |cmd| == 8 && cmd[0] == "ANNOUNCE"
    ensures Decimal.ParseSigned(cmd[1], I64_MIN, I64_MAX) == Some(req.tid as int)
    ensures Decimal.ParseSigned(cmd[2], I64_MIN, I64_MAX) == Some(req.uid as int)
    ensures Decimal.ParseUnsigned(cmd[5], U16_MAX) == Some(req.port as nat)
    ensures Decimal.ParseUnsigned(cmd[6], U16_MAX) == Some(req.numwant as nat)
    ensures Tracker.ParseEvent(cmd[7]) == req.event
    ensures cmd[3] == AddrArg(req.ipv4, show4) && cmd[4] == AddrArg(req.ipv6, show6)
  {
    NumberArgs(req);
    ["ANNOUNCE", Decimal.ShowInt(req.tid), Decimal.ShowInt(req.uid),
     AddrArg(req.ipv4, show4), AddrArg(req.ipv6, show6),
     Decimal.ShowNat(req.port), Decimal.ShowNat(req.numwant), EventName(req.event)]
  }

  lemma NumberArgs(req: AnnounceRequestData)
    ensures Decimal.ParseSigned(Decimal.ShowInt(req.tid), I64_MIN, I64_MAX) == Some(req.tid as int)
    ensures Decimal.ParseSigned(Decimal.ShowInt(req.uid), I64_MIN, I64_MAX) == Some(req.uid as int)
    ensures Decimal.ParseUnsigned(Decimal.ShowNat(req.port), U16_MAX) == Some(req.port as nat)
    ensures Decimal.ParseUnsigned(Decimal.ShowNat(req.numwant), U16_MAX) == Some(req.numwant as nat)
  {
    Decimal.SignedRoundTrip(req.tid, I64_MIN, I64_MAX);
    Decimal.SignedRoundTrip(req.uid, I64_MIN, I64_MAX);
    Decimal.UnsignedRoundTrip(req.port, U16_MAX);
    Decimal.UnsignedRoundTrip(req.numwant, U16_MAX);
  }

  /** Address printers whose output the tracker's address parsers read back, and never "none". */
  ghost predicate Inverse<A(!new)>(show: A -> string, parse: string -> Option<A>) {
    forall a :: parse(show(a)) == Some(a) && show(a) != Tracker.NONE_ADDR
  }

  /**
   * The proxy and the tracker agree on the command: with address text that
   * parses back, the tracker reads every field the proxy wrote, provided
   * the ids are not negative.
   */
  lemma CmdRoundTrip(req: AnnounceRequestData,
                     show4: Peers.Ipv4 -> string, parse4: string -> Option<Peers.Ipv4>,
                     show6: Peers.Ipv6 -> string, parse6: string -> Option<Peers.Ipv6>)
    requires Inverse(show4, parse4) && Inverse(show6, parse6)
    requires req.tid >= 0 && req.uid >= 0
    ensures Tracker.TryFrom(AnnounceCmd(req, show4, show6), parse4, parse6)
         == Ok(Tracker.AnnounceRequest(req.tid, req.uid, Peers.From(req.ipv4, req.ipv6, req.port),
                                       req.numwant as nat, req.event))
  {
    var cmd := AnnounceCmd(req, show4, show6);
    Decimal.UnsignedRoundTrip(req.tid, U64_MAX);
    Decimal.UnsignedRoundTrip(req.uid, U64_MAX);
    Decimal.UnsignedRoundTrip(req.port, U16_MAX);
    Decimal.UnsignedRoundTrip(req.numwant, Tracker.USIZE_MAX);
    assert cmd[1] == Decimal.ShowNat(req.tid);
    assert cmd[2] == Decimal.ShowNat(req.uid);
  }

  /** A negative torrent id is written with a sign, which the tracker refuses. */
  lemma NegativeTidRefused(req: AnnounceRequestData, show4: Peers.Ipv4 -> string, show6: Peers.Ipv6 -> string,
                           parse4: string -> Option<Peers.Ipv4>, parse6: string -> Option<Peers.Ipv6>)
    requires req.tid < 0
    ensures Tracker.TryFrom(AnnounceCmd(req, show4, show6), parse4, parse6) == Err(Tracker.BadInteger)
  {
  }

  datatype Action = Start | Complete | Stop

  /** The record the proxy relays to the backend. */
  datatype AnnounceBypassData = AnnounceBypassData(uid: i64, tid: i64, upload: i64, download: i64, action: Option<Action>)

  /** `From<AnnounceRequestData> for AnnounceBypassData`: ids and traffic copied, the event as an action. */
  function Bypass(req: AnnounceRequestData): (r: AnnounceBypassData)
    ensures r.uid == req.uid && r.tid == req.tid && r.upload == req.upload && r.download == req.download
    ensures r.action.Some?
    ensures r.action.value == Stop <==> Tracker.IsStop(req.event)
    ensures r.action.value == Complete <==> req.event == Tracker.Completed
  {
    var action := match req.event
      case Started => Start
      case Completed => Complete
      case Stopped => Stop;
    AnnounceBypassData(req.uid, req.tid, req.upload, req.download, Some(action))
  }

  /** The interval used when the tracker's reply does not carry one. */
  const DEFAULT_INTERVAL: int := 1800

  datatype AnnounceResponseData = AnnounceResponseData(interval: int, peers: seq<byte>, peers6: seq<byte>)

  /**
   * `AnnounceResponseData::from` over the reply's elements: an integer
   * first element is the interval (else 1800); data second and third
   * elements are the two peer lists (else empty).
   */
  function ResponseFrom(vals: seq<Reply>): (r: AnnounceResponseData)
    ensures |vals| > 0 && vals[0].Int? ==> r.interval == vals[0].i
    ensures !(|vals| > 0 && vals[0].Int?) ==> r.interval == DEFAULT_INTERVAL
    ensures |vals| > 1 && vals[1].Data? ==> r.peers == vals[1].bytes
    ensures !(|vals| > 1 && vals[1].Data?) ==> r.peers == []
    ensures |vals| > 2 && vals[2].Data? ==> r.peers6 == vals[2].bytes
    ensures !(|vals| > 2 && vals[2].Data?) ==> r.peers6 == []
  {
    var interval := if |vals| > 0 && vals[0].Int? then vals[0].i else DEFAULT_INTERVAL;
    var peers := if |vals| > 1 && vals[1].Data? then vals[1].bytes else [];
    var peers6 := if |vals| > 2 && vals[2].Data? then vals[2].bytes else [];
    AnnounceResponseData(interval, peers, peers6)
  }

  /** The dictionary keys, in the order the encoder writes them; the first is spelled as in the source. */
  const INTERVAL_KEY: seq<byte> := [105, 110, 116, 101, 118, 97, 108]   // "inteval"
  const PEERS_KEY: seq<byte> := [112, 101, 101, 114, 115]               // "peers"
  const PEERS6_KEY: seq<byte> := [112, 101, 101, 114, 115, 54]          // "peers6"

  /**
   * The encoder's form of a `Vec<u8>`: the generic vector encoding, a list
   * holding one integer per byte. A byte string would need the value to be
   * wrapped as a string first.
   */
  function ByteList(b: seq<byte>): (r: seq<Bencode.BValue>)
    ensures |r| == |b|
    ensures forall k :: 0 <= k < |b| ==> r[k] == Bencode.BInt(b[k])
  {
    seq(|b|, k requires 0 <= k < |b| => Bencode.BInt(b[k]))
  }

  /** The dictionary a response is bencoded as: the peer buffers go out as lists of integers. */
  function ResponseDict(resp: AnnounceResponseData): seq<Bencode.Pair> {
    [Bencode.Pair(INTERVAL_KEY, Bencode.BInt(resp.interval)),
     Bencode.Pair(PEERS_KEY, Bencode.BList(ByteList(resp.peers))),
     Bencode.Pair(PEERS6_KEY, Bencode.BList(ByteList(resp.peers6)))]
  }

  /**
   * `encode`: a bencoded dictionary with keys `inteval`, `peers` and
   * `peers6`, in byte order. A bencode reader reads back the interval, and
   * each peer list as a list whose integers are the compact entry's bytes.
   */
  function EncodeResponse(resp: AnnounceResponseData): (r: seq<byte>)
    ensures Bencode.ParseValue(r) == Some((Bencode.BDict(ResponseDict(resp)), |r|))
    ensures Bencode.SortedKeys(ResponseDict(resp))
  {
    var v := Bencode.BDict(ResponseDict(resp));
    Bencode.RoundTrip(v, []);
    assert Bencode.Encode(v) + [] == Bencode.Encode(v);
    KeysSorted(resp);
    Bencode.Encode(v)
  }

  /**
   * The dictionary with the peer buffers as byte strings, the compact form
   * of BEP 23 (IPv4) and BEP 7 (IPv6) that clients expect.
   */
  function CompactResponseDict(resp: AnnounceResponseData): seq<Bencode.Pair> {
    [Bencode.Pair(INTERVAL_KEY, Bencode.BInt(resp.interval)),
     Bencode.Pair(PEERS_KEY, Bencode.BBytes(resp.peers)),
     Bencode.Pair(PEERS6_KEY, Bencode.BBytes(resp.peers6))]
  }

  /** The reply with compact peer strings: it reads back as the interval and the two buffers unchanged. */
  function EncodeCompactResponse(resp: AnnounceResponseData): (r: seq<byte>)
    ensures Bencode.ParseValue(r) == Some((Bencode.BDict(CompactResponseDict(resp)), |r|))
    ensures Bencode.SortedKeys(CompactResponseDict(resp))
  {
    var v := Bencode.BDict(CompactResponseDict(resp));
    Bencode.RoundTrip(v, []);
    assert Bencode.Encode(v) + [] == Bencode.Encode(v);
    KeysSorted(resp);
    Bencode.Encode(v)
  }

  /**
   * The reply as written is never the compact one: whatever the peers, a
   * reader finds lists where BEP 23 and BEP 7 put byte strings.
   */
  lemma ListsNotCompact(resp: AnnounceResponseData)
    ensures EncodeResponse(resp) != EncodeCompactResponse(resp)
    ensures Bencode.ParseValue(EncodeResponse(resp)).value.0.pairs[1].value.BList?
  {
    var a := EncodeResponse(resp);
    var b := EncodeCompactResponse(resp);
    assert Bencode.ParseValue(a).value.0.pairs[1].value.BList?;
    assert Bencode.ParseValue(b).value.0.pairs[1].value.BBytes?;
  }

  /**
   * One IPv4 peer, 10.0.0.1 on port 6881: the client reads `peers` as the
   * list `li10ei0ei0ei1ei26ei225ee`, not as the six-byte string BEP 23 asks for.
   */
  lemma ListExample(resp: AnnounceResponseData)
    requires resp == AnnounceResponseData(1800, [10, 0, 0, 1, 26, 225], [])
    ensures Bencode.ParseValue(EncodeResponse(resp)).value.0.pairs[1].value
      == Bencode.BList([Bencode.BInt(10), Bencode.BInt(0), Bencode.BInt(0), Bencode.BInt(1), Bencode.BInt(26), Bencode.BInt(225)])
  {
    var items := ByteList(resp.peers);
    assert items == [Bencode.BInt(10), Bencode.BInt(0), Bencode.BInt(0), Bencode.BInt(1), Bencode.BInt(26), Bencode.BInt(225)];
  }

  /** The three keys are in byte order, whichever way the peer buffers are written. */
  lemma KeysSorted(resp: AnnounceResponseData)
    ensures Bencode.SortedKeys(ResponseDict(resp)) && Bencode.SortedKeys(CompactResponseDict(resp))
  {
    assert Bencode.ByteLess(INTERVAL_KEY, PEERS_KEY);
    assert Bencode.ByteLess(PEERS_KEY[5..], PEERS6_KEY[5..]);
    assert Bencode.ByteLess(PEERS_KEY[4..], PEERS6_KEY[4..]);
    assert Bencode.ByteLess(PEERS_KEY[3..], PEERS6_KEY[3..]);
    assert Bencode.ByteLess(PEERS_KEY[2..], PEERS6_KEY[2..]);
    assert Bencode.ByteLess(PEERS_KEY[1..], PEERS6_KEY[1..]);
    assert Bencode.ByteLess(PEERS_KEY, PEERS6_KEY);
  }
}
