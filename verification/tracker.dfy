/**
 * The tracker's `ANNOUNCE` command (tracker/src/lib.rs): argument parsing,
 * and one announce against a keyspace of per-torrent registries that the
 * store expires after 2700 idle seconds.
 */
module Tracker {
  import opened Wrappers
  import opened Bytes
  import Decimal
  import Peers
  import opened Registry
  import SeederInfos
  import opened RedisValues

  datatype Event = Started | Completed | Stopped

  predicate IsStop(e: Event) {
    e == Stopped
  }

  /** `Event::from_str`: the three names, and `Started` for anything else. */
  function ParseEvent(s: string): (e: Event)
    ensures e == Completed <==> s == "completed"
    ensures e == Stopped <==> s == "stopped"
    ensures s == "started" ==> e == Started
  {
    match s
    case "started" => Started
    case "completed" => Completed
    case "stopped" => Stopped
    case _ => Started
  }

  /** The width of `usize` on the 64-bit targets the module is built for. */
  const USIZE_MAX: nat := U64_MAX

  const DEFAULT_NUMWANT: nat := 50

  /** The sentinel that stands for a missing address. */
  const NONE_ADDR: string := "none"

  datatype AnnounceRequest = AnnounceRequest(pid: u64, uid: u64, peer: Peers.PeerInfo, numwant: nat, event: Event)

  /** Why a command was refused. */
  datatype ArgError = TooFewArguments | BadInteger | BadAddress

  /** An optional address argument: the sentinel, or text the address parser must accept. */
  function ParseAddr<A>(s: string, parse: string -> Option<A>): (r: Result<Option<A>, ArgError>)
    ensures s == NONE_ADDR ==> r == Ok(None)
    ensures s != NONE_ADDR ==> (r.Ok? <==> parse(s).Some?) && (r.Ok? ==> r.value == parse(s))
  {
    if s == NONE_ADDR then Ok(None)
    else match parse(s)
      case Some(a) => Ok(Some(a))
      case None => Err(BadAddress)
  }

  function ParseNum(s: string, max: nat): (r: Result<nat, ArgError>)
    ensures r.Ok? <==> Decimal.ParseUnsigned(s, max).Some?
    ensures r.Ok? ==> r.value == Decimal.ParseUnsigned(s, max).value && r.value <= max
  {
    match Decimal.ParseUnsigned(s, max)
    case Some(n) => Ok(n)
    case None => Err(BadInteger)
  }

  /**
   * `AnnounceRequest::try_from` over the command's arguments (the command
   * name first): `pid uid ipv4|none ipv6|none port [numwant [event]]`.
   * Address text is read by `parse4`/`parse6`, which stand for the standard
   * library's address parsers. Arguments after the eighth are ignored.
   */
  function TryFrom(args: seq<string>, parse4: string -> Option<Peers.Ipv4>, parse6: string -> Option<Peers.Ipv6>)
    : (r: Result<AnnounceRequest, ArgError>)
    ensures |args| < 6 ==> r == Err(TooFewArguments)
    ensures r.Ok? ==>
      && Decimal.ParseUnsigned(args[1], U64_MAX) == Some(r.value.pid as nat)
      && Decimal.ParseUnsigned(args[2], U64_MAX) == Some(r.value.uid as nat)
      && Decimal.ParseUnsigned(args[5], U16_MAX) == Some(Peers.GetPort(r.value.peer) as nat)
      && (args[3] == NONE_ADDR ==> Peers.GetIpv4(r.value.peer) == None)
      && (args[3] != NONE_ADDR ==> Peers.GetIpv4(r.value.peer) == parse4(args[3]))
      && (args[4] == NONE_ADDR ==> Peers.GetIpv6(r.value.peer) == None)
      && (args[4] != NONE_ADDR ==> Peers.GetIpv6(r.value.peer) == parse6(args[4]))
      && (|args| > 6 ==> Decimal.ParseUnsigned(args[6], USIZE_MAX) == Some(r.value.numwant))
      && (|args| == 6 ==> r.value.numwant == DEFAULT_NUMWANT)
      && r.value.event == (if |args| > 7 then ParseEvent(args[7]) else Started)
    ensures |args| >= 6 && r.Err? ==>
      || Decimal.ParseUnsigned(args[1], U64_MAX).None?
      || Decimal.ParseUnsigned(args[2], U64_MAX).None?
      || (args[3] != NONE_ADDR && parse4(args[3]).None?)
      || (args[4] != NONE_ADDR && parse6(args[4]).None?)
      || Decimal.ParseUnsigned(args[5], U16_MAX).None?
      || (|args| > 6 && Decimal.ParseUnsigned(args[6], USIZE_MAX).None?)
  {
    if |args| < 6 then Err(TooFewArguments)
    else
      var pid :- ParseNum(args[1], U64_MAX);
      var uid :- ParseNum(args[2], U64_MAX);
      var v4 :- ParseAddr(args[3], parse4);
      var v6 :- ParseAddr(args[4], parse6);
      var port :- ParseNum(args[5], U16_MAX);
      var numwant :- if |args| > 6 then ParseNum(args[6], USIZE_MAX) else Ok(DEFAULT_NUMWANT);
      var event := if |args| > 7 then ParseEvent(args[7]) else Started;
      Ok(AnnounceRequest(pid, uid, Peers.From(v4, v6, port), numwant, event))
  }

  /** `util::get_timestamp`: whole seconds since the epoch with bit 0 cleared. */
  function Timestamp(clock: u64): (t: u64)
    ensures t <= clock && clock - t <= 1 && t % 2 == 0
  {
    clock - clock % 2
  }

  /** How long an announced-to key lives without further announces, in seconds. */
  const KEY_TTL: nat := 2700

  /** A stored registry and the clock reading after which the store drops it. */
  datatype Stored = Stored(info: SeederInfos.SeederInfo, expiresAt: nat)

  /** The store's keys, one per torrent id. */
  type Keyspace = map<u64, Stored>

  /** A key the store would report empty at `clock`: never set, or past its expiry. */
  predicate IsEmpty(ks: Keyspace, pid: u64, clock: nat) {
    pid !in ks || ks[pid].expiresAt < clock
  }

  predicate ValidKeyspace(ks: Keyspace) {
    forall pid :: pid in ks ==> SeederInfos.Valid(ks[pid].info)
  }

  /** The reply a stop, or a stop for an unknown torrent, receives. */
  const STOP_REPLY: Reply := Status("?")

  /**
   * `announce` for a parsed request at clock reading `clock`. `seed` stands
   * for the random draw of the map's response window.
   */
  function Apply(ks: Keyspace, req: AnnounceRequest, clock: u64, seed: nat): (r: (Keyspace, Reply))
    ensures IsEmpty(ks, req.pid, clock) && IsStop(req.event) ==> r == (ks, STOP_REPLY)
    ensures !(IsEmpty(ks, req.pid, clock) && IsStop(req.event)) ==>
      && req.pid in r.0 && r.0[req.pid].expiresAt == clock + KEY_TTL
      && r.0.Keys == ks.Keys + {req.pid}
      && (forall pid :: pid in ks && pid != req.pid ==> r.0[pid] == ks[pid])
    ensures ValidKeyspace(ks) ==> ValidKeyspace(r.0)
    ensures IsStop(req.event) ==> r.1 == STOP_REPLY
    ensures IsStop(req.event) && !IsEmpty(ks, req.pid, clock) && ValidKeyspace(ks) ==>
      SeederInfos.Lookup(r.0[req.pid].info, req.uid) == None
    ensures !IsStop(req.event) && ValidKeyspace(ks) ==>
      && SeederInfos.Lookup(r.0[req.pid].info, req.uid)
         == Some(SeederInfos.Announced(SeederInfos.Compaction(Prior(ks, req.pid, clock), Timestamp(clock)), req.uid, req.peer))
      && r.1 == SeederInfos.GenResponse(r.0[req.pid].info, req.numwant, seed)
    ensures !(IsEmpty(ks, req.pid, clock) && IsStop(req.event)) && ValidKeyspace(ks) ==>
      forall k :: k != req.uid ==>
        SeederInfos.Lookup(r.0[req.pid].info, k)
          == SeederInfos.Lookup(SeederInfos.Compaction(Prior(ks, req.pid, clock), Timestamp(clock)), k)
  {
    if IsEmpty(ks, req.pid, clock) && IsStop(req.event) then (ks, STOP_REPLY)
    else
      var (si', reply) := Refresh(Prior(ks, req.pid, clock), req, Timestamp(clock), seed);
      (ks[req.pid := Stored(si', clock + KEY_TTL)], reply)
  }

  /** The registry an announce works on: the stored one, or a new one for an empty key. */
  function Prior(ks: Keyspace, pid: u64, clock: nat): (si: SeederInfos.SeederInfo)
    ensures ValidKeyspace(ks) ==> SeederInfos.Valid(si)
    ensures IsEmpty(ks, pid, clock) ==> forall k :: SeederInfos.Lookup(si, k) == None
  {
    if IsEmpty(ks, pid, clock) then SeederInfos.New() else ks[pid].info
  }

  /**
   * The work done on one torrent's registry: compaction at `now`, then the
   * stop's deletion or the announce's insertion and the answer drawn from
   * the updated registry.
   */
  function Refresh(si: SeederInfos.SeederInfo, req: AnnounceRequest, now: nat, seed: nat)
    : (r: (SeederInfos.SeederInfo, Reply))
    ensures SeederInfos.Valid(si) ==> SeederInfos.Valid(r.0)
    ensures IsStop(req.event) ==> r.1 == STOP_REPLY
    ensures IsStop(req.event) && SeederInfos.Valid(si) ==> SeederInfos.Lookup(r.0, req.uid) == None
    ensures !IsStop(req.event) && SeederInfos.Valid(si) ==>
      && SeederInfos.Lookup(r.0, req.uid) == Some(SeederInfos.Announced(SeederInfos.Compaction(si, now), req.uid, req.peer))
      && r.1 == SeederInfos.GenResponse(r.0, req.numwant, seed)
    ensures SeederInfos.Valid(si) ==>
      forall k :: k != req.uid ==>
        SeederInfos.Lookup(r.0, k) == SeederInfos.Lookup(SeederInfos.Compaction(si, now), k)
  {
    var compacted := SeederInfos.Compaction(si, now);
    if IsStop(req.event) then (SeederInfos.Delete(compacted, req.uid), STOP_REPLY)
    else
      var inserted := SeederInfos.Insert(compacted, req.uid, req.peer, now);
      (inserted, SeederInfos.GenResponse(inserted, req.numwant, seed))
  }

  /**
   * The `ANNOUNCE` command: a malformed command is refused and changes
   * nothing; otherwise the parsed request is applied.
   */
  function Announce(ks: Keyspace, args: seq<string>, clock: u64, seed: nat,
                    parse4: string -> Option<Peers.Ipv4>, parse6: string -> Option<Peers.Ipv6>)
    : (r: Result<(Keyspace, Reply), ArgError>)
    ensures r.Err? <==> TryFrom(args, parse4, parse6).Err?
    ensures r.Ok? ==> r.value == Apply(ks, TryFrom(args, parse4, parse6).value, clock, seed)
  {
    var req :- TryFrom(args, parse4, parse6);
    Ok(Apply(ks, req, clock, seed))
  }
}
