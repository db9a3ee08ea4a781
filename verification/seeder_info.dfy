/**
 * The per-torrent registry: inline while the swarm is small, promoted to a
 * two-generation map when the array overflows and demoted again when
 * compaction leaves fewer than three entries (tracker/src/seederinfo/mod.rs).
 */
module SeederInfos {
  import opened Wrappers
  import opened Bytes
  import Peers
  import opened Registry
  import CompactPeers
  import SeederArrays
  import SeederMaps
  import opened RedisValues

  /** The announce interval sent with every peer list, in seconds. */
  const INTERVAL: int := 1800

  /** A map with fewer entries than this is turned back into an array on compaction. */
  const DEMOTE_BELOW: nat := 3

  datatype SeederInfo =
    | Inline(sa: SeederArrays.SeederArray)
    | Multi(sm: SeederMaps.SeederMap)

  predicate Valid(si: SeederInfo) {
    match si
    case Inline(sa) => SeederArrays.Valid(sa)
    case Multi(sm) => SeederMaps.Valid(sm)
  }

  /** The peer the registry holds for `k`, whichever variant is active. */
  function Lookup(si: SeederInfo, k: Key): Option<Peers.PeerInfo> {
    match si
    case Inline(sa) => SeederArrays.Lookup(sa, k)
    case Multi(sm) => SeederMaps.Lookup(sm, k)
  }

  /**
   * The peer `uid` reads as after announcing `p`: `p` merged into the entry
   * an insert merges with (the array's entry, or the map's live entry), or
   * `p` itself when there is none. A map's passive-only entry is not merged.
   */
  function Announced(si: SeederInfo, uid: Key, p: Peers.PeerInfo): Peers.PeerInfo {
    var base := match si
      case Inline(sa) => SeederArrays.Lookup(sa, uid)
      case Multi(sm) => Get(SeederMaps.Live(sm), uid);
    match base
    case Some(prev) => Peers.Update(prev, p)
    case None => p
  }

  /** `SeederInfo::new`: an empty inline registry. */
  function New(): (si: SeederInfo)
    ensures si.Inline? && Valid(si)
    ensures forall k :: Lookup(si, k) == None
  {
    Inline(SeederArrays.New())
  }

  /**
   * `SeederInfo::insert` at time `now`. The array takes the peer when it
   * can; when it is full and the uid is new, its live entries are moved into
   * a fresh map and the peer is inserted there. Either way the uid then reads
   * as the merged (or new) peer and every other uid reads as before.
   */
  function Insert(si: SeederInfo, uid: Key, p: Peers.PeerInfo, now: nat): (r: SeederInfo)
    ensures Valid(si) ==> Valid(r)
    ensures si.Multi? ==> r.Multi?
    ensures si.Inline? && Valid(si) ==>
      && (r.Multi? <==> Lookup(si, uid).None? && SeederArrays.Frees(si.sa.inUse) == 0)
      && Lookup(r, uid) == Some(match Lookup(si, uid) case Some(prev) => Peers.Update(prev, p) case None => p)
    ensures si.Multi? ==> Lookup(r, uid) == Some(SeederMaps.Merged(SeederMaps.Live(si.sm), uid, p))
    ensures Valid(si) ==> Lookup(r, uid) == Some(Announced(si, uid, p))
    ensures Valid(si) ==> forall k :: k != uid ==> Lookup(r, k) == Lookup(si, k)
  {
    match si
    case Multi(sm) => Multi(SeederMaps.Insert(sm, uid, p))
    case Inline(sa) => InsertInline(sa, uid, p, now)
  }

  /** The inline case of `insert`, promoting to a map on overflow. */
  function InsertInline(sa: SeederArrays.SeederArray, uid: Key, p: Peers.PeerInfo, now: nat): (r: SeederInfo)
    ensures SeederArrays.Valid(sa) ==>
      && Valid(r)
      && (r.Multi? <==> SeederArrays.Lookup(sa, uid).None? && SeederArrays.Frees(sa.inUse) == 0)
      && Lookup(r, uid) == Some(match SeederArrays.Lookup(sa, uid) case Some(prev) => Peers.Update(prev, p) case None => p)
      && forall k :: k != uid ==> Lookup(r, k) == SeederArrays.Lookup(sa, k)
  {
    match SeederArrays.Insert(sa, uid, p, now)
    case Ok(sa') =>
      if SeederArrays.Valid(sa) then SeederArrays.InsertLookup(sa, uid, p, now); Inline(sa') else Inline(sa')
    case Err(_) =>
      var r := Multi(SeederMaps.Insert(SeederMaps.From(sa, now), uid, p));
      if SeederArrays.Valid(sa) then PromoteFacts(sa, uid, p, now); r else r
  }

  /** Promotion keeps every peer of the array and adds the new one. */
  lemma PromoteFacts(sa: SeederArrays.SeederArray, uid: Key, p: Peers.PeerInfo, now: nat)
    requires SeederArrays.Valid(sa) && SeederArrays.Insert(sa, uid, p, now).Err?
    ensures var sm := SeederMaps.Insert(SeederMaps.From(sa, now), uid, p);
      && SeederMaps.Valid(sm)
      && SeederArrays.Lookup(sa, uid).None? && SeederArrays.Frees(sa.inUse) == 0
      && SeederMaps.Lookup(sm, uid) == Some(p)
      && forall k :: k != uid ==> SeederMaps.Lookup(sm, k) == SeederArrays.Lookup(sa, k)
  {
    SeederArrays.InsertLookup(sa, uid, p, now);
    var from := SeederMaps.From(sa, now);
    forall k ensures SeederMaps.Lookup(from, k) == SeederArrays.Lookup(sa, k) {
      SeederArrays.LookupEntries(sa, k);
    }
  }

  /** `SeederInfo::delete`: the uid reads as absent afterwards; other uids and the variant are unchanged. */
  function Delete(si: SeederInfo, uid: Key): (r: SeederInfo)
    ensures Valid(si) ==> Valid(r)
    ensures r.Inline? == si.Inline?
    ensures Valid(si) ==> Lookup(r, uid) == None
    ensures Valid(si) ==> forall k :: k != uid ==> Lookup(r, k) == Lookup(si, k)
  {
    match si
    case Multi(sm) => Multi(SeederMaps.Delete(sm, uid))
    case Inline(sa) =>
      var r := Inline(SeederArrays.Delete(sa, uid));
      if SeederArrays.Valid(sa) then SeederArrays.DeleteLookup(sa, uid); r else r
  }

  /** The number of peers held. */
  function Count(si: SeederInfo): nat {
    match si
    case Inline(sa) => |SeederArrays.LiveEntries(sa)|
    case Multi(sm) => SeederMaps.Count(sm)
  }

  /**
   * `SeederInfo::compaction` at time `now`. An array drops its expired
   * buckets. A map compacts and, when that leaves fewer than three entries,
   * is replaced by an array holding the same peers.
   */
  function Compaction(si: SeederInfo, now: nat): (r: SeederInfo)
    ensures Valid(si) ==> Valid(r)
    ensures si.Inline? ==> r.Inline?
    ensures si.Multi? ==> (r.Inline? <==> SeederMaps.Count(SeederMaps.Compaction(si.sm, now)) < DEMOTE_BELOW)
    ensures si.Multi? && Valid(si) ==> forall k :: Lookup(r, k) == SeederMaps.Lookup(SeederMaps.Compaction(si.sm, now), k)
    ensures si.Inline? && Valid(si) ==> forall k :: Lookup(r, k) == Lookup(Inline(SeederArrays.Compaction(si.sa, now)), k)
  {
    match si
    case Inline(sa) => Inline(SeederArrays.Compaction(sa, now))
    case Multi(sm) =>
      var sm' := SeederMaps.Compaction(sm, now);
      if SeederMaps.Count(sm') < DEMOTE_BELOW then
        DemoteFacts(sm', now);
        match SeederArrays.From(SeederMaps.Iter(sm'), now)
        case Ok(sa) => Inline(sa)
        case Err(_) => Multi(sm')
      else Multi(sm')
  }

  lemma DemoteFacts(sm: SeederMaps.SeederMap, now: nat)
    requires SeederMaps.Count(sm) < DEMOTE_BELOW
    ensures SeederArrays.From(SeederMaps.Iter(sm), now).Ok?
    ensures SeederMaps.Valid(sm) ==>
      var sa := SeederArrays.From(SeederMaps.Iter(sm), now).value;
      && SeederArrays.Valid(sa)
      && forall k :: SeederArrays.Lookup(sa, k) == SeederMaps.Lookup(sm, k)
  {
    if SeederMaps.Valid(sm) {
      var es := SeederMaps.Iter(sm);
      var sa := SeederArrays.From(es, now).value;
      forall k ensures SeederArrays.Lookup(sa, k) == SeederMaps.Lookup(sm, k) {
        SeederArrays.HoldsPrefixLookup(sa, es, now, k);
      }
    }
  }

  /**
   * The peers `gen_response` serialises. An array sends all of its live
   * peers whatever `num_want` is; a map sends a window of at most `num_want`
   * peers starting at an offset chosen by `seed`, which stands for the
   * random draw in `0..=max_right`.
   */
  function Served(si: SeederInfo, numWant: nat, seed: nat): seq<Peers.PeerInfo> {
    match si
    case Inline(sa) => SeederArrays.LiveValuesFrom(sa, 0)
    case Multi(sm) =>
      Values(SeederMaps.Selected(sm, numWant, seed % (SeederMaps.MaxOffset(sm, numWant) + 1)))
  }

  /**
   * `SeederInfo::gen_response`: the three-element reply of interval, compact
   * IPv4 peers and compact IPv6 peers.
   */
  function GenResponse(si: SeederInfo, numWant: nat, seed: nat): (r: Reply)
    ensures r.Bulk? && |r.items| == 3 && r.items[0] == Int(INTERVAL)
    ensures r.items[1].Data? && CompactPeers.Decode(r.items[1].bytes, 4) == Some(CompactPeers.Addrs4(Served(si, numWant, seed)))
    ensures r.items[2].Data? && CompactPeers.Decode(r.items[2].bytes, 16) == Some(CompactPeers.Addrs6(Served(si, numWant, seed)))
  {
    var lists := match si
      case Inline(sa) => SeederArrays.GenResponse(sa)
      case Multi(sm) => SeederMaps.GenResponse(sm, numWant, seed % (SeederMaps.MaxOffset(sm, numWant) + 1));
    Bulk([Int(INTERVAL), Data(lists.0), Data(lists.1)])
  }

  /** An inline registry ignores `num_want`; a map never sends more than `num_want` peers, and sends all when it holds no more. */
  lemma ServedBounds(si: SeederInfo, numWant: nat, other: nat, seed: nat)
    ensures si.Inline? ==> Served(si, numWant, seed) == Served(si, other, seed)
    ensures si.Multi? ==> |Served(si, numWant, seed)| <= numWant
    ensures si.Multi? && SeederMaps.Count(si.sm) <= numWant ==>
      Served(si, numWant, seed) == Values(SeederMaps.Iter(si.sm))
  {
  }

  /** Every window offset the source may draw is reached by some seed. */
  lemma EveryOffsetReachable(sm: SeederMaps.SeederMap, numWant: nat, offset: nat)
    requires offset <= SeederMaps.MaxOffset(sm, numWant)
    ensures Served(Multi(sm), numWant, offset) == Values(SeederMaps.Selected(sm, numWant, offset))
  {
    SmallMod(offset, SeederMaps.MaxOffset(sm, numWant) + 1);
  }

  lemma SmallMod(a: nat, b: nat)
    requires a < b
    ensures a % b == a
  {
  }
}
