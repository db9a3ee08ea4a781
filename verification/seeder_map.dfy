/**
 * The registry for large swarms: two insertion-ordered generations, one of
 * them live (taking writes), flipped when the refresh window runs out
 * (tracker/src/seederinfo/seedermap.rs).
 */
module SeederMaps {
  import opened Wrappers
  import opened Bytes
  import Peers
  import opened Registry
  import CompactPeers
  import SeederArrays

  /** Index of a generation: 0 or 1. */
  type Bit = b: int | 0 <= b <= 1

  /** The two generations, the next compaction time and which generation is live (`mit`). */
  datatype SeederMap = SeederMap(map0: Table, map1: Table, timeToCompaction: nat, mit: Bit)

  /** The generation that takes writes. */
  function Live(sm: SeederMap): Table {
    if sm.mit == 0 then sm.map0 else sm.map1
  }

  /** The generation that only ages out. */
  function Passive(sm: SeederMap): Table {
    if sm.mit == 0 then sm.map1 else sm.map0
  }

  /** Replaces the live and the passive generation, keeping the time and the index. */
  function WithTables(sm: SeederMap, live: Table, passive: Table): (r: SeederMap)
    ensures Live(r) == live && Passive(r) == passive
    ensures r.mit == sm.mit && r.timeToCompaction == sm.timeToCompaction
  {
    if sm.mit == 0 then sm.(map0 := live, map1 := passive) else sm.(map1 := live, map0 := passive)
  }

  /** What every operation keeps: no key is in both generations. */
  predicate Valid(sm: SeederMap) {
    KeySet(Live(sm)) !! KeySet(Passive(sm))
  }

  /** Reads consult the live generation first, then the passive one. */
  function Lookup(sm: SeederMap, k: Key): Option<Peers.PeerInfo> {
    Get(Live(sm), k).Or(Get(Passive(sm), k))
  }

  /** `SeederMap::new`: both generations empty, generation 0 live, compaction one window away. */
  function New(now: nat): (sm: SeederMap)
    ensures Valid(sm) && Live(sm) == [] && Passive(sm) == []
    ensures sm.mit == 0 && sm.timeToCompaction == now + TTL
  {
    SeederMap([], [], now + TTL, 0)
  }

  /** `get_seeder_cnt`: the number of entries over both generations. */
  function Count(sm: SeederMap): (n: nat)
    ensures n == |Live(sm)| + |Passive(sm)|
  {
    |sm.map0| + |sm.map1|
  }

  /** `SeederMap::iter`: live entries then passive ones, each in insertion order. */
  function Iter(sm: SeederMap): (r: seq<Entry>)
    ensures |r| == Count(sm)
    ensures Valid(sm) ==> DistinctKeys(r)
    ensures forall k :: Get(r, k) == Lookup(sm, k)
  {
    IterFacts(sm);
    Live(sm) + Passive(sm)
  }

  lemma IterFacts(sm: SeederMap)
    ensures Valid(sm) ==> DistinctKeys(Live(sm) + Passive(sm))
    ensures forall k :: Get(Live(sm) + Passive(sm), k) == Lookup(sm, k)
  {
    if Valid(sm) {
      AppendDistinct(Live(sm), Passive(sm));
    }
    forall k ensures Get(Live(sm) + Passive(sm), k) == Lookup(sm, k) {
      GetAppend(Live(sm), Passive(sm), k);
    }
  }

  /** The peer `insert` stores for `uid`: merged into a live entry, else as given. */
  function Merged(live: Table, uid: Key, p: Peers.PeerInfo): Peers.PeerInfo {
    match Get(live, uid)
    case Some(prev) => Peers.Update(prev, p)
    case None => p
  }

  /**
   * `SeederMap::insert`. A uid already live is merged with
   * `PeerInfo::update`; otherwise the new peer is stored as given, even when
   * the passive generation held an older entry for it. The uid is then
   * removed from the passive generation. Other keys are untouched.
   */
  function Insert(sm: SeederMap, uid: Key, p: Peers.PeerInfo): (r: SeederMap)
    ensures Get(Live(r), uid) == Some(Merged(Live(sm), uid, p))
    ensures uid !in KeySet(Passive(r))
    ensures forall k :: k != uid ==> Get(Live(r), k) == Get(Live(sm), k) && Get(Passive(r), k) == Get(Passive(sm), k)
    ensures KeySet(Live(r)) == KeySet(Live(sm)) + {uid}
    ensures KeySet(Passive(r)) == KeySet(Passive(sm)) - {uid}
    ensures Valid(sm) ==> Valid(r)
    ensures r.mit == sm.mit && r.timeToCompaction == sm.timeToCompaction
  {
    var stored := Merged(Live(sm), uid, p);
    var live' := Registry.Insert(Live(sm), uid, stored);
    var passive' := SwapRemove(Passive(sm), uid);
    InsertFacts(Live(sm), Passive(sm), uid, stored);
    WithTables(sm, live', passive')
  }

  lemma InsertFacts(live: Table, passive: Table, uid: Key, v: Peers.PeerInfo)
    ensures forall k :: Get(Registry.Insert(live, uid, v), k) == (if k == uid then Some(v) else Get(live, k))
    ensures forall k :: Get(SwapRemove(passive, uid), k) == (if k == uid then None else Get(passive, k))
    ensures KeySet(SwapRemove(passive, uid)) == KeySet(passive) - {uid}
  {
    forall k ensures Get(Registry.Insert(live, uid, v), k) == (if k == uid then Some(v) else Get(live, k))
                 && Get(SwapRemove(passive, uid), k) == (if k == uid then None else Get(passive, k)) {
      GetInsert(live, uid, v, k);
      GetSwapRemove(passive, uid, k);
    }
    RemoveKeySet(passive, uid);
  }

  lemma RemoveKeySet(t: Table, uid: Key)
    ensures KeySet(SwapRemove(t, uid)) == KeySet(t) - {uid}
  {
    var r := SwapRemove(t, uid);
    forall x | x in KeySet(t) - {uid} ensures x in KeySet(r) {
      var i :| 0 <= i < |t| && t[i].key == x;
      assert t[i] in t;
      var e :| e in r && e == t[i];
      var j :| 0 <= j < |r| && r[j] == e;
    }
    forall x | x in KeySet(r) ensures x in KeySet(t) - {uid} {
      var j :| 0 <= j < |r| && r[j].key == x;
      assert r[j] in r;
      var i :| 0 <= i < |t| && t[i] == r[j];
    }
  }

  /** `SeederMap::delete`: the uid is removed from both generations; other keys are untouched. */
  function Delete(sm: SeederMap, uid: Key): (r: SeederMap)
    ensures uid !in KeySet(Live(r)) && uid !in KeySet(Passive(r))
    ensures forall k :: k != uid ==> Get(Live(r), k) == Get(Live(sm), k) && Get(Passive(r), k) == Get(Passive(sm), k)
    ensures KeySet(Live(r)) == KeySet(Live(sm)) - {uid}
    ensures KeySet(Passive(r)) == KeySet(Passive(sm)) - {uid}
    ensures Valid(sm) ==> Valid(r)
    ensures r.mit == sm.mit && r.timeToCompaction == sm.timeToCompaction
  {
    InsertFacts(Live(sm), Passive(sm), uid, Peers.New());
    InsertFacts(Passive(sm), Live(sm), uid, Peers.New());
    WithTables(sm, SwapRemove(Live(sm), uid), SwapRemove(Passive(sm), uid))
  }

  /**
   * `SeederMap::compaction`. Once `now` is past the compaction time, the
   * passive generation is discarded, the live one becomes passive, an empty
   * one becomes live, and the compaction time is set to `now` itself (not
   * one window later). Before that it changes nothing.
   */
  function Compaction(sm: SeederMap, now: nat): (r: SeederMap)
    ensures now > sm.timeToCompaction ==>
      && Live(r) == [] && Passive(r) == Live(sm)
      && r.mit != sm.mit && r.timeToCompaction == now
    ensures now <= sm.timeToCompaction ==> r == sm
    ensures Valid(r)  == (Valid(sm) || now > sm.timeToCompaction)
  {
    if now > sm.timeToCompaction then
      var emptied := WithTables(sm, Live(sm), []);
      emptied.(timeToCompaction := now, mit := 1 - sm.mit)
    else sm
  }

  /** The largest random offset `gen_response` may draw: `cnt - num_want`, or 0. */
  function MaxOffset(sm: SeederMap, numWant: nat): nat {
    if Count(sm) > numWant then Count(sm) - numWant else 0
  }

  /** The entries `gen_response` serialises for a given offset: skip `rand`, take `num_want`. */
  function Selected(sm: SeederMap, numWant: nat, rand: nat): (r: seq<Entry>)
    requires rand <= MaxOffset(sm, numWant)
    ensures |r| <= numWant
    ensures Count(sm) <= numWant ==> r == Iter(sm)
    ensures Count(sm) >= numWant ==> |r| == numWant
  {
    var all := Iter(sm);
    var end := if rand + numWant < |all| then rand + numWant else |all|;
    all[rand..end]
  }

  /**
   * `SeederMap::gen_response` for a random offset `rand` drawn from
   * `0..=MaxOffset`: serialises `Selected`, in order. At most `num_want`
   * peers are sent, and every peer when there are no more than that.
   */
  function GenResponse(sm: SeederMap, numWant: nat, rand: nat): (r: (seq<byte>, seq<byte>))
    requires rand <= MaxOffset(sm, numWant)
    ensures CompactPeers.Decode(r.0, 4) == Some(CompactPeers.Addrs4(Values(Selected(sm, numWant, rand))))
    ensures CompactPeers.Decode(r.1, 16) == Some(CompactPeers.Addrs6(Values(Selected(sm, numWant, rand))))
  {
    var all := Iter(sm);
    var end := if rand + numWant < |all| then rand + numWant else |all|;
    CompactPeers.Lists(Values(all[rand..end]))
  }

  /** Inserts entries in order. */
  function InsertEntries(sm: SeederMap, es: seq<Entry>): SeederMap
    decreases |es|
  {
    if |es| == 0 then sm else InsertEntries(Insert(sm, es[0].key, es[0].value), es[1..])
  }

  /**
   * `SeederMap::from`: a new map into which every in-use bucket of the array
   * is inserted in slot order. They all land in the live generation, in that
   * order; the passive generation stays empty.
   */
  function From(sa: SeederArrays.SeederArray, now: nat): (r: SeederMap)
    ensures SeederArrays.Valid(sa) ==>
      && Live(r) == SeederArrays.LiveEntries(sa) && Passive(r) == []
      && Valid(r) && r.timeToCompaction == now + TTL
  {
    FromFacts(sa, now);
    InsertEntries(New(now), SeederArrays.LiveEntries(sa))
  }

  lemma FromFacts(sa: SeederArrays.SeederArray, now: nat)
    ensures var r := InsertEntries(New(now), SeederArrays.LiveEntries(sa));
      SeederArrays.Valid(sa) ==>
        && Live(r) == SeederArrays.LiveEntries(sa) && Passive(r) == []
        && Valid(r) && r.timeToCompaction == now + TTL
  {
    if SeederArrays.Valid(sa) {
      var es := SeederArrays.LiveEntries(sa);
      SeederArrays.LiveEntriesDistinct(sa);
      assert [] + es == es;
      AppendFresh(New(now), [], es);
    }
  }

  lemma {:induction false} AppendFresh(sm: SeederMap, done: seq<Entry>, es: seq<Entry>)
    requires DistinctKeys(done + es)
    requires Live(sm) == done && Passive(sm) == []
    ensures Live(InsertEntries(sm, es)) == done + es && Passive(InsertEntries(sm, es)) == []
    ensures InsertEntries(sm, es).timeToCompaction == sm.timeToCompaction
    decreases |es|
  {
    if |es| == 0 {
      assert done + es == done;
    } else {
      var e := es[0];
      assert (done + es)[|done|] == e;
      assert e.key !in KeySet(done) by {
        forall j | 0 <= j < |done| ensures done[j].key != e.key {
          assert (done + es)[j] == done[j];
        }
      }
      var next := Insert(sm, e.key, e.value);
      assert Live(next) == done + [e];
      assert done + es == (done + [e]) + es[1..];
      AppendFresh(next, done + [e], es[1..]);
    }
  }

  /**
   * An entry that is not refreshed is still served from the passive
   * generation after one flip, and gone after the next one.
   */
  lemma UnrefreshedEntryLifetime(sm: SeederMap, k: Key, now1: nat, now2: nat)
    requires Valid(sm) && Get(Live(sm), k).Some?
    requires now1 > sm.timeToCompaction && now2 > now1
    ensures Lookup(Compaction(sm, now1), k) == Get(Live(sm), k)
    ensures Lookup(Compaction(Compaction(sm, now1), now2), k) == None
  {
  }
}
