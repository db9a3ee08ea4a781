/**
 * Shared vocabulary of the per-torrent peer registry
 * (tracker/src/seederinfo/mod.rs): keys, the refresh window, buckets and
 * the insertion-ordered tables the large registry is built from.
 */
module Registry {
  import opened Wrappers
  import opened Bytes
  import Peers

  /** A peer key: the announcing user's id. */
  type Key = u64

  /** Seconds an entry lives after its last announce. */
  const TTL: nat := 2700

  /** One registry slot: expiry time, peer key and the peer's addresses. */
  datatype Bucket = Bucket(timeToCompaction: nat, key: Key, value: Peers.PeerInfo)

  /** `Bucket::new` (also `Default`): key 0, expiry 0, an address-less peer. */
  function NewBucket(): (b: Bucket)
    ensures b.key == 0 && b.timeToCompaction == 0
    ensures Peers.GetIpv4(b.value).None? && Peers.GetIpv6(b.value).None? && Peers.GetPort(b.value) == 0
  {
    Bucket(0, 0, Peers.New())
  }

  /** `Bucket::from`: a fresh bucket for `k` that expires one window after `now`. */
  function BucketFrom(k: Key, v: Peers.PeerInfo, now: nat): (b: Bucket)
    ensures b.timeToCompaction == now + TTL && b.key == k && b.value == v
  {
    Bucket(now + TTL, k, v)
  }

  /** One entry of an insertion-ordered table. */
  datatype Entry = Entry(key: Key, value: Peers.PeerInfo)

  predicate DistinctKeys(t: seq<Entry>) {
    forall i, j :: 0 <= i < j < |t| ==> t[i].key != t[j].key
  }

  /** An `IndexMap<Key, PeerInfo>`: entries in insertion order, each key at most once. */
  type Table = t: seq<Entry> | DistinctKeys(t) witness []

  function KeySet(t: seq<Entry>): set<Key> {
    set i | 0 <= i < |t| :: t[i].key
  }

  function Values(t: seq<Entry>): seq<Peers.PeerInfo> {
    seq(|t|, i requires 0 <= i < |t| => t[i].value)
  }

  /** Position of the first entry with key `k`. */
  function Find(t: seq<Entry>, k: Key): (r: Option<nat>)
    ensures r.Some? ==> r.value < |t| && t[r.value].key == k
    ensures r.Some? ==> forall j :: 0 <= j < r.value ==> t[j].key != k
    ensures r.None? <==> k !in KeySet(t)
  {
    if |t| == 0 then None
    else if t[0].key == k then Some(0)
    else match Find(t[1..], k)
      case Some(i) => Some(i + 1)
      case None =>
        assert KeySet(t) == {t[0].key} + KeySet(t[1..]);
        None
  }

  /** `IndexMap::get`. */
  function Get(t: seq<Entry>, k: Key): Option<Peers.PeerInfo> {
    match Find(t, k)
    case Some(i) => Some(t[i].value)
    case None => None
  }

  /** In a table with distinct keys, a lookup finds a value exactly when that entry is present. */
  lemma GetMembership(t: Table, k: Key, v: Peers.PeerInfo)
    ensures Get(t, k) == Some(v) <==> Entry(k, v) in t
  {
    if Entry(k, v) in t {
      var i :| 0 <= i < |t| && t[i] == Entry(k, v);
      assert Find(t, k) == Some(i);
    }
  }

  /** A key is found exactly when it is one of the table's keys. */
  lemma GetSome(t: Table, k: Key)
    ensures Get(t, k).Some? <==> k in KeySet(t)
  {
  }

  /** `IndexMap::insert`: a present key has its value replaced in place, a new key is appended. */
  function Insert(t: Table, k: Key, v: Peers.PeerInfo): (r: Table)
    ensures KeySet(r) == KeySet(t) + {k}
    ensures k !in KeySet(t) ==> r == t + [Entry(k, v)]
    ensures forall e :: e in r <==> e == Entry(k, v) || (e in t && e.key != k)
  {
    match Find(t, k)
    case Some(i) =>
      var r := t[i := Entry(k, v)];
      assert KeySet(r) == KeySet(t) by {
        forall x | x in KeySet(t) ensures x in KeySet(r) {
          var j :| 0 <= j < |t| && t[j].key == x;
          assert r[j].key == x;
        }
      }
      forall e | e in r ensures e == Entry(k, v) || (e in t && e.key != k) {
        var j :| 0 <= j < |r| && r[j] == e;
        if j != i { assert r[j] == t[j]; }
      }
      forall e | e in t && e.key != k ensures e in r {
        var j :| 0 <= j < |t| && t[j] == e;
        assert r[j] == e;
      }
      assert r[i] == Entry(k, v);
      r
    case None =>
      var r := t + [Entry(k, v)];
      assert KeySet(r) == KeySet(t) + {k} by {
        assert r[|t|].key == k;
        forall x | x in KeySet(t) ensures x in KeySet(r) {
          var j :| 0 <= j < |t| && t[j].key == x;
          assert r[j].key == x;
        }
      }
      r
  }

  /**
   * `IndexMap::swap_remove`: the entry with key `k` is removed and the last
   * entry is moved into its place.
   */
  function SwapRemove(t: Table, k: Key): (r: Table)
    ensures forall e :: e in r <==> e in t && e.key != k
    ensures |r| == if k in KeySet(t) then |t| - 1 else |t|
    ensures k !in KeySet(r)
  {
    match Find(t, k)
    case Some(i) =>
      SwapOutDistinct(t, i);
      SwapOutMembers(t, i);
      SwapOutKeyGone(t, i);
      SwapOut(t, i)
    case None =>
      t
  }

  /** The entries with the one at `i` replaced by the last one, which leaves the end. */
  function SwapOut(t: seq<Entry>, i: nat): seq<Entry>
    requires i < |t|
  {
    var last := |t| - 1;
    if i == last then t[..i] else t[..i] + [t[last]] + t[i + 1..last]
  }

  /** Every position of `SwapOut(t, i)` holds an entry of `t` other than the one at `i`. */
  lemma SwapOutAt(t: seq<Entry>, i: nat, j: nat)
    requires i < |t| && j < |t| - 1
    ensures |SwapOut(t, i)| == |t| - 1
    ensures SwapOut(t, i)[j] == if j == i then t[|t| - 1] else t[j]
  {
  }

  lemma SwapOutDistinct(t: Table, i: nat)
    requires i < |t|
    ensures DistinctKeys(SwapOut(t, i))
  {
    var r := SwapOut(t, i);
    forall a, b | 0 <= a < b < |r| ensures r[a].key != r[b].key {
      SwapOutAt(t, i, a);
      SwapOutAt(t, i, b);
    }
  }

  lemma SwapOutMembers(t: Table, i: nat)
    requires i < |t|
    ensures forall e :: e in SwapOut(t, i) <==> e in t && e.key != t[i].key
  {
    var r := SwapOut(t, i);
    var last := |t| - 1;
    forall e | e in t && e.key != t[i].key ensures e in r {
      var j :| 0 <= j < |t| && t[j] == e;
      if j == last {
        SwapOutAt(t, i, i);
      } else {
        SwapOutAt(t, i, j);
      }
    }
    forall e | e in r ensures e in t && e.key != t[i].key {
      var j :| 0 <= j < |r| && r[j] == e;
      SwapOutAt(t, i, j);
    }
  }

  lemma SwapOutKeyGone(t: Table, i: nat)
    requires i < |t|
    ensures t[i].key !in KeySet(SwapOut(t, i))
  {
    var r := SwapOut(t, i);
    forall j | 0 <= j < |r| ensures r[j].key != t[i].key {
      SwapOutAt(t, i, j);
    }
  }

  /** Lookup after `IndexMap::insert`: the new value for `k`, everything else as before. */
  lemma GetInsert(t: Table, k: Key, v: Peers.PeerInfo, k': Key)
    ensures Get(Insert(t, k, v), k') == if k' == k then Some(v) else Get(t, k')
  {
    var r := Insert(t, k, v);
    SameEntriesSameGet(r, if k' == k then [Entry(k, v)] else t, k');
  }

  /** Lookup after `IndexMap::swap_remove`: nothing for `k`, everything else as before. */
  lemma GetSwapRemove(t: Table, k: Key, k': Key)
    ensures Get(SwapRemove(t, k), k') == if k' == k then None else Get(t, k')
  {
    if k' != k {
      SameEntriesSameGet(SwapRemove(t, k), t, k');
    }
  }

  /** Two tables holding the same entries for a key answer the same for it. */
  lemma SameEntriesSameGet(a: Table, b: Table, k: Key)
    requires forall v :: Entry(k, v) in a <==> Entry(k, v) in b
    ensures Get(a, k) == Get(b, k)
  {
    match Get(a, k)
    case Some(v) => GetMembership(a, k, v); GetMembership(b, k, v);
    case None =>
      match Get(b, k)
      case Some(w) => GetMembership(a, k, w); GetMembership(b, k, w);
      case None =>
  }

  /** Reading a concatenation consults the first part, then the second. */
  lemma {:induction false} GetAppend(a: seq<Entry>, b: seq<Entry>, k: Key)
    ensures Get(a + b, k) == Get(a, k).Or(Get(b, k))
  {
    if |a| > 0 {
      assert (a + b)[1..] == a[1..] + b;
      GetAppend(a[1..], b, k);
    } else {
      assert a + b == b;
    }
  }

  /** Two tables with disjoint key sets concatenate into a table. */
  lemma AppendDistinct(a: Table, b: Table)
    requires KeySet(a) !! KeySet(b)
    ensures DistinctKeys(a + b)
  {
    forall i, j | 0 <= i < j < |a + b| ensures (a + b)[i].key != (a + b)[j].key {
      if i < |a| && j >= |a| {
        assert (a + b)[i].key in KeySet(a);
        assert (a + b)[j] == b[j - |a|];
        assert (a + b)[j].key in KeySet(b);
      }
    }
  }
}
