/**
 * The inline registry for small swarms: four buckets with in-use flags
 * (tracker/src/seederinfo/seederarray.rs).
 */
module SeederArrays {
  import opened Wrappers
  import opened Bytes
  import Peers
  import opened Registry
  import CompactPeers

  const LENGTH: nat := 4

  datatype Slots = Slots(seeders: seq<Bucket>, inUse: seq<bool>)

  /** Exactly four buckets and four flags, as the fixed-size arrays of the source. */
  type SeederArray = a: Slots | |a.seeders| == LENGTH && |a.inUse| == LENGTH
    witness Slots([NewBucket(), NewBucket(), NewBucket(), NewBucket()], [false, false, false, false])

  /** `insert`'s error: every slot is taken by another key. */
  datatype Full = Full

  /**
   * What the operations keep true: no slot, live or free, holds the key of a
   * later live slot. In particular live keys are pairwise distinct, and the
   * first slot whose key is `k` is the live one when `k` is live.
   */
  predicate Valid(sa: SeederArray) {
    forall i, j :: 0 <= i < j < LENGTH && sa.inUse[j] ==> sa.seeders[i].key != sa.seeders[j].key
  }

  /** Keys of the in-use slots. */
  function LiveKeys(sa: SeederArray): set<Key> {
    set i | 0 <= i < LENGTH && sa.inUse[i] :: sa.seeders[i].key
  }

  /** Keys and peers of the in-use slots, in slot order. */
  function LiveEntries(sa: SeederArray): seq<Entry> {
    LiveEntriesFrom(sa, 0)
  }

  function LiveEntriesFrom(sa: SeederArray, i: nat): seq<Entry>
    requires i <= LENGTH
    decreases LENGTH - i
  {
    if i == LENGTH then []
    else (if sa.inUse[i] then [Entry(sa.seeders[i].key, sa.seeders[i].value)] else [])
         + LiveEntriesFrom(sa, i + 1)
  }

  /** First in-use slot at or after `from` whose key is `k`. */
  function FirstLive(sa: SeederArray, k: Key, from: nat := 0): (r: Option<nat>)
    requires from <= LENGTH
    ensures r.Some? ==> from <= r.value < LENGTH && sa.inUse[r.value] && sa.seeders[r.value].key == k
    ensures r.Some? ==> forall j :: from <= j < r.value ==> !(sa.inUse[j] && sa.seeders[j].key == k)
    ensures r.None? ==> forall j :: from <= j < LENGTH ==> !(sa.inUse[j] && sa.seeders[j].key == k)
    decreases LENGTH - from
  {
    if from == LENGTH then None
    else if sa.inUse[from] && sa.seeders[from].key == k then Some(from)
    else FirstLive(sa, k, from + 1)
  }

  /** First free slot at or after `from`. */
  function FirstFree(sa: SeederArray, from: nat := 0): (r: Option<nat>)
    requires from <= LENGTH
    ensures r.Some? ==> from <= r.value < LENGTH && !sa.inUse[r.value]
    ensures r.Some? ==> forall j :: from <= j < r.value ==> sa.inUse[j]
    ensures r.None? ==> forall j :: from <= j < LENGTH ==> sa.inUse[j]
    decreases LENGTH - from
  {
    if from == LENGTH then None
    else if !sa.inUse[from] then Some(from)
    else FirstFree(sa, from + 1)
  }

  /** First slot at or after `from`, live or not, whose key is `k`. */
  function FirstKey(sa: SeederArray, k: Key, from: nat := 0): (r: Option<nat>)
    requires from <= LENGTH
    ensures r.Some? ==> from <= r.value < LENGTH && sa.seeders[r.value].key == k
    ensures r.Some? ==> forall j :: from <= j < r.value ==> sa.seeders[j].key != k
    ensures r.None? ==> forall j :: from <= j < LENGTH ==> sa.seeders[j].key != k
    decreases LENGTH - from
  {
    if from == LENGTH then None
    else if sa.seeders[from].key == k then Some(from)
    else FirstKey(sa, k, from + 1)
  }

  /** The peer stored for `k`, read from the first in-use slot holding it. */
  function Lookup(sa: SeederArray, k: Key): Option<Peers.PeerInfo> {
    match FirstLive(sa, k)
    case Some(i) => Some(sa.seeders[i].value)
    case None => None
  }

  /** `SeederArray::new`: four default buckets, none in use. */
  function New(): (sa: SeederArray)
    ensures Valid(sa)
    ensures forall i :: 0 <= i < LENGTH ==> !sa.inUse[i] && sa.seeders[i] == NewBucket()
    ensures LiveEntries(sa) == []
  {
    Slots([NewBucket(), NewBucket(), NewBucket(), NewBucket()], [false, false, false, false])
  }

  /**
   * `SeederArray::insert`. A key already held by an in-use slot is merged
   * into that slot with `PeerInfo::update` and its expiry refreshed; an
   * absent key claims the lowest free slot; with no free slot the insert
   * fails and nothing changes. No other slot is touched.
   */
  function Insert(sa: SeederArray, k: Key, v: Peers.PeerInfo, now: nat): (r: Result<SeederArray, Full>)
    ensures match FirstLive(sa, k)
      case Some(i) =>
        && r.Ok? && r.value.inUse == sa.inUse
        && r.value.seeders[i] == Bucket(now + TTL, k, Peers.Update(sa.seeders[i].value, v))
        && forall j :: 0 <= j < LENGTH && j != i ==> r.value.seeders[j] == sa.seeders[j]
      case None =>
        (match FirstFree(sa)
         case Some(m) =>
           && r.Ok? && r.value.inUse[m]
           && r.value.seeders[m] == BucketFrom(k, v, now)
           && forall j :: 0 <= j < LENGTH && j != m ==>
                r.value.seeders[j] == sa.seeders[j] && r.value.inUse[j] == sa.inUse[j]
         case None => r.Err?)
    ensures Valid(sa) && r.Ok? ==> Valid(r.value)
  {
    match FirstLive(sa, k)
    case Some(i) =>
      var b := sa.seeders[i];
      Ok(sa.(seeders := sa.seeders[i := b.(value := Peers.Update(b.value, v), timeToCompaction := now + TTL)]))
    case None =>
      match FirstFree(sa)
      case Some(m) =>
        Ok(Slots(sa.seeders[m := BucketFrom(k, v, now)], sa.inUse[m := true]))
      case None =>
        Err(Full)
  }

  /**
   * `SeederArray::delete`: clears the in-use flag of the first slot, in
   * index order, whose key is `k`, whether or not that slot was live.
   */
  function Delete(sa: SeederArray, k: Key): (r: SeederArray)
    ensures r.seeders == sa.seeders
    ensures match FirstKey(sa, k)
      case Some(i) => !r.inUse[i] && forall j :: 0 <= j < LENGTH && j != i ==> r.inUse[j] == sa.inUse[j]
      case None => r == sa
    ensures Valid(sa) ==> Valid(r) && LiveKeys(r) == LiveKeys(sa) - {k}
  {
    match FirstKey(sa, k)
    case Some(i) =>
      var r := sa.(inUse := sa.inUse[i := false]);
      assert Valid(sa) ==> LiveKeys(r) == LiveKeys(sa) - {k} by {
        if Valid(sa) {
          forall x | x in LiveKeys(sa) - {k} ensures x in LiveKeys(r) {
            var j :| 0 <= j < LENGTH && sa.inUse[j] && sa.seeders[j].key == x;
            assert r.inUse[j];
          }
          forall j | 0 <= j < LENGTH && r.inUse[j] ensures sa.seeders[j].key != k {
            if j > i { assert sa.seeders[i].key != sa.seeders[j].key; }
          }
        }
      }
      r
    case None =>
      sa
  }

  /** Frees the in-use slots at or after `from` whose expiry is before `now`. */
  function CompactFrom(sa: SeederArray, now: nat, from: nat): (r: SeederArray)
    requires from <= LENGTH
    ensures r.seeders == sa.seeders
    ensures forall j :: 0 <= j < from ==> r.inUse[j] == sa.inUse[j]
    ensures forall j :: from <= j < LENGTH ==>
      r.inUse[j] == (sa.inUse[j] && now <= sa.seeders[j].timeToCompaction)
    decreases LENGTH - from
  {
    if from == LENGTH then sa
    else if sa.inUse[from] && now > sa.seeders[from].timeToCompaction then
      CompactFrom(sa.(inUse := sa.inUse[from := false]), now, from + 1)
    else CompactFrom(sa, now, from + 1)
  }

  /**
   * `SeederArray::compaction`: frees exactly the in-use slots whose expiry
   * lies before `now`; buckets and all other flags are untouched.
   */
  function Compaction(sa: SeederArray, now: nat): (r: SeederArray)
    ensures r.seeders == sa.seeders
    ensures forall j :: 0 <= j < LENGTH ==>
      r.inUse[j] == (sa.inUse[j] && now <= sa.seeders[j].timeToCompaction)
    ensures Valid(sa) ==> Valid(r)
  {
    CompactFrom(sa, now, 0)
  }

  /** Peers of the in-use slots at or after `from`, in slot order. */
  function LiveValuesFrom(sa: SeederArray, from: nat): seq<Peers.PeerInfo>
    requires from <= LENGTH
    decreases LENGTH - from
  {
    if from == LENGTH then []
    else (if sa.inUse[from] then [sa.seeders[from].value] else []) + LiveValuesFrom(sa, from + 1)
  }

  /** Serialises the in-use slots at or after `from` into the two compact lists. */
  function GenFrom(sa: SeederArray, from: nat): (r: (seq<byte>, seq<byte>))
    requires from <= LENGTH
    ensures CompactPeers.Decode(r.0, 4) == Some(CompactPeers.Addrs4(LiveValuesFrom(sa, from)))
    ensures CompactPeers.Decode(r.1, 16) == Some(CompactPeers.Addrs6(LiveValuesFrom(sa, from)))
    decreases LENGTH - from
  {
    if from == LENGTH then ([], [])
    else
      var rest := GenFrom(sa, from + 1);
      if sa.inUse[from] then
        var p := sa.seeders[from].value;
        var r := (CompactPeers.Entry4(p) + rest.0, CompactPeers.Entry6(p) + rest.1);
        ValuesCons(sa, from);
        CompactPeers.Entry4Decodes(p, rest.0);
        CompactPeers.Entry6Decodes(p, rest.1);
        r
      else
        assert LiveValuesFrom(sa, from) == LiveValuesFrom(sa, from + 1);
        rest
  }

  lemma ValuesCons(sa: SeederArray, from: nat)
    requires from < LENGTH && sa.inUse[from]
    ensures var vs := LiveValuesFrom(sa, from);
      && vs == [sa.seeders[from].value] + LiveValuesFrom(sa, from + 1)
      && CompactPeers.Addrs4(vs) == CompactPeers.Addrs4([vs[0]]) + CompactPeers.Addrs4(LiveValuesFrom(sa, from + 1))
      && CompactPeers.Addrs6(vs) == CompactPeers.Addrs6([vs[0]]) + CompactPeers.Addrs6(LiveValuesFrom(sa, from + 1))
  {
    var vs := LiveValuesFrom(sa, from);
    assert vs[1..] == LiveValuesFrom(sa, from + 1);
  }

  /**
   * `SeederArray::gen_response`: the `peers` list holds, in slot order, the
   * IPv4 address and port of every in-use peer that has one, and `peers6`
   * likewise for IPv6.
   */
  function GenResponse(sa: SeederArray): (r: (seq<byte>, seq<byte>))
    ensures CompactPeers.Decode(r.0, 4) == Some(CompactPeers.Addrs4(LiveValuesFrom(sa, 0)))
    ensures CompactPeers.Decode(r.1, 16) == Some(CompactPeers.Addrs6(LiveValuesFrom(sa, 0)))
  {
    GenFrom(sa, 0)
  }

  /** Inserts the entries in order, stopping at the first failure. */
  function InsertAll(sa: SeederArray, es: seq<Entry>, now: nat): Result<SeederArray, Full>
    decreases |es|
  {
    if |es| == 0 then Ok(sa)
    else match Insert(sa, es[0].key, es[0].value, now)
      case Ok(next) => InsertAll(next, es[1..], now)
      case Err(e) => Err(e)
  }

  /** The first `|es|` slots hold `es` in order, freshly stamped; the rest are free. */
  predicate HoldsPrefix(sa: SeederArray, es: seq<Entry>, now: nat) {
    && |es| <= LENGTH
    && (forall i :: 0 <= i < |es| ==> sa.inUse[i] && sa.seeders[i] == BucketFrom(es[i].key, es[i].value, now))
    && (forall i :: |es| <= i < LENGTH ==> !sa.inUse[i])
  }

  /**
   * `SeederArray::from`, given the map's entries in its iteration order
   * (live generation, then passive): fails when there are four or more,
   * otherwise every entry is inserted, and distinct entries occupy a prefix
   * of the slots in that order.
   */
  function From(es: seq<Entry>, now: nat): (r: Result<SeederArray, Full>)
    ensures r.Ok? <==> |es| < LENGTH
    ensures r.Ok? && DistinctKeys(es) ==> HoldsPrefix(r.value, es, now) && Valid(r.value)
  {
    if |es| >= LENGTH then Err(Full)
    else
      InsertAllRoom(New(), es, now);
      if DistinctKeys(es) then
        FillPrefix(New(), [], es, now);
        assert [] + es == es;
        InsertAll(New(), es, now)
      else InsertAll(New(), es, now)
  }

  /** The number of free slots among `flags`. */
  function Frees(flags: seq<bool>): nat {
    if |flags| == 0 then 0 else (if flags[0] then 0 else 1) + Frees(flags[1..])
  }

  lemma {:induction false} FreesClaim(flags: seq<bool>, m: nat)
    requires m < |flags| && !flags[m]
    ensures Frees(flags[m := true]) == Frees(flags) - 1
  {
    if m == 0 {
      assert flags[m := true][1..] == flags[1..];
    } else {
      assert flags[m := true][1..] == flags[1..][m - 1 := true];
      FreesClaim(flags[1..], m - 1);
    }
  }

  lemma {:induction false} FreesNone(flags: seq<bool>)
    requires forall i :: 0 <= i < |flags| ==> flags[i]
    ensures Frees(flags) == 0
  {
    if |flags| > 0 {
      FreesNone(flags[1..]);
    }
  }

  /** An insert fails only when no slot is free, and takes at most one. */
  lemma InsertRoom(sa: SeederArray, k: Key, v: Peers.PeerInfo, now: nat)
    ensures Frees(sa.inUse) > 0 ==> Insert(sa, k, v, now).Ok?
    ensures Insert(sa, k, v, now).Ok? ==> Frees(Insert(sa, k, v, now).value.inUse) + 1 >= Frees(sa.inUse)
  {
    if FirstLive(sa, k).None? {
      match FirstFree(sa)
      case Some(m) =>
        var r := Insert(sa, k, v, now).value;
        assert r.inUse == sa.inUse[m := true];
        FreesClaim(sa.inUse, m);
      case None =>
        FreesNone(sa.inUse);
    }
  }

  /** Inserting no more entries than there are free slots cannot fail. */
  lemma {:induction false} InsertAllRoom(sa: SeederArray, es: seq<Entry>, now: nat)
    requires |es| <= Frees(sa.inUse)
    ensures InsertAll(sa, es, now).Ok?
    decreases |es|
  {
    if |es| > 0 {
      InsertRoom(sa, es[0].key, es[0].value, now);
      InsertAllRoom(Insert(sa, es[0].key, es[0].value, now).value, es[1..], now);
    }
  }

  lemma {:induction false} FillPrefix(sa: SeederArray, done: seq<Entry>, es: seq<Entry>, now: nat)
    requires DistinctKeys(done + es) && |done + es| < LENGTH
    requires HoldsPrefix(sa, done, now)
    ensures InsertAll(sa, es, now).Ok?
    ensures HoldsPrefix(InsertAll(sa, es, now).value, done + es, now)
    ensures Valid(InsertAll(sa, es, now).value)
    decreases |es|
  {
    if |es| == 0 {
      assert done + es == done;
      assert Valid(sa) by {
        forall i, j | 0 <= i < j < LENGTH && sa.inUse[j] ensures sa.seeders[i].key != sa.seeders[j].key {
          assert (done + es)[i] == done[i] && (done + es)[j] == done[j];
        }
      }
    } else {
      var e := es[0];
      var n := |done|;
      assert (done + es)[n] == e;
      assert FirstLive(sa, e.key).None? by {
        forall j | 0 <= j < LENGTH && sa.inUse[j] ensures sa.seeders[j].key != e.key {
          assert (done + es)[j] == done[j];
        }
      }
      assert FirstFree(sa) == Some(n);
      var next := Insert(sa, e.key, e.value, now).value;
      assert done + es == (done + [e]) + es[1..];
      FillPrefix(next, done + [e], es[1..], now);
    }
  }

  /** Under `Valid`, the in-use slots hold distinct keys, so their entries form a table. */
  lemma LiveEntriesDistinct(sa: SeederArray)
    requires Valid(sa)
    ensures DistinctKeys(LiveEntries(sa))
  {
    LiveEntriesFromDistinct(sa, 0);
  }

  lemma {:induction false} LiveEntriesFromDistinct(sa: SeederArray, from: nat)
    requires Valid(sa) && from <= LENGTH
    ensures DistinctKeys(LiveEntriesFrom(sa, from))
    ensures forall e :: e in LiveEntriesFrom(sa, from) ==>
      exists j :: from <= j < LENGTH && sa.inUse[j] && sa.seeders[j].key == e.key
    decreases LENGTH - from
  {
    if from < LENGTH {
      LiveEntriesFromDistinct(sa, from + 1);
      var rest := LiveEntriesFrom(sa, from + 1);
      if sa.inUse[from] {
        var head := Entry(sa.seeders[from].key, sa.seeders[from].value);
        assert LiveEntriesFrom(sa, from) == [head] + rest;
        forall j | 0 <= j < |rest| ensures rest[j].key != head.key {
          assert rest[j] in rest;
        }
      } else {
        assert LiveEntriesFrom(sa, from) == rest;
      }
    }
  }

  /** Reading the array agrees with reading its in-use entries in slot order. */
  lemma LookupEntries(sa: SeederArray, k: Key)
    ensures Lookup(sa, k) == Get(LiveEntries(sa), k)
  {
    LookupEntriesFrom(sa, k, 0);
  }

  lemma {:induction false} LookupEntriesFrom(sa: SeederArray, k: Key, from: nat)
    requires from <= LENGTH
    ensures Get(LiveEntriesFrom(sa, from), k) ==
      match FirstLive(sa, k, from)
      case Some(i) => Some(sa.seeders[i].value)
      case None => None
    decreases LENGTH - from
  {
    if from < LENGTH {
      LookupEntriesFrom(sa, k, from + 1);
      var head := if sa.inUse[from] then [Entry(sa.seeders[from].key, sa.seeders[from].value)] else [];
      GetAppend(head, LiveEntriesFrom(sa, from + 1), k);
    }
  }

  /** A slot that is the first live holder of `k` is what `FirstLive` finds. */
  lemma FirstLiveIs(sa: SeederArray, k: Key, i: nat)
    requires i < LENGTH && sa.inUse[i] && sa.seeders[i].key == k
    requires forall j :: 0 <= j < i ==> !(sa.inUse[j] && sa.seeders[j].key == k)
    ensures FirstLive(sa, k) == Some(i)
  {
  }

  /**
   * Seen through `Lookup`, a successful insert stores the merged peer for
   * `k` and changes no other key; it fails exactly when `k` is absent and
   * every slot is taken.
   */
  lemma InsertLookup(sa: SeederArray, k: Key, v: Peers.PeerInfo, now: nat)
    requires Valid(sa)
    ensures Insert(sa, k, v, now).Err? <==> Lookup(sa, k).None? && Frees(sa.inUse) == 0
    ensures Insert(sa, k, v, now).Ok? ==>
      var r := Insert(sa, k, v, now).value;
      && Lookup(r, k) == Some(match Lookup(sa, k) case Some(prev) => Peers.Update(prev, v) case None => v)
      && forall k' :: k' != k ==> Lookup(r, k') == Lookup(sa, k')
  {
    InsertRoom(sa, k, v, now);
    var res := Insert(sa, k, v, now);
    match FirstLive(sa, k)
    case Some(i) =>
      var r := res.value;
      assert forall j :: 0 <= j < LENGTH ==> r.seeders[j].key == sa.seeders[j].key;
      FirstLiveIs(r, k, i);
      forall k' | k' != k ensures Lookup(r, k') == Lookup(sa, k') {
        match FirstLive(sa, k')
        case Some(i') => FirstLiveIs(r, k', i');
        case None =>
      }
    case None =>
      match FirstFree(sa)
      case Some(m) =>
        var r := res.value;
        FreesClaim(sa.inUse, m);
        FirstLiveIs(r, k, m);
        forall k' | k' != k ensures Lookup(r, k') == Lookup(sa, k') {
          match FirstLive(sa, k')
          case Some(i') => FirstLiveIs(r, k', i');
          case None =>
        }
      case None =>
        FreesNone(sa.inUse);
  }

  /** Seen through `Lookup`, delete removes `k` and changes no other key. */
  lemma DeleteLookup(sa: SeederArray, k: Key)
    requires Valid(sa)
    ensures Lookup(Delete(sa, k), k) == None
    ensures forall k' :: k' != k ==> Lookup(Delete(sa, k), k') == Lookup(sa, k')
  {
    var r := Delete(sa, k);
    assert k !in LiveKeys(r);
    forall k' | k' != k ensures Lookup(r, k') == Lookup(sa, k') {
      match FirstLive(sa, k')
      case Some(i') => FirstLiveIs(r, k', i');
      case None =>
    }
  }

  /** Seen through `Lookup`, compaction forgets exactly the keys whose bucket has expired. */
  lemma CompactionLookup(sa: SeederArray, now: nat, k: Key)
    requires Valid(sa)
    ensures Lookup(Compaction(sa, now), k) ==
      match FirstLive(sa, k)
      case Some(i) => if now <= sa.seeders[i].timeToCompaction then Some(sa.seeders[i].value) else None
      case None => None
  {
    var r := Compaction(sa, now);
    match FirstLive(sa, k)
    case Some(i) =>
      if now <= sa.seeders[i].timeToCompaction {
        FirstLiveIs(r, k, i);
      } else {
        assert forall j :: 0 <= j < LENGTH && j != i ==> !(sa.inUse[j] && sa.seeders[j].key == k);
      }
    case None =>
  }

  /** When distinct entries fill a prefix of the slots, the array reads as those entries. */
  lemma HoldsPrefixLookup(sa: SeederArray, es: seq<Entry>, now: nat, k: Key)
    requires HoldsPrefix(sa, es, now) && DistinctKeys(es)
    ensures Lookup(sa, k) == Get(es, k)
  {
    LookupEntries(sa, k);
    assert LiveEntries(sa) == es by {
      PrefixEntries(sa, es, now, 0);
      assert es[0..] == es;
    }
  }

  lemma {:induction false} PrefixEntries(sa: SeederArray, es: seq<Entry>, now: nat, from: nat)
    requires HoldsPrefix(sa, es, now) && from <= LENGTH
    ensures LiveEntriesFrom(sa, from) == if from <= |es| then es[from..] else []
    decreases LENGTH - from
  {
    if from < LENGTH {
      PrefixEntries(sa, es, now, from + 1);
      if from < |es| {
        assert es[from..] == [es[from]] + es[from + 1..];
      }
    }
  }
}
