/**
 * The proxy's passkey filter (`proxy/src/filter.rs`): a counting Bloom filter
 * in front of which updates are queued and committed in batches, and which is
 * rebuilt from a full key list when it has grown past its capacity.
 *
 * The Bloom filter itself is modelled as an exact count per key, so the model
 * has no false positives; the statements below are about what the batching
 * and expansion logic around it guarantee.
 */
module PasskeyFilter {
  import opened Wrappers
  import opened Bytes

  datatype Operation = Set | Delete

  /** One queued update. */
  datatype Pending = Pending(key: string, op: Operation)

  /** How many times each key has been counted in; an absent key counts zero. */
  type Counts = map<string, nat>

  const BATCH_SIZE: nat := 32
  const INITIAL_CAPACITY: u32 := 8192

  datatype Filter = Filter(
    inner: Counts,
    capacity: u32,
    cache: seq<Pending>,
    amount: u32,
    inExpand: bool)

  /** `AtomicU32` arithmetic: `fetch_add` and `fetch_sub` wrap around. */
  function Wrap(x: int): (r: u32)
    ensures 0 <= x < U32_LIMIT ==> r == x
    ensures x == -1 ==> r == U32_LIMIT - 1
  {
    x % U32_LIMIT
  }

  function Count(c: Counts, key: string): nat {
    if key in c then c[key] else 0
  }

  /** `insert_get_count`: one more count for `key`, no other key touched. */
  function Add(c: Counts, key: string): (r: Counts)
    ensures Count(r, key) == Count(c, key) + 1
    ensures forall k :: k != key ==> Count(r, k) == Count(c, k)
  {
    c[key := Count(c, key) + 1]
  }

  /** `remove`: one count less for `key`; a key that is not counted is left alone. */
  function Remove(c: Counts, key: string): (r: Counts)
    ensures Count(r, key) == if Count(c, key) == 0 then 0 else Count(c, key) - 1
    ensures forall k :: k != key ==> Count(r, k) == Count(c, k)
  {
    if Count(c, key) == 0 then c else c[key := Count(c, key) - 1]
  }

  /** The effect of one queued update on the counts. */
  function Step(c: Counts, p: Pending): Counts {
    match p.op
    case Set => Add(c, p.key)
    case Delete => Remove(c, p.key)
  }

  /** The counts after applying a queue of updates in order. */
  function Apply(c: Counts, ops: seq<Pending>): Counts
    decreases |ops|
  {
    if |ops| == 0 then c else Apply(Step(c, ops[0]), ops[1..])
  }

  /** The change a queue of updates makes to `amount`: one up per set, one down per delete. */
  function Net(ops: seq<Pending>): int
    decreases |ops|
  {
    if |ops| == 0 then 0 else (if ops[0].op.Set? then 1 else -1) + Net(ops[1..])
  }

  /** Number of sets in a queue. */
  function Sets(ops: seq<Pending>): nat
    decreases |ops|
  {
    if |ops| == 0 then 0 else (if ops[0].op.Set? then 1 else 0) + Sets(ops[1..])
  }

  /** The queue holds a set for `key`. */
  predicate CachedSet(ops: seq<Pending>, key: string) {
    exists i :: 0 <= i < |ops| && ops[i] == Pending(key, Set)
  }

  /** The counts with every queued update applied: what the filter stands for. */
  function Effective(f: Filter): Counts {
    Apply(f.inner, f.cache)
  }

  /** `new`: empty, capacity 8192, not expanding. */
  function New(): (r: Filter)
    ensures forall k :: Count(r.inner, k) == 0
    ensures r.cache == [] && r.amount == 0 && !r.inExpand
    ensures r.capacity == 8192
  {
    Filter(map[], INITIAL_CAPACITY, [], 0, false)
  }

  /**
   * `batch_update` of the whole cache (`fetch_cache` empties it): every queued
   * update reaches the counts, and `amount` moves by one per update, wrapping.
   */
  function Commit(f: Filter): (r: Filter)
    ensures r.cache == []
    ensures r.inner == Effective(f)
    ensures r.amount == Wrap(f.amount + Net(f.cache))
    ensures Effective(r) == Effective(f)
    ensures r.capacity == f.capacity && r.inExpand == f.inExpand
  {
    Filter(Apply(f.inner, f.cache), f.capacity, [], BatchAmount(f.amount, f.cache), f.inExpand)
  }

  /** `amount` after the updates of a queue, one wrapping step at a time. */
  function BatchAmount(amount: u32, ops: seq<Pending>): (r: u32)
    ensures r == Wrap(amount + Net(ops))
    decreases |ops|
  {
    if |ops| == 0 then amount
    else
      var next := Wrap(amount + if ops[0].op.Set? then 1 else -1);
      var r := BatchAmount(next, ops[1..]);
      WrapAdd(amount, if ops[0].op.Set? then 1 else -1, Net(ops[1..]));
      r
  }

  lemma WrapAdd(a: int, b: int, c: int)
    ensures Wrap(Wrap(a + b) + c) == Wrap(a + b + c)
  {
  }

  /**
   * `insert` and `delete`: queue the update; when the queue has grown past
   * `BATCH_SIZE` and no expansion is running, commit it.
   */
  function Push(f: Filter, p: Pending): (r: Filter)
    ensures r.capacity == f.capacity && r.inExpand == f.inExpand
    ensures Effective(r) == Step(Effective(f), p)
    ensures |f.cache| + 1 > BATCH_SIZE && !f.inExpand ==> r.cache == [] && r.amount == Wrap(f.amount + Net(f.cache + [p]))
    ensures !(|f.cache| + 1 > BATCH_SIZE && !f.inExpand) ==> r.cache == f.cache + [p] && r.inner == f.inner && r.amount == f.amount
  {
    var queued := f.(cache := f.cache + [p]);
    ApplyAppend(f.inner, f.cache, [p]);
    if |queued.cache| > BATCH_SIZE && !f.inExpand then Commit(queued) else queued
  }

  /** `insert`: the counts the filter stands for gain one for `key`, and no other key's count moves. */
  function InsertKey(f: Filter, key: string): (r: Filter)
    ensures Effective(r) == Add(Effective(f), key)
    ensures r.capacity == f.capacity && r.inExpand == f.inExpand
  {
    Push(f, Pending(key, Set))
  }

  /** `delete`: the counts the filter stands for lose one for a counted `key`, and no other key's count moves. */
  function DeleteKey(f: Filter, key: string): (r: Filter)
    ensures Effective(r) == Remove(Effective(f), key)
    ensures r.capacity == f.capacity && r.inExpand == f.inExpand
  {
    Push(f, Pending(key, Delete))
  }

  /**
   * `contains`: a positive count in the filter, or a queued set for the key.
   * It never misses a key the filter stands for.
   */
  function Contains(f: Filter, key: string): (r: bool)
    ensures Count(Effective(f), key) > 0 ==> r
  {
    if Count(f.inner, key) > 0 || CachedSet(f.cache, key) then true
    else
      ApplyKeepsAbsent(f.inner, f.cache, key);
      false
  }

  /** The scan `contains` makes of the queue, as the source writes it: a loop that stops at the first matching set. */
  method ScanCache(cache: seq<Pending>, key: string) returns (found: bool)
    ensures found <==> CachedSet(cache, key)
  {
    found := false;
    var i := 0;
    while i < |cache|
      invariant 0 <= i <= |cache|
      invariant !found
      invariant forall j :: 0 <= j < i ==> cache[j] != Pending(key, Set)
    {
      if cache[i].key == key && cache[i].op.Set? {
        found := true;
        return;
      }
      i := i + 1;
    }
  }

  /** `check_expand`: no expansion running and more keys than the capacity. */
  function CheckExpand(f: Filter): bool {
    !f.inExpand && f.amount > f.capacity
  }

  /** The counts of a fresh filter after inserting each key of `keys` once. */
  function Build(keys: seq<string>): Counts
    decreases |keys|
  {
    if |keys| == 0 then map[] else Add(Build(keys[..|keys| - 1]), keys[|keys| - 1])
  }

  /** A rebuild in progress: the live filter, marked as expanding, and the filter being built. */
  datatype Expansion = Expansion(live: Filter, rebuilt: Counts)

  /**
   * First half of `expand`: when no other expansion holds the flag, mark the
   * filter as expanding, set the new capacity (`len * 3 / 2` truncated to 32
   * bits), commit the queue into the old filter, and count the keys into a
   * new one. The old filter keeps answering `contains` meanwhile.
   */
  function ExpandBegin(f: Filter, keys: seq<string>): (r: Option<Expansion>)
    ensures r.None? <==> f.inExpand
    ensures r.Some? ==> r.value.live.inExpand && r.value.live.cache == []
    ensures r.Some? ==> Effective(r.value.live) == Effective(f)
    ensures r.Some? ==> r.value.live.capacity == Wrap(|keys| * 3 / 2)
    ensures r.Some? ==> r.value.live.amount == Wrap(|keys|)
    ensures r.Some? ==> forall k :: Count(r.value.rebuilt, k) > 0 <==> k in keys
  {
    if f.inExpand then None
    else
      var committed := Commit(f);
      BuildCounts(keys);
      Some(Expansion(committed.(capacity := Wrap(|keys| * 3 / 2), amount := Wrap(|keys|), inExpand := true), Build(keys)))
  }

  /** Updates that arrive while the rebuild runs only queue up, because the flag is set. */
  function Queue(e: Expansion, p: Pending): (r: Expansion)
    requires e.live.inExpand
    ensures r.live.inExpand && r.live.capacity == e.live.capacity
    ensures r.rebuilt == e.rebuilt && r.live.inner == e.live.inner
    ensures r.live.cache == e.live.cache + [p]
  {
    Expansion(Push(e.live, p), e.rebuilt)
  }

  /**
   * Second half of `expand`: replay the queued sets into the new filter, drop
   * the queued deletes, install the new filter and clear the flag.
   */
  function ExpandFinish(e: Expansion): (r: Filter)
    ensures r.inner == Apply(e.rebuilt, SetsOnly(e.live.cache))
    ensures r.cache == [] && !r.inExpand && r.capacity == e.live.capacity
    ensures r.amount == Wrap(e.live.amount + Sets(e.live.cache))
  {
    SetsOnlyCount(e.live.cache);
    Filter(Apply(e.rebuilt, SetsOnly(e.live.cache)), e.live.capacity, [],
           BatchAmount(e.live.amount, SetsOnly(e.live.cache)), false)
  }

  /** The sets of a queue, in order. */
  function SetsOnly(ops: seq<Pending>): (r: seq<Pending>)
    ensures forall i :: 0 <= i < |r| ==> r[i].op.Set?
    ensures forall key :: CachedSet(r, key) <==> CachedSet(ops, key)
    decreases |ops|
  {
    if |ops| == 0 then []
    else
      var r := (if ops[0].op.Set? then [ops[0]] else []) + SetsOnly(ops[1..]);
      CachedSetCons(ops);
      if ops[0].op.Set? then
        assert r[1..] == SetsOnly(ops[1..]);
        CachedSetCons(r);
        r
      else assert r == SetsOnly(ops[1..]); r
  }

  /** `expand` run alone, with no update arriving during the rebuild. */
  function Expand(f: Filter, keys: seq<string>): (r: Filter)
    ensures f.inExpand ==> r == f
    ensures !f.inExpand ==> forall k :: Contains(r, k) <==> k in keys
    ensures !f.inExpand ==> r.cache == [] && r.amount == Wrap(|keys|) && r.capacity == Wrap(|keys| * 3 / 2)
  {
    match ExpandBegin(f, keys)
    case None => f
    case Some(e) => ExpandFinish(e)
  }

  /** Applying two queues in a row is applying their concatenation. */
  lemma {:induction false} ApplyAppend(c: Counts, a: seq<Pending>, b: seq<Pending>)
    ensures Apply(c, a + b) == Apply(Apply(c, a), b)
    decreases |a|
  {
    if |a| > 0 {
      assert (a + b)[1..] == a[1..] + b;
      ApplyAppend(Step(c, a[0]), a[1..], b);
    } else {
      assert a + b == b;
    }
  }

  lemma CachedSetCons(ops: seq<Pending>)
    requires |ops| > 0
    ensures forall key :: CachedSet(ops, key) <==> ops[0] == Pending(key, Set) || CachedSet(ops[1..], key)
  {
    forall key
      ensures CachedSet(ops, key) ==> ops[0] == Pending(key, Set) || CachedSet(ops[1..], key)
    {
      if CachedSet(ops, key) {
        var i :| 0 <= i < |ops| && ops[i] == Pending(key, Set);
        if i > 0 {
          assert ops[1..][i - 1] == ops[i];
        }
      }
    }
    forall key
      ensures CachedSet(ops[1..], key) ==> CachedSet(ops, key)
    {
      if CachedSet(ops[1..], key) {
        var i :| 0 <= i < |ops| - 1 && ops[1..][i] == Pending(key, Set);
        assert ops[i + 1] == Pending(key, Set);
      }
    }
  }

  lemma {:induction false} SetsOnlyCount(ops: seq<Pending>)
    ensures Net(SetsOnly(ops)) == Sets(ops)
    decreases |ops|
  {
    if |ops| > 0 {
      SetsOnlyCount(ops[1..]);
      var head := if ops[0].op.Set? then [ops[0]] else [];
      NetAppend(head, SetsOnly(ops[1..]));
    }
  }

  lemma {:induction false} NetAppend(a: seq<Pending>, b: seq<Pending>)
    ensures Net(a + b) == Net(a) + Net(b)
    decreases |a|
  {
    if |a| > 0 {
      assert (a + b)[1..] == a[1..] + b;
      NetAppend(a[1..], b);
    } else {
      assert a + b == b;
    }
  }

  /** A fresh filter built from `keys` counts exactly the keys listed. */
  lemma {:induction false} BuildCounts(keys: seq<string>)
    ensures forall k :: Count(Build(keys), k) > 0 <==> k in keys
    decreases |keys|
  {
    if |keys| > 0 {
      BuildCounts(keys[..|keys| - 1]);
      assert keys == keys[..|keys| - 1] + [keys[|keys| - 1]];
    }
  }

  /** Replaying only sets never lowers a count, and raises exactly the counts of keys set. */
  lemma {:induction false} ApplySets(c: Counts, ops: seq<Pending>)
    requires forall i :: 0 <= i < |ops| ==> ops[i].op.Set?
    ensures forall k :: Count(Apply(c, ops), k) > 0 <==> Count(c, k) > 0 || CachedSet(ops, k)
    decreases |ops|
  {
    if |ops| > 0 {
      ApplySets(Step(c, ops[0]), ops[1..]);
      CachedSetCons(ops);
    }
  }

  /**
   * No false negatives: a key whose count, with every queued update applied,
   * is positive is reported as contained.
   */
  lemma NoFalseNegatives(f: Filter, key: string)
    requires Count(Effective(f), key) > 0
    ensures Contains(f, key)
  {
    if !Contains(f, key) {
      ApplyKeepsAbsent(f.inner, f.cache, key);
    }
  }

  /** Without a queued set, updates cannot make an uncounted key counted. */
  lemma {:induction false} ApplyKeepsAbsent(c: Counts, ops: seq<Pending>, key: string)
    requires Count(c, key) == 0 && !CachedSet(ops, key)
    ensures Count(Apply(c, ops), key) == 0
    decreases |ops|
  {
    if |ops| > 0 {
      CachedSetCons(ops);
      ApplyKeepsAbsent(Step(c, ops[0]), ops[1..], key);
    }
  }

  /** A key just inserted is contained, whether the insertion was queued or committed. */
  lemma InsertContains(f: Filter, key: string)
    ensures Contains(InsertKey(f, key), key)
  {
    var r := InsertKey(f, key);
    if r.cache == f.cache + [Pending(key, Set)] {
      assert r.cache[|f.cache|] == Pending(key, Set);
    } else {
      NoFalseNegatives(r, key);
    }
  }

  /**
   * A deletion only takes effect when it is committed: while it waits in the
   * queue, every key is reported exactly as before.
   */
  lemma QueuedDeleteInvisible(f: Filter, key: string, k: string)
    requires |f.cache| + 1 <= BATCH_SIZE || f.inExpand
    ensures Contains(DeleteKey(f, key), k) == Contains(f, k)
  {
    var r := DeleteKey(f, key);
    assert r.cache == f.cache + [Pending(key, Delete)];
    if CachedSet(r.cache, k) {
      var i :| 0 <= i < |r.cache| && r.cache[i] == Pending(k, Set);
      assert f.cache[i] == Pending(k, Set);
    }
    if CachedSet(f.cache, k) {
      var i :| 0 <= i < |f.cache| && f.cache[i] == Pending(k, Set);
      assert r.cache[i] == Pending(k, Set);
    }
  }

  /** Outside an expansion the queue never holds more than `BATCH_SIZE` updates. */
  lemma CacheBounded(f: Filter, p: Pending)
    requires !f.inExpand && |f.cache| <= BATCH_SIZE
    ensures |Push(f, p).cache| <= BATCH_SIZE
  {
  }

  /**
   * A deletion of a key the filter never counted still lowers `amount`: from a
   * new filter, 33 such deletions commit and wrap `amount` round to
   * 2^32 - 33, so `check_expand` asks for an expansion.
   */
  lemma UnknownDeletesWrapAmount(key: string)
    ensures CheckExpand(Deletes(New(), key, BATCH_SIZE + 1))
  {
    var f := New();
    DeletesQueue(f, key, BATCH_SIZE);
    var q := Deletes(f, key, BATCH_SIZE);
    var ops := q.cache + [Pending(key, Delete)];
    NetDeletes(ops, key);
    assert Deletes(f, key, BATCH_SIZE + 1) == DeleteKey(q, key);
  }

  /** `n` deletions of `key` in a row. */
  function Deletes(f: Filter, key: string, n: nat): Filter
    decreases n
  {
    if n == 0 then f else DeleteKey(Deletes(f, key, n - 1), key)
  }

  lemma {:induction false} DeletesQueue(f: Filter, key: string, n: nat)
    requires f == New() && n <= BATCH_SIZE
    ensures |Deletes(f, key, n).cache| == n
    ensures forall i :: 0 <= i < n ==> Deletes(f, key, n).cache[i] == Pending(key, Delete)
    ensures Deletes(f, key, n).amount == 0 && !Deletes(f, key, n).inExpand
    ensures Deletes(f, key, n).capacity == INITIAL_CAPACITY
    decreases n
  {
    if n > 0 {
      DeletesQueue(f, key, n - 1);
    }
  }

  lemma {:induction false} NetDeletes(ops: seq<Pending>, key: string)
    requires forall i :: 0 <= i < |ops| ==> ops[i] == Pending(key, Delete)
    ensures Net(ops) == -|ops|
    decreases |ops|
  {
    if |ops| > 0 {
      NetDeletes(ops[1..], key);
    }
  }

  /**
   * Expansion with updates arriving during the rebuild: afterwards exactly the
   * listed keys and the keys set meanwhile are contained. A key deleted
   * meanwhile stays contained when it is listed, since queued deletes are
   * dropped.
   */
  lemma ExpandConcurrent(f: Filter, keys: seq<string>, during: seq<Pending>)
    requires !f.inExpand
    ensures forall k :: Contains(ExpandFinish(QueueAll(ExpandBegin(f, keys).value, during)), k)
                        <==> k in keys || CachedSet(during, k)
  {
    var e := ExpandBegin(f, keys).value;
    var e2 := QueueAll(e, during);
    QueueAllCache(e, during);
    assert e2.live.cache == during;
    ApplySets(e2.rebuilt, SetsOnly(during));
  }

  /** The updates of `ops` arriving one after another during a rebuild. */
  function QueueAll(e: Expansion, ops: seq<Pending>): (r: Expansion)
    requires e.live.inExpand
    ensures r.live.inExpand
    decreases |ops|
  {
    if |ops| == 0 then e else QueueAll(Queue(e, ops[0]), ops[1..])
  }

  lemma {:induction false} QueueAllCache(e: Expansion, ops: seq<Pending>)
    requires e.live.inExpand
    ensures QueueAll(e, ops).live.cache == e.live.cache + ops
    ensures QueueAll(e, ops).rebuilt == e.rebuilt
    ensures QueueAll(e, ops).live.capacity == e.live.capacity
    decreases |ops|
  {
    if |ops| > 0 {
      QueueAllCache(Queue(e, ops[0]), ops[1..]);
      assert e.live.cache + [ops[0]] + ops[1..] == e.live.cache + ops;
    }
  }

  /** Once an expansion has run alone, no further expansion is asked for until keys are added. */
  lemma ExpandSettles(f: Filter, keys: seq<string>)
    requires !f.inExpand && |keys| * 3 / 2 < U32_LIMIT
    ensures !CheckExpand(Expand(f, keys))
  {
  }
}
