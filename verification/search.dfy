/**
 * The torrent search engine of src/search.rs: a forward index from torrent
 * id to its tokens and a reverse index from token to the ids holding it,
 * the tokenizer both sides go through, and the collection of ids a search
 * returns. Similarity scoring (Jaro-Winkler against a threshold) is a
 * parameter, and the ordering by summed score is left out.
 */
module Search {
  import opened Wrappers
  import opened Bytes
  import SiteUtil

  // ----- strings in Rust's order -----

  /** `String`'s `Ord`: lexicographic by character, a proper prefix first. */
  predicate Lt(a: string, b: string)
    decreases |a|
  {
    if |a| == 0 then |b| > 0
    else if |b| == 0 then false
    else if a[0] != b[0] then a[0] < b[0]
    else Lt(a[1..], b[1..])
  }

  lemma {:induction false} LtIrreflexive(a: string)
    ensures !Lt(a, a)
    decreases |a|
  {
    if |a| > 0 {
      LtIrreflexive(a[1..]);
    }
  }

  lemma {:induction false} LtTransitive(a: string, b: string, c: string)
    requires Lt(a, b) && Lt(b, c)
    ensures Lt(a, c)
    decreases |a|
  {
    if |a| > 0 && a[0] == b[0] && b[0] == c[0] {
      LtTransitive(a[1..], b[1..], c[1..]);
    }
  }

  lemma {:induction false} LtTotal(a: string, b: string)
    requires a != b
    ensures Lt(a, b) || Lt(b, a)
    decreases |a|
  {
    if |a| > 0 && |b| > 0 && a[0] == b[0] {
      assert a == [a[0]] + a[1..] && b == [b[0]] + b[1..];
      LtTotal(a[1..], b[1..]);
    }
  }

  lemma LtAsymmetric(a: string, b: string)
    requires Lt(a, b)
    ensures !Lt(b, a)
  {
    if Lt(b, a) {
      LtTransitive(a, b, a);
      LtIrreflexive(a);
    }
  }

  /** Strictly increasing: what `sort` followed by `dedup` leaves. */
  predicate StrictlySorted(s: seq<string>) {
    forall i, j :: 0 <= i < j < |s| ==> Lt(s[i], s[j])
  }

  /** `x` put into its place in a strictly increasing sequence, unless it is already there. */
  function InsertSorted(x: string, s: seq<string>): (r: seq<string>)
    requires StrictlySorted(s)
    ensures StrictlySorted(r)
    ensures forall t :: t in r <==> t == x || t in s
  {
    if |s| == 0 then [x]
    else if x == s[0] then s
    else if Lt(x, s[0]) then
      InsertFront(x, s);
      [x] + s
    else
      LtTotal(x, s[0]);
      var rest := InsertSorted(x, s[1..]);
      assert forall t :: t in rest ==> Lt(s[0], t);
      [s[0]] + rest
  }

  lemma InsertFront(x: string, s: seq<string>)
    requires StrictlySorted(s) && |s| > 0 && Lt(x, s[0])
    ensures StrictlySorted([x] + s)
  {
    forall j | 1 <= j < |s| ensures Lt(x, s[j]) {
      LtTransitive(x, s[0], s[j]);
    }
  }

  /**
   * `sort` and then `dedup`, stated by the outcome: the distinct strings of
   * `xs` in increasing order. `SortedUnique` shows there is only one such
   * sequence.
   */
  function SortDedup(xs: seq<string>): (r: seq<string>)
    ensures StrictlySorted(r)
    ensures forall t :: t in r <==> t in xs
  {
    if |xs| == 0 then [] else InsertSorted(xs[0], SortDedup(xs[1..]))
  }

  /** Two strictly increasing sequences with the same elements are equal. */
  lemma {:induction false} SortedUnique(a: seq<string>, b: seq<string>)
    requires StrictlySorted(a) && StrictlySorted(b)
    requires forall t :: t in a <==> t in b
    ensures a == b
    decreases |a|
  {
    BothEmpty(a, b);
    if |a| > 0 {
      SameHead(a, b);
      SortedTail(a);
      SortedTail(b);
      SortedUnique(a[1..], b[1..]);
      assert a == [a[0]] + a[1..] && b == [b[0]] + b[1..];
    }
  }

  lemma BothEmpty<T>(a: seq<T>, b: seq<T>)
    requires forall t :: t in a <==> t in b
    ensures |a| == 0 <==> |b| == 0
  {
    if |a| > 0 {
      assert a[0] in b;
    }
    if |b| > 0 {
      assert b[0] in a;
    }
  }

  /** The first element of a strictly increasing sequence is its least. */
  lemma SameHead(a: seq<string>, b: seq<string>)
    requires StrictlySorted(a) && StrictlySorted(b) && |a| > 0 && |b| > 0
    requires forall t :: t in a <==> t in b
    ensures a[0] == b[0]
  {
    assert a[0] in b && b[0] in a;
    if a[0] != b[0] {
      var i :| 0 <= i < |a| && a[i] == b[0];
      var j :| 0 <= j < |b| && b[j] == a[0];
      assert i > 0 && j > 0;
      LtAsymmetric(a[0], b[0]);
    }
  }

  /** Past the first element come exactly the other elements. */
  lemma SortedTail(a: seq<string>)
    requires StrictlySorted(a) && |a| > 0
    ensures forall t :: t in a[1..] <==> t in a && t != a[0]
  {
    forall t | t in a[1..] ensures t != a[0] {
      var i :| 1 <= i < |a| && a[i] == t;
      assert Lt(a[0], a[i]);
      LtIrreflexive(t);
    }
    forall t | t in a && t != a[0] ensures t in a[1..] {
      var i :| 0 <= i < |a| && a[i] == t;
      assert a[1..][i - 1] == t;
    }
  }

  // ----- the tokenizer -----

  /** `char::is_ascii_whitespace`: space, tab, line feed, form feed and carriage return. */
  predicate IsAsciiWhitespace(c: char) {
    c == ' ' || c == '\t' || c == '\n' || c as int == 0x0C || c == '\r'
  }

  const OPEN: char := '['
  const CLOSE: char := ']'

  predicate IsSeparator(c: char) {
    IsAsciiWhitespace(c) || c == OPEN || c == CLOSE
  }

  /** No ASCII whitespace in `w`. */
  predicate Blackspace(w: string) {
    forall x :: x in w ==> !IsAsciiWhitespace(x)
  }

  /** What the tokenizer can produce: a non-empty string with no separator in it. */
  predicate IsToken(t: string) {
    |t| > 0 && forall x :: x in t ==> !IsSeparator(x)
  }

  /**
   * `split_ascii_whitespace`, with the run read so far in `cur`: the maximal
   * runs of other characters, never an empty one.
   */
  function SplitWhitespace(s: string, cur: string): (r: seq<string>)
    requires Blackspace(cur)
    ensures forall k :: 0 <= k < |r| ==> |r[k]| > 0 && Blackspace(r[k])
    ensures Blackspace(s) ==> r == if |cur + s| == 0 then [] else [cur + s]
    decreases |s|
  {
    if |s| == 0 then
      assert cur + s == cur;
      if |cur| == 0 then [] else [cur]
    else if IsAsciiWhitespace(s[0]) then
      (if |cur| == 0 then [] else [cur]) + SplitWhitespace(s[1..], [])
    else
      var cur' := cur + [s[0]];
      assert cur + s == cur' + s[1..];
      assert Blackspace(s) ==> Blackspace(s[1..]) by {
        assert forall x :: x in s[1..] ==> x in s;
      }
      SplitWhitespace(s[1..], cur')
  }

  /**
   * `split_terminator(c)`: `split(c)` without its last piece when that piece
   * is empty, so text ending in `c`, and the empty text, give no empty
   * piece at the end.
   */
  function SplitTerminator(s: string, c: char): (r: seq<string>)
    ensures forall k :: 0 <= k < |r| ==> c !in r[k]
    ensures forall k, x :: 0 <= k < |r| && x in r[k] ==> x in s
    ensures c !in s ==> r == if |s| == 0 then [] else [s]
  {
    var p := SiteUtil.Split(s, c);
    SplitWithout(s, c);
    PiecesOf(s, c);
    if |p[|p| - 1]| == 0 then p[..|p| - 1] else p
  }

  lemma SplitWithout(s: string, c: char)
    ensures c !in s ==> SiteUtil.Split(s, c) == [s]
  {
    SiteUtil.SplitJoin(s, c);
  }

  /** Every piece of a split is made of the text's characters. */
  lemma PiecesOf(w: string, c: char)
    ensures forall k, x :: 0 <= k < |SiteUtil.Split(w, c)| && x in SiteUtil.Split(w, c)[k] ==> x in w
  {
    forall k, x | 0 <= k < |SiteUtil.Split(w, c)| && x in SiteUtil.Split(w, c)[k] ensures x in w {
      SiteUtil.SplitPieceChars(w, c, k, x);
    }
  }

  /** The first `flat_map`: every text split at ASCII whitespace. */
  function Words(texts: seq<string>): (r: seq<string>)
    ensures forall k :: 0 <= k < |r| ==> |r[k]| > 0 && Blackspace(r[k])
  {
    if |texts| == 0 then [] else SplitWhitespace(texts[0], []) + Words(texts[1..])
  }

  /** The later `flat_map`s: every word split by `split_terminator(c)`. */
  function Pieces(words: seq<string>, c: char): (r: seq<string>)
    ensures forall k :: 0 <= k < |r| ==> c !in r[k]
    ensures forall k, x :: 0 <= k < |r| && x in r[k] ==> exists j :: 0 <= j < |words| && x in words[j]
  {
    if |words| == 0 then []
    else SplitTerminator(words[0], c) + Pieces(words[1..], c)
  }

  /** `retain(|token| !token.is_empty())`. */
  function NonEmpty(xs: seq<string>): (r: seq<string>)
    ensures forall t :: t in r <==> t in xs && |t| > 0
  {
    if |xs| == 0 then []
    else if |xs[0]| == 0 then NonEmpty(xs[1..])
    else [xs[0]] + NonEmpty(xs[1..])
  }

  /**
   * `tokenize`: split at ASCII whitespace, then at every '[' and ']', drop
   * the empty pieces, sort and remove duplicates.
   */
  function Tokenize(texts: seq<string>): (r: seq<string>)
    ensures StrictlySorted(r)
    ensures forall k :: 0 <= k < |r| ==> IsToken(r[k])
    ensures forall t :: t in r <==> t in Pieces(Pieces(Words(texts), OPEN), CLOSE) && |t| > 0
  {
    var words := Words(texts);
    var bits := Pieces(words, OPEN);
    var pieces := Pieces(bits, CLOSE);
    var r := SortDedup(NonEmpty(pieces));
    forall k | 0 <= k < |r| ensures IsToken(r[k]) {
      var t := r[k];
      assert t in pieces;
      var i :| 0 <= i < |pieces| && pieces[i] == t;
      forall x | x in t ensures !IsSeparator(x) {
        var j :| 0 <= j < |bits| && x in bits[j];
        var l :| 0 <= l < |words| && x in words[l];
        assert Blackspace(words[l]);
      }
    }
    r
  }

  /** Tokens tokenize to themselves. */
  lemma TokenizeIdempotent(texts: seq<string>)
    ensures Tokenize(Tokenize(texts)) == Tokenize(texts)
  {
    var r := Tokenize(texts);
    WordsStay(r);
    PiecesStay(r, OPEN);
    PiecesStay(r, CLOSE);
    NonEmptyStay(r);
    SortedUnique(Tokenize(r), r);
  }

  lemma {:induction false} WordsStay(r: seq<string>)
    requires forall k :: 0 <= k < |r| ==> IsToken(r[k])
    ensures Words(r) == r
  {
    if |r| > 0 {
      WordsStay(r[1..]);
      var t := r[0];
      assert [] + t == t;
      assert Blackspace(t);
      assert r == [t] + r[1..];
    }
  }

  lemma {:induction false} PiecesStay(r: seq<string>, c: char)
    requires c == OPEN || c == CLOSE
    requires forall k :: 0 <= k < |r| ==> IsToken(r[k])
    ensures Pieces(r, c) == r
  {
    if |r| > 0 {
      PiecesStay(r[1..], c);
      var t := r[0];
      assert IsSeparator(c);
      assert c !in t;
      assert r == [t] + r[1..];
    }
  }

  lemma {:induction false} NonEmptyStay(r: seq<string>)
    requires forall k :: 0 <= k < |r| ==> IsToken(r[k])
    ensures NonEmpty(r) == r
  {
    if |r| > 0 {
      NonEmptyStay(r[1..]);
      assert r == [r[0]] + r[1..];
    }
  }

  // ----- the index -----

  datatype SearchError = Panicked   // `unwrap` on a token the reverse index lacks

  /** `SearchEngine` without its threshold, which only the scoring reads. */
  datatype Engine = Engine(forward: map<i64, seq<string>>, reverse: map<string, seq<i64>>)

  predicate NoDup<T(==)>(xs: seq<T>) {
    forall i, j :: 0 <= i < j < |xs| ==> xs[i] != xs[j]
  }

  /**
   * The two indexes agree: `t` is among the tokens of `id` exactly when `id`
   * is in the list of `t`, and no list names an id twice. A list may be
   * empty: deleting never removes a token.
   */
  predicate Consistent(e: Engine) {
    && (forall id, t :: id in e.forward && t in e.forward[id] ==> t in e.reverse && id in e.reverse[t])
    && (forall t, id :: t in e.reverse && id in e.reverse[t] ==> id in e.forward && t in e.forward[id])
    && (forall t :: t in e.reverse ==> NoDup(e.reverse[t]))
  }

  /** `SearchEngine::new`. */
  function NewEngine(): (e: Engine)
    ensures Consistent(e) && e.forward == map[]
  {
    Engine(map[], map[])
  }

  /** `retain(|i| *i != id)`. */
  function Remove(xs: seq<i64>, id: i64): (r: seq<i64>)
    ensures forall x :: x in r <==> x in xs && x != id
    ensures NoDup(xs) ==> NoDup(r)
  {
    if |xs| == 0 then []
    else
      var rest := Remove(xs[1..], id);
      if xs[0] == id then rest
      else
        assert NoDup(xs) ==> xs[0] !in xs[1..];
        [xs[0]] + rest
  }

  /** The loop of `delete`: `id` retained out of the list of each token in turn. */
  function RetainAll(rev: map<string, seq<i64>>, toks: seq<string>, id: i64): (r: map<string, seq<i64>>)
    requires forall k :: 0 <= k < |toks| ==> toks[k] in rev
    ensures r.Keys == rev.Keys
    ensures forall t, x :: t in r ==> (x in r[t] <==> x in rev[t] && !(t in toks && x == id))
    ensures (forall t :: t in rev ==> NoDup(rev[t])) ==> forall t :: t in r ==> NoDup(r[t])
    decreases |toks|
  {
    if |toks| == 0 then rev
    else
      var t := toks[0];
      RetainAll(rev[t := Remove(rev[t], id)], toks[1..], id)
  }

  /**
   * `delete`: take the tokens of `id` (none for an unknown id), retain `id`
   * out of each token's list, and drop the forward entry. A token the
   * reverse index lacks makes `unwrap` panic.
   */
  function Delete(e: Engine, id: i64): (r: Result<Engine, SearchError>)
    ensures r.Err? <==> id in e.forward && exists k :: 0 <= k < |e.forward[id]| && e.forward[id][k] !in e.reverse
    ensures r.Ok? ==> r.value.forward == e.forward - {id} && r.value.reverse.Keys == e.reverse.Keys
  {
    var toks := if id in e.forward then e.forward[id] else [];
    if exists k :: 0 <= k < |toks| && toks[k] !in e.reverse then Err(Panicked)
    else Ok(Engine(e.forward - {id}, RetainAll(e.reverse, toks, id)))
  }

  /** The loop of `insert`: `id` pushed onto the list of each token, a missing list made first. */
  function PushAll(rev: map<string, seq<i64>>, toks: seq<string>, id: i64): (r: map<string, seq<i64>>)
    ensures forall t :: t in r <==> t in rev || t in toks
    ensures forall t, x :: t in r ==> (x in r[t] <==> (t in rev && x in rev[t]) || (t in toks && x == id))
    ensures (forall t :: t in rev ==> NoDup(rev[t])) && NoDup(toks) && (forall t :: t in toks && t in rev ==> id !in rev[t])
            ==> forall t :: t in r ==> NoDup(r[t])
    decreases |toks|
  {
    if |toks| == 0 then rev
    else
      var t := toks[0];
      var rev' := rev[t := (if t in rev then rev[t] else []) + [id]];
      assert NoDup(toks) ==> t !in toks[1..];
      PushAll(rev', toks[1..], id)
  }

  /** `insert`: delete `id`, tokenize, push `id` for every token, and record the tokens. */
  function Insert(e: Engine, id: i64, texts: seq<string>): (r: Result<Engine, SearchError>)
    ensures r.Err? <==> Delete(e, id).Err?
    ensures r.Ok? ==> id in r.value.forward && r.value.forward[id] == Tokenize(texts)
    ensures r.Ok? ==> forall x :: x != id ==> (x in r.value.forward <==> x in e.forward)
    ensures r.Ok? ==> forall x :: x != id && x in e.forward ==> r.value.forward[x] == e.forward[x]
  {
    match Delete(e, id)
    case Err(err) => Err(err)
    case Ok(d) =>
      var toks := Tokenize(texts);
      Ok(Engine(d.forward[id := toks], PushAll(d.reverse, toks, id)))
  }

  /**
   * Deleting from a consistent engine does not panic, keeps it consistent,
   * and leaves `id` in no list and without tokens.
   */
  lemma DeleteConsistent(e: Engine, id: i64)
    requires Consistent(e)
    ensures Delete(e, id).Ok?
    ensures Consistent(Delete(e, id).value)
    ensures id !in Delete(e, id).value.forward
    ensures forall t :: t in Delete(e, id).value.reverse ==> id !in Delete(e, id).value.reverse[t]
  {
    var toks := if id in e.forward then e.forward[id] else [];
    assert forall k :: 0 <= k < |toks| ==> toks[k] in e.reverse;
    var d := Delete(e, id).value;
    forall t | t in d.reverse ensures id !in d.reverse[t] {
      if id in e.reverse[t] {
        assert t in toks;
      }
    }
  }

  /**
   * Inserting into a consistent engine does not panic and keeps it
   * consistent; afterwards `id` is in the list of a token exactly when the
   * token comes from the new text, whatever `id` held before.
   */
  lemma InsertConsistent(e: Engine, id: i64, texts: seq<string>)
    requires Consistent(e)
    ensures Insert(e, id, texts).Ok?
    ensures Consistent(Insert(e, id, texts).value)
    ensures forall t :: (t in Insert(e, id, texts).value.reverse && id in Insert(e, id, texts).value.reverse[t])
                        <==> t in Tokenize(texts)
  {
    DeleteConsistent(e, id);
    var d := Delete(e, id).value;
    var toks := Tokenize(texts);
    SortedNoDup(toks);
    PushConsistent(d, id, toks);
  }

  lemma SortedNoDup(toks: seq<string>)
    requires StrictlySorted(toks)
    ensures NoDup(toks)
  {
    forall i, j | 0 <= i < j < |toks| ensures toks[i] != toks[j] {
      LtIrreflexive(toks[i]);
    }
  }

  /** Recording distinct tokens for an id no list names keeps the indexes consistent. */
  lemma PushConsistent(d: Engine, id: i64, toks: seq<string>)
    requires Consistent(d) && NoDup(toks)
    requires id !in d.forward && forall t :: t in d.reverse ==> id !in d.reverse[t]
    ensures var r := Engine(d.forward[id := toks], PushAll(d.reverse, toks, id));
      && Consistent(r)
      && forall t :: (t in r.reverse && id in r.reverse[t]) <==> t in toks
  {
    var fwd := d.forward[id := toks];
    var rev := PushAll(d.reverse, toks, id);
    forall x, t | x in fwd && t in fwd[x] ensures t in rev && x in rev[t] {
      if x != id {
        assert t in d.reverse && x in d.reverse[t];
      }
    }
    forall t, x | t in rev && x in rev[t] ensures x in fwd && t in fwd[x] {
      if x != id {
        assert t in d.reverse && x in d.reverse[t];
      }
    }
  }

  /** The unit test that re-inserts an id: tokens only the old text had no longer lead to it. */
  lemma ReinsertForgets(e: Engine, id: i64, first: seq<string>, second: seq<string>, t: string)
    requires Consistent(e)
    requires t in Tokenize(first) && t !in Tokenize(second)
    ensures Insert(e, id, first).Ok?
    ensures Insert(Insert(e, id, first).value, id, second).Ok?
    ensures var r := Insert(Insert(e, id, first).value, id, second).value;
            t in r.reverse && id !in r.reverse[t]
  {
    InsertConsistent(e, id, first);
    var e1 := Insert(e, id, first).value;
    InsertConsistent(e1, id, second);
    DeleteConsistent(e1, id);
  }

  // ----- search -----

  /** A token some pattern is similar to; `similar(p, t)` stands for `jaro_winkler(p, t) > threshold`. */
  predicate Matched(pats: seq<string>, similar: (string, string) -> bool, t: string) {
    exists p :: p in pats && similar(p, t)
  }

  /** `ret.entry(id).or_insert(0.)` for each id of a list: the ids not seen yet, appended. */
  function AddAll(acc: seq<i64>, xs: seq<i64>): (r: seq<i64>)
    ensures forall x :: x in r <==> x in acc || x in xs
    ensures NoDup(acc) ==> NoDup(r)
    decreases |xs|
  {
    if |xs| == 0 then acc
    else if xs[0] in acc then AddAll(acc, xs[1..])
    else AddAll(acc + [xs[0]], xs[1..])
  }

  /** `x` is in the list of one of the tokens in `done`. */
  predicate Collected(e: Engine, done: set<string>, x: i64) {
    exists t :: t in done && t in e.reverse && x in e.reverse[t]
  }

  /**
   * The ids `search` returns: tokenize the patterns, keep the indexed
   * tokens some pattern is similar to, and collect every id in their lists,
   * once each. The order of the result, by summed score, is not modelled.
   */
  method SearchIds(e: Engine, patterns: seq<string>, similar: (string, string) -> bool) returns (ids: seq<i64>)
    ensures NoDup(ids)
    ensures forall x :: x in ids <==>
      exists t :: t in e.reverse && Matched(Tokenize(patterns), similar, t) && x in e.reverse[t]
    ensures Consistent(e) ==> forall x :: x in ids ==> x in e.forward
  {
    var pats := Tokenize(patterns);
    var scores := set t | t in e.reverse.Keys && Matched(pats, similar, t);
    ids := CollectIds(e, scores);
    ScoredCollected(e, pats, similar, scores);
  }

  /** Collecting from the scored tokens finds the ids of the matched tokens, and only indexed ids. */
  lemma ScoredCollected(e: Engine, pats: seq<string>, similar: (string, string) -> bool, scores: set<string>)
    requires scores == set t | t in e.reverse.Keys && Matched(pats, similar, t)
    ensures forall x :: Collected(e, scores, x) <==>
      exists t :: t in e.reverse && Matched(pats, similar, t) && x in e.reverse[t]
    ensures Consistent(e) ==> forall x :: Collected(e, scores, x) ==> x in e.forward
  {
    forall x | Collected(e, scores, x)
      ensures exists t :: t in e.reverse && Matched(pats, similar, t) && x in e.reverse[t]
    {
      var t :| t in scores && t in e.reverse && x in e.reverse[t];
    }
    forall x | exists t :: t in e.reverse && Matched(pats, similar, t) && x in e.reverse[t]
      ensures Collected(e, scores, x)
    {
      var t :| t in e.reverse && Matched(pats, similar, t) && x in e.reverse[t];
      assert t in scores;
    }
  }

  /** The second loop of `search`: the ids in the lists of the scored tokens, once each. */
  method CollectIds(e: Engine, scores: set<string>) returns (ids: seq<i64>)
    requires forall t :: t in scores ==> t in e.reverse
    ensures NoDup(ids)
    ensures forall x :: x in ids <==> Collected(e, scores, x)
  {
    var left := scores;
    ids := [];
    while left != {}
      invariant left <= scores
      invariant NoDup(ids)
      invariant forall x :: x in ids <==> Collected(e, scores - left, x)
      decreases |left|
    {
      var t :| t in left;
      ghost var done := scores - left;
      ids := AddAll(ids, e.reverse[t]);
      left := left - {t};
      CollectedStep(e, done, t);
      assert scores - left == done + {t};
    }
    assert scores - left == scores;
  }

  lemma CollectedStep(e: Engine, done: set<string>, t: string)
    requires t in e.reverse
    ensures forall x :: Collected(e, done + {t}, x) <==> Collected(e, done, x) || x in e.reverse[t]
  {
    forall x | Collected(e, done + {t}, x) ensures Collected(e, done, x) || x in e.reverse[t] {
      var u :| u in done + {t} && u in e.reverse && x in e.reverse[u];
      if u != t {
        assert u in done;
      }
    }
  }
}
