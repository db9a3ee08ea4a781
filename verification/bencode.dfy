/**
 * Bencoding, as the "bencoding" section of BEP 3 defines it: integers
 * `i<decimal>e`, byte strings `<length>:<bytes>`, lists `l...e` and
 * dictionaries `d...e` of string keys and values.
 */
module Bencode {
  import opened Wrappers
  import opened Bytes
  import Decimal

  datatype BValue =
    | BInt(i: int)
    | BBytes(b: seq<byte>)
    | BList(items: seq<BValue>)
    | BDict(pairs: seq<Pair>)

  /** A dictionary entry. */
  datatype Pair = Pair(key: seq<byte>, value: BValue)

  const I: byte := 'i' as int
  const L: byte := 'l' as int
  const D: byte := 'd' as int
  const E: byte := 'e' as int
  const COLON: byte := ':' as int
  const MINUS: byte := '-' as int

  /** The ASCII bytes of a number's decimal form. */
  function Num(i: int): (r: seq<byte>)
    ensures 0 < |r| && (forall k :: 0 <= k < |r| ==> r[k] != E && r[k] != COLON)
    ensures Chars(r) == Decimal.ShowInt(i)
  {
    var s := Decimal.ShowInt(i);
    assert IsAscii(s);
    Lit(s)
  }

  /** Reads bytes as the characters with those code points. */
  function Chars(b: seq<byte>): (s: string)
    ensures |s| == |b| && forall k :: 0 <= k < |b| ==> s[k] == b[k] as char
  {
    seq(|b|, k requires 0 <= k < |b| => b[k] as char)
  }

  /** A byte string: its length in decimal, a colon, the bytes. */
  function EncodeBytes(b: seq<byte>): seq<byte> {
    Num(|b|) + [COLON] + b
  }

  function Encode(v: BValue): seq<byte> {
    match v
    case BInt(i) => [I] + Num(i) + [E]
    case BBytes(b) => EncodeBytes(b)
    case BList(items) => [L] + EncodeItems(items) + [E]
    case BDict(pairs) => [D] + EncodePairs(pairs) + [E]
  }

  function EncodeItems(items: seq<BValue>): seq<byte> {
    if |items| == 0 then [] else Encode(items[0]) + EncodeItems(items[1..])
  }

  function EncodePairs(pairs: seq<Pair>): seq<byte> {
    if |pairs| == 0 then [] else EncodeBytes(pairs[0].key) + Encode(pairs[0].value) + EncodePairs(pairs[1..])
  }

  /** Dictionary keys in strictly increasing byte order, as BEP 3 requires. */
  predicate SortedKeys(pairs: seq<Pair>) {
    forall k :: 0 < k < |pairs| ==> ByteLess(pairs[k - 1].key, pairs[k].key)
  }

  /** Lexicographic order on byte strings. */
  predicate ByteLess(a: seq<byte>, b: seq<byte>) {
    if |a| == 0 then |b| > 0
    else if |b| == 0 then false
    else a[0] < b[0] || (a[0] == b[0] && ByteLess(a[1..], b[1..]))
  }

  predicate IsDigitByte(x: byte) {
    '0' as int <= x <= '9' as int
  }

  /** The number of leading decimal digits of `s`. */
  function DigitRun(s: seq<byte>): (n: nat)
    ensures n <= |s|
    ensures forall k :: 0 <= k < n ==> IsDigitByte(s[k])
    ensures n < |s| ==> !IsDigitByte(s[n])
  {
    if |s| == 0 || !IsDigitByte(s[0]) then 0 else 1 + DigitRun(s[1..])
  }

  /** The first index at or after `from` holding `e`, if any. */
  function FindE(s: seq<byte>, from: nat): (r: Option<nat>)
    requires from <= |s|
    ensures r.Some? ==> from <= r.value < |s| && s[r.value] == E
    ensures r.Some? ==> forall k :: from <= k < r.value ==> s[k] != E
    ensures r.None? ==> forall k :: from <= k < |s| ==> s[k] != E
    decreases |s| - from
  {
    if from == |s| then None
    else if s[from] == E then Some(from)
    else FindE(s, from + 1)
  }

  /** Decimal text with an optional leading '-'. */
  function ParseIntText(t: string): Option<int> {
    if 0 < |t| && t[0] == '-' then
      if 1 < |t| && Decimal.AllDigits(t[1..]) then Some(0 - Decimal.Value(t[1..])) else None
    else if 0 < |t| && Decimal.AllDigits(t) then Some(Decimal.Value(t))
    else None
  }

  /** Parses a byte string at the start of `s`; returns it and the bytes consumed. */
  function ParseBytes(s: seq<byte>): (r: Option<(seq<byte>, nat)>)
    ensures r.Some? ==> 0 < r.value.1 <= |s|
  {
    var j := DigitRun(s);
    if j == 0 || j == |s| || s[j] != COLON then None
    else
      var n := Decimal.Value(Chars(s[..j]));
      if |s| < j + 1 + n then None
      else Some((s[j + 1..j + 1 + n], j + 1 + n))
  }

  /** Parses one value at the start of `s`; returns it and the bytes consumed. */
  function ParseValue(s: seq<byte>): (r: Option<(BValue, nat)>)
    ensures r.Some? ==> 0 < r.value.1 <= |s|
    decreases |s|, 1
  {
    if |s| == 0 then None
    else if s[0] == I then
      match FindE(s, 1)
      case None => None
      case Some(j) =>
        match ParseIntText(Chars(s[1..j]))
        case None => None
        case Some(i) => Some((BInt(i), j + 1))
    else if s[0] == L then
      match ParseItems(s[1..])
      case None => None
      case Some((items, n)) => Some((BList(items), n + 1))
    else if s[0] == D then
      match ParsePairs(s[1..])
      case None => None
      case Some((pairs, n)) => Some((BDict(pairs), n + 1))
    else
      match ParseBytes(s)
      case None => None
      case Some((b, n)) => Some((BBytes(b), n))
  }

  /** Parses values up to and including the closing `e`. */
  function ParseItems(s: seq<byte>): (r: Option<(seq<BValue>, nat)>)
    ensures r.Some? ==> 0 < r.value.1 <= |s|
    decreases |s|, 2
  {
    if |s| == 0 then None
    else if s[0] == E then Some(([], 1))
    else
      match ParseValue(s)
      case None => None
      case Some((v, n)) =>
        match ParseItems(s[n..])
        case None => None
        case Some((vs, m)) => Some(([v] + vs, n + m))
  }

  /** Parses one dictionary entry, a byte-string key and a value. */
  function ParseEntry(s: seq<byte>): (r: Option<(Pair, nat)>)
    ensures r.Some? ==> 0 < r.value.1 <= |s|
    decreases |s|, 2
  {
    match ParseBytes(s)
    case None => None
    case Some((key, n)) =>
      match ParseValue(s[n..])
      case None => None
      case Some((v, m)) => Some((Pair(key, v), n + m))
  }

  /** Parses dictionary entries up to and including the closing `e`. */
  function ParsePairs(s: seq<byte>): (r: Option<(seq<Pair>, nat)>)
    ensures r.Some? ==> 0 < r.value.1 <= |s|
    decreases |s|, 3
  {
    if |s| == 0 then None
    else if s[0] == E then Some(([], 1))
    else
      match ParseEntry(s)
      case None => None
      case Some((p, n)) =>
        match ParsePairs(s[n..])
        case None => None
        case Some((ps, m)) => Some(([p] + ps, n + m))
  }

  /** The decimal text of a number reads back as that number. */
  lemma IntTextRoundTrip(i: int)
    ensures ParseIntText(Decimal.ShowInt(i)) == Some(i)
  {
    var t := Decimal.ShowInt(i);
    if i < 0 {
      assert t[1..] == Decimal.ShowNat(-i);
    }
  }

  /** Whatever follows, a byte string is read back from its encoding. */
  lemma BytesRoundTrip(b: seq<byte>, rest: seq<byte>)
    ensures var r := ParseBytes(EncodeBytes(b) + rest);
      r.Some? && r.value.0 == b && r.value.1 == |EncodeBytes(b)|
  {
    var num := Num(|b|);
    var after := [COLON] + b + rest;
    var s := EncodeBytes(b) + rest;
    assert s == num + after;
    NumPrefix(|b|, after);
    assert s[|num| + 1..|num| + 1 + |b|] == b;
    BytesStep(s, |num|, b);
  }

  /** The length prefix: its digits run up to the colon and read back as the length. */
  lemma NumPrefix(n: nat, after: seq<byte>)
    requires 0 < |after| && after[0] == COLON
    ensures DigitRun(Num(n) + after) == |Num(n)|
    ensures (Num(n) + after)[..|Num(n)|] == Num(n)
    ensures (Num(n) + after)[|Num(n)|] == COLON
    ensures Decimal.AllDigits(Chars(Num(n))) && Decimal.Value(Chars(Num(n))) == n
  {
    NumDigits(n);
    DigitRunPrefix(Num(n), after);
    assert Chars(Num(n)) == Decimal.ShowNat(n);
  }

  lemma BytesStep(s: seq<byte>, j: nat, b: seq<byte>)
    requires 0 < j < |s| && DigitRun(s) == j && s[j] == COLON
    requires Decimal.AllDigits(Chars(s[..j])) && Decimal.Value(Chars(s[..j])) == |b|
    requires j + 1 + |b| <= |s| && s[j + 1..j + 1 + |b|] == b
    ensures ParseBytes(s).Some? && ParseBytes(s).value.0 == b && ParseBytes(s).value.1 == j + 1 + |b|
  {
  }

  /** The decimal form of a natural number is all digit bytes. */
  lemma NumDigits(n: nat)
    ensures forall k :: 0 <= k < |Num(n)| ==> IsDigitByte(Num(n)[k])
  {
    var num := Num(n);
    forall k | 0 <= k < |num| ensures IsDigitByte(num[k]) {
      assert Chars(num)[k] == num[k] as char;
      assert Decimal.IsDigit(Decimal.ShowNat(n)[k]);
    }
  }

  lemma {:induction false} DigitRunPrefix(ds: seq<byte>, rest: seq<byte>)
    requires forall k :: 0 <= k < |ds| ==> IsDigitByte(ds[k])
    requires 0 < |rest| && !IsDigitByte(rest[0])
    ensures DigitRun(ds + rest) == |ds|
  {
    if |ds| > 0 {
      assert (ds + rest)[1..] == ds[1..] + rest;
      DigitRunPrefix(ds[1..], rest);
    } else {
      assert ds + rest == rest;
    }
  }

  /** Whatever follows, a value is read back from its encoding, consuming exactly the encoding. */
  lemma {:induction false} RoundTrip(v: BValue, rest: seq<byte>)
    ensures ParseValue(Encode(v) + rest) == Some((v, |Encode(v)|))
    decreases v, 2
  {
    match v
    case BInt(i) => IntRoundTrip(i, rest);
    case BBytes(b) => BytesRoundTrip(b, rest);
    case BList(items) => ListRoundTrip(items, rest);
    case BDict(pairs) => DictRoundTrip(pairs, rest);
  }

  lemma IntRoundTrip(i: int, rest: seq<byte>)
    ensures ParseValue(Encode(BInt(i)) + rest) == Some((BInt(i), |Encode(BInt(i))|))
  {
    var s := Encode(BInt(i)) + rest;
    var num := Num(i);
    assert s == [I] + num + [E] + rest;
    FindENum(num, rest);
    assert s[1..1 + |num|] == num;
    IntTextRoundTrip(i);
  }

  lemma FindENum(num: seq<byte>, rest: seq<byte>)
    requires forall k :: 0 <= k < |num| ==> num[k] != E
    ensures FindE([I] + num + [E] + rest, 1) == Some(1 + |num|)
  {
    var s := [I] + num + [E] + rest;
    assert s[1 + |num|] == E;
    assert forall k :: 1 <= k < 1 + |num| ==> s[k] == num[k - 1];
  }

  lemma {:induction false} ListRoundTrip(items: seq<BValue>, rest: seq<byte>)
    ensures ParseValue(Encode(BList(items)) + rest) == Some((BList(items), |Encode(BList(items))|))
    decreases items, 1
  {
    var body := EncodeItems(items);
    var s := Encode(BList(items)) + rest;
    assert s == [L] + (body + [E] + rest);
    assert s[1..] == body + [E] + rest;
    ItemsRoundTrip(items, rest);
    ListStep(s, items, |body| + 1);
  }

  lemma ListStep(s: seq<byte>, items: seq<BValue>, n: nat)
    requires 0 < |s| && s[0] == L
    requires ParseItems(s[1..]).Some? && ParseItems(s[1..]).value.0 == items && ParseItems(s[1..]).value.1 == n
    ensures ParseValue(s).Some? && ParseValue(s).value.0 == BList(items) && ParseValue(s).value.1 == n + 1
  {
  }

  lemma {:induction false} DictRoundTrip(pairs: seq<Pair>, rest: seq<byte>)
    ensures ParseValue(Encode(BDict(pairs)) + rest) == Some((BDict(pairs), |Encode(BDict(pairs))|))
    decreases pairs, 1
  {
    var body := EncodePairs(pairs);
    var s := Encode(BDict(pairs)) + rest;
    assert s == [D] + (body + [E] + rest);
    assert s[1..] == body + [E] + rest;
    PairsRoundTrip(pairs, rest);
    ValueDictStep(s, pairs, |body| + 1);
  }

  lemma ValueDictStep(s: seq<byte>, pairs: seq<Pair>, n: nat)
    requires 0 < |s| && s[0] == D
    requires ParsePairs(s[1..]).Some? && ParsePairs(s[1..]).value.0 == pairs && ParsePairs(s[1..]).value.1 == n
    ensures ParseValue(s).Some? && ParseValue(s).value.0 == BDict(pairs) && ParseValue(s).value.1 == n + 1
  {
  }

  /** No encoding is empty or starts with the terminator `e`. */
  lemma EncodeStart(v: BValue)
    ensures 0 < |Encode(v)| && Encode(v)[0] != E
  {
    if v.BBytes? {
      NumDigits(|v.b|);
      assert Encode(v)[0] == Num(|v.b|)[0];
    }
  }

  lemma {:induction false} ItemsRoundTrip(items: seq<BValue>, rest: seq<byte>)
    ensures var r := ParseItems(EncodeItems(items) + [E] + rest);
      r.Some? && r.value.0 == items && r.value.1 == |EncodeItems(items)| + 1
    decreases items, 0
  {
    var s := EncodeItems(items) + [E] + rest;
    if |items| == 0 {
      assert s == [E] + rest;
    } else {
      var head := Encode(items[0]);
      var tail := EncodeItems(items[1..]) + [E] + rest;
      assert s == head + tail;
      EncodeStart(items[0]);
      RoundTrip(items[0], tail);
      assert s[|head|..] == tail;
      ItemsRoundTrip(items[1..], rest);
      ItemsStep(s, items[0], |head|, items[1..], |EncodeItems(items[1..])| + 1);
      assert [items[0]] + items[1..] == items;
    }
  }

  lemma ItemsStep(s: seq<byte>, v: BValue, n: nat, vs: seq<BValue>, m: nat)
    requires 0 < |s| && s[0] != E
    requires ParseValue(s).Some? && ParseValue(s).value.0 == v && ParseValue(s).value.1 == n
    requires ParseItems(s[n..]).Some? && ParseItems(s[n..]).value.0 == vs && ParseItems(s[n..]).value.1 == m
    ensures ParseItems(s).Some? && ParseItems(s).value.0 == [v] + vs && ParseItems(s).value.1 == n + m
  {
  }

  lemma {:induction false} PairsRoundTrip(pairs: seq<Pair>, rest: seq<byte>)
    ensures var r := ParsePairs(EncodePairs(pairs) + [E] + rest);
      r.Some? && r.value.0 == pairs && r.value.1 == |EncodePairs(pairs)| + 1
    decreases pairs, 0
  {
    var s := EncodePairs(pairs) + [E] + rest;
    if |pairs| == 0 {
      assert s == [E] + rest;
    } else {
      var entry := EncodeBytes(pairs[0].key) + Encode(pairs[0].value);
      var tail := EncodePairs(pairs[1..]) + [E] + rest;
      assert s == entry + tail;
      EntryRoundTrip(pairs[0], tail);
      assert s[|entry|..] == tail;
      PairsRoundTrip(pairs[1..], rest);
      PairsStep(s, pairs[0], |entry|, pairs[1..], |EncodePairs(pairs[1..])| + 1);
      assert [pairs[0]] + pairs[1..] == pairs;
    }
  }

  lemma {:induction false} EntryRoundTrip(p: Pair, tail: seq<byte>)
    ensures var entry := EncodeBytes(p.key) + Encode(p.value);
      && 0 < |entry| && entry[0] != E
      && ParseEntry(entry + tail).Some? && ParseEntry(entry + tail).value.0 == p
      && ParseEntry(entry + tail).value.1 == |entry|
    decreases p, 3
  {
    var key := EncodeBytes(p.key);
    var value := Encode(p.value);
    var s := key + value + tail;
    assert s == key + (value + tail);
    NumDigits(|p.key|);
    assert s[0] == Num(|p.key|)[0];
    BytesRoundTrip(p.key, value + tail);
    assert s[|key|..] == value + tail;
    RoundTrip(p.value, tail);
    EntryStep(s, p.key, |key|, p.value, |value|);
  }

  lemma EntryStep(s: seq<byte>, key: seq<byte>, n: nat, v: BValue, m: nat)
    requires ParseBytes(s).Some? && ParseBytes(s).value.0 == key && ParseBytes(s).value.1 == n
    requires ParseValue(s[n..]).Some? && ParseValue(s[n..]).value.0 == v && ParseValue(s[n..]).value.1 == m
    ensures ParseEntry(s).Some? && ParseEntry(s).value.0 == Pair(key, v) && ParseEntry(s).value.1 == n + m
  {
  }

  lemma PairsStep(s: seq<byte>, p: Pair, n: nat, ps: seq<Pair>, m: nat)
    requires 0 < |s| && s[0] != E
    requires ParseEntry(s).Some? && ParseEntry(s).value.0 == p && ParseEntry(s).value.1 == n
    requires ParsePairs(s[n..]).Some? && ParsePairs(s[n..]).value.0 == ps && ParsePairs(s[n..]).value.1 == m
    ensures ParsePairs(s).Some? && ParsePairs(s).value.0 == [p] + ps && ParsePairs(s).value.1 == n + m
  {
  }
}
