/**
 * UTF-8 as Rust's `str` holds it: the well-formed byte sequences of
 * Table 3-7 of the Unicode Standard (also RFC 3629, section 4), the
 * characters `chars()` yields, and `is_char_boundary`.
 */
module Utf8 {
  import opened Bytes

  /** A byte of the form 10xxxxxx, which never starts a character. */
  predicate IsContinuation(b: byte) {
    0x80 <= b < 0xC0
  }

  /**
   * Length of the well-formed character at the start of `b`, or 0 when `b`
   * does not start with one. The second byte's range depends on the lead
   * byte so that overlong forms, surrogates and values past U+10FFFF are
   * excluded.
   */
  function CharLen(b: seq<byte>): (n: nat)
    ensures n <= 4 && n <= |b|
    ensures n > 0 ==> !IsContinuation(b[0])
    ensures n > 0 ==> forall j :: 1 <= j < n ==> IsContinuation(b[j])
    ensures n == 1 <==> |b| > 0 && b[0] < 0x80
  {
    if |b| == 0 then 0
    else if b[0] < 0x80 then 1
    else if 0xC2 <= b[0] <= 0xDF then
      if |b| >= 2 && IsContinuation(b[1]) then 2 else 0
    else if 0xE0 <= b[0] <= 0xEF then
      var lo := if b[0] == 0xE0 then 0xA0 else 0x80;
      var hi := if b[0] == 0xED then 0x9F else 0xBF;
      if |b| >= 3 && lo <= b[1] <= hi && IsContinuation(b[2]) then 3 else 0
    else if 0xF0 <= b[0] <= 0xF4 then
      var lo := if b[0] == 0xF0 then 0x90 else 0x80;
      var hi := if b[0] == 0xF4 then 0x8F else 0xBF;
      if |b| >= 4 && lo <= b[1] <= hi && IsContinuation(b[2]) && IsContinuation(b[3]) then 4 else 0
    else 0
  }

  /** `b` is a sequence of well-formed characters: what `str::from_utf8` accepts. */
  predicate ValidUtf8(b: seq<byte>)
    decreases |b|
  {
    |b| == 0 || (CharLen(b) > 0 && ValidUtf8(b[CharLen(b)..]))
  }

  /**
   * The scalar value of the character at the start of `b`. Its encoding is
   * the shortest one, so a value below 0x80 comes only from a one-byte
   * character, and no surrogate is ever produced.
   */
  function CodePoint(b: seq<byte>): (cp: nat)
    requires CharLen(b) > 0
    ensures cp < 0x80 <==> CharLen(b) == 1
    ensures CharLen(b) == 1 ==> cp == b[0]
    ensures CharLen(b) == 3 ==> 0x800 <= cp
    ensures CharLen(b) == 4 ==> 0x10000 <= cp <= 0x10FFFF
    ensures !(0xD800 <= cp <= 0xDFFF)
  {
    var n := CharLen(b);
    var b0: int := b[0];
    if n == 1 then b0
    else
      var b1: int := b[1];
      if n == 2 then (b0 - 0xC0) * 0x40 + (b1 - 0x80)
      else
        var b2: int := b[2];
        if n == 3 then (b0 - 0xE0) * 0x1000 + (b1 - 0x80) * 0x40 + (b2 - 0x80)
        else
          var b3: int := b[3];
          (b0 - 0xF0) * 0x40000 + (b1 - 0x80) * 0x1000 + (b2 - 0x80) * 0x40 + (b3 - 0x80)
  }

  /** `chars()`: the scalar values of a well-formed sequence, in order. */
  function Decode(b: seq<byte>): (cs: seq<nat>)
    requires ValidUtf8(b)
    ensures |cs| <= |b|
    decreases |b|
  {
    if |b| == 0 then [] else [CodePoint(b)] + Decode(b[CharLen(b)..])
  }

  /** The byte offset at which each character of `Decode(b)` starts. */
  function Starts(b: seq<byte>): (ss: seq<nat>)
    requires ValidUtf8(b)
    ensures |ss| == |Decode(b)|
    ensures forall k :: 0 <= k < |ss| ==> ss[k] < |b|
    decreases |b|
  {
    if |b| == 0 then []
    else
      var n := CharLen(b);
      [0] + Shift(Starts(b[n..]), n)
  }

  /** Every offset moved up by `n`. */
  function Shift(xs: seq<nat>, n: nat): (r: seq<nat>)
    ensures |r| == |xs|
    ensures forall k :: 0 <= k < |xs| ==> r[k] == xs[k] + n
  {
    if |xs| == 0 then [] else [xs[0] + n] + Shift(xs[1..], n)
  }

  /**
   * `str::is_char_boundary`: the start, the end, or a position holding a
   * byte that is not a continuation byte.
   */
  predicate IsCharBoundary(b: seq<byte>, i: nat) {
    i == 0 || i == |b| || (i < |b| && !IsContinuation(b[i]))
  }

  /**
   * In a well-formed sequence, the positions where a character starts are
   * exactly the positions holding a non-continuation byte.
   */
  lemma {:induction false} StartsAreLeads(b: seq<byte>, i: nat)
    requires ValidUtf8(b) && i < |b|
    ensures i in Starts(b) <==> !IsContinuation(b[i])
    decreases |b|
  {
    var n := CharLen(b);
    StartsStep(b);
    if i >= n {
      StartsAreLeads(b[n..], i - n);
      assert b[n..][i - n] == b[i];
      StartsShifted(b, i);
    } else if i > 0 {
      assert IsContinuation(b[i]);
    } else {
      assert Starts(b)[0] == 0;
    }
  }

  /** The first start is 0, and the others are the rest's starts moved past the first character. */
  lemma StartsStep(b: seq<byte>)
    requires ValidUtf8(b) && |b| > 0
    ensures |Starts(b)| == |Starts(b[CharLen(b)..])| + 1
    ensures Starts(b)[0] == 0
    ensures forall k :: 0 < k < |Starts(b)| ==> Starts(b)[k] == Starts(b[CharLen(b)..])[k - 1] + CharLen(b)
  {
  }

  /** Past the first character, a position starts a character exactly when it does in the rest. */
  lemma {:induction false} StartsShifted(b: seq<byte>, i: nat)
    requires ValidUtf8(b) && |b| > 0 && CharLen(b) <= i
    ensures i in Starts(b) <==> i - CharLen(b) in Starts(b[CharLen(b)..])
  {
    var n := CharLen(b);
    var t := b[n..];
    assert ValidUtf8(t);
    ShiftedAt(b, i, t, n);
  }

  lemma {:induction false} ShiftedAt(b: seq<byte>, i: nat, t: seq<byte>, n: nat)
    requires ValidUtf8(b) && |b| > 0 && n == CharLen(b) && n <= i && t == b[n..] && ValidUtf8(t)
    ensures i in Starts(b) <==> i - n in Starts(t)
  {
    StartsStep(b);
    ShiftedMember(Starts(b), Starts(t), n, i);
  }

  lemma ShiftedMember(ss: seq<nat>, rest: seq<nat>, n: nat, i: nat)
    requires |ss| == |rest| + 1 && ss[0] == 0 && 0 < n <= i
    requires forall k :: 0 < k < |ss| ==> ss[k] == rest[k - 1] + n
    ensures i in ss <==> i - n in rest
  {
    if i - n in rest {
      var k :| 0 <= k < |rest| && rest[k] == i - n;
      assert ss[k + 1] == i;
    }
    if i in ss {
      var k :| 0 <= k < |ss| && ss[k] == i;
      assert rest[k - 1] == i - n;
    }
  }

  /** The character at a start holding an ASCII byte is that byte, and conversely. */
  lemma {:induction false} AsciiAtStart(b: seq<byte>, k: nat)
    requires ValidUtf8(b) && k < |Decode(b)|
    ensures Decode(b)[k] < 0x80 <==> b[Starts(b)[k]] < 0x80
    ensures Decode(b)[k] < 0x80 ==> Decode(b)[k] == b[Starts(b)[k]]
    decreases |b|
  {
    var n := CharLen(b);
    var t := b[n..];
    assert ValidUtf8(t);
    DecodeStep(b, t, n);
    StartsStep(b);
    if k > 0 {
      AsciiAtStart(t, k - 1);
      assert b[Starts(b)[k]] == t[Starts(t)[k - 1]];
    } else {
      assert Starts(b)[0] == 0;
    }
  }

  /** The first character decoded, then the rest's characters. */
  lemma DecodeStep(b: seq<byte>, t: seq<byte>, n: nat)
    requires ValidUtf8(b) && |b| > 0 && n == CharLen(b) && t == b[n..] && ValidUtf8(t)
    ensures |Decode(b)| == |Decode(t)| + 1
    ensures Decode(b)[0] == CodePoint(b)
    ensures forall k :: 0 < k < |Decode(b)| ==> Decode(b)[k] == Decode(t)[k - 1]
  {
  }

  /** ASCII text is well formed, and each of its bytes is one character. */
  lemma {:induction false} AsciiValid(b: seq<byte>)
    requires forall i :: 0 <= i < |b| ==> b[i] < 0x80
    ensures ValidUtf8(b)
    ensures Decode(b) == b
    decreases |b|
  {
    if |b| > 0 {
      AsciiValid(b[1..]);
    }
  }
}
