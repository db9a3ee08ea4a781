/**
 * The site's helpers in backend/src/util.rs: the passkey, the invitation
 * code and the timestamp read back from it, the table row derived from an
 * uploaded torrent, and the torrent file handed to a user with a personal
 * announce address. Hash functions, the clock and the random generator are
 * parameters.
 */
module SiteUtil {
  import opened Wrappers
  import opened Bytes
  import Decimal
  import Bencode

  // ----- str::split on one separator -----

  /**
   * `split(sep)`: the pieces between occurrences of `sep`. There is always
   * at least one piece, and an empty input gives one empty piece.
   */
  function Split<T(==)>(s: seq<T>, sep: T): (r: seq<seq<T>>)
    ensures |r| >= 1
    ensures forall k :: 0 <= k < |r| ==> sep !in r[k]
    ensures |r| == 1 <==> sep !in s
    decreases |s|
  {
    if |s| == 0 then [[]]
    else
      var rest := Split(s[1..], sep);
      assert sep in s <==> s[0] == sep || sep in s[1..] by {
        assert s == [s[0]] + s[1..];
      }
      if s[0] == sep then [[]] + rest
      else [[s[0]] + rest[0]] + rest[1..]
  }

  /** The pieces put back together with `sep` between neighbours. */
  function Join<T>(parts: seq<seq<T>>, sep: T): seq<T>
    requires |parts| >= 1
  {
    if |parts| == 1 then parts[0] else parts[0] + [sep] + Join(parts[1..], sep)
  }

  /** Joining the pieces of a split gives back the input. */
  lemma {:induction false} SplitJoin<T>(s: seq<T>, sep: T)
    ensures Join(Split(s, sep), sep) == s
    decreases |s|
  {
    if |s| > 0 {
      var rest := Split(s[1..], sep);
      SplitJoin(s[1..], sep);
      var r := Split(s, sep);
      if s[0] == sep {
        assert r[1..] == rest;
        assert s == [sep] + s[1..];
      } else if |rest| == 1 {
        assert r == [[s[0]] + rest[0]];
        assert s == [s[0]] + s[1..];
      } else {
        assert r[1..] == rest[1..];
        assert Join(rest, sep) == rest[0] + [sep] + Join(rest[1..], sep);
        assert s == [s[0]] + s[1..];
      }
    }
  }

  /** Every element of a piece is an element of the input. */
  lemma {:induction false} SplitPieceChars<T>(s: seq<T>, sep: T, k: nat, x: T)
    requires k < |Split(s, sep)| && x in Split(s, sep)[k]
    ensures x in s
    decreases |s|
  {
    if |s| > 0 {
      var rest := Split(s[1..], sep);
      SplitHead(s, sep);
      if s[0] == sep {
        SplitPieceChars(s[1..], sep, k - 1, x);
      } else if k == 0 {
        if x != s[0] {
          assert x in rest[0];
          SplitPieceChars(s[1..], sep, 0, x);
        }
      } else {
        SplitPieceChars(s[1..], sep, k, x);
      }
    }
  }

  /** Splitting a join of separator-free pieces gives back the pieces. */
  lemma {:induction false} JoinSplit<T>(parts: seq<seq<T>>, sep: T)
    requires |parts| >= 1
    requires forall k :: 0 <= k < |parts| ==> sep !in parts[k]
    ensures Split(Join(parts, sep), sep) == parts
    decreases |parts|, |parts[0]|
  {
    var p := parts[0];
    var s := Join(parts, sep);
    if |p| == 0 {
      if |parts| == 1 {
        assert parts == [[]];
      } else {
        var rest := parts[1..];
        assert s == [sep] + Join(rest, sep);
        assert s[1..] == Join(rest, sep);
        JoinSplit(rest, sep);
        SplitHead(s, sep);
        assert [[]] + rest == parts;
      }
    } else {
      var shorter := [p[1..]] + parts[1..];
      assert shorter[0] == p[1..] && shorter[1..] == parts[1..];
      assert sep !in p[1..] by {
        assert forall k :: 0 <= k < |p[1..]| ==> p[1..][k] == p[k + 1];
      }
      JoinHead(parts, sep);
      JoinSplit(shorter, sep);
      SplitHead(s, sep);
      assert s[1..] == Join(shorter, sep);
      assert [p[0]] + p[1..] == p;
      assert [p] + parts[1..] == parts;
    }
  }

  /** Splitting looks at the first element, then splits the rest. */
  lemma {:induction false} SplitHead<T>(s: seq<T>, sep: T)
    requires |s| > 0
    ensures s[0] == sep ==> Split(s, sep) == [[]] + Split(s[1..], sep)
    ensures s[0] != sep ==> Split(s, sep) == [[s[0]] + Split(s[1..], sep)[0]] + Split(s[1..], sep)[1..]
  {
  }

  /** A join whose first piece is not empty starts with that piece's first element. */
  lemma {:induction false} JoinHead<T>(parts: seq<seq<T>>, sep: T)
    requires |parts| >= 1 && |parts[0]| > 0
    ensures Join(parts, sep) == [parts[0][0]] + Join([parts[0][1..]] + parts[1..], sep)
  {
    var p := parts[0];
    var shorter := [p[1..]] + parts[1..];
    assert shorter[1..] == parts[1..];
    assert p == [p[0]] + p[1..];
    if |parts| > 1 {
      assert Join(shorter, sep) == p[1..] + [sep] + Join(parts[1..], sep);
    }
  }

  /** Joining with one more piece at the end adds the separator and the piece. */
  lemma {:induction false} JoinSnoc<T>(parts: seq<seq<T>>, x: seq<T>, sep: T)
    requires |parts| >= 1
    ensures Join(parts + [x], sep) == Join(parts, sep) + [sep] + x
    decreases |parts|
  {
    if |parts| > 1 {
      assert (parts + [x])[1..] == parts[1..] + [x];
      JoinSnoc(parts[1..], x, sep);
    }
  }

  // ----- str::trim -----

  /** `char::is_whitespace`: the characters with the Unicode White_Space property. */
  predicate IsWhitespace(c: char) {
    var n := c as int;
    (9 <= n <= 13) || n == 0x20 || n == 0x85 || n == 0xA0 || n == 0x1680 || (0x2000 <= n <= 0x200A)
    || n == 0x2028 || n == 0x2029 || n == 0x202F || n == 0x205F || n == 0x3000
  }

  /** `trim_start`: drops the leading whitespace and nothing else. */
  function TrimStart(s: string): (r: string)
    ensures |r| <= |s| && r == s[|s| - |r|..]
    ensures forall k :: 0 <= k < |s| - |r| ==> IsWhitespace(s[k])
    ensures |r| > 0 ==> !IsWhitespace(r[0])
  {
    if |s| > 0 && IsWhitespace(s[0]) then TrimStart(s[1..]) else s
  }

  /** `trim_end`: drops the trailing whitespace and nothing else. */
  function TrimEnd(s: string): (r: string)
    ensures |r| <= |s| && r == s[..|r|]
    ensures forall k :: |r| <= k < |s| ==> IsWhitespace(s[k])
    ensures |r| > 0 ==> !IsWhitespace(r[|r| - 1])
  {
    if |s| > 0 && IsWhitespace(s[|s| - 1]) then TrimEnd(s[..|s| - 1]) else s
  }

  /** `trim`: both ends. */
  function Trim(s: string): (r: string)
    ensures |r| == 0 || (!IsWhitespace(r[0]) && !IsWhitespace(r[|r| - 1]))
  {
    TrimEnd(TrimStart(s))
  }

  /** Text that neither starts nor ends with whitespace is left as it is. */
  lemma TrimKeeps(s: string)
    requires |s| == 0 || (!IsWhitespace(s[0]) && !IsWhitespace(s[|s| - 1]))
    ensures Trim(s) == s
  {
  }

  // ----- invitation and activation codes -----

  datatype CodeError =
    | InvalidCode     // "invalid code": no '_' in the code
    | ParseIntError   // the part after the first '_' is not an i64

  const UNDERSCORE: char := '_'

  /** Number of random characters at the head of a code. */
  const RANDOM_LEN: nat := 10

  predicate IsAlphanumeric(c: char) {
    ('0' <= c <= '9') || ('a' <= c <= 'z') || ('A' <= c <= 'Z')
  }

  /**
   * `generate_random_code`: ten random alphanumeric characters, '_', and the
   * current Unix time. The characters and the time are parameters.
   */
  function RandomCode(rand: string, now: i64): string
    requires |rand| == RANDOM_LEN && forall k :: 0 <= k < |rand| ==> IsAlphanumeric(rand[k])
  {
    rand + [UNDERSCORE] + Decimal.ShowInt(now)
  }

  /** A generated code has exactly two pieces: the random characters and the time. */
  lemma RandomCodePieces(rand: string, now: i64)
    requires |rand| == RANDOM_LEN && forall k :: 0 <= k < |rand| ==> IsAlphanumeric(rand[k])
    ensures Split(RandomCode(rand, now), UNDERSCORE) == [rand, Decimal.ShowInt(now)]
  {
    var t := Decimal.ShowInt(now);
    AlphanumericNoUnderscore(rand);
    TimeText(now);
    SplitTwo(rand, t, UNDERSCORE);
  }

  /** Two pieces free of the separator, joined by it, split back into those two. */
  lemma {:induction false} SplitTwo<T>(a: seq<T>, b: seq<T>, sep: T)
    requires sep !in a && sep !in b
    ensures Split(a + [sep] + b, sep) == [a, b]
  {
    Join2(a, b, sep);
    JoinSplit([a, b], sep);
  }

  /**
   * `get_time_from_code`: the piece after the first '_', trimmed, read as a
   * decimal i64. A code without '_' is invalid; pieces after the second are
   * ignored.
   */
  function TimeFromCode(code: string): (r: Result<i64, CodeError>)
    ensures r == Err(InvalidCode) <==> UNDERSCORE !in code
  {
    var pieces := Split(code, UNDERSCORE);
    if |pieces| < 2 then Err(InvalidCode)
    else
      match Decimal.ParseSigned(Trim(pieces[1]), I64_MIN, I64_MAX)
      case None => Err(ParseIntError)
      case Some(t) => Ok(t)
  }

  /** A generated code gives back the time it was made with. */
  lemma CodeRoundTrip(rand: string, now: i64)
    requires |rand| == RANDOM_LEN && forall k :: 0 <= k < |rand| ==> IsAlphanumeric(rand[k])
    ensures TimeFromCode(RandomCode(rand, now)) == Ok(now)
  {
    AlphanumericNoUnderscore(rand);
    TimeText(now);
    TwoPieces(rand, Decimal.ShowInt(now));
  }

  lemma AlphanumericNoUnderscore(rand: string)
    requires forall k :: 0 <= k < |rand| ==> IsAlphanumeric(rand[k])
    ensures UNDERSCORE !in rand
  {
    forall k | 0 <= k < |rand| ensures rand[k] != UNDERSCORE {
      assert IsAlphanumeric(rand[k]);
    }
  }

  /** The decimal form of a time holds no '_', and trimming and parsing it gives the time back. */
  lemma TimeText(now: i64)
    ensures UNDERSCORE !in Decimal.ShowInt(now)
    ensures Decimal.ParseSigned(Trim(Decimal.ShowInt(now)), I64_MIN, I64_MAX) == Some(now)
  {
    var t := Decimal.ShowInt(now);
    if now < 0 {
      Decimal.ShowNatAvoids(-(now as int), UNDERSCORE);
      assert t == "-" + Decimal.ShowNat(-(now as int));
      assert t[|t| - 1] == Decimal.ShowNat(-(now as int))[|t| - 2];
    } else {
      Decimal.ShowNatAvoids(now, UNDERSCORE);
    }
    TrimKeeps(t);
    Decimal.SignedRoundTrip(now, I64_MIN, I64_MAX);
  }

  /**
   * Only the second piece is read: appending more pieces to a code that
   * already has a '_' does not change its time.
   */
  lemma {:induction false} ExtraPiecesIgnored(code: string, extra: string)
    requires UNDERSCORE in code
    ensures TimeFromCode(code + [UNDERSCORE] + extra) == TimeFromCode(code)
  {
    var ps := Split(code, UNDERSCORE);
    var qs := Split(extra, UNDERSCORE);
    SplitJoin(code, UNDERSCORE);
    SplitJoin(extra, UNDERSCORE);
    JoinAppend(ps, qs, UNDERSCORE);
    JoinSplit(ps + qs, UNDERSCORE);
    assert (ps + qs)[1] == ps[1];
  }

  lemma {:induction false} JoinAppend<T>(ps: seq<seq<T>>, qs: seq<seq<T>>, sep: T)
    requires |ps| >= 1 && |qs| >= 1
    ensures Join(ps + qs, sep) == Join(ps, sep) + [sep] + Join(qs, sep)
    decreases |ps|
  {
    if |ps| == 1 {
      assert (ps + qs)[1..] == qs;
    } else {
      assert (ps + qs)[1..] == ps[1..] + qs;
      JoinAppend(ps[1..], qs, sep);
    }
  }

  /** A code of two '_'-free pieces is read from its second piece alone. */
  lemma TwoPieces(a: string, b: string)
    requires UNDERSCORE !in a && UNDERSCORE !in b
    ensures TimeFromCode(a + [UNDERSCORE] + b) ==
      match Decimal.ParseSigned(Trim(b), I64_MIN, I64_MAX)
      case None => Err(ParseIntError)
      case Some(t) => Ok(t)
  {
    SplitTwo(a, b, UNDERSCORE);
  }

  /** The unit test's valid code. */
  lemma ValidCodeExample(code: string)
    requires code == "acdxfghjk_114514"
    ensures TimeFromCode(code) == Ok(114514)
  {
    var a, b := code[..9], code[10..];
    assert code == a + [UNDERSCORE] + b;
    assert UNDERSCORE !in a;
    assert b == Decimal.ShowInt(114514) by {
      assert Decimal.ShowNat(11) == "11";
      assert Decimal.ShowNat(114) == "114";
      assert Decimal.ShowNat(1145) == "1145";
      assert Decimal.ShowNat(11451) == "11451";
    }
    TimeText(114514);
    TwoPieces(a, b);
  }

  /** The unit test's code without a '_'. */
  lemma NoSeparatorExample(code: string)
    requires code == "akjashdka2189213"
    ensures TimeFromCode(code) == Err(InvalidCode)
  {
    assert UNDERSCORE !in code;
  }

  /** The unit test's code whose time piece has letters in it: "kajsjdncjk_212jas28". */
  lemma LettersInTimeExample(a: string, b: string)
    requires a == "kajsjdncjk" && b == "212jas28"
    ensures TimeFromCode(a + [UNDERSCORE] + b) == Err(ParseIntError)
  {
    assert UNDERSCORE !in a;
    assert UNDERSCORE !in b;
    TwoPieces(a, b);
    NotATime(b);
  }

  lemma NotATime(b: string)
    requires b == "212jas28"
    ensures Decimal.ParseSigned(Trim(b), I64_MIN, I64_MAX) == None
  {
    TrimKeeps(b);
    assert !Decimal.IsDigit(b[3]);
  }

  // ----- passkeys -----

  /** Length of a SHA-256 digest in bytes. */
  const SHA256_LEN: nat := 32

  /** Length of a passkey in characters. */
  const PASSKEY_LEN: nat := 32

  /**
   * `generate_passkey`: the first 32 characters of the lower-case hex form of
   * a SHA-256 digest. The digest of the user name, the time and a random
   * number is a parameter. The passkey carries exactly the first 16 bytes of
   * the digest.
   */
  function Passkey(digest: seq<byte>): (r: string)
    requires |digest| == SHA256_LEN
    ensures |r| == PASSKEY_LEN && IsAscii(r)
    ensures HexDecode(Lit(r)) == Some(digest[..16])
  {
    var h := HexEncode(digest)[..PASSKEY_LEN];
    HexEncodePrefix(digest, 16);
    HexRoundTrip(digest[..16]);
    var r := Bencode.Chars(h);
    assert Lit(r) == h;
    r
  }

  /** Passkeys are lower-case hex, so none holds a character of URL syntax. */
  lemma PasskeyIsLowerHex(digest: seq<byte>)
    requires |digest| == SHA256_LEN
    ensures forall k :: 0 <= k < PASSKEY_LEN ==> IsLowerHex(Passkey(digest)[k] as int)
  {
    HexEncodePrefix(digest, 16);
  }

  // ----- the announce address and the torrent file -----

  const QUESTION: byte := '?' as int
  const AMPERSAND: byte := '&' as int
  const PASSKEY_EQ: seq<byte> := [112, 97, 115, 115, 107, 101, 121, 61]   // "passkey="
  const TID_EQ: seq<byte> := [116, 105, 100, 61]                          // "tid="
  const UID_EQ: seq<byte> := [117, 105, 100, 61]                          // "uid="

  /**
   * The announce address of a generated torrent, as UTF-8 bytes:
   * `{addr}?passkey={passkey}&tid={tid}&uid={uid}`. `addr` is the configured
   * announce address.
   */
  function AnnounceUrl(addr: seq<byte>, passkey: seq<byte>, tid: i64, uid: i64): (r: seq<byte>)
    ensures |addr| < |r| && r[..|addr|] == addr
  {
    addr + [QUESTION] + AnnounceQuery(passkey, tid, uid)
  }

  /** The query part of the announce address. */
  function AnnounceQuery(passkey: seq<byte>, tid: i64, uid: i64): seq<byte> {
    PASSKEY_EQ + passkey + [AMPERSAND] + TID_EQ + Bencode.Num(tid) + [AMPERSAND] + UID_EQ + Bencode.Num(uid)
  }

  lemma Join2<T>(a: seq<T>, b: seq<T>, sep: T)
    ensures Join([a, b], sep) == a + [sep] + b
  {
    assert [a, b][1..] == [b];
  }

  lemma Join3<T>(a: seq<T>, b: seq<T>, c: seq<T>, sep: T)
    ensures Join([a, b, c], sep) == a + [sep] + b + [sep] + c
  {
    assert [a, b, c][1..] == [b, c] && [b, c][1..] == [c];
    assert Join([b, c], sep) == b + [sep] + c;
    assert Join([a, b, c], sep) == a + [sep] + (b + [sep] + c);
  }

  /** A decimal number holds no '?' and no '&'. */
  lemma NumAvoids(i: int)
    ensures QUESTION !in Bencode.Num(i) && AMPERSAND !in Bencode.Num(i)
  {
    var num := Bencode.Num(i);
    var t := Decimal.ShowInt(i);
    forall k | 0 <= k < |num| ensures num[k] != QUESTION && num[k] != AMPERSAND {
      assert num[k] as char == t[k];
      if i < 0 && k > 0 {
        assert t[k] == Decimal.ShowNat(-i)[k - 1];
      }
    }
  }

  /**
   * The address comes apart again: when neither the configured address nor
   * the passkey holds '?' or '&', the address is split by its one '?' and
   * the query is the three fields in order.
   */
  lemma AnnounceUrlFields(addr: seq<byte>, passkey: seq<byte>, tid: i64, uid: i64)
    requires QUESTION !in addr && QUESTION !in passkey && AMPERSAND !in passkey
    ensures Split(AnnounceUrl(addr, passkey, tid, uid), QUESTION) == [addr, AnnounceQuery(passkey, tid, uid)]
    ensures Split(AnnounceQuery(passkey, tid, uid), AMPERSAND) ==
      [PASSKEY_EQ + passkey, TID_EQ + Bencode.Num(tid), UID_EQ + Bencode.Num(uid)]
  {
    QueryFields(passkey, tid, uid);
    var query := AnnounceQuery(passkey, tid, uid);
    SplitTwo(addr, query, QUESTION);
  }

  lemma QueryFields(passkey: seq<byte>, tid: i64, uid: i64)
    requires QUESTION !in passkey && AMPERSAND !in passkey
    ensures QUESTION !in AnnounceQuery(passkey, tid, uid)
    ensures Split(AnnounceQuery(passkey, tid, uid), AMPERSAND) ==
      [PASSKEY_EQ + passkey, TID_EQ + Bencode.Num(tid), UID_EQ + Bencode.Num(uid)]
  {
    var f0 := PASSKEY_EQ + passkey;
    var f1 := TID_EQ + Bencode.Num(tid);
    var f2 := UID_EQ + Bencode.Num(uid);
    NumAvoids(tid);
    NumAvoids(uid);
    assert QUESTION !in f0 && AMPERSAND !in f0;
    assert QUESTION !in f1 && AMPERSAND !in f1;
    assert QUESTION !in f2 && AMPERSAND !in f2;
    assert AnnounceQuery(passkey, tid, uid) == f0 + [AMPERSAND] + f1 + [AMPERSAND] + f2;
    SplitThree(f0, f1, f2, AMPERSAND);
  }

  /** Three pieces free of the separator, joined by it, split back into those three. */
  lemma {:induction false} SplitThree<T>(a: seq<T>, b: seq<T>, c: seq<T>, sep: T)
    requires sep !in a && sep !in b && sep !in c
    ensures Split(a + [sep] + b + [sep] + c, sep) == [a, b, c]
  {
    Join3(a, b, c, sep);
    JoinSplit([a, b, c], sep);
  }

  /** The ids in the query read back as the numbers written. */
  lemma AnnounceIdsRead(tid: i64, uid: i64)
    ensures Decimal.ParseSigned(Bencode.Chars(Bencode.Num(tid)), I64_MIN, I64_MAX) == Some(tid)
    ensures Decimal.ParseSigned(Bencode.Chars(Bencode.Num(uid)), I64_MIN, I64_MAX) == Some(uid)
  {
    Decimal.SignedRoundTrip(tid, I64_MIN, I64_MAX);
    Decimal.SignedRoundTrip(uid, I64_MIN, I64_MAX);
  }

  /**
   * `generate_torrent_file` as written: the dictionary is written by hand with
   * the keys in the order `info`, `announce`, `comment`. `info` is the stored
   * bencoded info dictionary, copied unchanged.
   */
  function TorrentFile(info: seq<byte>, addr: seq<byte>, passkey: seq<byte>, tid: i64, uid: i64, comment: seq<byte>)
    : seq<byte>
  {
    D4_INFO + info + ANNOUNCE_8 + Bencode.EncodeBytes(AnnounceUrl(addr, passkey, tid, uid))
    + COMMENT_7 + Bencode.EncodeBytes(comment) + [Bencode.E]
  }

  const D4_INFO: seq<byte> := [100, 52, 58, 105, 110, 102, 111]                           // "d4:info"
  const ANNOUNCE_8: seq<byte> := [56, 58, 97, 110, 110, 111, 117, 110, 99, 101]         // "8:announce"
  const COMMENT_7: seq<byte> := [55, 58, 99, 111, 109, 109, 101, 110, 116]              // "7:comment"
  const INFO_4: seq<byte> := [52, 58, 105, 110, 102, 111]                               // "4:info"

  const INFO_KEY: seq<byte> := [105, 110, 102, 111]                          // "info"
  const ANNOUNCE_KEY: seq<byte> := [97, 110, 110, 111, 117, 110, 99, 101]    // "announce"
  const COMMENT_KEY: seq<byte> := [99, 111, 109, 109, 101, 110, 116]         // "comment"

  /** The entries of a generated torrent file, in the order they are written. */
  function WrittenPairs(v: Bencode.BValue, url: seq<byte>, comment: seq<byte>): seq<Bencode.Pair> {
    [Bencode.Pair(INFO_KEY, v), Bencode.Pair(ANNOUNCE_KEY, Bencode.BBytes(url)),
     Bencode.Pair(COMMENT_KEY, Bencode.BBytes(comment))]
  }

  lemma KeyEncodings()
    ensures INFO_4 == Bencode.EncodeBytes(INFO_KEY) && D4_INFO == [Bencode.D] + INFO_4
    ensures ANNOUNCE_8 == Bencode.EncodeBytes(ANNOUNCE_KEY)
    ensures COMMENT_7 == Bencode.EncodeBytes(COMMENT_KEY)
  {
    assert Bencode.Num(4) == [52] by { assert Decimal.ShowNat(4) == "4"; }
    assert Bencode.Num(8) == [56] by { assert Decimal.ShowNat(8) == "8"; }
    assert Bencode.Num(7) == [55] by { assert Decimal.ShowNat(7) == "7"; }
  }

  /**
   * The generated file is a well-formed bencoded dictionary whose entries
   * are the info dictionary, the personal announce address and the comment,
   * but its keys are not in the sorted order BEP 3 requires.
   */
  lemma TorrentFileUnsorted(v: Bencode.BValue, addr: seq<byte>, passkey: seq<byte>, tid: i64, uid: i64, comment: seq<byte>)
    ensures var file := TorrentFile(Bencode.Encode(v), addr, passkey, tid, uid, comment);
      Bencode.ParseValue(file) ==
        Some((Bencode.BDict(WrittenPairs(v, AnnounceUrl(addr, passkey, tid, uid), comment)), |file|))
    ensures !Bencode.SortedKeys(WrittenPairs(v, AnnounceUrl(addr, passkey, tid, uid), comment))
  {
    var url := AnnounceUrl(addr, passkey, tid, uid);
    var pairs := WrittenPairs(v, url, comment);
    KeyEncodings();
    var file := TorrentFile(Bencode.Encode(v), addr, passkey, tid, uid, comment);
    DictOf3(pairs[0], pairs[1], pairs[2]);
    assert file == Bencode.Encode(Bencode.BDict(pairs));
    Bencode.RoundTrip(Bencode.BDict(pairs), []);
    assert file + [] == file;
    assert !Bencode.ByteLess(INFO_KEY, ANNOUNCE_KEY);
  }

  /** A three-entry dictionary is its entries' encodings, in order, between `d` and `e`. */
  lemma DictOf3(p0: Bencode.Pair, p1: Bencode.Pair, p2: Bencode.Pair)
    ensures Bencode.Encode(Bencode.BDict([p0, p1, p2])) ==
      [Bencode.D] + Bencode.EncodeBytes(p0.key) + Bencode.Encode(p0.value)
      + Bencode.EncodeBytes(p1.key) + Bencode.Encode(p1.value)
      + Bencode.EncodeBytes(p2.key) + Bencode.Encode(p2.value) + [Bencode.E]
  {
    var ps := [p0, p1, p2];
    assert ps[1..] == [p1, p2] && ps[1..][1..] == [p2] && ps[1..][1..][1..] == [];
    var a0, a1 := Bencode.EncodeBytes(p0.key), Bencode.Encode(p0.value);
    var b0, b1 := Bencode.EncodeBytes(p1.key), Bencode.Encode(p1.value);
    var c0, c1 := Bencode.EncodeBytes(p2.key), Bencode.Encode(p2.value);
    assert Bencode.EncodePairs([p2]) == c0 + c1 + [];
    assert Bencode.EncodePairs([p1, p2]) == b0 + b1 + (c0 + c1 + []);
    assert Bencode.EncodePairs(ps) == a0 + a1 + (b0 + b1 + (c0 + c1 + []));
    Flatten([Bencode.D], a0, a1, b0, b1, c0, c1, [Bencode.E]);
  }

  lemma Flatten<T>(d: seq<T>, a0: seq<T>, a1: seq<T>, b0: seq<T>, b1: seq<T>, c0: seq<T>, c1: seq<T>, e: seq<T>)
    ensures d + (a0 + a1 + (b0 + b1 + (c0 + c1 + []))) + e == d + a0 + a1 + b0 + b1 + c0 + c1 + e
  {
    assert c0 + c1 + [] == c0 + c1;
  }

  /**
   * The torrent file with its keys in sorted order (`announce`, `comment`,
   * `info`). The info dictionary is still copied byte for byte, so the info
   * hash is the same.
   */
  function SortedTorrentFile(info: seq<byte>, addr: seq<byte>, passkey: seq<byte>, tid: i64, uid: i64, comment: seq<byte>)
    : seq<byte>
  {
    [Bencode.D] + ANNOUNCE_8 + Bencode.EncodeBytes(AnnounceUrl(addr, passkey, tid, uid)) + COMMENT_7
    + Bencode.EncodeBytes(comment) + INFO_4 + info + [Bencode.E]
  }

  /** The entries of the sorted torrent file. */
  function SortedPairs(v: Bencode.BValue, url: seq<byte>, comment: seq<byte>): seq<Bencode.Pair> {
    [Bencode.Pair(ANNOUNCE_KEY, Bencode.BBytes(url)), Bencode.Pair(COMMENT_KEY, Bencode.BBytes(comment)),
     Bencode.Pair(INFO_KEY, v)]
  }

  /** The sorted file parses to the same three entries, now in BEP 3 order. */
  lemma SortedTorrentFileParses(v: Bencode.BValue, addr: seq<byte>, passkey: seq<byte>, tid: i64, uid: i64, comment: seq<byte>)
    ensures var file := SortedTorrentFile(Bencode.Encode(v), addr, passkey, tid, uid, comment);
      Bencode.ParseValue(file) ==
        Some((Bencode.BDict(SortedPairs(v, AnnounceUrl(addr, passkey, tid, uid), comment)), |file|))
    ensures Bencode.SortedKeys(SortedPairs(v, AnnounceUrl(addr, passkey, tid, uid), comment))
  {
    var url := AnnounceUrl(addr, passkey, tid, uid);
    var pairs := SortedPairs(v, url, comment);
    KeyEncodings();
    var file := SortedTorrentFile(Bencode.Encode(v), addr, passkey, tid, uid, comment);
    DictOf3(pairs[0], pairs[1], pairs[2]);
    assert file == Bencode.Encode(Bencode.BDict(pairs));
    Bencode.RoundTrip(Bencode.BDict(pairs), []);
    assert file + [] == file;
    SortedKeyOrder();
  }

  lemma SortedKeyOrder()
    ensures Bencode.ByteLess(ANNOUNCE_KEY, COMMENT_KEY) && Bencode.ByteLess(COMMENT_KEY, INFO_KEY)
  {
  }

  /** Both files hold the same entries; only their order differs. */
  lemma SameEntries(v: Bencode.BValue, url: seq<byte>, comment: seq<byte>)
    ensures multiset(SortedPairs(v, url, comment)) == multiset(WrittenPairs(v, url, comment))
    ensures SortedPairs(v, url, comment) != WrittenPairs(v, url, comment)
  {
    assert SortedPairs(v, url, comment)[0].key != WrittenPairs(v, url, comment)[0].key;
  }

  // ----- the table row of an uploaded torrent -----

  /** A file of a multi-file torrent: its path components and its size. */
  datatype FileEntry = FileEntry(path: seq<string>, length: i64)

  /** The fields of a torrent's info dictionary that the row uses. */
  datatype Info = Info(name: string, pieceLength: i64, length: Option<i64>, files: Option<seq<FileEntry>>)

  datatype TorrentRow = TorrentRow(
    id: i64,
    name: string,
    length: i64,
    comment: Option<string>,
    files: seq<string>,
    info: seq<byte>,
    infohash: seq<byte>)

  /** The placeholder id the row carries until the database assigns one. */
  const PLACEHOLDER_ID: i64 := 1919810

  /** Length of a SHA-1 digest in bytes. */
  const SHA1_LEN: nat := 20

  const I64_RANGE: int := 0x1_0000_0000_0000_0000

  /** Two's-complement wrap-around of an integer into i64, as a release build computes. */
  function WrapI64(x: int): (r: i64)
    ensures (r - x) % I64_RANGE == 0
    ensures I64_MIN <= x <= I64_MAX ==> r == x
  {
    (x - I64_MIN) % I64_RANGE + I64_MIN
  }

  /**
   * The row's length: the info's `length` when present, otherwise eight
   * pieces, multiplied in i64 (so a huge piece length wraps).
   */
  function RowLength(info: Info): (r: i64)
    ensures info.length.Some? ==> r == info.length.value
    ensures info.length.None? && info.pieceLength * 8 <= I64_MAX && I64_MIN <= info.pieceLength * 8
      ==> r == info.pieceLength * 8
    ensures info.length.None? ==> (r - info.pieceLength * 8) % I64_RANGE == 0
  {
    match info.length
    case Some(l) => l
    case None => WrapI64(info.pieceLength * 8)
  }

  /** The path of a file: each component preceded by '/', starting from the empty string. */
  function PathJoin(path: seq<string>): (r: string)
    ensures |path| == 0 <==> r == ""
  {
    if |path| == 0 then "" else PathJoin(path[..|path| - 1]) + "/" + path[|path| - 1]
  }

  /** The joined path is the components with an empty first piece, joined by '/'. */
  lemma {:induction false} PathJoinIsJoin(path: seq<string>)
    ensures PathJoin(path) == Join([""] + path, '/')
    decreases |path|
  {
    if |path| > 0 {
      var init := path[..|path| - 1];
      PathJoinIsJoin(init);
      JoinSnoc([""] + init, path[|path| - 1], '/');
      assert [""] + init + [path[|path| - 1]] == [""] + path;
    }
  }

  /** When no component holds '/', splitting the joined path on '/' gives back the components after an empty piece. */
  lemma PathRoundTrip(path: seq<string>)
    requires forall k :: 0 <= k < |path| ==> '/' !in path[k]
    ensures Split(PathJoin(path), '/') == [""] + path
  {
    PathJoinIsJoin(path);
    JoinSplit([""] + path, '/');
  }

  lemma PathsRoundTrip(files: seq<FileEntry>)
    ensures forall k :: 0 <= k < |files| ==>
      (forall j :: 0 <= j < |files[k].path| ==> '/' !in files[k].path[j]) ==>
      Split(PathJoin(files[k].path), '/') == [""] + files[k].path
  {
    forall k | 0 <= k < |files| && (forall j :: 0 <= j < |files[k].path| ==> '/' !in files[k].path[j])
      ensures Split(PathJoin(files[k].path), '/') == [""] + files[k].path
    {
      PathRoundTrip(files[k].path);
    }
  }

  /**
   * `parse_torrent_file` once the upload is decoded: `info` is the info
   * dictionary re-encoded with `private` set to 1, and `digest` its SHA-1
   * digest; decoding, re-encoding and hashing are parameters. The row keeps
   * the info bytes, spells the digest in lower-case hex, and lists one joined
   * path per file (none for a single-file torrent).
   */
  function ParseTorrentRow(info: Info, comment: Option<string>, infoBytes: seq<byte>, digest: seq<byte>)
    : (r: TorrentRow)
    requires |digest| == SHA1_LEN
    ensures r.id == PLACEHOLDER_ID && r.name == info.name && r.comment == comment && r.info == infoBytes
    ensures r.length == RowLength(info)
    ensures |r.infohash| == 2 * SHA1_LEN && HexDecode(r.infohash) == Some(digest)
    ensures info.files.None? ==> r.files == []
    ensures info.files.Some? ==> |r.files| == |info.files.value|
    ensures info.files.Some? ==> forall k :: 0 <= k < |r.files| ==>
      (forall j :: 0 <= j < |info.files.value[k].path| ==> '/' !in info.files.value[k].path[j]) ==>
      Split(r.files[k], '/') == [""] + info.files.value[k].path
  {
    var files := info.files.GetOr([]);
    var paths := seq(|files|, k requires 0 <= k < |files| => PathJoin(files[k].path));
    HexRoundTrip(digest);
    PathsRoundTrip(files);
    TorrentRow(PLACEHOLDER_ID, info.name, RowLength(info), comment, paths, infoBytes, HexEncode(digest))
  }
}
