/**
 * Recognising the BitTorrent client from its peer id
 * (proxy/src/config/client.rs). Azureus-style ids (BEP 20) read
 * `-XXvvvv-`, the two letters naming the client; a few clients use a
 * fixed prefix of their own instead.
 *
 * An id is given as the bytes of a Rust `&str`, so it is always well-formed
 * UTF-8; the source's panics (an `unwrap` on a missing character, a split
 * inside a character) are the `Panicked` error.
 */
module ClientIds {
  import opened Wrappers
  import opened Bytes
  import Utf8

  datatype Client =
    | Ares | Aria | ATorrent | Avicora | BitPump | BitBuddy | BitComet | BitSpirit
    | Bitflu | BTG | BitRocket | BTSlave | Bittorrent | BittorrentX | CTorrent
    | DelugeTorrent | PropagateDataClient | EBit | Electricsheep | FoxTorrent
    | FreeboxBitTorrent | GSTorrent | Halite | Hydranode | KGet | KTorrent | Lphant
    | LibTorrent | LimeWire | MonoTorrent | MooPolice | Miro | MoonlightTorrent
    | NetTransport | OneSwarm | Pando | PopcornTime | QBittorrent | QQDownload
    | Retriever | Shareazaalphabeta | Swiftbit | SwarmScope | SymTorrent
    | Sharktorrent | Shareaza | TorrentDotNET | Transmission | Torrentstorm | Tixati
    | TuoTu | ULeecher | UTorrent | UTorrentWeb | Vagaa | Vuze | WebTorrentDesktop
    | BitLet | WebTorrent | FireTorrent | Xunlei | XanTorrent | Xtorrent | ZipTorrent

  /**
   * `AZ_CLIENT.get`: the client a two-letter Azureus-style code names, if it
   * is listed. The table is written out by first letter; no code is listed twice.
   */
  function AzClient(code: (char, char)): Option<Client> {
    match code.0
    case 'A' => (match code.1 case '~' => Some(Ares) case 'G' => Some(Ares) case 'R' => Some(Ares) case 'V' => Some(Avicora) case 'X' => Some(BitPump) case 'Z' => Some(Vuze) case _ => None)
    case 'B' => (match code.1 case 'B' => Some(BitBuddy) case 'C' => Some(BitComet) case 'F' => Some(Bitflu) case 'G' => Some(BTG) case 'R' => Some(BitRocket) case 'S' => Some(BTSlave) case 'T' => Some(Bittorrent) case 'X' => Some(BittorrentX) case _ => None)
    case 'C' => (match code.1 case 'B' => Some(Shareaza) case 'D' => Some(CTorrent) case 'T' => Some(CTorrent) case _ => None)
    case 'D' => (match code.1 case 'P' => Some(PropagateDataClient) case 'E' => Some(DelugeTorrent) case _ => None)
    case 'E' => (match code.1 case 'B' => Some(EBit) case 'S' => Some(Electricsheep) case _ => None)
    case 'F' => (match code.1 case 'X' => Some(FreeboxBitTorrent) case 'T' => Some(FoxTorrent) case _ => None)
    case 'G' => (match code.1 case 'S' => Some(GSTorrent) case _ => None)
    case 'H' => (match code.1 case 'L' => Some(Halite) case 'N' => Some(Hydranode) case _ => None)
    case 'K' => (match code.1 case 'G' => Some(KGet) case 'T' => Some(KTorrent) case _ => None)
    case 'L' => (match code.1 case 'P' => Some(Lphant) case 'T' => Some(LibTorrent) case 'W' => Some(LimeWire) case _ => None)
    case 'l' => (match code.1 case 't' => Some(LibTorrent) case _ => None)
    case 'M' => (match code.1 case 'O' => Some(MonoTorrent) case 'P' => Some(MooPolice) case 'R' => Some(Miro) case 'T' => Some(MoonlightTorrent) case _ => None)
    case 'N' => (match code.1 case 'X' => Some(NetTransport) case _ => None)
    case 'O' => (match code.1 case 'S' => Some(OneSwarm) case _ => None)
    case 'P' => (match code.1 case 'T' => Some(PopcornTime) case 'D' => Some(Pando) case _ => None)
    case 'q' => (match code.1 case 'B' => Some(QBittorrent) case _ => None)
    case 'Q' => (match code.1 case 'D' => Some(QQDownload) case _ => None)
    case 'R' => (match code.1 case 'T' => Some(Retriever) case _ => None)
    case 'S' => (match code.1 case '~' => Some(Shareazaalphabeta) case 'B' => Some(Swiftbit) case 'D' => Some(Xunlei) case 'G' => Some(GSTorrent) case 'P' => Some(BitSpirit) case 'S' => Some(SwarmScope) case 'T' => Some(SymTorrent) case 'Z' => Some(Shareaza) case _ => None)
    case 's' => (match code.1 case 't' => Some(Sharktorrent) case _ => None)
    case 'T' => (match code.1 case 'N' => Some(TorrentDotNET) case 'R' => Some(Transmission) case 'S' => Some(Torrentstorm) case 'T' => Some(TuoTu) case _ => None)
    case 'U' => (match code.1 case 'L' => Some(ULeecher) case 'E' => Some(UTorrent) case 'T' => Some(UTorrent) case 'M' => Some(UTorrent) case 'W' => Some(UTorrentWeb) case _ => None)
    case 'W' => (match code.1 case 'D' => Some(WebTorrentDesktop) case 'T' => Some(BitLet) case 'W' => Some(WebTorrent) case 'Y' => Some(FireTorrent) case _ => None)
    case 'V' => (match code.1 case 'G' => Some(Vagaa) case _ => None)
    case 'X' => (match code.1 case 'L' => Some(Xunlei) case 'T' => Some(XanTorrent) case 'X' => Some(Xtorrent) case 'C' => Some(Xtorrent) case _ => None)
    case 'Z' => (match code.1 case 'T' => Some(ZipTorrent) case _ => None)
    case '7' => (match code.1 case 'T' => Some(ATorrent) case _ => None)
    case _ => None
  }

  /** The fixed prefixes of the other clients, in the order the source lists them. */
  const SP_CLIENT: seq<(string, Client)> := [
    ("-aria2-", Aria), ("BitLet", BitLet), ("LIME", LimeWire), ("Pando", Pando),
    ("TIX", Tixati), ("DansClient", XanTorrent), ("-UM", UTorrent), ("-UT", UTorrent)]

  datatype ClientError = EncodeError | Panicked

  /** Length in bytes of a raw peer id. */
  const ID_LEN: nat := 20

  const DASH: nat := 0x2D

  /** Each byte as the character of the same number; an ASCII pattern begins this exactly when its bytes begin `b`. */
  function Widen(b: seq<byte>): (r: string)
    ensures |r| == |b|
    ensures forall i :: 0 <= i < |b| ==> r[i] as int == b[i]
  {
    seq(|b|, i requires 0 <= i < |b| => b[i] as char)
  }

  /** The two characters of a two-byte code, each byte read as the character of the same number. */
  function Code(pat: seq<byte>): (char, char)
    requires |pat| == 2
  {
    (pat[0] as char, pat[1] as char)
  }

  /**
   * `sub_str`: `split_at(end)` and then `split_at(start)`, each of which
   * panics at a position that is not a character boundary.
   */
  function SubStr(id: seq<byte>, start: nat, end: nat): (r: Result<seq<byte>, ClientError>)
    ensures r.Ok? <==> start <= end <= |id| && Utf8.IsCharBoundary(id, end) && Utf8.IsCharBoundary(id[..end], start)
    ensures r.Ok? ==> r.value == id[start..end]
    ensures r.Err? ==> r == Err(Panicked)
  {
    if !Utf8.IsCharBoundary(id, end) then Err(Panicked)
    else
      var head := id[..end];
      if !Utf8.IsCharBoundary(head, start) then Err(Panicked)
      else Ok(head[start..])
  }

  /**
   * `is_az_style`: the first character is '-', and either the eighth is '-'
   * too or the two after the first are `KT` or `SP`. With no first
   * character, or a leading '-' and fewer than eight characters, the source
   * panics.
   */
  function IsAzStyle(id: seq<byte>): (r: Result<bool, ClientError>)
    requires Utf8.ValidUtf8(id)
    ensures r == Ok(true) ==> |id| > 0 && id[0] == DASH
    ensures |id| > 0 && id[0] != DASH ==> r == Ok(false)
    ensures r.Err? ==> r == Err(Panicked)
    ensures r.Err? <==>
              |id| == 0 || (id[0] == DASH && (|Utf8.Decode(id)| < 8 || (Utf8.Decode(id)[7] != DASH && SubStr(id, 1, 3).Err?)))
  {
    var cs := Utf8.Decode(id);
    if |cs| == 0 then Err(Panicked)
    else
      FirstChar(id);
      if cs[0] != DASH then Ok(false)
      else if |cs| < 8 then Err(Panicked)
      else if cs[7] == DASH then Ok(true)
      else match SubStr(id, 1, 3)
        case Err(e) => Err(e)
        case Ok(s) => Ok(Code(s) == ('K', 'T') || Code(s) == ('S', 'P'))
  }

  lemma FirstChar(id: seq<byte>)
    requires Utf8.ValidUtf8(id) && |id| > 0
    ensures |Utf8.Decode(id)| > 0
    ensures Utf8.Decode(id)[0] == DASH <==> id[0] == DASH
  {
  }

  /** The client of the first fixed prefix in `table` that begins `id`. */
  function SpMatch(id: seq<byte>, table: seq<(string, Client)>): (r: Option<Client>)
    ensures r.Some? <==> exists i :: 0 <= i < |table| && table[i].0 <= Widen(id)
    ensures r.Some? ==> exists i :: 0 <= i < |table| && table[i].0 <= Widen(id) && table[i].1 == r.value
    decreases |table|
  {
    if |table| == 0 then None
    else if table[0].0 <= Widen(id) then Some(table[0].1)
    else
      var r := SpMatch(id, table[1..]);
      assert forall i :: 1 <= i < |table| ==> table[i] == table[1..][i - 1];
      r
  }

  /** The fixed-prefix decision: the client whose prefix begins the id, else an error. */
  function PrefixDecision(id: seq<byte>): (r: Result<Client, ClientError>)
    ensures r.Ok? <==> SpMatch(id, SP_CLIENT).Some?
    ensures r.Ok? ==> r.value == SpMatch(id, SP_CLIENT).value
    ensures r.Err? ==> r == Err(EncodeError)
  {
    match SpMatch(id, SP_CLIENT) case Some(c) => Ok(c) case None => Err(EncodeError)
  }

  /**
   * `Client::new` once the id is known: the Azureus code when the id is in
   * that style and its code is listed, else the client whose fixed prefix
   * begins the id, else an error. A panic in `is_az_style` or `sub_str`
   * ends it first.
   */
  function Classify(id: seq<byte>): (r: Result<Client, ClientError>)
    requires Utf8.ValidUtf8(id)
    ensures r.Ok? ==>
      (IsAzStyle(id) == Ok(true) && SubStr(id, 1, 3).Ok? && AzClient(Code(id[1..3])) == Some(r.value))
      || SpMatch(id, SP_CLIENT) == Some(r.value)
    ensures r == Err(EncodeError) ==> SpMatch(id, SP_CLIENT).None?
    ensures r == Err(Panicked) <==> IsAzStyle(id).Err? || (IsAzStyle(id) == Ok(true) && SubStr(id, 1, 3).Err?)
    ensures IsAzStyle(id) == Ok(true) && SubStr(id, 1, 3).Ok? && AzClient(Code(SubStr(id, 1, 3).value)).Some? ==>
      r == Ok(AzClient(Code(SubStr(id, 1, 3).value)).value)
    ensures IsAzStyle(id) == Ok(true) && SubStr(id, 1, 3).Ok? && AzClient(Code(SubStr(id, 1, 3).value)).None? ==>
      r == PrefixDecision(id)
    ensures IsAzStyle(id) == Ok(false) ==> r == PrefixDecision(id)
  {
    var az :- IsAzStyle(id);
    if az then
      var pat :- SubStr(id, 1, 3);
      match AzClient(Code(pat))
      case Some(c) => Ok(c)
      case None => PrefixDecision(id)
    else PrefixDecision(id)
  }

  /**
   * The peer id `Client::new` classifies: a 20-byte id as it is, otherwise
   * the hexadecimal decoding of the text, which must be 20 bytes of UTF-8.
   */
  function PeerId(id: seq<byte>): (r: Result<seq<byte>, ClientError>)
    requires Utf8.ValidUtf8(id)
    ensures |id| == ID_LEN ==> r == Ok(id)
    ensures r.Ok? ==> |r.value| == ID_LEN && Utf8.ValidUtf8(r.value)
    ensures r.Err? ==> r == Err(EncodeError)
    ensures |id| != ID_LEN ==>
      (r.Ok? <==> HexDecode(id).Some? && |HexDecode(id).value| == ID_LEN && Utf8.ValidUtf8(HexDecode(id).value))
    ensures |id| != ID_LEN && r.Ok? ==> r.value == HexDecode(id).value
  {
    if |id| == ID_LEN then Ok(id)
    else match HexDecode(id)
      case None => Err(EncodeError)
      case Some(decoded) =>
        if |decoded| != ID_LEN || !Utf8.ValidUtf8(decoded) then Err(EncodeError) else Ok(decoded)
  }

  /** `Client::new`. */
  function New(id: seq<byte>): (r: Result<Client, ClientError>)
    requires Utf8.ValidUtf8(id)
    ensures PeerId(id).Err? ==> r == Err(EncodeError)
    ensures PeerId(id).Ok? ==> r == Classify(PeerId(id).value)
  {
    var peer :- PeerId(id);
    Classify(peer)
  }

  /**
   * No fixed prefix begins another, so at most one matches any id, and the
   * order in which the source's hash map yields them does not matter.
   */
  lemma SpPrefixFree(id: seq<byte>, i: nat, j: nat)
    requires i < |SP_CLIENT| && j < |SP_CLIENT|
    requires SP_CLIENT[i].0 <= Widen(id) && SP_CLIENT[j].0 <= Widen(id)
    ensures i == j
  {
    var w := Widen(id);
    if i != j {
      PrefixesComparable(SP_CLIENT[i].0, SP_CLIENT[j].0, w);
      assert SP_CLIENT[i].0 <= SP_CLIENT[j].0 || SP_CLIENT[j].0 <= SP_CLIENT[i].0;
      SpKeysIncomparable(i, j);
      SpKeysIncomparable(j, i);
    }
  }

  lemma PrefixesComparable(a: string, b: string, w: string)
    requires a <= w && b <= w
    ensures a <= b || b <= a
  {
    if |a| <= |b| {
      assert a == w[..|a|] == b[..|a|];
    } else {
      assert b == w[..|b|] == a[..|b|];
    }
  }

  lemma SpKeysIncomparable(i: nat, j: nat)
    requires i < |SP_CLIENT| && j < |SP_CLIENT| && i != j
    ensures !(SP_CLIENT[i].0 <= SP_CLIENT[j].0)
  {
    var a := SP_CLIENT[i].0;
    var b := SP_CLIENT[j].0;
    if i == 0 && j == 5 {
      assert a[0] != b[0];
    } else if i == 1 && j == 0 {
      assert a[0] != b[0];
    } else if i == 1 && j == 5 {
      assert a[0] != b[0];
    } else if i == 2 && j == 0 {
      assert a[0] != b[0];
    } else if i == 2 && j == 1 {
      assert a[0] != b[0];
    } else if i == 2 && j == 3 {
      assert a[0] != b[0];
    } else if i == 2 && j == 5 {
      assert a[0] != b[0];
    } else if i == 3 && j == 0 {
      assert a[0] != b[0];
    } else if i == 3 && j == 1 {
      assert a[0] != b[0];
    } else if i == 3 && j == 5 {
      assert a[0] != b[0];
    } else if i == 4 && j == 0 {
      assert a[0] != b[0];
    } else if i == 4 && j == 1 {
      assert a[0] != b[0];
    } else if i == 4 && j == 2 {
      assert a[0] != b[0];
    } else if i == 4 && j == 3 {
      assert a[0] != b[0];
    } else if i == 4 && j == 5 {
      assert a[0] != b[0];
    } else if i == 4 && j == 6 {
      assert a[0] != b[0];
    } else if i == 4 && j == 7 {
      assert a[0] != b[0];
    } else if i == 6 && j == 0 {
      assert a[1] != b[1];
    } else if i == 6 && j == 1 {
      assert a[0] != b[0];
    } else if i == 6 && j == 2 {
      assert a[0] != b[0];
    } else if i == 6 && j == 3 {
      assert a[0] != b[0];
    } else if i == 6 && j == 4 {
      assert a[0] != b[0];
    } else if i == 6 && j == 5 {
      assert a[0] != b[0];
    } else if i == 6 && j == 7 {
      assert a[2] != b[2];
    } else if i == 7 && j == 0 {
      assert a[1] != b[1];
    } else if i == 7 && j == 1 {
      assert a[0] != b[0];
    } else if i == 7 && j == 2 {
      assert a[0] != b[0];
    } else if i == 7 && j == 3 {
      assert a[0] != b[0];
    } else if i == 7 && j == 4 {
      assert a[0] != b[0];
    } else if i == 7 && j == 5 {
      assert a[0] != b[0];
    } else if i == 7 && j == 6 {
      assert a[2] != b[2];
    }
  }

  /** Any order of the fixed-prefix table classifies an id the same way. */
  lemma SpOrderIrrelevant(id: seq<byte>, table: seq<(string, Client)>)
    requires forall e :: e in table <==> e in SP_CLIENT
    ensures SpMatch(id, table) == SpMatch(id, SP_CLIENT)
  {
    forall j, k | 0 <= j < |SP_CLIENT| && 0 <= k < |SP_CLIENT| && SP_CLIENT[j].0 <= Widen(id) && SP_CLIENT[k].0 <= Widen(id)
      ensures j == k
    {
      SpPrefixFree(id, j, k);
    }
    SameEntriesSameMatch(id, table, SP_CLIENT);
  }

  /** Two tables with the same entries, of which at most one matches `id`, give the same answer. */
  lemma SameEntriesSameMatch(id: seq<byte>, table: seq<(string, Client)>, other: seq<(string, Client)>)
    requires forall e :: e in table <==> e in other
    requires forall j, k :: 0 <= j < |other| && 0 <= k < |other| && other[j].0 <= Widen(id) && other[k].0 <= Widen(id) ==> j == k
    ensures SpMatch(id, table) == SpMatch(id, other)
  {
    var r := SpMatch(id, table);
    var s := SpMatch(id, other);
    if s.Some? {
      var k :| 0 <= k < |other| && other[k].0 <= Widen(id) && other[k].1 == s.value;
      assert other[k] in table;
      var i0 :| 0 <= i0 < |table| && table[i0] == other[k];
      assert r.Some?;
      var i :| 0 <= i < |table| && table[i].0 <= Widen(id) && table[i].1 == r.value;
      assert table[i] in other;
      var j :| 0 <= j < |other| && other[j] == table[i];
    } else {
      forall i | 0 <= i < |table|
        ensures !(table[i].0 <= Widen(id))
      {
        assert table[i] in other;
        var j :| 0 <= j < |other| && other[j] == table[i];
      }
    }
  }

  /** The hexadecimal form of an id names the same client as the id itself. */
  lemma HexFormSame(id: seq<byte>)
    requires |id| == ID_LEN && Utf8.ValidUtf8(id)
    ensures Utf8.ValidUtf8(HexEncode(id))
    ensures New(HexEncode(id)) == New(id)
  {
    var h := HexEncode(id);
    Utf8.AsciiValid(h);
    HexRoundTrip(id);
    assert PeerId(h) == Ok(id);
  }

  /** An ASCII id never makes the classification panic. */
  lemma AsciiNeverPanics(id: seq<byte>)
    requires |id| == ID_LEN && forall i :: 0 <= i < |id| ==> id[i] < 0x80
    ensures Utf8.ValidUtf8(id)
    ensures New(id) != Err(Panicked)
  {
    Utf8.AsciiValid(id);
    assert PeerId(id) == Ok(id);
    assert id[..3][1] == id[1];
    assert SubStr(id, 1, 3).Ok?;
    assert IsAzStyle(id).Ok?;
  }

  /** An ASCII id is well formed, and reads as its own characters. */
  lemma AsciiId(s: string)
    requires IsAscii(s)
    ensures Utf8.ValidUtf8(Lit(s))
    ensures Utf8.Decode(Lit(s)) == Lit(s)
    ensures Widen(Lit(s)) == s
  {
    Utf8.AsciiValid(Lit(s));
  }

  /**
   * An ASCII id in Azureus style (a '-' first, and a '-' eighth or the code
   * `KT` or `SP`) is classified by its two-letter code when that code is
   * listed.
   */
  lemma AzAscii(s: string)
    requires IsAscii(s) && |s| == ID_LEN && s[0] == '-'
    requires s[7] == '-' || (s[1], s[2]) == ('K', 'T') || (s[1], s[2]) == ('S', 'P')
    requires AzClient((s[1], s[2])).Some?
    ensures Utf8.ValidUtf8(Lit(s))
    ensures New(Lit(s)) == Ok(AzClient((s[1], s[2])).value)
  {
    var id := Lit(s);
    Utf8.AsciiValid(id);
    assert Code(id[1..3]) == (s[1], s[2]);
  }

  /** An ASCII id that does not start with '-' is classified by the fixed prefix that begins it. */
  lemma SpAscii(s: string, i: nat)
    requires IsAscii(s) && |s| == ID_LEN && s[0] != '-'
    requires i < |SP_CLIENT| && SP_CLIENT[i].0 <= s
    ensures Utf8.ValidUtf8(Lit(s))
    ensures New(Lit(s)) == Ok(SP_CLIENT[i].1)
  {
    var id := Lit(s);
    Utf8.AsciiValid(id);
    assert Widen(id) == s;
    assert id[0] != DASH;
    NotAzNew(id);
    SpOnly(id, i);
  }

  lemma NotAzNew(id: seq<byte>)
    requires Utf8.ValidUtf8(id) && |id| == ID_LEN && id[0] != DASH
    ensures New(id) == match SpMatch(id, SP_CLIENT) case Some(c) => Ok(c) case None => Err(EncodeError)
  {
  }

  /** The one fixed prefix that begins an id decides the match. */
  lemma SpOnly(id: seq<byte>, i: nat)
    requires i < |SP_CLIENT| && SP_CLIENT[i].0 <= Widen(id)
    ensures SpMatch(id, SP_CLIENT) == Some(SP_CLIENT[i].1)
  {
    var r := SpMatch(id, SP_CLIENT);
    var j :| 0 <= j < |SP_CLIENT| && SP_CLIENT[j].0 <= Widen(id) && SP_CLIENT[j].1 == r.value;
    SpPrefixFree(id, i, j);
  }

  /** A raw Azureus-style id. */
  lemma AresExample(s: string)
    requires s == "-AG2053-Em6o1EmvwLtD"
    ensures IsAscii(s) && Utf8.ValidUtf8(Lit(s)) && New(Lit(s)) == Ok(Ares)
  {
    assert IsAscii(s);
    AzAscii(s);
  }

  /** An id with a fixed prefix. */
  lemma PandoExample(s: string)
    requires s == "Pando-6B511B691CAC2E"
    ensures IsAscii(s) && Utf8.ValidUtf8(Lit(s)) && New(Lit(s)) == Ok(Pando)
  {
    assert IsAscii(s);
    SpAscii(s, 3);
  }

  /** An id with a fixed prefix. */
  lemma TixatiExample(s: string)
    requires s == "TIX0137-i6i6f0i5d5b7"
    ensures IsAscii(s) && Utf8.ValidUtf8(Lit(s)) && New(Lit(s)) == Ok(Tixati)
  {
    assert IsAscii(s);
    SpAscii(s, 4);
  }

  /**
   * An ASCII id in Azureus style whose code is not listed, and which no
   * fixed prefix begins, is rejected; an id starting with '-' can only have a
   * fixed prefix whose second character is 'a' or 'U'.
   */
  lemma UnlistedRejected(s: string)
    requires IsAscii(s) && |s| == ID_LEN && s[0] == '-' && s[7] == '-'
    requires AzClient((s[1], s[2])).None? && s[1] != 'a' && s[1] != 'U'
    ensures Utf8.ValidUtf8(Lit(s))
    ensures New(Lit(s)) == Err(EncodeError)
  {
    var id := Lit(s);
    AsciiId(s);
    assert Code(id[1..3]) == (s[1], s[2]);
    forall i | 0 <= i < |SP_CLIENT|
      ensures !(SP_CLIENT[i].0 <= Widen(id))
    {
      assert SP_CLIENT[i].0[0] != '-' || SP_CLIENT[i].0[1] != s[1];
    }
  }

  /** Text of odd length is neither a raw id nor hexadecimal, so it is rejected. */
  lemma OddLengthRejected(id: seq<byte>)
    requires Utf8.ValidUtf8(id) && |id| % 2 == 1
    ensures New(id) == Err(EncodeError)
  {
    assert |id| != ID_LEN;
    assert HexDecode(id).None? by {
      HexDecodeEven(id);
    }
    assert PeerId(id) == Err(EncodeError);
  }

  /**
   * A well-formed 20-byte id that starts with '-' but holds fewer than eight
   * characters makes `is_az_style` panic: here '-', four four-byte
   * characters and one three-byte character.
   */
  lemma PanicExample()
    ensures Utf8.ValidUtf8(ShortId()) && New(ShortId()) == Err(Panicked)
  {
    var id := ShortId();
    assert Utf8.CharLen(id[17..]) == 3;
    assert Utf8.CharLen(id[13..]) == 4;
    assert Utf8.CharLen(id[9..]) == 4;
    assert Utf8.CharLen(id[5..]) == 4;
    assert Utf8.CharLen(id[1..]) == 4;
    assert |Utf8.Decode(id)| == 6;
  }

  function ShortId(): (r: seq<byte>)
    ensures |r| == ID_LEN
  {
    [0x2D, 0xF0, 0x9F, 0x98, 0x80, 0xF0, 0x9F, 0x98, 0x80, 0xF0, 0x9F, 0x98, 0x80,
     0xF0, 0x9F, 0x98, 0x80, 0xE2, 0x82, 0xAC]
  }
}
