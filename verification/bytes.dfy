/** Bytes, 16-bit ports, ASCII literals and base16 (RFC 4648 section 8). */
module Bytes {
  import opened Wrappers

  type byte = x: int | 0 <= x < 0x100
  type u16 = x: int | 0 <= x < 0x1_0000
  type u32 = x: int | 0 <= x < 0x1_0000_0000
  type u64 = x: int | 0 <= x < 0x1_0000_0000_0000_0000

  const U16_MAX: nat := 0xFFFF
  const U32_LIMIT: nat := 0x1_0000_0000
  const U64_MAX: nat := 0xFFFF_FFFF_FFFF_FFFF
  const I64_MIN: int := -0x8000_0000_0000_0000
  const I64_MAX: int := 0x7FFF_FFFF_FFFF_FFFF

  type i64 = x: int | I64_MIN <= x <= I64_MAX

  /** Every character of `s` is 7-bit ASCII. */
  predicate IsAscii(s: string) {
    forall i :: 0 <= i < |s| ==> s[i] < 128 as char
  }

  /** The bytes of an ASCII string (its UTF-8 encoding, which is the identity on ASCII). */
  function Lit(s: string): (r: seq<byte>)
    requires IsAscii(s)
    ensures |r| == |s|
    ensures forall i :: 0 <= i < |s| ==> r[i] == s[i] as int
  {
    seq(|s|, i requires 0 <= i < |s| => s[i] as int)
  }

  /** Reads two bytes as one big-endian (network order) value. */
  function DecodeBE16(b: seq<byte>): int
    requires |b| == 2
  {
    (b[0] as int) * 0x100 + b[1]
  }

  /** `u16::to_be_bytes`: the port as two bytes in network order. */
  function BE16(v: u16): (r: seq<byte>)
    ensures |r| == 2
    ensures DecodeBE16(r) == v
  {
    [v / 0x100, v % 0x100]
  }

  /** Lower-case hexadecimal digit for a nibble, as `hex::encode` writes it. */
  function HexDigit(n: int): (c: byte)
    requires 0 <= n < 16
    ensures HexValue(c) == Some(n)
  {
    if n < 10 then 48 + n else 87 + n
  }

  /** The nibble a hexadecimal digit stands for; both cases are accepted. */
  function HexValue(c: byte): Option<int> {
    if 48 <= c <= 57 then Some(c - 48)        // '0'..'9'
    else if 97 <= c <= 102 then Some(c - 87)  // 'a'..'f'
    else if 65 <= c <= 70 then Some(c - 55)   // 'A'..'F'
    else None
  }

  /** `c` is a lower-case hexadecimal digit. */
  predicate IsLowerHex(c: byte) {
    48 <= c <= 57 || 97 <= c <= 102
  }

  /** `hex::encode`: two lower-case digits per byte, high nibble first. */
  function HexEncode(b: seq<byte>): (r: seq<byte>)
    ensures |r| == 2 * |b|
    ensures forall i :: 0 <= i < |r| ==> IsLowerHex(r[i])
  {
    if |b| == 0 then [] else [HexDigit(b[0] / 16), HexDigit(b[0] % 16)] + HexEncode(b[1..])
  }

  /** `hex::decode`: fails on an odd length or any non-hexadecimal character. */
  function HexDecode(s: seq<byte>): (r: Option<seq<byte>>)
    ensures r.Some? ==> 2 * |r.value| == |s|
    decreases |s|
  {
    if |s| == 0 then Some([])
    else if |s| == 1 then None
    else match (HexValue(s[0]), HexValue(s[1]))
      case (Some(hi), Some(lo)) =>
        (match HexDecode(s[2..])
         case Some(rest) => Some([hi * 16 + lo] + rest)
         case None => None)
      case _ => None
  }

  /** Only text of even length decodes. */
  lemma {:induction false} HexDecodeEven(s: seq<byte>)
    ensures HexDecode(s).Some? ==> |s| % 2 == 0
    decreases |s|
  {
    if |s| >= 2 {
      HexDecodeEven(s[2..]);
    }
  }

  /** Decoding undoes encoding. */
  lemma {:induction false} HexRoundTrip(b: seq<byte>)
    ensures HexDecode(HexEncode(b)) == Some(b)
  {
    if |b| > 0 {
      var e := HexEncode(b);
      assert e[2..] == HexEncode(b[1..]);
      HexRoundTrip(b[1..]);
      assert [b[0]] + b[1..] == b;
    }
  }

  /** Taking every other prefix of an encoding is the encoding of a prefix. */
  lemma {:induction false} HexEncodePrefix(b: seq<byte>, n: nat)
    requires n <= |b|
    ensures HexEncode(b)[..2 * n] == HexEncode(b[..n])
  {
    if n > 0 {
      HexEncodePrefix(b[1..], n - 1);
      assert b[..n][1..] == b[1..][..n - 1];
    }
  }
}
