/**
 * Java's fixed-width integers and strings as Netty's ByteBuf writes them:
 * integers big-endian in two's complement, a boolean as one byte, and a
 * string's bytes in UTF-8 (taken here as the platform's default charset).
 */
module Codec {

  import opened Wrappers

  newtype uint8 = x: int | 0 <= x < 0x100

  type int8 = x: int | -0x80 <= x < 0x80
  type int16 = x: int | -0x8000 <= x < 0x8000
  type int32 = x: int | -0x8000_0000 <= x < 0x8000_0000
  type int64 = x: int | -0x8000_0000_0000_0000 <= x < 0x8000_0000_0000_0000

  /** 256 to the power n: the number of values n bytes can hold. */
  function Pow256(n: nat): (r: nat)
    ensures r > 0
  {
    if n == 0 then 1 else 0x100 * Pow256(n - 1)
  }

  /** Half of Pow256(n): the bound of an n-byte signed integer. */
  function Half(n: nat): nat
    requires n > 0
  {
    0x80 * Pow256(n - 1)
  }

  lemma Widths()
    ensures Half(1) == 0x80 && Half(2) == 0x8000
    ensures Half(4) == 0x8000_0000 && Half(8) == 0x8000_0000_0000_0000
  {
    assert Pow256(1) == 0x100;
    assert Pow256(2) == 0x1_0000;
    assert Pow256(3) == 0x100_0000;
    assert Pow256(4) == 0x1_0000_0000;
    assert Pow256(5) == 0x100_0000_0000;
    assert Pow256(6) == 0x1_0000_0000_0000;
    assert Pow256(7) == 0x100_0000_0000_0000;
  }

  /** The n bytes of x, most significant first. */
  function EncodeUnsigned(x: nat, n: nat): (r: seq<uint8>)
    requires x < Pow256(n)
    ensures |r| == n
  {
    if n == 0 then []
    else EncodeUnsigned(x / 0x100, n - 1) + [(x % 0x100) as uint8]
  }

  /** The number whose bytes, most significant first, are s. */
  function DecodeUnsigned(s: seq<uint8>): (r: nat)
    ensures r < Pow256(|s|)
  {
    if |s| == 0 then 0
    else DecodeUnsigned(s[..|s| - 1]) * 0x100 + s[|s| - 1] as int
  }

  lemma {:induction false} DecodeEncodeUnsigned(x: nat, n: nat)
    requires x < Pow256(n)
    ensures DecodeUnsigned(EncodeUnsigned(x, n)) == x
  {
    if n > 0 {
      var s := EncodeUnsigned(x, n);
      assert s[..n - 1] == EncodeUnsigned(x / 0x100, n - 1);
      DecodeEncodeUnsigned(x / 0x100, n - 1);
    }
  }

  lemma {:induction false} EncodeDecodeUnsigned(s: seq<uint8>)
    ensures EncodeUnsigned(DecodeUnsigned(s), |s|) == s
  {
    if |s| > 0 {
      var n := |s|;
      var x := DecodeUnsigned(s);
      var p := DecodeUnsigned(s[..n - 1]);
      assert x / 0x100 == p && x % 0x100 == s[n - 1] as int;
      EncodeDecodeUnsigned(s[..n - 1]);
      assert s == s[..n - 1] + [s[n - 1]];
    }
  }

  predicate FitsSigned(x: int, n: nat) {
    n > 0 && -(Half(n) as int) <= x < Half(n)
  }

  /** The n bytes of x in two's complement, most significant first. */
  function EncodeSigned(x: int, n: nat): (r: seq<uint8>)
    requires FitsSigned(x, n)
    ensures |r| == n
  {
    EncodeUnsigned(if x < 0 then x + Pow256(n) else x, n)
  }

  /** The two's-complement number whose bytes are s. */
  function DecodeSigned(s: seq<uint8>): (r: int)
    requires |s| > 0
    ensures FitsSigned(r, |s|)
  {
    var u := DecodeUnsigned(s);
    if u >= Half(|s|) then u - Pow256(|s|) else u
  }

  lemma SignedRoundTrip(x: int, n: nat)
    requires FitsSigned(x, n)
    ensures DecodeSigned(EncodeSigned(x, n)) == x
  {
    DecodeEncodeUnsigned(if x < 0 then x + Pow256(n) else x, n);
  }

  /** ByteBuf.writeByte, writeShort, writeInt, writeLong and writeBoolean. */
  function EncodeByte(v: int8): seq<uint8> { Widths(); EncodeSigned(v, 1) }
  function EncodeShort(v: int16): seq<uint8> { Widths(); EncodeSigned(v, 2) }
  function EncodeInt(v: int32): seq<uint8> { Widths(); EncodeSigned(v, 4) }
  function EncodeLong(v: int64): seq<uint8> { Widths(); EncodeSigned(v, 8) }
  function EncodeBoolean(z: bool): seq<uint8> { [if z then 1 else 0] }

  /** ByteBuf.readByte, readShort, readInt, readLong and readBoolean, on exactly the bytes they consume. */
  function DecodeByte(s: seq<uint8>): int8 requires |s| == 1 { Widths(); DecodeSigned(s) }
  function DecodeShort(s: seq<uint8>): int16 requires |s| == 2 { Widths(); DecodeSigned(s) }
  function DecodeInt(s: seq<uint8>): int32 requires |s| == 4 { Widths(); DecodeSigned(s) }
  function DecodeLong(s: seq<uint8>): int64 requires |s| == 8 { Widths(); DecodeSigned(s) }
  function DecodeBoolean(s: seq<uint8>): bool requires |s| == 1 { s[0] != 0 }

  /** Each primitive's encoding has its fixed width and decodes back to the value. */
  lemma ByteRoundTrip(v: int8)
    ensures |EncodeByte(v)| == 1 && DecodeByte(EncodeByte(v)) == v
  {
    Widths();
    SignedRoundTrip(v, 1);
  }

  lemma ShortRoundTrip(v: int16)
    ensures |EncodeShort(v)| == 2 && DecodeShort(EncodeShort(v)) == v
  {
    Widths();
    SignedRoundTrip(v, 2);
  }

  lemma IntRoundTrip(v: int32)
    ensures |EncodeInt(v)| == 4 && DecodeInt(EncodeInt(v)) == v
  {
    Widths();
    SignedRoundTrip(v, 4);
  }

  lemma LongRoundTrip(v: int64)
    ensures |EncodeLong(v)| == 8 && DecodeLong(EncodeLong(v)) == v
  {
    Widths();
    SignedRoundTrip(v, 8);
  }

  /** A Java byte's raw bits, and the Java byte whose raw bits are u. */
  function RawByte(v: int8): uint8 { EncodeByte(v)[0] }
  function SignedByte(u: uint8): int8 { DecodeByte([u]) }

  lemma RawByteRoundTrip(v: int8)
    ensures SignedByte(RawByte(v)) == v
  {
    ByteRoundTrip(v);
    assert [RawByte(v)] == EncodeByte(v);
  }

  // ---- Strings ----------------------------------------------------------

  /** Java chars (UTF-16 code units) needed for c: two for a character above U+FFFF. */
  function Utf16Units(c: char): nat {
    if c as int < 0x1_0000 then 1 else 2
  }

  /** String.length(): the number of UTF-16 code units of s. */
  function JavaLength(s: string): nat {
    if s == [] then 0 else Utf16Units(s[0]) + JavaLength(s[1..])
  }

  /** The UTF-8 bytes of c. */
  function Utf8(c: char): (r: seq<uint8>)
    ensures 1 <= |r| <= 4
  {
    var x := c as int;
    if x < 0x80 then [x as uint8]
    else if x < 0x800 then [(0xC0 + x / 0x40) as uint8, (0x80 + x % 0x40) as uint8]
    else if x < 0x1_0000 then
      [(0xE0 + x / 0x1000) as uint8, (0x80 + (x / 0x40) % 0x40) as uint8, (0x80 + x % 0x40) as uint8]
    else
      [(0xF0 + x / 0x4_0000) as uint8, (0x80 + (x / 0x1000) % 0x40) as uint8,
       (0x80 + (x / 0x40) % 0x40) as uint8, (0x80 + x % 0x40) as uint8]
  }

  /** String.getBytes() under UTF-8. */
  function GetBytes(s: string): seq<uint8> {
    if s == [] then [] else Utf8(s[0]) + GetBytes(s[1..])
  }

  predicate IsAscii(s: string) {
    forall i :: 0 <= i < |s| ==> s[i] as int < 0x80
  }

  /**
   * new String(bs) for bytes that are all ASCII: one character per byte.
   * Any other byte is decoded by the platform charset's replacement rules,
   * which this model does not describe (None).
   */
  function NewString(bs: seq<uint8>): (r: Option<string>)
    ensures r.Some? <==> forall i :: 0 <= i < |bs| ==> bs[i] < 0x80
    ensures r.Some? ==> |r.value| == |bs| && IsAscii(r.value)
    ensures r.Some? ==> forall i :: 0 <= i < |bs| ==> r.value[i] as int == bs[i] as int
  {
    if bs == [] then Some("")
    else if bs[0] >= 0x80 then None
    else match NewString(bs[1..])
      case None => None
      case Some(t) => Some([bs[0] as int as char] + t)
  }

  /** An ASCII string has as many Java chars as UTF-8 bytes, and those bytes read back as the string. */
  lemma {:induction false} AsciiRoundTrip(s: string)
    requires IsAscii(s)
    ensures JavaLength(s) == |GetBytes(s)| == |s|
    ensures NewString(GetBytes(s)) == Some(s)
  {
    if s != [] {
      assert IsAscii(s[1..]) by {
        forall i | 0 <= i < |s[1..]| ensures s[1..][i] as int < 0x80 { assert s[1..][i] == s[i + 1]; }
      }
      AsciiRoundTrip(s[1..]);
      var bs := GetBytes(s);
      assert bs == [s[0] as int as uint8] + GetBytes(s[1..]);
      assert bs[1..] == GetBytes(s[1..]);
      assert [bs[0] as int as char] + s[1..] == s;
    }
  }

  /**
   * The length String.length() reports equals the number of bytes getBytes()
   * produces exactly when the string is ASCII; otherwise it is smaller.
   */
  lemma {:induction false} LengthMatchesBytesIffAscii(s: string)
    ensures JavaLength(s) <= |GetBytes(s)|
    ensures JavaLength(s) == |GetBytes(s)| <==> IsAscii(s)
  {
    if s != [] {
      LengthMatchesBytesIffAscii(s[1..]);
      assert GetBytes(s) == Utf8(s[0]) + GetBytes(s[1..]);
      assert Utf16Units(s[0]) <= |Utf8(s[0])|;
      assert Utf16Units(s[0]) == |Utf8(s[0])| <==> s[0] as int < 0x80;
      if IsAscii(s) {
        assert IsAscii(s[1..]) by {
          forall i | 0 <= i < |s[1..]| ensures s[1..][i] as int < 0x80 { assert s[1..][i] == s[i + 1]; }
        }
      } else if s[0] as int < 0x80 {
        var i :| 0 <= i < |s| && s[i] as int >= 0x80;
        assert s[1..][i - 1] == s[i];
      }
    }
  }
}
