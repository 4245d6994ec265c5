/**
 * Netty's ByteBuf reduced to what the serializer uses: the bytes written so
 * far (the writer index is their count) and a reader index. The helpers
 * PrimitiveSerializer.writeBytes/readBytes and writeArray/readArray work on
 * it in place; each is specified by a function over byte sequences.
 */
module ByteBuffer {

  import opened Wrappers
  import opened Codec

  /** Java arrays are indexed by int: at most 2^31 - 1 elements. */
  type JavaArray<T> = s: seq<T> | |s| < 0x8000_0000 witness []

  /** The exceptions a read can raise. */
  datatype ReadError =
    | IndexOutOfBounds   // fewer readable bytes than the read asks for
    | NegativeArraySize  // an array length read back as a negative int

  class ByteBuf {
    var data: seq<uint8>
    var readerIndex: nat

    ghost predicate Valid()
      reads this
    {
      readerIndex <= |data|
    }

    /** The bytes between the reader index and the writer index. */
    function Readable(): seq<uint8>
      reads this
      requires Valid()
    {
      data[readerIndex..]
    }

    /** A buffer holding bytes, read from the first of them. */
    constructor Wrap(bytes: seq<uint8>)
      ensures Valid() && data == bytes && readerIndex == 0
    {
      data := bytes;
      readerIndex := 0;
    }

    /** The writeX family: append at the writer index. */
    method Append(bytes: seq<uint8>)
      requires Valid()
      modifies this
      ensures Valid() && data == old(data) + bytes && readerIndex == old(readerIndex)
      ensures Readable() == old(Readable()) + bytes
    {
      data := data + bytes;
    }

    /** The readX family and readBytes(dst, 0, n): take n bytes, or raise
        IndexOutOfBounds without moving when fewer are readable. */
    method Take(n: nat) returns (r: Option<seq<uint8>>)
      requires Valid()
      modifies this
      ensures Valid() && data == old(data)
      ensures n <= |old(Readable())| ==>
                r == Some(old(Readable())[..n]) && readerIndex == old(readerIndex) + n
                && Readable() == old(Readable())[n..]
      ensures n > |old(Readable())| ==> r == None && readerIndex == old(readerIndex)
    {
      if n <= |data| - readerIndex {
        assert data[readerIndex..readerIndex + n] == data[readerIndex..][..n];
        r := Some(data[readerIndex..readerIndex + n]);
        readerIndex := readerIndex + n;
      } else {
        r := None;
      }
    }
  }

  // ---- byte arrays: writeBytes / readBytes ---------------------------------

  function RawBytes(bs: seq<int8>): (r: seq<uint8>)
    ensures |r| == |bs|
  {
    seq(|bs|, i requires 0 <= i < |bs| => RawByte(bs[i]))
  }

  function SignedBytes(s: seq<uint8>): (r: seq<int8>)
    ensures |r| == |s|
  {
    seq(|s|, i requires 0 <= i < |s| => SignedByte(s[i]))
  }

  /** What writeBytes appends: the array length as an int, then the bytes. */
  function EncodeByteArray(bs: JavaArray<int8>): seq<uint8> {
    EncodeInt(|bs|) + RawBytes(bs)
  }

  /** What readBytes returns, with the bytes it leaves unread. */
  function DecodeByteArray(s: seq<uint8>): Result<(JavaArray<int8>, seq<uint8>), ReadError> {
    if |s| < 4 then Failure(IndexOutOfBounds)
    else
      var n := DecodeInt(s[..4]) as int;
      if n < 0 then Failure(NegativeArraySize)
      else if |s| - 4 < n then Failure(IndexOutOfBounds)
      else Success((SignedBytes(s[4..4 + n]), s[4 + n..]))
  }

  lemma ByteArrayRoundTrip(bs: JavaArray<int8>, rest: seq<uint8>)
    ensures DecodeByteArray(EncodeByteArray(bs) + rest) == Success((bs, rest))
  {
    var s := EncodeByteArray(bs) + rest;
    IntRoundTrip(|bs|);
    assert s[..4] == EncodeInt(|bs|);
    assert s[4..4 + |bs|] == RawBytes(bs);
    assert s[4 + |bs|..] == rest;
    forall i | 0 <= i < |bs| ensures SignedBytes(RawBytes(bs))[i] == bs[i] {
      RawByteRoundTrip(bs[i]);
    }
    assert SignedBytes(RawBytes(bs)) == bs;
    assert DecodeInt(s[..4]) as int == |bs|;
  }

  /** PrimitiveSerializer.writeBytes. */
  method WriteBytes(bs: JavaArray<int8>, b: ByteBuf)
    requires b.Valid()
    modifies b
    ensures b.Valid() && b.data == old(b.data) + EncodeByteArray(bs)
    ensures b.readerIndex == old(b.readerIndex)
  {
    b.Append(EncodeInt(|bs|));
    b.Append(RawBytes(bs));
  }

  /** PrimitiveSerializer.readBytes. */
  method ReadBytes(b: ByteBuf) returns (r: Result<JavaArray<int8>, ReadError>)
    requires b.Valid()
    modifies b
    ensures b.Valid() && b.data == old(b.data)
    ensures match DecodeByteArray(old(b.Readable()))
              case Success((bs, rest)) => r == Success(bs) && b.Readable() == rest
              case Failure(e) =>
                r == Failure(e)
                && b.readerIndex == old(b.readerIndex) + (if |old(b.Readable())| < 4 then 0 else 4)
  {
    ghost var s := b.Readable();
    var lengthBytes := b.Take(4);
    if lengthBytes.None? {
      return Failure(IndexOutOfBounds);
    }
    var length := DecodeInt(lengthBytes.value);
    if length < 0 {
      return Failure(NegativeArraySize);
    }
    assert b.Readable() == s[4..];
    var bytes := new int8[length];
    var raw := b.Take(length);
    if raw.None? {
      return Failure(IndexOutOfBounds);
    }
    forall i | 0 <= i < length {
      bytes[i] := SignedByte(raw.value[i]);
    }
    assert bytes[..] == SignedBytes(raw.value);
    assert raw.value == s[4..4 + length] && b.Readable() == s[4 + length..];
    return Success(bytes[..]);
  }

  // ---- arrays of fixed-width elements: writeArray / readArray --------------

  /** The elements' encodings, in order. */
  function EncodeElems<T>(xs: seq<T>, enc: T -> seq<uint8>): seq<uint8> {
    if xs == [] then [] else enc(xs[0]) + EncodeElems(xs[1..], enc)
  }

  lemma {:induction false} EncodeElemsSnoc<T>(xs: seq<T>, x: T, enc: T -> seq<uint8>)
    ensures EncodeElems(xs + [x], enc) == EncodeElems(xs, enc) + enc(x)
  {
    if xs != [] {
      assert (xs + [x])[1..] == xs[1..] + [x];
      EncodeElemsSnoc(xs[1..], x, enc);
    }
  }

  /** n elements of w bytes each, decoded by dec, and what is left unread;
      None when the bytes run out first. */
  function DecodeElems<T>(s: seq<uint8>, n: nat, w: nat, dec: seq<uint8> --> T): (r: Option<(seq<T>, seq<uint8>)>)
    requires forall x: seq<uint8> | |x| == w :: dec.requires(x)
    ensures r.Some? ==> |r.value.0| == n && |r.value.1| <= |s|
  {
    if n == 0 then Some(([], s))
    else if |s| < w then None
    else match DecodeElems(s[w..], n - 1, w, dec)
      case None => None
      case Some((xs, rest)) => Some(([dec(s[..w])] + xs, rest))
  }

  /** A decoded prefix put in front of the decoding of what follows. */
  function Prepend<T>(p: seq<T>, d: Option<(seq<T>, seq<uint8>)>): Option<(seq<T>, seq<uint8>)> {
    match d
    case None => None
    case Some((xs, rest)) => Some((p + xs, rest))
  }

  lemma {:induction false} DecodeEncodeElems<T>(xs: seq<T>, enc: T -> seq<uint8>, w: nat,
                                               dec: seq<uint8> --> T, rest: seq<uint8>)
    requires forall x: seq<uint8> | |x| == w :: dec.requires(x)
    requires forall x: T :: |enc(x)| == w && dec(enc(x)) == x
    ensures DecodeElems(EncodeElems(xs, enc) + rest, |xs|, w, dec) == Some((xs, rest))
  {
    if xs == [] {
      assert EncodeElems(xs, enc) + rest == rest;
    } else {
      var s := EncodeElems(xs, enc) + rest;
      assert s == enc(xs[0]) + (EncodeElems(xs[1..], enc) + rest);
      assert s[..w] == enc(xs[0]);
      assert s[w..] == EncodeElems(xs[1..], enc) + rest;
      DecodeEncodeElems(xs[1..], enc, w, dec, rest);
      assert DecodeElems(s, |xs|, w, dec)
             == Prepend([dec(s[..w])], DecodeElems(s[w..], |xs| - 1, w, dec));
      assert [xs[0]] + xs[1..] == xs;
    }
  }

  lemma DecodeElemsStep<T>(s: seq<uint8>, n: nat, w: nat, dec: seq<uint8> --> T)
    requires forall x: seq<uint8> | |x| == w :: dec.requires(x)
    requires n > 0
    ensures |s| < w ==> DecodeElems(s, n, w, dec) == None
    ensures |s| >= w ==>
              DecodeElems(s, n, w, dec) == Prepend([dec(s[..w])], DecodeElems(s[w..], n - 1, w, dec))
  {
  }

  lemma PrependTwice<T>(p: seq<T>, x: T, d: Option<(seq<T>, seq<uint8>)>)
    ensures Prepend(p, Prepend([x], d)) == Prepend(p + [x], d)
  {
    match d {
      case None =>
      case Some((xs, rest)) => assert p + ([x] + xs) == (p + [x]) + xs;
    }
  }

  /** Reading so far has decoded got, and the whole decoding d is got
      followed by the decoding of the left elements still unread. */
  ghost predicate ReadSoFar<T>(d: Option<(seq<T>, seq<uint8>)>, got: seq<T>, unread: seq<uint8>, left: nat,
                               w: nat, dec: seq<uint8> --> T)
    requires forall x: seq<uint8> | |x| == w :: dec.requires(x)
  {
    d == Prepend(got, DecodeElems(unread, left, w, dec))
  }

  /** One more element decoded moves from the unread bytes to the prefix. */
  lemma ReadStep<T>(d: Option<(seq<T>, seq<uint8>)>, got: seq<T>, unread: seq<uint8>, left: nat, w: nat,
                    dec: seq<uint8> --> T, x: seq<uint8>, v: T)
    requires forall x: seq<uint8> | |x| == w :: dec.requires(x)
    requires left > 0 && |unread| >= w && x == unread[..w] && v == dec(x)
    requires ReadSoFar(d, got, unread, left, w, dec)
    ensures ReadSoFar(d, got + [v], unread[w..], left - 1, w, dec)
  {
    DecodeElemsStep(unread, left, w, dec);
    PrependTwice(got, v, DecodeElems(unread[w..], left - 1, w, dec));
  }

  /** What writeArray appends: the element count as an int, then each element. */
  function EncodeArray<T>(xs: JavaArray<T>, enc: T -> seq<uint8>): seq<uint8> {
    EncodeInt(|xs|) + EncodeElems(xs, enc)
  }

  /** What readArray returns, with the bytes it leaves unread. */
  function DecodeArray<T>(s: seq<uint8>, w: nat, dec: seq<uint8> --> T): Result<(JavaArray<T>, seq<uint8>), ReadError>
    requires forall x: seq<uint8> | |x| == w :: dec.requires(x)
  {
    if |s| < 4 then Failure(IndexOutOfBounds)
    else
      var n := DecodeInt(s[..4]) as int;
      if n < 0 then Failure(NegativeArraySize)
      else match DecodeElems(s[4..], n, w, dec)
        case None => Failure(IndexOutOfBounds)
        case Some((xs, rest)) => Success((xs, rest))
  }

  lemma ArrayRoundTrip<T>(xs: JavaArray<T>, enc: T -> seq<uint8>, w: nat,
                          dec: seq<uint8> --> T, rest: seq<uint8>)
    requires forall x: seq<uint8> | |x| == w :: dec.requires(x)
    requires forall x: T :: |enc(x)| == w && dec(enc(x)) == x
    ensures DecodeArray(EncodeArray(xs, enc) + rest, w, dec) == Success((xs, rest))
  {
    var s := EncodeArray(xs, enc) + rest;
    IntRoundTrip(|xs|);
    assert s[..4] == EncodeInt(|xs|);
    assert s[4..] == EncodeElems(xs, enc) + rest;
    DecodeEncodeElems(xs, enc, w, dec, rest);
  }

  /** PrimitiveSerializer.writeArray: applyFunc writes one element. */
  method WriteArray<T>(xs: JavaArray<T>, b: ByteBuf, applyFunc: T -> seq<uint8>)
    requires b.Valid()
    modifies b
    ensures b.Valid() && b.data == old(b.data) + EncodeArray(xs, applyFunc)
    ensures b.readerIndex == old(b.readerIndex)
  {
    b.Append(EncodeInt(|xs|));
    var i := 0;
    while i < |xs|
      invariant 0 <= i <= |xs|
      invariant b.Valid() && b.readerIndex == old(b.readerIndex)
      invariant b.data == old(b.data) + EncodeInt(|xs|) + EncodeElems(xs[..i], applyFunc)
    {
      EncodeElemsSnoc(xs[..i], xs[i], applyFunc);
      assert xs[..i + 1] == xs[..i] + [xs[i]];
      b.Append(applyFunc(xs[i]));
      i := i + 1;
    }
    assert xs[..|xs|] == xs;
  }

  /** readArray's loop: fill arr with elements of w bytes read one after another. */
  method ReadInto<T>(b: ByteBuf, arr: array<T>, w: nat, applyFunc: seq<uint8> --> T) returns (ok: bool)
    requires b.Valid()
    requires forall x: seq<uint8> | |x| == w :: applyFunc.requires(x)
    modifies b, arr
    ensures b.Valid() && b.data == old(b.data)
    ensures DecodeElems(old(b.Readable()), arr.Length, w, applyFunc)
            == if ok then Some((arr[..], b.Readable())) else None
  {
    ghost var d := DecodeElems(b.Readable(), arr.Length, w, applyFunc);
    assert arr[..0] == [];
    match d {
      case None =>
      case Some((xs, rest)) => assert [] + xs == xs;
    }
    ghost var unread := b.Readable();
    ghost var got: seq<T> := [];
    ghost var left: nat := arr.Length;
    for i := 0 to arr.Length
      invariant b.Valid() && b.data == old(b.data) && b.Readable() == unread
      invariant |got| == i && left == arr.Length - i
      invariant forall k :: 0 <= k < i ==> arr[k] == got[k]
      invariant ReadSoFar(d, got, unread, left, w, applyFunc)
    {
      var elem := b.Take(w);
      if elem.None? {
        DecodeElemsStep(unread, left, w, applyFunc);
        return false;
      }
      var v := applyFunc(elem.value);
      ReadStep(d, got, unread, left, w, applyFunc, elem.value, v);
      arr[i] := v;
      got, unread, left := got + [v], unread[w..], left - 1;
    }
    assert arr[..] == got && got + [] == got;
    return true;
  }

  /** PrimitiveSerializer.readArray: applyFunc reads one element of w bytes. */
  method ReadArray<T(0)>(b: ByteBuf, w: nat, applyFunc: seq<uint8> --> T) returns (r: Result<JavaArray<T>, ReadError>)
    requires b.Valid()
    requires forall x: seq<uint8> | |x| == w :: applyFunc.requires(x)
    modifies b
    ensures b.Valid() && b.data == old(b.data)
    ensures match DecodeArray(old(b.Readable()), w, applyFunc)
              case Success((xs, rest)) => r == Success(xs) && b.Readable() == rest
              case Failure(e) => r == Failure(e)
  {
    ghost var s := b.Readable();
    var lengthBytes := b.Take(4);
    if lengthBytes.None? {
      return Failure(IndexOutOfBounds);
    }
    var length := DecodeInt(lengthBytes.value);
    if length < 0 {
      return Failure(NegativeArraySize);
    }
    assert b.Readable() == s[4..] && lengthBytes.value == s[..4];
    var arr := new T[length];
    var ok := ReadInto(b, arr, w, applyFunc);
    if !ok {
      return Failure(IndexOutOfBounds);
    }
    return Success(arr[..]);
  }
}
