/**
 * PrimitiveSerializer: a type-tagged binary codec. serialize looks the
 * object's class up in SerializerMap and appends the row's encoding without
 * a tag; deserialize reads one tag byte, looks it up in DeserializerMap and
 * runs that row's reader. The byte-level helpers are in ByteBuffer.
 */
module PrimitiveSerializer {

  import opened Wrappers
  import opened Codec
  import opened ByteBuffer

  /** The rows of the Primitives table in this model (DOUBLE, FLOAT,
      DOUBLE_ARRAY, FLOAT_ARRAY and CORFU_SMR are not). */
  datatype Primitive =
    | Byte | Short | Integer | Long | Boolean
    | ByteArray | ShortArray | IntegerArray | LongArray | BooleanArray
    | String

  /** Each row's typeNum: DeserializerMap leads it back to the row, and it is
      none of the unmodelled rows' typeNums (so rows have distinct typeNums). */
  function TypeNum(p: Primitive): (t: uint8)
    ensures t in DeserializerMap && DeserializerMap[t] == p
    ensures t !in UnmodelledTypeNums
  {
    match p
    case Byte => 0
    case Short => 1
    case Integer => 2
    case Long => 3
    case Boolean => 4
    case ByteArray => 7
    case ShortArray => 8
    case IntegerArray => 9
    case LongArray => 10
    case BooleanArray => 11
    case String => 14
  }

  /** The typeNums of the rows outside this model. */
  const UnmodelledTypeNums: set<uint8> := {5, 6, 12, 13, 15}

  /** DeserializerMap: typeNum to row. */
  const DeserializerMap: map<uint8, Primitive> :=
    map[0 := Byte, 1 := Short, 2 := Integer, 3 := Long, 4 := Boolean,
        7 := ByteArray, 8 := ShortArray, 9 := IntegerArray, 10 := LongArray,
        11 := BooleanArray, 14 := String]

  /** A row's classType, a row's primitiveClass, or a class no row lists. */
  datatype JClass = ClassType(row: Primitive) | PrimitiveClass(row: Primitive) | Unlisted

  /** Whether a row has a primitiveClass: every row but STRING. */
  predicate HasPrimitiveClass(p: Primitive) {
    p != String
  }

  /** SerializerMap, built row by row: each row's classType and, where the row
      has one, its primitiveClass, both to the row's serializer. */
  const SerializerMap: map<JClass, Primitive> := map c | c in ListedClasses :: c.row

  const ListedClasses: set<JClass> :=
    (set p: Primitive :: ClassType(p)) + (set p: Primitive | HasPrimitiveClass(p) :: PrimitiveClass(p))

  /** A class has a serializer exactly when it is a row's classType or a row's
      primitiveClass, and the serializer is that row's. */
  lemma SerializerMapEntries(c: JClass)
    ensures c in SerializerMap <==> c.ClassType? || (c.PrimitiveClass? && HasPrimitiveClass(c.row))
    ensures c in SerializerMap ==> SerializerMap[c] == c.row
  {
    if c.ClassType? || (c.PrimitiveClass? && HasPrimitiveClass(c.row)) {
      assert c == if c.ClassType? then ClassType(c.row) else PrimitiveClass(c.row);
    }
  }

  /** A Java String: String.length() is an int. */
  type JavaString = s: string | JavaLength(s) < 0x8000_0000 witness ""

  /**
   * The objects handed to serialize, by runtime class. An array's flag says
   * whether its elements are boxed: byte[] is BYTE_ARRAY's classType and
   * Byte[] its primitiveClass; for the other arrays the boxed one (Short[],
   * Integer[], Long[], Boolean[]) is the classType. JOther is an object of a
   * class no row lists; Object itself, CORFU_SMR's classType, is not one.
   */
  datatype JObject =
    | JByte(b: int8)
    | JShort(h: int16)
    | JInteger(i: int32)
    | JLong(l: int64)
    | JBoolean(z: bool)
    | JBytes(bytes: JavaArray<int8>, boxed: bool)
    | JShorts(shorts: JavaArray<int16>, boxed: bool)
    | JIntegers(ints: JavaArray<int32>, boxed: bool)
    | JLongs(longs: JavaArray<int64>, boxed: bool)
    | JBooleans(bools: JavaArray<bool>, boxed: bool)
    | JString(s: JavaString)
    | JOther(className: string)

  /** o.getClass(). A boxed scalar's class is always the boxed one. Only an
      unlisted object has no row; a primitiveClass is never STRING's. */
  function ClassOf(o: JObject): (c: JClass)
    ensures c.Unlisted? <==> o.JOther?
    ensures !c.Unlisted? ==> c.row == RowOf(o)
    ensures c.PrimitiveClass? ==> HasPrimitiveClass(c.row)
  {
    match o
    case JByte(_) => ClassType(Byte)
    case JShort(_) => ClassType(Short)
    case JInteger(_) => ClassType(Integer)
    case JLong(_) => ClassType(Long)
    case JBoolean(_) => ClassType(Boolean)
    case JBytes(_, boxed) => if boxed then PrimitiveClass(ByteArray) else ClassType(ByteArray)
    case JShorts(_, boxed) => if boxed then ClassType(ShortArray) else PrimitiveClass(ShortArray)
    case JIntegers(_, boxed) => if boxed then ClassType(IntegerArray) else PrimitiveClass(IntegerArray)
    case JLongs(_, boxed) => if boxed then ClassType(LongArray) else PrimitiveClass(LongArray)
    case JBooleans(_, boxed) => if boxed then ClassType(BooleanArray) else PrimitiveClass(BooleanArray)
    case JString(_) => ClassType(String)
    case JOther(_) => Unlisted
  }

  /** Every class but an unlisted one has a serializer, and boxed and unboxed
      classes of a row share that row's serializer. */
  lemma ClassListed(o: JObject)
    ensures ClassOf(o) in SerializerMap <==> !o.JOther?
    ensures !o.JOther? ==> SerializerMap[ClassOf(o)] == RowOf(o)
  {
    SerializerMapEntries(ClassOf(o));
  }

  /** The row an object's values belong to, whichever of its two classes it has. */
  function RowOf(o: JObject): Primitive
    requires !o.JOther?
  {
    match o
    case JByte(_) => Byte
    case JShort(_) => Short
    case JInteger(_) => Integer
    case JLong(_) => Long
    case JBoolean(_) => Boolean
    case JBytes(_, _) => ByteArray
    case JShorts(_, _) => ShortArray
    case JIntegers(_, _) => IntegerArray
    case JLongs(_, _) => LongArray
    case JBooleans(_, _) => BooleanArray
    case JString(_) => String
  }

  function Contains(s: string, t: string): bool
    decreases |s|
  {
    if |s| < |t| then false else s[..|t|] == t || Contains(s[1..], t)
  }

  /** Runtime-generated SMR proxies, routed to CORFU_SMR by their class name. */
  predicate IsByteBuddy(o: JObject) {
    o.JOther? && Contains(o.className, "$ByteBuddy$")
  }

  datatype SerializeError = UnsupportedClass | ClassCast

  datatype SerializeOutcome =
    | Written(bytes: seq<uint8>)                          // appended to the buffer
    | Threw(error: SerializeError, partial: seq<uint8>)   // appended before the exception
    | CorfuSmr                                            // CORFU_SMR's serializer, outside this model

  /** The bytes a row's serializer appends for an object of a listed class. */
  function Encoding(o: JObject): seq<uint8>
    requires !o.JOther?
  {
    match o
    case JByte(v) => EncodeByte(v)
    case JShort(v) => EncodeShort(v)
    case JInteger(v) => EncodeInt(v)
    case JLong(v) => EncodeLong(v)
    case JBoolean(z) => EncodeBoolean(z)
    case JBytes(bs, _) => EncodeByteArray(bs)
    case JShorts(xs, _) => EncodeArray(xs, EncodeShort)
    case JIntegers(xs, _) => EncodeArray(xs, EncodeInt)
    case JLongs(xs, _) => EncodeArray(xs, EncodeLong)
    case JBooleans(xs, _) => EncodeArray(xs, EncodeBoolean)
    case JString(s) => EncodeInt(JavaLength(s)) + GetBytes(s)
  }

  /** serialize as the table evidently intends: every class it lists is written
      by its row; a class it does not list throws before anything is written. */
  function Serialize(o: JObject): (r: SerializeOutcome)
    ensures r.CorfuSmr? <==> IsByteBuddy(o)
    ensures r.Written? <==> !o.JOther?
    ensures r.Threw? ==> r == Threw(UnsupportedClass, [])
  {
    ClassListed(o);
    if IsByteBuddy(o) then CorfuSmr
    else if ClassOf(o) !in SerializerMap then Threw(UnsupportedClass, [])
    else Written(Encoding(o))
  }

  /** serialize as written: the same dispatch, then the row's serializer as
      written (RowSerializerAsWritten). */
  function SerializeAsWritten(o: JObject): (r: SerializeOutcome)
    ensures !CastFails(o) ==> r == Serialize(o)
    ensures CastFails(o) ==> r.Threw? && r.error == ClassCast && Serialize(o).Written?
    ensures CastFails(o) ==> r.partial <= Serialize(o).bytes
  {
    ClassListed(o);
    if IsByteBuddy(o) then CorfuSmr
    else if ClassOf(o) !in SerializerMap then Threw(UnsupportedClass, [])
    else RowSerializerAsWritten(o)
  }

  /**
   * A listed object's row serializer as written. BYTE_ARRAY's serializer is a
   * SerializerFunction<byte[]>, whose adapter casts its argument to byte[]
   * before writeBytes runs, so a Byte[] throws before writing. The other
   * rows' lambdas take the boxed array type, so a short[], int[], long[] or
   * boolean[] throws before writing too. SHORT_ARRAY passes
   * ByteBuf::writeShort to writeArray, which binds its element type to
   * Integer; the first Short element then fails the cast, after the length
   * is written. Whatever is written before the exception begins the bytes
   * the row was meant to write.
   */
  function RowSerializerAsWritten(o: JObject): (r: SerializeOutcome)
    requires !o.JOther?
    ensures r.Threw? <==> CastFails(o)
    ensures r.Threw? ==> r.error == ClassCast && r.partial <= Encoding(o)
    ensures !r.Threw? ==> r == Written(Encoding(o))
  {
    match o
    case JBytes(_, true) => Threw(ClassCast, [])
    case JShorts(xs, boxed) =>
      if !boxed then Threw(ClassCast, [])
      else if |xs| == 0 then Written(Encoding(o))
      else Threw(ClassCast, EncodeInt(|xs|))
    case JIntegers(_, false) => Threw(ClassCast, [])
    case JLongs(_, false) => Threw(ClassCast, [])
    case JBooleans(_, false) => Threw(ClassCast, [])
    case _ => Written(Encoding(o))
  }

  /** The objects whose cast fails in serialize as written: a Byte[], a
      non-empty Short[], and a short[], int[], long[] or boolean[]. */
  predicate CastFails(o: JObject) {
    || (o.JBytes? && o.boxed)
    || (o.JShorts? && o.boxed && |o.shorts| > 0)
    || ((o.JShorts? || o.JIntegers? || o.JLongs? || o.JBooleans?) && !o.boxed)
  }

  datatype DeserializeError =
    | ReadFailed(cause: ReadError)   // the buffer ran out, or a negative length
    | NoDeserializer                 // DeserializerMap.get returned null
    | UnmodelledRow                  // a row outside this model
    | UndecodedString                // non-ASCII bytes for new String(bs)

  datatype DeserializeOutcome =
    | Decoded(value: JObject, rest: seq<uint8>)   // rest: the bytes left unread
    | Failed(error: DeserializeError)

  /** STRING's reader: an int length n, n bytes, new String(bytes). */
  function DecodeString(s: seq<uint8>): DeserializeOutcome {
    if |s| < 4 then Failed(ReadFailed(IndexOutOfBounds))
    else
      var n := DecodeInt(s[..4]) as int;
      if n < 0 then Failed(ReadFailed(NegativeArraySize))
      else if |s| - 4 < n then Failed(ReadFailed(IndexOutOfBounds))
      else match NewString(s[4..4 + n])
        case None => Failed(UndecodedString)
        case Some(t) => AsciiLength(t); Decoded(JString(t), s[4 + n..])
  }

  lemma {:induction false} AsciiLength(t: string)
    requires IsAscii(t)
    ensures JavaLength(t) == |t|
  {
    if t != [] {
      assert IsAscii(t[1..]) by {
        forall i | 0 <= i < |t[1..]| ensures t[1..][i] as int < 0x80 { assert t[1..][i] == t[i + 1]; }
      }
      AsciiLength(t[1..]);
    }
  }

  /** A row's reader; arrays come back as the row's classType. */
  function ReadRow(p: Primitive, s: seq<uint8>): DeserializeOutcome {
    match p
    case ByteArray =>
      (match DecodeByteArray(s)
       case Failure(e) => Failed(ReadFailed(e))
       case Success((bs, rest)) => Decoded(JBytes(bs, false), rest))
    case ShortArray =>
      (match DecodeArray(s, 2, DecodeShort)
       case Failure(e) => Failed(ReadFailed(e))
       case Success((xs, rest)) => Decoded(JShorts(xs, true), rest))
    case IntegerArray =>
      (match DecodeArray(s, 4, DecodeInt)
       case Failure(e) => Failed(ReadFailed(e))
       case Success((xs, rest)) => Decoded(JIntegers(xs, true), rest))
    case LongArray =>
      (match DecodeArray(s, 8, DecodeLong)
       case Failure(e) => Failed(ReadFailed(e))
       case Success((xs, rest)) => Decoded(JLongs(xs, true), rest))
    case BooleanArray =>
      (match DecodeArray(s, 1, DecodeBoolean)
       case Failure(e) => Failed(ReadFailed(e))
       case Success((xs, rest)) => Decoded(JBooleans(xs, true), rest))
    case String => DecodeString(s)
    case Byte => if |s| < 1 then Failed(ReadFailed(IndexOutOfBounds)) else Decoded(JByte(DecodeByte(s[..1])), s[1..])
    case Short => if |s| < 2 then Failed(ReadFailed(IndexOutOfBounds)) else Decoded(JShort(DecodeShort(s[..2])), s[2..])
    case Integer => if |s| < 4 then Failed(ReadFailed(IndexOutOfBounds)) else Decoded(JInteger(DecodeInt(s[..4])), s[4..])
    case Long => if |s| < 8 then Failed(ReadFailed(IndexOutOfBounds)) else Decoded(JLong(DecodeLong(s[..8])), s[8..])
    case Boolean => if |s| < 1 then Failed(ReadFailed(IndexOutOfBounds)) else Decoded(JBoolean(DecodeBoolean(s[..1])), s[1..])
  }

  /** deserialize: one tag byte, then the reader DeserializerMap gives it. */
  function Deserialize(s: seq<uint8>): DeserializeOutcome {
    if |s| == 0 then Failed(ReadFailed(IndexOutOfBounds))
    else if s[0] in DeserializerMap then ReadRow(DeserializerMap[s[0]], s[1..])
    else if s[0] in UnmodelledTypeNums then Failed(UnmodelledRow)
    else Failed(NoDeserializer)
  }

  /** The tag table: typeNums 0 to 15 belong to rows (modelled or not), no
      other byte does, and DeserializerMap and TypeNum are inverse, so no two
      modelled rows share a typeNum. */
  lemma TagTable(t: uint8, p: Primitive, q: Primitive)
    ensures t in DeserializerMap || t in UnmodelledTypeNums <==> t < 16
    ensures t in DeserializerMap ==> TypeNum(DeserializerMap[t]) == t
    ensures TypeNum(p) == TypeNum(q) ==> p == q
  {
  }

  /** A tag byte with no row has no deserializer, whatever follows it. */
  lemma UnknownTag(t: uint8, body: seq<uint8>)
    requires t >= 16
    ensures Deserialize([t] + body) == Failed(NoDeserializer)
  {
    TagTable(t, Byte, Byte);
  }

  /** What deserialize hands back for an object's bytes: arrays come back as
      their row's classType (byte[], Short[], Integer[], Long[], Boolean[]). */
  function Canonical(o: JObject): (c: JObject)
    requires !o.JOther?
    ensures !c.JOther? && ClassOf(c) == ClassType(RowOf(o))
  {
    match o
    case JBytes(bs, _) => JBytes(bs, false)
    case JShorts(xs, _) => JShorts(xs, true)
    case JIntegers(xs, _) => JIntegers(xs, true)
    case JLongs(xs, _) => JLongs(xs, true)
    case JBooleans(xs, _) => JBooleans(xs, true)
    case JByte(_) => o
    case JShort(_) => o
    case JInteger(_) => o
    case JLong(_) => o
    case JBoolean(_) => o
    case JString(_) => o
  }

  /** The tag of an object's row followed by its serialized bytes, with any
      bytes after them. */
  function Framed(o: JObject, rest: seq<uint8>): seq<uint8>
    requires !o.JOther?
  {
    ClassListed(o);
    [TypeNum(SerializerMap[ClassOf(o)])] + Encoding(o) + rest
  }

  /**
   * serialize, then deserialize: every listed object is written, and reading
   * its tag and bytes back gives its canonical form and stops exactly at the
   * end of its bytes; the canonical form serializes to the same bytes.
   * Strings must be ASCII (see StringRoundTripIffAscii).
   */
  lemma RoundTrip(o: JObject, rest: seq<uint8>)
    requires !o.JOther?
    requires o.JString? ==> IsAscii(o.s)
    ensures Serialize(o) == Written(Encoding(o))
    ensures Deserialize(Framed(o, rest)) == Decoded(Canonical(o), rest)
    ensures Serialize(Canonical(o)) == Serialize(o)
  {
    ClassListed(o);
    assert Framed(o, rest) == [TypeNum(RowOf(o))] + (Encoding(o) + rest);
    DeserializeTagged(RowOf(o), Encoding(o) + rest);
    RowRoundTrip(o, rest);
    CanonicalEncoding(o);
  }

  /** deserialize reads the tag and hands the rest to that row's reader. */
  lemma DeserializeTagged(p: Primitive, body: seq<uint8>)
    ensures Deserialize([TypeNum(p)] + body) == ReadRow(p, body)
  {
    assert ([TypeNum(p)] + body)[1..] == body;
  }

  /** An object's canonical form has the same bytes. */
  lemma CanonicalEncoding(o: JObject)
    requires !o.JOther?
    ensures Encoding(Canonical(o)) == Encoding(o)
  {
  }

  /** Reading an object's bytes with its row's reader gives its canonical form. */
  lemma RowRoundTrip(o: JObject, rest: seq<uint8>)
    requires !o.JOther?
    requires o.JString? ==> IsAscii(o.s)
    ensures ReadRow(RowOf(o), Encoding(o) + rest) == Decoded(Canonical(o), rest)
  {
    if o.JString? {
      StringRoundTrip(o.s, rest);
    } else if o.JBytes? || o.JShorts? || o.JIntegers? || o.JLongs? || o.JBooleans? {
      ArrayRowRoundTrip(o, rest);
    } else {
      ScalarRowRoundTrip(o, rest);
    }
  }

  lemma ScalarRowRoundTrip(o: JObject, rest: seq<uint8>)
    requires o.JByte? || o.JShort? || o.JInteger? || o.JLong? || o.JBoolean?
    ensures ReadRow(RowOf(o), Encoding(o) + rest) == Decoded(o, rest)
  {
    match o {
      case JByte(v) => ByteRowRoundTrip(v, rest);
      case JShort(v) => ShortRowRoundTrip(v, rest);
      case JInteger(v) => IntegerRowRoundTrip(v, rest);
      case JLong(v) => LongRowRoundTrip(v, rest);
      case JBoolean(z) => BooleanRowRoundTrip(z, rest);
    }
  }

  lemma ByteRowRoundTrip(v: int8, rest: seq<uint8>)
    ensures ReadRow(Byte, EncodeByte(v) + rest) == Decoded(JByte(v), rest)
  {
    ByteRoundTrip(v);
    assert (EncodeByte(v) + rest)[..1] == EncodeByte(v);
  }

  lemma ShortRowRoundTrip(v: int16, rest: seq<uint8>)
    ensures ReadRow(Short, EncodeShort(v) + rest) == Decoded(JShort(v), rest)
  {
    ShortRoundTrip(v);
    assert (EncodeShort(v) + rest)[..2] == EncodeShort(v);
  }

  lemma IntegerRowRoundTrip(v: int32, rest: seq<uint8>)
    ensures ReadRow(Integer, EncodeInt(v) + rest) == Decoded(JInteger(v), rest)
  {
    IntRoundTrip(v);
    assert (EncodeInt(v) + rest)[..4] == EncodeInt(v);
  }

  lemma LongRowRoundTrip(v: int64, rest: seq<uint8>)
    ensures ReadRow(Long, EncodeLong(v) + rest) == Decoded(JLong(v), rest)
  {
    LongRoundTrip(v);
    assert (EncodeLong(v) + rest)[..8] == EncodeLong(v);
  }

  lemma BooleanRowRoundTrip(z: bool, rest: seq<uint8>)
    ensures ReadRow(Boolean, EncodeBoolean(z) + rest) == Decoded(JBoolean(z), rest)
  {
    assert (EncodeBoolean(z) + rest)[..1] == EncodeBoolean(z);
  }

  lemma ArrayRowRoundTrip(o: JObject, rest: seq<uint8>)
    requires o.JBytes? || o.JShorts? || o.JIntegers? || o.JLongs? || o.JBooleans?
    ensures ReadRow(RowOf(o), Encoding(o) + rest) == Decoded(Canonical(o), rest)
  {
    match o {
      case JBytes(bs, _) => ByteArrayRoundTrip(bs, rest);
      case JShorts(xs, _) => ShortArrayRowRoundTrip(xs, rest);
      case JIntegers(xs, _) => IntegerArrayRowRoundTrip(xs, rest);
      case JLongs(xs, _) => LongArrayRowRoundTrip(xs, rest);
      case JBooleans(xs, _) => BooleanArrayRowRoundTrip(xs, rest);
    }
  }

  lemma ShortArrayRowRoundTrip(xs: JavaArray<int16>, rest: seq<uint8>)
    ensures ReadRow(ShortArray, EncodeArray(xs, EncodeShort) + rest) == Decoded(JShorts(xs, true), rest)
  {
    forall h: int16 ensures |EncodeShort(h)| == 2 && DecodeShort(EncodeShort(h)) == h {
      ShortRoundTrip(h);
    }
    ArrayRoundTrip(xs, EncodeShort, 2, DecodeShort, rest);
  }

  lemma IntegerArrayRowRoundTrip(xs: JavaArray<int32>, rest: seq<uint8>)
    ensures ReadRow(IntegerArray, EncodeArray(xs, EncodeInt) + rest) == Decoded(JIntegers(xs, true), rest)
  {
    forall i: int32 ensures |EncodeInt(i)| == 4 && DecodeInt(EncodeInt(i)) == i {
      IntRoundTrip(i);
    }
    ArrayRoundTrip(xs, EncodeInt, 4, DecodeInt, rest);
  }

  lemma LongArrayRowRoundTrip(xs: JavaArray<int64>, rest: seq<uint8>)
    ensures ReadRow(LongArray, EncodeArray(xs, EncodeLong) + rest) == Decoded(JLongs(xs, true), rest)
  {
    forall l: int64 ensures |EncodeLong(l)| == 8 && DecodeLong(EncodeLong(l)) == l {
      LongRoundTrip(l);
    }
    ArrayRoundTrip(xs, EncodeLong, 8, DecodeLong, rest);
  }

  lemma BooleanArrayRowRoundTrip(xs: JavaArray<bool>, rest: seq<uint8>)
    ensures ReadRow(BooleanArray, EncodeArray(xs, EncodeBoolean) + rest) == Decoded(JBooleans(xs, true), rest)
  {
    assert forall z: bool :: |EncodeBoolean(z)| == 1 && DecodeBoolean(EncodeBoolean(z)) == z;
    ArrayRoundTrip(xs, EncodeBoolean, 1, DecodeBoolean, rest);
  }

  lemma StringRoundTrip(t: JavaString, rest: seq<uint8>)
    requires IsAscii(t)
    ensures DecodeString(Encoding(JString(t)) + rest) == Decoded(JString(t), rest)
  {
    AsciiRoundTrip(t);
    var n := JavaLength(t);
    var g := GetBytes(t);
    var body := EncodeInt(n) + g + rest;
    assert Encoding(JString(t)) + rest == body;
    IntRoundTrip(n);
    assert body[..4] == EncodeInt(n);
    assert DecodeInt(body[..4]) as int == n;
    assert body[4..4 + n] == g;
    assert body[4 + n..] == rest;
    assert NewString(body[4..4 + n]) == Some(t);
  }

  /** A string comes back from its own bytes exactly when it is ASCII: for
      any other string the length written (UTF-16 units) is less than the
      number of bytes written. */
  lemma StringRoundTripIffAscii(t: JavaString, rest: seq<uint8>)
    ensures Deserialize(Framed(JString(t), rest)) == Decoded(JString(t), rest) <==> IsAscii(t)
  {
    var s := Framed(JString(t), rest);
    var body := Encoding(JString(t)) + rest;
    assert s[0] == 14 && s[1..] == body;
    if IsAscii(t) {
      StringRoundTrip(t, rest);
    } else {
      LengthMatchesBytesIffAscii(t);
      var n := JavaLength(t);
      IntRoundTrip(n);
      assert body[..4] == EncodeInt(n);
      assert |body| == 4 + |GetBytes(t)| + |rest| > 4 + n + |rest|;
    }
  }

  /** Byte[] throws before anything is written, and a byte[] with the same
      elements is written in full. */
  lemma BoxedByteArrayThrows()
    ensures SerializeAsWritten(JBytes([7], true)) == Threw(ClassCast, [])
    ensures Serialize(JBytes([7], true)) == Written(EncodeByteArray([7]))
  {
  }

  /** A non-empty Short[] throws after writing its length; the intended
      serializer writes and reads it back. */
  lemma ShortArrayThrows()
    ensures SerializeAsWritten(JShorts([7], true)) == Threw(ClassCast, EncodeInt(1))
    ensures Deserialize(Framed(JShorts([7], true), [])) == Decoded(JShorts([7], true), [])
  {
    RoundTrip(JShorts([7], true), []);
  }

  /** An int[] throws before writing anything; it is INTEGER_ARRAY's primitiveClass. */
  lemma PrimitiveIntArrayThrows()
    ensures ClassOf(JIntegers([7], false)) == PrimitiveClass(IntegerArray)
    ensures SerializeAsWritten(JIntegers([7], false)) == Threw(ClassCast, [])
    ensures Serialize(JIntegers([7], false)) == Written(EncodeArray([7 as int32], EncodeInt))
  {
  }
}
