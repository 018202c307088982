/** The codecs that need no registry: String, Bytes, Scalar and NdArray serialize/deserialize.
    Every `Serialize` yields bytes that start with a 4-byte big-endian length or count; every
    `Deserialize` returns the decoded value and the bytes that follow it. */
module Codecs {
  import opened Wrappers
  import opened Binary
  import opened Values
  import opened SerUtils

  const TWO_63: int := 0x8000_0000_0000_0000

  /** The remainder a decoder returns is what follows the bytes it consumed. */
  predicate IsSuffix(rest: Bytes, b: Bytes)
  {
    |rest| <= |b| && rest == b[|b| - |rest|..]
  }

  // ----- bytes -----

  /** BytesSerializeDeserialize.serialize: length prefix, then the raw bytes. */
  function BytesSerialize(obj: Value): (r: Result<Bytes>)
    ensures r.Ok? <==> obj.ByteStr? && |obj.raw| < TWO_32
    ensures r.Ok? ==> r.value == IntToBytes(Int(|obj.raw|)).value + obj.raw
    ensures !obj.ByteStr? ==> r == Err(TypeError)
  {
    match obj
    case ByteStr(raw) =>
      var length :- IntToBytes(Int(|raw|));
      Ok(length + raw)
    case _ => Err(TypeError)
  }

  /** BytesSerializeDeserialize.deserialize: read a length, then that many bytes. */
  function BytesDeserialize(b: Bytes): (r: Result<(Bytes, Bytes)>)
    ensures r.Ok? ==> |b| >= 4 + |r.value.0| && FromBigEndian(b[..4]) == |r.value.0|
    ensures r.Ok? ==> b == b[..4] + r.value.0 + r.value.1
    ensures r.Ok? ==> IsSuffix(r.value.1, b) && |r.value.1| < |b|
    ensures !r.Ok? ==> r == Err(TruncatedData)
  {
    if |b| < 4 then Err(TruncatedData)
    else
      var n := BytesToInt(b[..4]);
      if |b| - 4 < n then Err(TruncatedData)
      else
        assert b == b[..4] + b[4..4 + n] + b[4 + n..];
        Ok((b[4..4 + n], b[4 + n..]))
  }

  lemma BytesRoundTrip(raw: Bytes, tail: Bytes)
    requires |raw| < TWO_32
    ensures BytesSerialize(ByteStr(raw)).Ok?
    ensures BytesDeserialize(BytesSerialize(ByteStr(raw)).value + tail) == Ok((raw, tail))
  {
    var b := BytesSerialize(ByteStr(raw)).value + tail;
    var prefix := IntToBytes(Int(|raw|)).value;
    assert b[..4] == prefix;
    assert b[4..4 + |raw|] == raw;
    assert b[4 + |raw|..] == tail;
  }

  // ----- str -----

  /** StringSerializeDeserialize.serialize: byte length of the encoded text, then the text. */
  function StringSerialize(obj: Value): (r: Result<Bytes>)
    ensures r.Ok? <==> obj.Str? && |obj.s| < TWO_32
    ensures r.Ok? ==> r.value == IntToBytes(Int(|obj.s|)).value + StrToBytes(obj).value
    ensures !obj.Str? ==> r == Err(TypeError)
  {
    var encoded :- StrToBytes(obj);
    BytesSerialize(ByteStr(encoded))
  }

  function StringDeserialize(b: Bytes): (r: Result<(AsciiString, Bytes)>)
    ensures r.Ok? ==> IsSuffix(r.value.1, b) && |r.value.1| < |b|
    ensures r.Ok? ==> BytesDeserialize(b).Ok? && BytesDeserialize(b).value.1 == r.value.1
                      && BytesToString(BytesDeserialize(b).value.0) == Ok(r.value.0)
  {
    var (raw, rest) :- BytesDeserialize(b);
    var s :- BytesToString(raw);
    Ok((s, rest))
  }

  lemma StringRoundTrip(s: AsciiString, tail: Bytes)
    requires |s| < TWO_32
    ensures StringSerialize(Str(s)).Ok?
    ensures StringDeserialize(StringSerialize(Str(s)).value + tail) == Ok((s, tail))
  {
    var encoded := EncodeAscii(s);
    BytesRoundTrip(encoded, tail);
    StrRoundTrip(s);
  }

  // ----- scalars and array elements -----

  /** numpy's dtype descriptor string for each element type. */
  function DTypeName(d: DType): AsciiString
  {
    match d
    case Int64 => "<i8"
    case Float64 => "<f8"
    case Complex128 => "<c16"
    case Bool8 => "|b1"
  }

  function ParseDType(name: string): (r: Result<DType>)
    ensures r.Ok? ==> DTypeName(r.value) == name
    ensures !r.Ok? ==> r == Err(UnknownDtype)
  {
    if name == "<i8" then Ok(Int64)
    else if name == "<f8" then Ok(Float64)
    else if name == "<c16" then Ok(Complex128)
    else if name == "|b1" then Ok(Bool8)
    else Err(UnknownDtype)
  }

  lemma ParseDTypeName(d: DType)
    ensures ParseDType(DTypeName(d)) == Ok(d)
  {
  }

  function ItemSize(d: DType): nat
  {
    match d
    case Int64 => 8
    case Float64 => 8
    case Complex128 => 16
    case Bool8 => 1
  }

  /** The dtype numpy gives a one-element array holding this scalar. */
  function ScalarDType(v: Value): Option<DType>
  {
    match v
    case Int(_) => Some(Int64)
    case Float(_) => Some(Float64)
    case Complex(_, _) => Some(Complex128)
    case Bool(_) => Some(Bool8)
    case _ => None
  }

  lemma Pow256Eight()
    ensures Pow256(8) == TWO_64
  {
    assert Pow256(4) == 0x1_0000_0000 by { FourBytesBigEndian(0); }
    assert Pow256(8) == Pow256(4) * Pow256(4) by {
      assert Pow256(8) == 256 * 256 * 256 * 256 * Pow256(4);
    }
  }

  /** The bytes of one element of the given dtype: two's complement for int64, the bit pattern
      for float64, real then imaginary part for complex128, one 0/1 byte for bool. */
  function EncodeItem(d: DType, v: Value): (r: Result<Bytes>)
    ensures r.Ok? ==> |r.value| == ItemSize(d)
    ensures r.Ok? <==> ScalarDType(v) == Some(d) && (v.Int? ==> -TWO_63 <= v.i < TWO_63)
    ensures ScalarDType(v) == Some(d) && v.Int? && !(-TWO_63 <= v.i < TWO_63) ==> r == Err(OverflowError)
  {
    Pow256Eight();
    match (d, v)
    case (Int64, Int(i)) =>
      if -TWO_63 <= i < TWO_63 then Ok(ToLittleEndian(if i < 0 then i + TWO_64 else i, 8))
      else Err(OverflowError)
    case (Float64, Float(bits)) => Ok(ToLittleEndian(bits, 8))
    case (Complex128, Complex(re, im)) => Ok(ToLittleEndian(re, 8) + ToLittleEndian(im, 8))
    case (Bool8, Bool(flag)) => Ok([if flag then 1 else 0])
    case _ => Err(TypeError)
  }

  function DecodeItem(d: DType, raw: Bytes): (v: Value)
    requires |raw| == ItemSize(d)
    ensures ScalarDType(v) == Some(d)
  {
    Pow256Eight();
    match d
    case Int64 =>
      var u := FromLittleEndian(raw);
      Int(if u >= TWO_63 then u - TWO_64 else u)
    case Float64 => Float(FromLittleEndian(raw))
    case Complex128 => Complex(FromLittleEndian(raw[..8]), FromLittleEndian(raw[8..]))
    case Bool8 => Bool(raw[0] != 0)
  }

  lemma ItemRoundTrip(d: DType, v: Value)
    requires EncodeItem(d, v).Ok?
    ensures DecodeItem(d, EncodeItem(d, v).value) == v
  {
    Pow256Eight();
    var raw := EncodeItem(d, v).value;
    match v
    case Int(i) =>
      LittleEndianRoundTrip(if i < 0 then i + TWO_64 else i, 8);
    case Float(bits) =>
      LittleEndianRoundTrip(bits, 8);
    case Complex(re, im) =>
      assert raw[..8] == ToLittleEndian(re, 8) && raw[8..] == ToLittleEndian(im, 8);
      LittleEndianRoundTrip(re, 8);
      LittleEndianRoundTrip(im, 8);
    case Bool(_) =>
  }

  // ----- scalar codec -----

  /** ScalarSerializeDeserialize.serialize: the dtype descriptor as a string, then the element
      bytes as a bytes envelope. */
  function ScalarSerialize(obj: Value): (r: Result<Bytes>)
    ensures r.Ok? <==> ScalarDType(obj).Some? && (obj.Int? ==> -TWO_63 <= obj.i < TWO_63)
    ensures r.Ok? ==> |r.value| >= 4
    ensures ScalarDType(obj).None? ==> r == Err(TypeError)
    ensures obj.Int? && !(-TWO_63 <= obj.i < TWO_63) ==> r == Err(OverflowError)
  {
    match ScalarDType(obj)
    case None => Err(TypeError)
    case Some(d) =>
      var raw :- EncodeItem(d, obj);
      Ok(StringSerialize(Str(DTypeName(d))).value + BytesSerialize(ByteStr(raw)).value)
  }

  function ScalarDeserialize(b: Bytes): (r: Result<(Value, Bytes)>)
    ensures r.Ok? ==> IsSuffix(r.value.1, b) && |r.value.1| < |b|
    ensures r.Ok? ==> ScalarDType(r.value.0).Some?
  {
    var (name, rest) :- StringDeserialize(b);
    var d :- ParseDType(name);
    var (raw, rest2) :- BytesDeserialize(rest);
    if |raw| != ItemSize(d) then Err(TruncatedData)
    else Ok((DecodeItem(d, raw), rest2))
  }

  lemma ScalarRoundTrip(v: Value, tail: Bytes)
    requires ScalarSerialize(v).Ok?
    ensures ScalarDeserialize(ScalarSerialize(v).value + tail) == Ok((v, tail))
  {
    var d := ScalarDType(v).value;
    var raw := EncodeItem(d, v).value;
    var descr := StringSerialize(Str(DTypeName(d))).value;
    var payload := BytesSerialize(ByteStr(raw)).value;
    assert ScalarSerialize(v).value == descr + payload;
    Append3(descr, payload, tail);
    ScalarReads(d, raw, tail);
    ItemRoundTrip(d, v);
  }

  /** A dtype descriptor followed by a framed item of the right size decodes to that item. */
  lemma ScalarReads(d: DType, raw: Bytes, tail: Bytes)
    requires |raw| == ItemSize(d)
    ensures ScalarDeserialize(StringSerialize(Str(DTypeName(d))).value + (BytesSerialize(ByteStr(raw)).value + tail))
            == Ok((DecodeItem(d, raw), tail))
  {
    var payload := BytesSerialize(ByteStr(raw)).value;
    DescriptorReads(d, payload + tail);
    BytesRoundTrip(raw, tail);
  }

  /** The serialized dtype name is read back as the same dtype. */
  lemma DescriptorReads(d: DType, rest: Bytes)
    ensures StringDeserialize(StringSerialize(Str(DTypeName(d))).value + rest) == Ok((DTypeName(d), rest))
    ensures ParseDType(DTypeName(d)) == Ok(d)
  {
    StringRoundTrip(DTypeName(d), rest);
    ParseDTypeName(d);
  }

  /** Proof helper: regrouping a frame followed by a tail. Stated on its own so that callers
      with large contexts need not rediscover associativity. */
  lemma Append3(a: Bytes, b: Bytes, c: Bytes)
    ensures a + b + c == a + (b + c)
  {
  }

  /** Proof helper: regrouping the four parts of an array frame followed by a tail. */
  lemma AppendAssoc(a: Bytes, b: Bytes, c: Bytes, d: Bytes, e: Bytes)
    ensures a + (b + (c + d)) + e == a + (b + (c + (d + e)))
  {
  }

  // ----- ndarray codec -----

  /** The element bytes of an array, concatenated in order. */
  function EncodeItems(d: DType, data: seq<Value>): (r: Result<Bytes>)
    ensures r.Ok? <==> forall i | 0 <= i < |data| :: EncodeItem(d, data[i]).Ok?
    ensures r.Ok? ==> |r.value| == |data| * ItemSize(d)
  {
    if data == [] then Ok([])
    else
      var first :- EncodeItem(d, data[0]);
      var rest :- EncodeItems(d, data[1..]);
      Ok(first + rest)
  }

  /** Cuts `n` elements of the given dtype out of a buffer of exactly that many bytes. */
  function DecodeItems(d: DType, n: nat, raw: Bytes): (r: seq<Value>)
    requires |raw| == n * ItemSize(d)
    ensures |r| == n
    ensures forall i | 0 <= i < n :: ScalarDType(r[i]) == Some(d)
  {
    if n == 0 then []
    else
      var size := ItemSize(d);
      assert |raw| == (n - 1) * size + size;
      [DecodeItem(d, raw[..size])] + DecodeItems(d, n - 1, raw[size..])
  }

  lemma {:induction false} ItemsRoundTrip(d: DType, data: seq<Value>)
    requires EncodeItems(d, data).Ok?
    ensures DecodeItems(d, |data|, EncodeItems(d, data).value) == data
  {
    if data != [] {
      var raw := EncodeItems(d, data).value;
      var first := EncodeItem(d, data[0]).value;
      assert raw == first + EncodeItems(d, data[1..]).value;
      assert raw[..ItemSize(d)] == first;
      assert raw[ItemSize(d)..] == EncodeItems(d, data[1..]).value;
      ItemRoundTrip(d, data[0]);
      ItemsRoundTrip(d, data[1..]);
    }
  }

  /** The dimension sizes, each as a 4-byte big-endian integer. */
  function EncodeDims(shape: seq<nat>): (r: Result<Bytes>)
    ensures r.Ok? <==> forall i | 0 <= i < |shape| :: shape[i] < TWO_32
    ensures r.Ok? ==> |r.value| == 4 * |shape|
  {
    if shape == [] then Ok([])
    else
      var first :- IntToBytes(Int(shape[0]));
      var rest :- EncodeDims(shape[1..]);
      Ok(first + rest)
  }

  function DecodeDims(k: nat, b: Bytes): (r: Result<(seq<nat>, Bytes)>)
    ensures r.Ok? ==> |r.value.0| == k && IsSuffix(r.value.1, b) && |r.value.1| == |b| - 4 * k
    ensures !r.Ok? ==> r == Err(TruncatedData)
  {
    if k == 0 then Ok(([], b))
    else if |b| < 4 then Err(TruncatedData)
    else
      var (rest, tail) :- DecodeDims(k - 1, b[4..]);
      Ok(([BytesToInt(b[..4])] + rest, tail))
  }

  lemma {:induction false} DimsRoundTrip(shape: seq<nat>, tail: Bytes)
    requires EncodeDims(shape).Ok?
    ensures DecodeDims(|shape|, EncodeDims(shape).value + tail) == Ok((shape, tail))
  {
    if shape != [] {
      var first := IntToBytes(Int(shape[0])).value;
      var rest := EncodeDims(shape[1..]).value;
      assert EncodeDims(shape).value == first + rest;
      var b := EncodeDims(shape).value + tail;
      assert b[..4] == first && b[4..] == rest + tail;
      IntRoundTrip(shape[0]);
      DimsRoundTrip(shape[1..], tail);
      assert DecodeDims(|shape| - 1, b[4..]) == Ok((shape[1..], tail));
      assert BytesToInt(b[..4]) == shape[0];
      assert [shape[0]] + shape[1..] == shape;
    }
  }

  /** NdArraySerializeDeserialize.serialize: the number of dimensions, the dimension sizes,
      the dtype descriptor as a string, then the raw buffer of Product(shape) elements. */
  function NdArraySerialize(obj: Value): (r: Result<Bytes>)
    ensures r.Ok? <==> && obj.NdArray? && |obj.data| == Product(obj.shape)
                       && |obj.shape| < TWO_32 && EncodeDims(obj.shape).Ok?
                       && EncodeItems(obj.dtype, obj.data).Ok?
    ensures r.Ok? ==> |r.value| >= 4
    ensures !obj.NdArray? ==> r == Err(TypeError)
  {
    match obj
    case NdArray(d, shape, data) =>
      if |data| != Product(shape) then Err(ValueError)
      else
        var count :- IntToBytes(Int(|shape|));
        var dims :- EncodeDims(shape);
        var raw :- EncodeItems(d, data);
        Ok(count + (dims + (StringSerialize(Str(DTypeName(d))).value + raw)))
    case _ => Err(TypeError)
  }

  /** The header of an array: the shape and the element type, and the bytes after them. */
  function NdArrayHeader(b: Bytes): (r: Result<(seq<nat>, DType, Bytes)>)
    ensures r.Ok? ==> IsSuffix(r.value.2, b) && |r.value.2| < |b|
  {
    if |b| < 4 then Err(TruncatedData)
    else
      var (shape, rest) :- DecodeDims(BytesToInt(b[..4]), b[4..]);
      var (name, rest2) :- StringDeserialize(rest);
      var d :- ParseDType(name);
      Ok((shape, d, rest2))
  }

  function NdArrayDeserialize(b: Bytes): (r: Result<(Value, Bytes)>)
    ensures r.Ok? ==> IsSuffix(r.value.1, b) && |r.value.1| < |b|
    ensures r.Ok? ==> var a := r.value.0;
              && a.NdArray? && |a.data| == Product(a.shape)
              && forall i | 0 <= i < |a.data| :: ScalarDType(a.data[i]) == Some(a.dtype)
  {
    var (shape, d, rest) :- NdArrayHeader(b);
    var n := Product(shape);
    var size := n * ItemSize(d);
    if |rest| < size then Err(TruncatedData)
    else Ok((NdArray(d, shape, DecodeItems(d, n, rest[..size])), rest[size..]))
  }

  lemma HeaderRoundTrip(d: DType, shape: seq<nat>, rest: Bytes)
    requires |shape| < TWO_32 && EncodeDims(shape).Ok?
    ensures NdArrayHeader(IntToBytes(Int(|shape|)).value + (EncodeDims(shape).value
                          + (StringSerialize(Str(DTypeName(d))).value + rest))) == Ok((shape, d, rest))
  {
    var count := IntToBytes(Int(|shape|)).value;
    var dims := EncodeDims(shape).value;
    var descr := StringSerialize(Str(DTypeName(d))).value;
    assert |count| == 4;
    var b := count + (dims + (descr + rest));
    assert b[..4] == count;
    assert b[4..] == dims + (descr + rest);
    IntRoundTrip(|shape|);
    DimsRoundTrip(shape, descr + rest);
    HeaderReads(b, shape, d, rest);
  }

  lemma HeaderReads(b: Bytes, shape: seq<nat>, d: DType, rest: Bytes)
    requires |b| >= 4 && BytesToInt(b[..4]) == |shape|
    requires DecodeDims(|shape|, b[4..]) == Ok((shape, StringSerialize(Str(DTypeName(d))).value + rest))
    ensures NdArrayHeader(b) == Ok((shape, d, rest))
  {
    DescriptorReads(d, rest);
  }

  lemma ArrayRoundTrip(v: Value, tail: Bytes)
    requires NdArraySerialize(v).Ok?
    ensures NdArrayDeserialize(NdArraySerialize(v).value + tail) == Ok((v, tail))
  {
    var d, shape, data := v.dtype, v.shape, v.data;
    var count := IntToBytes(Int(|shape|)).value;
    var dims := EncodeDims(shape).value;
    var descr := StringSerialize(Str(DTypeName(d))).value;
    var raw := EncodeItems(d, data).value;
    assert NdArraySerialize(v).value == count + (dims + (descr + raw));
    AppendAssoc(count, dims, descr, raw, tail);
    HeaderRoundTrip(d, shape, raw + tail);
    var size := Product(shape) * ItemSize(d);
    assert (raw + tail)[..size] == raw && (raw + tail)[size..] == tail;
    ItemsRoundTrip(d, data);
  }
}
