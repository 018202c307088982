/** The integer and string primitives of `pymodaq_utils.serialize.utils`. */
module SerUtils {
  import opened Wrappers
  import opened Binary
  import opened Values

  const TWO_32: int := 0x1_0000_0000

  /** The integer a Python int or bool stands for (bool is a subclass of int). */
  function IntegerOf(obj: Value): int
    requires obj.Int? || obj.Bool?
  {
    if obj.Int? then obj.i else if obj.flag then 1 else 0
  }

  /** `int_to_bytes`: the 4-byte big-endian image of a non-negative integer. */
  function IntToBytes(obj: Value): (r: Result<Bytes>)
    ensures r.Ok? <==> (obj.Int? || obj.Bool?) && 0 <= IntegerOf(obj) < TWO_32
    ensures r.Ok? ==> |r.value| == 4 && FromBigEndian(r.value) == IntegerOf(obj)
    ensures !obj.Int? && !obj.Bool? ==> r == Err(TypeError)
    ensures obj.Int? && obj.i < 0 ==> r == Err(ValueError)
    ensures obj.Int? && obj.i >= TWO_32 ==> r == Err(OverflowError)
  {
    if !obj.Int? && !obj.Bool? then Err(TypeError)
    else
      var n := IntegerOf(obj);
      if n < 0 then Err(ValueError)
      else if n >= TWO_32 then Err(OverflowError)
      else
        FourBytesBigEndian(n);
        BigEndianRoundTrip(n, 4);
        Ok(ToBigEndian(n, 4))
  }

  /** `bytes_to_int`: the big-endian value of a byte string of any length. */
  function BytesToInt(b: Bytes): (n: nat)
    ensures n < Pow256(|b|)
  {
    FromBigEndian(b)
  }

  /** `n.to_bytes(4, 'big')`, digit by digit, is what int_to_bytes returns. */
  lemma IntToBytesIsBigEndian(n: int)
    requires 0 <= n < TWO_32
    ensures IntToBytes(Int(n)) == Ok([n / 0x100_0000, n / 0x1_0000 % 256, n / 256 % 256, n % 256])
  {
    FourBytesBigEndian(n);
  }

  /** bytes_to_int inverts int_to_bytes ... */
  lemma IntRoundTrip(n: int)
    requires 0 <= n < TWO_32
    ensures IntToBytes(Int(n)).Ok? && BytesToInt(IntToBytes(Int(n)).value) == n
  {
  }

  /** ... and int_to_bytes inverts bytes_to_int on 4-byte strings. */
  lemma IntRoundTripFromBytes(b: Bytes)
    requires |b| == 4
    ensures IntToBytes(Int(BytesToInt(b))) == Ok(b)
  {
    BigEndianOfValue(b);
    assert Pow256(4) == TWO_32 by { FourBytesBigEndian(0); }
  }

  /** The UTF-8 image of ASCII text: one byte per character, the character's code. */
  function EncodeAscii(s: AsciiString): (r: Bytes)
    ensures |r| == |s|
    ensures forall i | 0 <= i < |s| :: r[i] == s[i] as int
  {
    seq(|s|, i requires 0 <= i < |s| => s[i] as int)
  }

  /** `str_to_bytes`: `message.encode()`, refusing anything that is not a str. */
  function StrToBytes(obj: Value): (r: Result<Bytes>)
    ensures r.Ok? <==> obj.Str?
    ensures r.Ok? ==> r.value == EncodeAscii(obj.s)
    ensures !obj.Str? ==> r == Err(TypeError)
  {
    match obj
    case Str(s) => Ok(EncodeAscii(s))
    case _ => Err(TypeError)
  }

  /** `bytes_to_string`: `message.decode()`; a byte outside ASCII is a decode error in this model. */
  function BytesToString(b: Bytes): (r: Result<AsciiString>)
    ensures r.Ok? <==> forall i | 0 <= i < |b| :: b[i] < 128
    ensures r.Ok? ==> EncodeAscii(r.value) == b
    ensures !r.Ok? ==> r == Err(UnicodeDecodeError)
  {
    if forall i | 0 <= i < |b| :: b[i] < 128 then
      var s := seq(|b|, i requires 0 <= i < |b| => b[i] as char);
      assert IsAscii(s);
      Ok(s)
    else
      Err(UnicodeDecodeError)
  }

  /** bytes_to_string inverts str_to_bytes. */
  lemma StrRoundTrip(s: AsciiString)
    ensures StrToBytes(Str(s)).Ok?
    ensures BytesToString(StrToBytes(Str(s)).value) == Ok(s)
  {
    var b := EncodeAscii(s);
    assert forall i | 0 <= i < |b| :: b[i] < 128;
    assert BytesToString(b).value == s;
  }

  /** `str_len_to_bytes`: the encoded message and the 4-byte image of its byte length;
      a bytes message is taken as already encoded. */
  function StrLenToBytes(obj: Value): (r: Result<(Bytes, Bytes)>)
    ensures r.Ok? ==> IntToBytes(Int(|r.value.0|)) == Ok(r.value.1)
    ensures obj.ByteStr? && |obj.raw| < TWO_32 ==> r == Ok((obj.raw, IntToBytes(Int(|obj.raw|)).value))
    ensures obj.Str? && |obj.s| < TWO_32 ==> r.Ok? && r.value.0 == EncodeAscii(obj.s)
    ensures !obj.Str? && !obj.ByteStr? ==> r == Err(TypeError)
  {
    var message :- if obj.ByteStr? then Ok(obj.raw) else StrToBytes(obj);
    var length :- IntToBytes(Int(|message|));
    Ok((message, length))
  }

  /** For text, the length prefix is int_to_bytes of the number of characters. */
  lemma StrLenToBytesOfText(s: AsciiString)
    requires |s| < TWO_32
    ensures StrLenToBytes(Str(s)) == Ok((StrToBytes(Str(s)).value, IntToBytes(Int(|s|)).value))
    ensures BytesToString(StrLenToBytes(Str(s)).value.0) == Ok(s)
  {
    StrRoundTrip(s);
  }
}
