/** Bytes and the fixed-width integer images used on the wire. */
module Binary {

  type Byte = x: int | 0 <= x < 256
  type Bytes = seq<Byte>

  /** Helper: 256^k, the number of values `k` bytes can hold. Its positivity serves the bounds
      below; it is not itself a property of the serializer. */
  function Pow256(k: nat): (r: nat)
    ensures r >= 1
  {
    if k == 0 then 1 else 256 * Pow256(k - 1)
  }

  /** `int.from_bytes(b, 'big')`: the value of a byte string of any length, most significant byte first. */
  function FromBigEndian(b: Bytes): (r: nat)
    ensures r < Pow256(|b|)
  {
    if b == [] then 0 else FromBigEndian(b[..|b| - 1]) * 256 + b[|b| - 1]
  }

  /** `n.to_bytes(width, 'big')`. */
  function ToBigEndian(n: nat, width: nat): (r: Bytes)
    requires n < Pow256(width)
    ensures |r| == width
  {
    if width == 0 then [] else ToBigEndian(n / 256, width - 1) + [n % 256]
  }

  /** Least significant byte first, the byte order of a numpy buffer on a little-endian host. */
  function FromLittleEndian(b: Bytes): (r: nat)
    ensures r < Pow256(|b|)
  {
    if b == [] then 0 else b[0] + 256 * FromLittleEndian(b[1..])
  }

  function ToLittleEndian(n: nat, width: nat): (r: Bytes)
    requires n < Pow256(width)
    ensures |r| == width
  {
    if width == 0 then [] else [n % 256] + ToLittleEndian(n / 256, width - 1)
  }

  lemma {:induction false} BigEndianRoundTrip(n: nat, width: nat)
    requires n < Pow256(width)
    ensures FromBigEndian(ToBigEndian(n, width)) == n
  {
    if width > 0 {
      var r := ToBigEndian(n, width);
      assert r[..|r| - 1] == ToBigEndian(n / 256, width - 1);
      BigEndianRoundTrip(n / 256, width - 1);
    }
  }

  /** The converse: a byte string is the fixed-width image of its own value. */
  lemma {:induction false} BigEndianOfValue(b: Bytes)
    ensures FromBigEndian(b) < Pow256(|b|)
    ensures ToBigEndian(FromBigEndian(b), |b|) == b
  {
    if b != [] {
      var init := b[..|b| - 1];
      BigEndianOfValue(init);
      var n := FromBigEndian(b);
      assert n / 256 == FromBigEndian(init) && n % 256 == b[|b| - 1];
      assert b == init + [b[|b| - 1]];
    }
  }

  lemma {:induction false} LittleEndianRoundTrip(n: nat, width: nat)
    requires n < Pow256(width)
    ensures FromLittleEndian(ToLittleEndian(n, width)) == n
  {
    if width > 0 {
      var r := ToLittleEndian(n, width);
      assert r[1..] == ToLittleEndian(n / 256, width - 1);
      LittleEndianRoundTrip(n / 256, width - 1);
    }
  }

  /** The 4-byte image written out digit by digit. */
  lemma FourBytesBigEndian(n: nat)
    requires n < Pow256(4)
    ensures Pow256(4) == 0x1_0000_0000
    ensures ToBigEndian(n, 4) == [n / 0x100_0000, n / 0x1_0000 % 256, n / 256 % 256, n % 256]
  {
    assert Pow256(4) == 0x1_0000_0000 by {
      assert Pow256(2) == 0x1_0000;
    }
    var n1 := n / 256;
    var n2 := n1 / 256;
    var n3 := n2 / 256;
    assert n2 == n / 0x1_0000;
    assert n3 == n / 0x100_0000;
    assert n3 / 256 == 0 && n3 % 256 == n3;
    assert ToBigEndian(n3, 1) == [n3];
    assert ToBigEndian(n2, 2) == [n3, n2 % 256];
    assert ToBigEndian(n1, 3) == [n3, n2 % 256, n1 % 256];
  }
}
