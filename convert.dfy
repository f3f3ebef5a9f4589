/** Convert.go: the bufConverter readings of signed samples. Each reads an
    unsigned word in the file's byte order and reinterprets it as a
    two's-complement integer; float64 of that integer is the integer itself up
    to 2^53, which every 8-, 16- and 32-bit value is. */
module Convert {
  import opened Errors
  import opened Binary

  /** ConverInt8ToFloat64: int8(b). */
  function ConverInt8(b: byte): (r: int)
    ensures b < 128 ==> r == b
    ensures b >= 128 ==> r == b - 256
  {
    assert Pow256(1) == 256;
    ToSigned(b, 1)
  }

  /** The shared body of ConverInt16/32/64ToFloat64: intN(order.UintN(bytes)).
      order.UintN reads bytes[0..n], so a shorter slice panics (None). */
  function ConverInt(order: ByteOrder, bytes: seq<byte>, n: nat): (r: Option<int>)
    requires n in {2, 4, 8}
    ensures r.Some? <==> |bytes| >= n
    ensures r.Some? ==> -(Pow256(n) / 2) <= r.value < Pow256(n) / 2
  {
    if |bytes| < n then None
    else
      UintBound(order, bytes[..n]);
      Some(ToSigned(Uint(order, bytes[..n]), n))
  }

  /** ConverInt16ToFloat64. */
  function ConverInt16(order: ByteOrder, bytes: seq<byte>): (r: Option<int>)
    ensures r.Some? <==> |bytes| >= 2
    ensures r.Some? ==> -0x8000 <= r.value < 0x8000
  {
    assert Pow256(2) == 0x1_0000;
    ConverInt(order, bytes, 2)
  }

  /** ConverInt32ToFloat64. */
  function ConverInt32(order: ByteOrder, bytes: seq<byte>): (r: Option<int>)
    ensures r.Some? <==> |bytes| >= 4
    ensures r.Some? ==> -0x8000_0000 <= r.value < 0x8000_0000
  {
    assert Pow256(4) == 0x1_0000_0000;
    ConverInt(order, bytes, 4)
  }

  /** ConverInt64ToFloat64 (before the rounding of float64, which is not
      modelled). */
  function ConverInt64(order: ByteOrder, bytes: seq<byte>): (r: Option<int>)
    ensures r.Some? <==> |bytes| >= 8
    ensures r.Some? ==> -0x8000_0000_0000_0000 <= r.value < 0x8000_0000_0000_0000
  {
    assert Pow256(8) == 0x1_0000_0000_0000_0000;
    ConverInt(order, bytes, 8)
  }

  /** The n-byte two's-complement pattern of a signed value. */
  function TwosComplement(v: int, n: nat): (u: nat)
    requires -(Pow256(n) / 2) <= v < Pow256(n) / 2
    ensures u < Pow256(n)
  {
    if v >= 0 then v else v + Pow256(n)
  }

  /** Writing a signed value as its n-byte two's-complement pattern and reading
      it back gives the value. */
  lemma ConverIntRoundTrip(order: ByteOrder, v: int, n: nat)
    requires n in {2, 4, 8}
    requires -(Pow256(n) / 2) <= v < Pow256(n) / 2
    ensures ConverInt(order, Put(order, TwosComplement(v, n), n), n) == Some(v)
  {
    var u := TwosComplement(v, n);
    var b := Put(order, u, n);
    UintPut(order, u, n);
    assert b[..n] == b;
  }

  /** int8 reading is the one-byte instance: a byte written from a signed value
      in [-128, 128) reads back as that value. */
  lemma ConverInt8RoundTrip(v: int)
    requires -128 <= v < 128
    ensures ConverInt8((v % 256) as byte) == v
  {
  }
}
