/** The parts of Go's encoding/binary and of Go byte slices that the reader
    relies on: the two byte orders, fixed-width unsigned decoding and encoding,
    and slices that carry a capacity beyond their length. */
module Binary {
  import opened Errors

  type byte = b: int | 0 <= b < 256

  /** binary.LittleEndian / binary.BigEndian. */
  datatype ByteOrder = LittleEndian | BigEndian

  function Pow256(n: nat): (r: nat)
    ensures r >= 1
  {
    if n == 0 then 1 else 256 * Pow256(n - 1)
  }

  /** Unsigned value of a byte string, least significant byte first. */
  function LittleValue(b: seq<byte>): nat {
    if b == [] then 0 else b[0] + 256 * LittleValue(b[1..])
  }

  /** Unsigned value of a byte string, most significant byte first. */
  function BigValue(b: seq<byte>): nat {
    if b == [] then 0 else 256 * BigValue(b[..|b| - 1]) + b[|b| - 1]
  }

  /** order.Uint16 / Uint32 / Uint64 applied to exactly the bytes `b`. */
  function Uint(order: ByteOrder, b: seq<byte>): nat {
    match order
    case LittleEndian => LittleValue(b)
    case BigEndian => BigValue(b)
  }

  /** order.PutUint16 / PutUint32 / PutUint64 of `v` into `n` bytes (the value is
      truncated to `n` bytes, as Go's conversion to the fixed-width type does). */
  function Put(order: ByteOrder, v: nat, n: nat): (r: seq<byte>)
    ensures |r| == n
  {
    match order
    case LittleEndian => PutLittle(v, n)
    case BigEndian => PutBig(v, n)
  }

  function PutLittle(v: nat, n: nat): (r: seq<byte>)
    ensures |r| == n
  {
    if n == 0 then [] else [v % 256] + PutLittle(v / 256, n - 1)
  }

  function PutBig(v: nat, n: nat): (r: seq<byte>)
    ensures |r| == n
  {
    if n == 0 then [] else PutBig(v / 256, n - 1) + [v % 256]
  }

  /** An n-byte string encodes a value below 256^n, in either order. */
  lemma {:induction false} UintBound(order: ByteOrder, b: seq<byte>)
    ensures Uint(order, b) < Pow256(|b|)
    decreases |b|
  {
    if b != [] {
      match order
      case LittleEndian => UintBound(order, b[1..]);
      case BigEndian => UintBound(order, b[..|b| - 1]);
    }
  }

  /** Decoding what was encoded returns the value. */
  lemma {:induction false} UintPut(order: ByteOrder, v: nat, n: nat)
    requires v < Pow256(n)
    ensures Uint(order, Put(order, v, n)) == v
    decreases n
  {
    if n > 0 {
      UintPut(order, v / 256, n - 1);
      match order
      case LittleEndian =>
        assert PutLittle(v, n)[1..] == PutLittle(v / 256, n - 1);
      case BigEndian =>
        var s := PutBig(v, n);
        assert s[..|s| - 1] == PutBig(v / 256, n - 1);
    }
  }

  /** Encoding what was decoded returns the bytes. */
  lemma {:induction false} PutUint(order: ByteOrder, b: seq<byte>)
    ensures Put(order, Uint(order, b), |b|) == b
    decreases |b|
  {
    if b != [] {
      match order
      case LittleEndian =>
        PutUint(order, b[1..]);
        var v := LittleValue(b);
        assert v % 256 == b[0] && v / 256 == LittleValue(b[1..]);
        assert b == [b[0]] + b[1..];
      case BigEndian =>
        var init := b[..|b| - 1];
        PutUint(order, init);
        var v := BigValue(b);
        assert v % 256 == b[|b| - 1] && v / 256 == BigValue(init);
        assert b == init + [b[|b| - 1]];
    }
  }

  /** order.Uint16(b): reads b[0] and b[1]. */
  function Uint16(order: ByteOrder, b: seq<byte>): (r: nat)
    requires |b| >= 2
    ensures r < 0x1_0000
  {
    UintBound(order, b[..2]);
    assert Pow256(2) == 0x1_0000;
    Uint(order, b[..2])
  }

  /** order.Uint32(b): reads b[0..4]. */
  function Uint32(order: ByteOrder, b: seq<byte>): (r: nat)
    requires |b| >= 4
    ensures r < 0x1_0000_0000
  {
    UintBound(order, b[..4]);
    assert Pow256(4) == 0x1_0000_0000;
    Uint(order, b[..4])
  }

  /** order.Uint64(b): reads b[0..8]. */
  function Uint64(order: ByteOrder, b: seq<byte>): (r: nat)
    requires |b| >= 8
    ensures r < 0x1_0000_0000_0000_0000
  {
    UintBound(order, b[..8]);
    assert Pow256(8) == 0x1_0000_0000_0000_0000;
    Uint(order, b[..8])
  }

  /** The two's-complement reading of an n-byte unsigned value: Go's conversion
      of a uintN to intN. Values with the top bit clear keep their value, the
      others become negative. */
  function ToSigned(v: nat, n: nat): (r: int)
    requires 1 <= n && v < Pow256(n)
    ensures r < 0 <==> v >= Pow256(n) / 2
    ensures r == v || r == v - Pow256(n)
  {
    if v < Pow256(n) / 2 then v else v - Pow256(n)
  }

  // ---------------------------------------------------------------------------
  // Go byte slices. A slice sees `len` bytes of a backing array that extends to
  // the end of its capacity; re-slicing may reach into that capacity, indexing
  // may not.

  datatype ByteSlice = ByteSlice(backing: seq<byte>, len: nat)

  type Slice = s: ByteSlice | s.len <= |s.backing| witness ByteSlice([], 0)

  /** make([]byte, n) filled with `b`: length and capacity both |b|. */
  function MakeSlice(b: seq<byte>): Slice {
    ByteSlice(b, |b|)
  }

  /** The bytes the slice sees. */
  function Visible(s: Slice): seq<byte> {
    s.backing[..s.len]
  }

  function Cap(s: Slice): nat {
    |s.backing|
  }

  /** s[lo:hi]: legal up to the capacity; None where Go panics. */
  function Reslice(s: Slice, lo: nat, hi: nat): (r: Option<Slice>)
    ensures r.Some? <==> lo <= hi <= Cap(s)
    ensures r.Some? ==> Visible(r.value) == s.backing[lo..hi] && Cap(r.value) == Cap(s) - lo
  {
    if lo <= hi <= |s.backing| then Some(ByteSlice(s.backing[lo..], hi - lo)) else None
  }
}
