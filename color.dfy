/** The pixel values of colour images and palettes: uint32(a<<24 | r<<16 |
    g<<8 | b) on uint32 channels, and the rescaling of a 16-bit channel to
    8 bits. */
module Color {
  /** uint32(v): the low 32 bits of a Go uint. */
  function Channel(v: nat): bv32 {
    (v % 0x1_0000_0000) as bv32
  }

  /** (a << 24) | (r << 16) | (g << 8) | b on uint32 operands: bits shifted
      past bit 31 are lost and overlapping fields are ORed together. */
  function Pack(a: bv32, r: bv32, g: bv32, b: bv32): bv32 {
    (a << 24) | (r << 16) | (g << 8) | b
  }

  /** A channel value below 256 keeps its value as a uint32. */
  lemma ChannelSmall(v: nat)
    requires v < 256
    ensures Channel(v) < 256 && Channel(v) as int == v
  {
    assert v % 0x1_0000_0000 == v;
    var b := v as bv32;
    assert b as int == v;
  }

  /** float64 of a packed pixel. */
  function PackedValue(p: bv32): real {
    p as int as real
  }

  /** With 8-bit channels nothing overlaps: alpha, red, green and blue can be
      read back from the top byte down. */
  lemma PackFields(a: bv32, r: bv32, g: bv32, b: bv32)
    requires a < 256 && r < 256 && g < 256 && b < 256
    ensures Pack(a, r, g, b) >> 24 == a
    ensures (Pack(a, r, g, b) >> 16) & 0xFF == r
    ensures (Pack(a, r, g, b) >> 8) & 0xFF == g
    ensures Pack(a, r, g, b) & 0xFF == b
  {
  }

  /** uint32(float64(v) / 65535 * 255) in exact arithmetic: a 16-bit channel
      rescaled to 8 bits, rounded down. */
  function Scale(v: nat): (c: nat)
    ensures v <= 0xFFFF ==> c <= 0xFF
  {
    v * 255 / 65535
  }

  /** The rescaling keeps the end points and the order of channel values. */
  lemma ScaleEnds(v: nat, w: nat)
    ensures Scale(0) == 0 && Scale(0xFFFF) == 0xFF
    ensures v <= w ==> Scale(v) <= Scale(w)
  {
    if v <= w {
      assert v * 255 <= w * 255;
    }
  }
}
