/** GeoData.go's GeoData record, Convert.go's ToConver, and the pixel loops of
    readData: each pixel of a block rectangle reads its bytes at the current
    offset of the block buffer, converts them, writes Data[y*width+x] and
    advances the offset. */
module Pixels {
  import opened Errors
  import opened Binary
  import opened Color
  import opened Convert

  /** How the pixels of a block are read: the byte width of one pixel and the
      conversion to float64 that the source's switch on mode, SampleFormat and
      BitsPerSample[0] selects. Converted is ToConver's caller-given conversion
      of a 2-byte slice. */
  datatype Sample =
    | Unsigned(n: nat, order: ByteOrder)
    | Signed(n: nat, order: ByteOrder)
    | Float32(order: ByteOrder, single: nat -> real)
    | Float64(order: ByteOrder, double: nat -> real)
    | PaletteIndex(palette: seq<bv32>)
    | Rgb8
    | Rgb16(order: ByteOrder)
    | Rgba8
    | Rgba16(order: ByteOrder)
    | Converted(convert: seq<byte> -> real)

  /** Integer samples are 1, 2, 4 or 8 bytes wide. */
  predicate ValidSample(k: Sample) {
    (k.Unsigned? ==> k.n in {1, 2, 4, 8}) && (k.Signed? ==> k.n in {1, 2, 4, 8})
  }

  /** The bytes one pixel consumes. */
  function Width(k: Sample): nat {
    match k
    case Unsigned(n, _) => n
    case Signed(n, _) => n
    case Float32(_, _) => 4
    case Float64(_, _) => 8
    case PaletteIndex(_) => 1
    case Rgb8 => 3
    case Rgb16(_) => 6
    case Rgba8 => 4
    case Rgba16(_) => 8
    case Converted(_) => 2
  }

  /** The float loops skip a pixel, without advancing, once the offset has
      passed the end of the buffer. */
  predicate Guarded(k: Sample) {
    k.Float32? || k.Float64?
  }

  /** A 16-bit channel at b[i..i+2], rescaled to 8 bits as a uint32. */
  function Wide(order: ByteOrder, b: seq<byte>, i: nat): bv32
    requires i + 2 <= |b|
  {
    Channel(Scale(Uint(order, b[i..i + 2])))
  }

  /** float64 of one pixel read from its bytes: an unsigned or two's-complement
      word, an IEEE pattern, a palette entry (a panic past the palette's end),
      or a colour packed as a << 24 | r << 16 | g << 8 | b with alpha 255 for
      RGB. */
  function Value(k: Sample, b: seq<byte>): (r: Result<real>)
    requires ValidSample(k) && |b| == Width(k)
    ensures !r.Ok? ==> r == Panic(OutOfRange)
    ensures !k.PaletteIndex? ==> r.Ok?
    ensures k.PaletteIndex? ==> (r.Ok? <==> b[0] < |k.palette|)
    ensures k.PaletteIndex? && r.Ok? ==> r.value == PackedValue(k.palette[b[0]])
  {
    match k
    case Unsigned(n, order) => Ok(Uint(order, b) as real)
    case Signed(n, order) =>
      if n == 1 then Ok(ConverInt8(b[0]) as real) else Ok(ConverInt(order, b, n).value as real)
    case Float32(order, single) => Ok(single(Uint(order, b)))
    case Float64(order, double) => Ok(double(Uint(order, b)))
    case PaletteIndex(palette) =>
      if b[0] < |palette| then Ok(PackedValue(palette[b[0]])) else Panic(OutOfRange)
    case Rgb8 => Ok(PackedValue(Pack(255, b[0] as bv32, b[1] as bv32, b[2] as bv32)))
    case Rgb16(order) => Ok(PackedValue(Pack(255, Wide(order, b, 0), Wide(order, b, 2), Wide(order, b, 4))))
    case Rgba8 => Ok(PackedValue(Pack(b[3] as bv32, b[0] as bv32, b[1] as bv32, b[2] as bv32)))
    case Rgba16(order) =>
      Ok(PackedValue(Pack(Wide(order, b, 6), Wide(order, b, 0), Wide(order, b, 2), Wide(order, b, 4))))
    case Converted(f) => Ok(f(b))
  }

  /** How one pixel is read, apart from the buffer: its conversion, its byte
      width, whether the loop skips it once the offset is past the buffer (the
      float loops) and whether rows end with the float32 offset adjustment. */
  datatype Decoding = Decoding(decode: seq<byte> -> Result<real>, size: nat, guarded: bool, rowSkip: bool)

  /** The decoding of a sample kind. */
  function DecodingOf(k: Sample): (d: Decoding)
    requires ValidSample(k)
    ensures d.size == Width(k) && d.guarded == Guarded(k) && d.rowSkip == k.Float32?
    ensures forall b :: |b| == Width(k) ==> d.decode(b) == Value(k, b)
    ensures PanicsOnly(d)
  {
    Decoding((b: seq<byte>) => if |b| == Width(k) then Value(k, b) else Panic(OutOfRange),
             Width(k), Guarded(k), k.Float32?)
  }

  /** A conversion that can only fail by indexing out of range. */
  ghost predicate PanicsOnly(d: Decoding) {
    forall b :: d.decode(b).Ok? || d.decode(b) == Panic(OutOfRange)
  }

  /** What the pixel loops of one block read: the decoding, the block's bytes,
      the image width and the block width. */
  datatype Placement = Placement(d: Decoding, buf: seq<byte>, width: int, blockWidth: int)

  /** The row-major index of pixel (x, y). */
  function Index(width: int, y: int, x: int): int {
    y * width + x
  }

  /** The value the pixel at `off` converts to: a slice past the buffer
      panics. */
  function PixelAt(p: Placement, off: int): Result<real> {
    if off < 0 || off + p.d.size > |p.buf| then Panic(OutOfRange)
    else p.d.decode(p.buf[off..off + p.d.size])
  }

  /** One pixel at offset `off` written to Data[idx]: a slice past the buffer
      or an index past Data panics. */
  function Step(p: Placement, data: seq<real>, off: int, idx: int): (r: Result<(seq<real>, int)>)
    ensures r.Ok? ==> |r.value.0| == |data|
  {
    if p.d.guarded && off > |p.buf| then Ok((data, off))
    else
      var v :- PixelAt(p, off);
      if 0 <= idx < |data| then Ok((data[idx := v], off + p.d.size)) else Panic(OutOfRange)
  }

  /** The inner loop: pixels x .. xmax - 1 of row y. */
  function Row(p: Placement, data: seq<real>, off: int, y: int, x: int, xmax: int): (r: Result<(seq<real>, int)>)
    ensures r.Ok? ==> |r.value.0| == |data|
    decreases xmax - x
  {
    if x >= xmax then Ok((data, off))
    else
      var s :- Step(p, data, off, Index(p.width, y, x));
      Row(p, s.0, s.1, y, x + 1, xmax)
  }

  /** The float32 loop's adjustment after each row: when xmax * 4 is below the
      block width the offset moves on by blockWidth * 4 - xmax * 4. */
  function RowEnd(d: Decoding, blockWidth: int, off: int, xmax: int): int {
    if d.rowSkip && xmax * 4 < blockWidth then off - xmax * 4 + blockWidth * 4 else off
  }

  /** The outer loop: rows y .. ymax - 1 of the rectangle [xmin, xmax). */
  function Rect(p: Placement, data: seq<real>, off: int, y: int, ymax: int, xmin: int, xmax: int): (r: Result<(seq<real>, int)>)
    ensures r.Ok? ==> |r.value.0| == |data|
    decreases ymax - y
  {
    if y >= ymax then Ok((data, off))
    else
      var s :- Row(p, data, off, y, xmin, xmax);
      Rect(p, s.0, RowEnd(p.d, p.blockWidth, s.1, xmax), y + 1, ymax, xmin, xmax)
  }

  /** The rest of the rectangle once row y has produced `r`. */
  function RowThen(p: Placement, r: Result<(seq<real>, int)>, y: int, ymax: int, xmin: int, xmax: int): Result<(seq<real>, int)> {
    if r.Ok? then Rect(p, r.value.0, RowEnd(p.d, p.blockWidth, r.value.1, xmax), y + 1, ymax, xmin, xmax) else r
  }

  /** The only way a rectangle fails is an index out of range, so the loops'
      `false` stands for that panic. */
  lemma {:induction false} RowPanics(p: Placement, data: seq<real>, off: int, y: int, x: int, xmax: int)
    requires PanicsOnly(p.d)
    ensures Row(p, data, off, y, x, xmax).Ok? || Row(p, data, off, y, x, xmax) == Panic(OutOfRange)
    decreases xmax - x
  {
    if x < xmax {
      var s := Step(p, data, off, Index(p.width, y, x));
      if s.Ok? {
        RowPanics(p, s.value.0, s.value.1, y, x + 1, xmax);
      }
    }
  }

  lemma {:induction false} RectPanics(p: Placement, data: seq<real>, off: int, y: int, ymax: int, xmin: int, xmax: int)
    requires PanicsOnly(p.d)
    ensures Rect(p, data, off, y, ymax, xmin, xmax).Ok? || Rect(p, data, off, y, ymax, xmin, xmax) == Panic(OutOfRange)
    decreases ymax - y
  {
    if y < ymax {
      RowPanics(p, data, off, y, xmin, xmax);
      var s := Row(p, data, off, y, xmin, xmax);
      if s.Ok? {
        RectPanics(p, s.value.0, RowEnd(p.d, p.blockWidth, s.value.1, xmax), y + 1, ymax, xmin, xmax);
      }
    }
  }

  // ---------------------------------------------------------------------------
  // What the loops write

  /** A pixel loop changes only indices of pixels it visits. */
  lemma {:induction false} RowFrame(p: Placement, data: seq<real>, off: int, y: int, x: int, xmax: int)
    requires Row(p, data, off, y, x, xmax).Ok?
    ensures forall q :: 0 <= q < |data| && Row(p, data, off, y, x, xmax).value.0[q] != data[q] ==>
      exists c :: x <= c < xmax && q == Index(p.width, y, c)
    decreases xmax - x
  {
    if x < xmax {
      var s := Step(p, data, off, Index(p.width, y, x)).value;
      RowFrame(p, s.0, s.1, y, x + 1, xmax);
    }
  }

  /** The rectangle loops change only indices y * width + x of the rectangle. */
  lemma {:induction false} RectFrame(p: Placement, data: seq<real>, off: int, y: int, ymax: int, xmin: int, xmax: int)
    requires Rect(p, data, off, y, ymax, xmin, xmax).Ok?
    ensures forall q :: 0 <= q < |data| && Rect(p, data, off, y, ymax, xmin, xmax).value.0[q] != data[q] ==>
      exists r, c :: y <= r < ymax && xmin <= c < xmax && q == Index(p.width, r, c)
    decreases ymax - y
  {
    if y < ymax {
      var s := Row(p, data, off, y, xmin, xmax).value;
      RowFrame(p, data, off, y, xmin, xmax);
      RectFrame(p, s.0, RowEnd(p.d, p.blockWidth, s.1, xmax), y + 1, ymax, xmin, xmax);
    }
  }

  /** w * (hi - lo) split off its first term. */
  lemma MulStep(w: int, hi: int, lo: int)
    ensures w * (hi - lo) == w + w * (hi - (lo + 1))
  {
  }

  /** w * (n * (hi - lo)) split off its first row. */
  lemma RowsStep(w: int, n: int, hi: int, lo: int)
    ensures w * (n * (hi - lo)) == w * n + w * (n * (hi - (lo + 1)))
  {
    assert n * (hi - lo) == n + n * (hi - (lo + 1));
  }

  /** Without the float guard, each pixel of a row advances the offset by the
      pixel width. */
  lemma {:induction false} RowAdvance(p: Placement, data: seq<real>, off: int, y: int, x: int, xmax: int)
    requires !p.d.guarded && x <= xmax
    requires Row(p, data, off, y, x, xmax).Ok?
    ensures Row(p, data, off, y, x, xmax).value.1 == off + p.d.size * (xmax - x)
    decreases xmax - x
  {
    if x < xmax {
      var s := Step(p, data, off, Index(p.width, y, x)).value;
      RowAdvance(p, s.0, s.1, y, x + 1, xmax);
      MulStep(p.d.size, xmax, x);
    } else {
      assert xmax - x == 0;
    }
  }

  /** Outside the float loops, the rectangle advances the offset by the pixel
      width for every pixel: ToConver by exactly 2. */
  lemma {:induction false} RectAdvance(p: Placement, data: seq<real>, off: int, y: int, ymax: int, xmin: int, xmax: int)
    requires !p.d.guarded && !p.d.rowSkip && xmin <= xmax && y <= ymax
    requires Rect(p, data, off, y, ymax, xmin, xmax).Ok?
    ensures Rect(p, data, off, y, ymax, xmin, xmax).value.1 == off + p.d.size * ((xmax - xmin) * (ymax - y))
    decreases ymax - y
  {
    if y < ymax {
      var s := Row(p, data, off, y, xmin, xmax).value;
      RowAdvance(p, data, off, y, xmin, xmax);
      RectAdvance(p, s.0, s.1, y + 1, ymax, xmin, xmax);
      RowsStep(p.d.size, xmax - xmin, ymax, y);
    } else {
      assert ymax - y == 0;
    }
  }

  /** A pixel inside the image has a row-major index below width * height. */
  lemma IndexInBounds(width: int, height: int, y: int, x: int)
    requires 0 <= y < height && 0 <= x < width
    ensures 0 <= Index(width, y, x) < width * height
  {
    assert y * width <= (height - 1) * width by {
      assert (height - 1 - y) * width >= 0;
    }
    assert (height - 1) * width + width == width * height;
  }

  /** Distinct pixels of an image of the given width have distinct indices. */
  lemma IndexDistinct(width: int, y: int, x: int, y': int, x': int)
    requires 0 <= x < width && 0 <= x' < width && y < y'
    ensures Index(width, y, x) < Index(width, y', x')
  {
    assert y * width + width <= y' * width by {
      assert (y' - y - 1) * width >= 0;
    }
  }

  /** A row that completes wrote every one of its pixels, so each of their
      indices lies inside Data. */
  lemma {:induction false} RowWrites(p: Placement, data: seq<real>, off: int, y: int, x: int, xmax: int, c: int)
    requires !p.d.guarded && x <= c < xmax
    requires Row(p, data, off, y, x, xmax).Ok?
    ensures 0 <= Index(p.width, y, c) < |data|
    decreases xmax - x
  {
    var s := Step(p, data, off, Index(p.width, y, x)).value;
    if c > x {
      RowWrites(p, s.0, s.1, y, x + 1, xmax, c);
    }
  }

  /** Without the float guard, pixel c of the row holds the value read at
      the offset the row has reached when it comes to c. */
  lemma {:induction false} RowPixel(p: Placement, data: seq<real>, off: int, y: int, x: int, xmax: int, c: int)
    requires !p.d.guarded && 0 <= x <= c < xmax <= p.width
    requires Row(p, data, off, y, x, xmax).Ok?
    ensures Row(p, data, off, y, x, c).Ok?
    ensures PixelAt(p, Row(p, data, off, y, x, c).value.1).Ok?
    ensures var d := Row(p, data, off, y, x, xmax).value.0;
      0 <= Index(p.width, y, c) < |d| && d[Index(p.width, y, c)] == PixelAt(p, Row(p, data, off, y, x, c).value.1).value
    decreases xmax - x
  {
    var s := Step(p, data, off, Index(p.width, y, x)).value;
    if c == x {
      RowFrame(p, s.0, s.1, y, x + 1, xmax);
      assert forall c' :: x + 1 <= c' < xmax ==> Index(p.width, y, x) != Index(p.width, y, c');
    } else {
      RowPixel(p, s.0, s.1, y, x + 1, xmax, c);
    }
  }

  /** Pixel c of a row holds the value read at off plus the width of the
      pixels before it. */
  lemma RowContent(p: Placement, data: seq<real>, off: int, y: int, x: int, xmax: int, c: int)
    requires !p.d.guarded && 0 <= x <= c < xmax <= p.width
    requires Row(p, data, off, y, x, xmax).Ok?
    ensures PixelAt(p, off + p.d.size * (c - x)).Ok?
    ensures var d := Row(p, data, off, y, x, xmax).value.0;
      0 <= Index(p.width, y, c) < |d| && d[Index(p.width, y, c)] == PixelAt(p, off + p.d.size * (c - x)).value
  {
    RowPixel(p, data, off, y, x, xmax, c);
    RowAdvance(p, data, off, y, x, c);
  }

  /** Rows r - y before row r, each of n pixels, and k pixels into row r. */
  lemma RowsOffset(w: int, n: int, r: int, y: int, k: int)
    ensures r == y ==> w * ((r - y) * n + k) == w * k
    ensures w * ((r - y) * n + k) == w * n + w * ((r - (y + 1)) * n + k)
  {
    assert (r - y) * n == n + (r - (y + 1)) * n;
  }

  /** The pixels a rectangle writes: with the rectangle inside the image width
      and no float guard, pixel (c, r) holds the value read at `off` plus the
      width of the (r - y) * (xmax - xmin) + (c - xmin) pixels before it. */
  lemma {:induction false} RectContent(p: Placement, data: seq<real>, off: int, y: int, ymax: int, xmin: int, xmax: int,
                                       r: int, c: int)
    requires !p.d.guarded && !p.d.rowSkip
    requires 0 <= xmin <= c < xmax <= p.width && y <= r < ymax
    requires Rect(p, data, off, y, ymax, xmin, xmax).Ok?
    ensures PixelAt(p, off + p.d.size * ((r - y) * (xmax - xmin) + (c - xmin))).Ok?
    ensures var d := Rect(p, data, off, y, ymax, xmin, xmax).value.0;
      0 <= Index(p.width, r, c) < |d| &&
      d[Index(p.width, r, c)] == PixelAt(p, off + p.d.size * ((r - y) * (xmax - xmin) + (c - xmin))).value
    decreases ymax - y
  {
    var s := Row(p, data, off, y, xmin, xmax).value;
    RowsOffset(p.d.size, xmax - xmin, r, y, c - xmin);
    if r == y {
      RowContent(p, data, off, y, xmin, xmax, c);
      RectFrame(p, s.0, s.1, y + 1, ymax, xmin, xmax);
      forall r', c' | y + 1 <= r' < ymax && xmin <= c' < xmax
        ensures Index(p.width, y, c) != Index(p.width, r', c')
      {
        IndexDistinct(p.width, y, c, r', c');
      }
    } else {
      RowAdvance(p, data, off, y, xmin, xmax);
      RectContent(p, s.0, s.1, y + 1, ymax, xmin, xmax, r, c);
    }
  }

  // ---------------------------------------------------------------------------
  // GeoData

  /** GeoData: the current block's bytes, the read offset in them and the
      image's pixel values. */
  class GeoData {
    var buf: array<byte>
    var off: int
    var data: array<real>

    /** GeoData{buf: []byte{}, off: 0, Data: make([]float64, n)}. */
    constructor (n: nat)
      ensures buf.Length == 0 && off == 0 && data.Length == n
      ensures forall i :: 0 <= i < n ==> data[i] == 0.0
      ensures fresh(buf) && fresh(data)
    {
      buf := new byte[0];
      off := 0;
      data := new real[n](_ => 0.0);
    }

    /** `gData.buf, err = read(...)` followed by `gData.off = 0`. */
    method Load(b: seq<byte>)
      modifies this`buf, this`off
      ensures fresh(buf) && buf[..] == b && off == 0
    {
      buf := new byte[|b|](i requires 0 <= i < |b| => b[i]);
      off := 0;
    }

    /** One pixel of the loops: as Step, with false where the source panics. */
    method PlacePixel(d: Decoding, width: int, y: int, x: int, ghost p: Placement) returns (ok: bool)
      requires p.d == d && p.width == width && p.buf == buf[..]
      modifies this`off, data
      ensures var r := Step(p, old(data[..]), old(off), Index(p.width, y, x));
        ok == r.Ok? && (ok ==> data[..] == r.value.0 && off == r.value.1)
    {
      if d.guarded && off > buf.Length {
        return true;
      }
      if off < 0 || off + d.size > buf.Length {
        return false;
      }
      var v := d.decode(buf[off..off + d.size]);
      var i := y * width + x;
      if !v.Ok? || !(0 <= i < data.Length) {
        return false;
      }
      data[i] := v.value;
      off := off + d.size;
      return true;
    }

    /** The inner loop over pixels xmin .. xmax - 1 of row y, as Row. */
    method PlaceRow(d: Decoding, width: int, y: int, xmin: int, xmax: int, ghost p: Placement) returns (ok: bool)
      requires p.d == d && p.width == width && p.buf == buf[..]
      modifies this`off, data
      ensures var r := Row(p, old(data[..]), old(off), y, xmin, xmax);
        ok == r.Ok? && (ok ==> data[..] == r.value.0 && off == r.value.1)
    {
      ghost var spec := Row(p, data[..], off, y, xmin, xmax);
      var x := xmin;
      while x < xmax
        invariant p.buf == buf[..]
        invariant spec == Row(p, data[..], off, y, x, xmax)
        decreases xmax - x
      {
        ok := PlacePixel(d, width, y, x, p);
        if !ok {
          return;
        }
        x := x + 1;
      }
      return true;
    }

    /** The nested pixel loops over the rectangle [xmin, xmax) x [ymin, ymax),
        as Rect: false where the source panics. */
    method Place(d: Decoding, xmin: int, xmax: int, ymin: int, ymax: int, width: int, blockWidth: int)
      returns (ok: bool)
      modifies this`off, data
      ensures var r := Rect(Placement(d, buf[..], width, blockWidth), old(data[..]), old(off), ymin, ymax, xmin, xmax);
        ok == r.Ok? && (ok ==> data[..] == r.value.0 && off == r.value.1)
    {
      ghost var p := Placement(d, buf[..], width, blockWidth);
      ghost var spec := Rect(p, data[..], off, ymin, ymax, xmin, xmax);
      var y := ymin;
      while y < ymax
        invariant p.buf == buf[..]
        invariant spec == Rect(p, data[..], off, y, ymax, xmin, xmax)
        decreases ymax - y
      {
        ok := PlaceRow(d, width, y, xmin, xmax, p);
        if !ok {
          return;
        }
        off := RowEnd(d, blockWidth, off, xmax);
        y := y + 1;
      }
      return true;
    }

    /** ToConver: the pixel loops with a 2-byte slice handed to `convert`. */
    method ToConver(ymin: int, ymax: int, xmin: int, xmax: int, width: int, convert: seq<byte> -> real)
      returns (ok: bool)
      modifies this`off, data
      ensures var r := Rect(Placement(DecodingOf(Converted(convert)), buf[..], width, 0), old(data[..]), old(off),
                            ymin, ymax, xmin, xmax);
        ok == r.Ok? && (ok ==> data[..] == r.value.0 && off == r.value.1)
    {
      ok := Place(DecodingOf(Converted(convert)), xmin, xmax, ymin, ymax, width, 0);
    }
  }
}
