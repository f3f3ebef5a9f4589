/** Open.go, readData: the block layout read from the directory, and the
    decode of every block: its bytes read and decompressed, the horizontal
    predictor reversed, and its pixels converted into the row-major Data
    array. */
module ReadData {
  import opened Errors
  import opened Binary
  import opened Consts
  import opened Attributes
  import opened ImageMeta
  import opened Predictor
  import opened GeoDataRead
  import opened Pixels

  // ---------------------------------------------------------------------------
  // The block layout

  /** What readData derives before its loops: the compression code, the image
      size, the block size, the number of blocks across and down, the block
      offset and byte-count tables, whether blocks are padded tiles, and the
      predictor. */
  datatype Layout = Layout(
    compression: nat,
    width: nat,
    height: nat,
    blockWidth: nat,
    blockHeight: nat,
    across: nat,
    down: nat,
    offsets: seq<nat>,
    counts: seq<nat>,
    padding: bool,
    predictor: nat)

  /** `atr.GeoAttributeValue.uint[0]` of an attribute looked up by tag, when
      the lookup succeeds: None when the tag is missing, a panic when the
      attribute has no values. */
  function FirstUint(attrs: seq<Attribute>, tag: nat): (r: Result<Option<nat>>)
    ensures !r.Fail?
    ensures r.Ok? && r.value.None? <==> Lookup(attrs, tag).None?
    ensures r.Ok? && r.value.Some? ==> UintsOf(attrs, tag) != [] && r.value.value == UintsOf(attrs, tag)[0]
    ensures Lookup(attrs, tag).Some? ==> (r.Panic? <==> UintsOf(attrs, tag) == [])
  {
    var a := Lookup(attrs, tag);
    if a.None? then Ok(None)
    else if |a.value.value.uints| == 0 then Panic(OutOfRange)
    else Ok(Some(a.value.value.uints[0]))
  }

  /** The value of an optional first uint, 0 when the tag is missing. */
  function OrZero(v: Option<nat>): nat {
    if v.Some? then v.value else 0
  }

  /** The set-up half of readData. A missing TileWidth is the zero attribute,
      whose uint slice is nil, so it panics like an empty one. A non-zero tile
      width makes a tiled layout: TileLength is required, the block counts are
      the ceilings width / TileWidth and height / TileLength, and the tables
      are TileOffsets and TileByteCounts. A zero tile width takes the strip
      branch as written: RowsPerStrip is indexed only when missing (a panic),
      a block is the whole image, and the tables stay nil. */
  function LayoutOf(attrs: seq<Attribute>, meta: Meta): Result<Layout> {
    var comp :- FirstUint(attrs, Compression);
    var width, height := meta.columns, meta.rows;
    var tw := UintsOf(attrs, TileWidth);
    if |tw| == 0 then Panic(OutOfRange)
    else if tw[0] != 0 then
      var bw := tw[0];
      var tl := Lookup(attrs, TileLength);
      if tl.None? then Raise([WithFunction("readData"), WithErrorText("can not found TileLength")])
      else if |tl.value.value.uints| == 0 then Panic(OutOfRange)
      else
        var bh := tl.value.value.uints[0];
        if bh == 0 then Panic(DivideByZero)
        else
          var pred :- FirstUint(attrs, Consts.Predictor);
          Ok(Layout(OrZero(comp), width, height, bw, bh, (width + bw - 1) / bw, (height + bh - 1) / bh,
                    UintsOf(attrs, TileOffsets), UintsOf(attrs, TileByteCounts), true, OrZero(pred)))
    else if Lookup(attrs, RowsPerStrip).None? then Panic(OutOfRange)
    else if height == 0 then Panic(DivideByZero)
    else
      var pred :- FirstUint(attrs, Consts.Predictor);
      Ok(Layout(OrZero(comp), width, height, width, height, 1, (height + height - 1) / height,
                [], [], false, OrZero(pred)))
  }

  /** The width of the blocks in column i: an unpadded last column is cut to
      width % blockWidth when that is not 0. */
  function BlockWidthAt(l: Layout, i: nat): Result<nat> {
    if !l.padding && i + 1 == l.across then
      if l.blockWidth == 0 then Panic(DivideByZero)
      else if l.width % l.blockWidth != 0 then Ok(l.width % l.blockWidth)
      else Ok(l.blockWidth)
    else Ok(l.blockWidth)
  }

  /** The height of the blocks in row j, likewise. */
  function BlockHeightAt(l: Layout, j: nat): Result<nat> {
    if !l.padding && j + 1 == l.down then
      if l.blockHeight == 0 then Panic(DivideByZero)
      else if l.height % l.blockHeight != 0 then Ok(l.height % l.blockHeight)
      else Ok(l.blockHeight)
    else Ok(l.blockHeight)
  }

  /** The pixel rectangle [xmin, xmax) x [ymin, ymax) of block (i, j): its
      origin at (i * blockWidth, j * blockHeight), clipped to the image by
      minInt. */
  datatype Rectangle = Rectangle(xmin: int, xmax: int, ymin: int, ymax: int)

  function BlockRect(l: Layout, i: nat, j: nat, blkW: nat, blkH: nat): Rectangle {
    var xmin := i * l.blockWidth;
    var ymin := j * l.blockHeight;
    Rectangle(xmin, MinInt(xmin + blkW, l.width), ymin, MinInt(ymin + blkH, l.height))
  }

  // ---------------------------------------------------------------------------
  // Sample kinds

  /** The switch on mode, SampleFormat and BitsPerSample[0] that selects the
      pixel loop: None for a mode none of the cases names. Reading
      BitsPerSample[0] of an empty list panics. */
  function SampleOf(meta: Meta, order: ByteOrder, ieee: Ieee): (r: Result<Option<Sample>>)
    ensures r.Ok? && r.value.Some? ==> ValidSample(r.value.value)
    ensures r.Ok? <==>
      match meta.mode
      case Gray | GrayInvert =>
        |meta.bitsPerSample| > 0 &&
        ((meta.sampleFormat in {1, 2} && meta.bitsPerSample[0] in {8, 16, 32, 64}) ||
         (meta.sampleFormat == 3 && meta.bitsPerSample[0] in {32, 64}))
      case RGB | NRGBA => |meta.bitsPerSample| > 0 && meta.bitsPerSample[0] in {8, 16}
      case RGBA => |meta.bitsPerSample| > 0
      case _ => true
    ensures r.Ok? ==> (r.value.None? <==> meta.mode == Unset)
  {
    var bits := meta.bitsPerSample;
    var dataFormat := Raise([WithFunction("readData"), WithErrorText("Unsupported data format")]);
    match meta.mode
    case Gray | GrayInvert =>
      if meta.sampleFormat !in {1, 2, 3} then
        Raise([WithFunction("readData"), WithErrorText("Unsupported sample format")])
      else if |bits| == 0 then Panic(OutOfRange)
      else if meta.sampleFormat == 3 then
        if bits[0] == 32 then Ok(Some(Float32(order, ieee.single)))
        else if bits[0] == 64 then Ok(Some(Float64(order, ieee.double)))
        else dataFormat
      else if bits[0] in {8, 16, 32, 64} then
        var n := bits[0] / 8;
        if meta.sampleFormat == 1 then Ok(Some(Unsigned(n, order))) else Ok(Some(Signed(n, order)))
      else dataFormat
    case Paletted => Ok(Some(PaletteIndex(meta.palette)))
    case RGB =>
      if |bits| == 0 then Panic(OutOfRange)
      else if bits[0] == 8 then Ok(Some(Rgb8))
      else if bits[0] == 16 then Ok(Some(Rgb16(order)))
      else dataFormat
    case NRGBA =>
      if |bits| == 0 then Panic(OutOfRange)
      else if bits[0] == 8 then Ok(Some(Rgba8))
      else if bits[0] == 16 then Ok(Some(Rgba16(order)))
      else dataFormat
    case RGBA =>
      if |bits| == 0 then Panic(OutOfRange)
      else if bits[0] == 16 then Ok(Some(Rgba16(order)))
      else Ok(Some(Rgba8))
    case Unset => Ok(None)
  }

  /** The integer gray loops read BitsPerSample[0] / 8 bytes per pixel, as an
      unsigned word for SampleFormat 1 and a two's-complement one for 2; the
      float loops are the only guarded ones. */
  lemma SampleWidths(meta: Meta, order: ByteOrder, ieee: Ieee)
    requires SampleOf(meta, order, ieee).Ok? && SampleOf(meta, order, ieee).value.Some?
    ensures var k := SampleOf(meta, order, ieee).value.value;
      (meta.mode in {Gray, GrayInvert} && meta.sampleFormat in {1, 2} ==>
         Width(k) * 8 == meta.bitsPerSample[0] && (k.Unsigned? <==> meta.sampleFormat == 1)) &&
      (Guarded(k) <==> meta.mode in {Gray, GrayInvert} && meta.sampleFormat == 3) &&
      (meta.mode == Paletted ==> k == PaletteIndex(meta.palette))
  {
  }

  // ---------------------------------------------------------------------------
  // The block loops

  /** Everything the block loops read besides Data: the file, the external
      decompressors, the named constants, the byte order, the IEEE
      reinterpretations, the image description and the layout. */
  datatype Reader = Reader(file: seq<byte>, codecs: Codecs, ext: Externals, order: ByteOrder, ieee: Ieee,
                           meta: Meta, layout: Layout)

  /** One block: its table entry j * across + i (a panic past either table),
      its bytes read and decompressed, the predictor reversed over its clipped
      rectangle, and its pixels placed from offset 0. A read error is wrapped
      as readData's; a mode without a case places nothing. */
  function Block(rd: Reader, data: seq<real>, i: nat, j: nat, blkW: nat): (r: Result<seq<real>>)
    ensures r.Ok? ==> |r.value| == |data|
  {
    var l := rd.layout;
    var blkH :- BlockHeightAt(l, j);
    var k := j * l.across + i;
    if k >= |l.offsets| || k >= |l.counts| then Panic(OutOfRange)
    else
      var b := BlockRect(l, i, j, blkW, blkH);
      var raw :- Decompress(rd.file, rd.codecs, rd.ext, l.compression, l.offsets[k], l.counts[k])
                   .Wrap([WithFunction("readData")], []);
      AfterDecompress(rd, data, b, raw)
  }

  /** A block after decompression: the predictor reversed over its clipped
      rectangle, where a row that does not fit panics, then its pixels
      placed. */
  function AfterDecompress(rd: Reader, data: seq<real>, b: Rectangle, raw: seq<byte>): (r: Result<seq<real>>)
    ensures r.Ok? ==> |r.value| == |data|
  {
    var buf := Undiff(raw, rd.order, rd.layout.predictor, rd.ext.prHorizontal, rd.meta.bitsPerSample,
                      b.xmax - b.xmin, b.ymax - b.ymin);
    if buf.None? then Panic(OutOfRange)
    else PlaceBlock(rd, data, b, buf.value)
  }

  /** The last step of a block: its undiffed bytes decoded by the mode's case
      and placed over the rectangle b, or nothing placed for a mode without a
      case. */
  function PlaceBlock(rd: Reader, data: seq<real>, b: Rectangle, buf: seq<byte>): (r: Result<seq<real>>)
    ensures r.Ok? ==> |r.value| == |data|
  {
    var sample :- SampleOf(rd.meta, rd.order, rd.ieee);
    if sample.None? then Ok(data)
    else
      var placed :- Rect(Placement(DecodingOf(sample.value), buf, rd.layout.width, rd.layout.blockWidth),
                         data, 0, b.ymin, b.ymax, b.xmin, b.xmax);
      Ok(placed.0)
  }

  /** The inner loop: blocks j .. down - 1 of column i. */
  function Column(rd: Reader, data: seq<real>, i: nat, j: nat, blkW: nat): (r: Result<seq<real>>)
    ensures r.Ok? ==> |r.value| == |data|
    decreases rd.layout.down - j
  {
    if j >= rd.layout.down then Ok(data)
    else
      var d :- Block(rd, data, i, j, blkW);
      Column(rd, d, i, j + 1, blkW)
  }

  /** The outer loop: columns i .. across - 1. */
  function Across(rd: Reader, data: seq<real>, i: nat): (r: Result<seq<real>>)
    ensures r.Ok? ==> |r.value| == |data|
    decreases rd.layout.across - i
  {
    if i >= rd.layout.across then Ok(data)
    else
      var blkW :- BlockWidthAt(rd.layout, i);
      var d :- Column(rd, data, i, 0, blkW);
      Across(rd, d, i + 1)
  }

  /** The rest of the outer loop once column i has produced `r`. */
  function ColumnThen(rd: Reader, r: Result<seq<real>>, i: nat): Result<seq<real>> {
    if r.Ok? then Across(rd, r.value, i + 1) else r
  }

  /** readData: the layout, then every block into a zeroed Data of
      width * height values. */
  function ReadDataSpec(file: seq<byte>, codecs: Codecs, ext: Externals, order: ByteOrder, ieee: Ieee,
                        attrs: seq<Attribute>, meta: Meta): (r: Result<seq<real>>)
    ensures r.Ok? ==> |r.value| == meta.columns * meta.rows
  {
    var l :- LayoutOf(attrs, meta);
    Across(Reader(file, codecs, ext, order, ieee, meta, l), seq(meta.columns * meta.rows, _ => 0.0), 0)
  }

  // ---------------------------------------------------------------------------
  // Properties

  /** A tiled layout: positive tile sizes and block counts that are the
      ceilings of the image size over them, so the blocks cover the image and
      the last ones start inside it. */
  predicate Tiled(l: Layout) {
    l.padding && l.blockWidth > 0 && l.blockHeight > 0 &&
    l.width <= l.across * l.blockWidth < l.width + l.blockWidth &&
    l.height <= l.down * l.blockHeight < l.height + l.blockHeight
  }

  /** What a tiled LayoutOf computes, before any arithmetic about it. */
  lemma TiledFields(attrs: seq<Attribute>, meta: Meta)
    requires LayoutOf(attrs, meta).Ok?
    ensures var l := LayoutOf(attrs, meta).value;
      l.width == meta.columns && l.height == meta.rows &&
      (l.padding <==> UintsOf(attrs, TileWidth)[0] != 0)
    ensures var l := LayoutOf(attrs, meta).value;
      l.padding ==>
        l.blockWidth == UintsOf(attrs, TileWidth)[0] > 0 && l.blockHeight == UintsOf(attrs, TileLength)[0] > 0 &&
        l.across == (l.width + l.blockWidth - 1) / l.blockWidth &&
        l.down == (l.height + l.blockHeight - 1) / l.blockHeight &&
        l.offsets == UintsOf(attrs, TileOffsets) && l.counts == UintsOf(attrs, TileByteCounts)
  {
  }

  /** A layout keeps the image size; a non-zero TileWidth gives a tiled
      layout whose tile sizes and tables are the directory's. */
  lemma TiledGeometry(attrs: seq<Attribute>, meta: Meta)
    requires LayoutOf(attrs, meta).Ok?
    ensures var l := LayoutOf(attrs, meta).value;
      l.width == meta.columns && l.height == meta.rows &&
      (l.padding <==> UintsOf(attrs, TileWidth)[0] != 0)
    ensures var l := LayoutOf(attrs, meta).value;
      l.padding ==>
        Tiled(l) &&
        l.blockWidth == UintsOf(attrs, TileWidth)[0] && l.blockHeight == UintsOf(attrs, TileLength)[0] &&
        l.offsets == UintsOf(attrs, TileOffsets) && l.counts == UintsOf(attrs, TileByteCounts)
  {
    TiledFields(attrs, meta);
    var l := LayoutOf(attrs, meta).value;
    if l.padding {
      CeilDiv(l.width, l.blockWidth, l.across);
      CeilDiv(l.height, l.blockHeight, l.down);
    }
  }

  /** (n + d - 1) / d is the least multiple count covering n. */
  lemma CeilDiv(n: nat, d: nat, q: nat)
    requires d > 0 && q == (n + d - 1) / d
    ensures n <= q * d < n + d
  {
    var r := (n + d - 1) % d;
    assert n + d - 1 == q * d + r;
  }

  /** What a strip LayoutOf computes: one column of whole-image blocks, and
      no offset table. */
  lemma StripFields(attrs: seq<Attribute>, meta: Meta)
    requires UintsOf(attrs, TileWidth) == [] || UintsOf(attrs, TileWidth)[0] == 0
    requires LayoutOf(attrs, meta).Ok?
    ensures var l := LayoutOf(attrs, meta).value;
      !l.padding && l.offsets == [] && l.across == 1 && l.height > 0 &&
      l.blockHeight == l.height && l.down == (l.height + l.height - 1) / l.height
  {
  }

  /** (h + h - 1) / h is 1. */
  lemma OneStrip(h: nat, q: nat)
    requires h > 0 && q == (h + h - 1) / h
    ensures q == 1
  {
    assert h + h - 1 == 1 * h + (h - 1);
  }

  /** The strip branch cannot complete: with a zero or absent tile width,
      readData always panics, on the missing RowsPerStrip, a zero height or
      width, or the nil offset table. */
  lemma StripAlwaysPanics(file: seq<byte>, codecs: Codecs, ext: Externals, order: ByteOrder, ieee: Ieee,
                          attrs: seq<Attribute>, meta: Meta)
    requires UintsOf(attrs, TileWidth) == [] || UintsOf(attrs, TileWidth)[0] == 0
    ensures ReadDataSpec(file, codecs, ext, order, ieee, attrs, meta).Panic?
  {
    var lr := LayoutOf(attrs, meta);
    if lr.Ok? {
      var l := lr.value;
      StripFields(attrs, meta);
      OneStrip(l.height, l.down);
      var rd := Reader(file, codecs, ext, order, ieee, meta, l);
      var data := seq(meta.columns * meta.rows, _ => 0.0);
      assert ReadDataSpec(file, codecs, ext, order, ieee, attrs, meta) == Across(rd, data, 0);
      var w := BlockWidthAt(l, 0);
      if w.Ok? {
        assert BlockHeightAt(l, 0).Ok?;
        assert Block(rd, data, 0, 0, w.value).Panic?;
        assert Column(rd, data, 0, 0, w.value).Panic?;
      }
    }
  }

  /** A completed readData had a tiled layout with a TileLength. */
  lemma ReadDataTiled(file: seq<byte>, codecs: Codecs, ext: Externals, order: ByteOrder, ieee: Ieee,
                      attrs: seq<Attribute>, meta: Meta)
    requires ReadDataSpec(file, codecs, ext, order, ieee, attrs, meta).Ok?
    ensures UintsOf(attrs, TileWidth) != [] && UintsOf(attrs, TileWidth)[0] != 0
    ensures Lookup(attrs, TileLength).Some?
  {
    if UintsOf(attrs, TileWidth) == [] || UintsOf(attrs, TileWidth)[0] == 0 {
      StripAlwaysPanics(file, codecs, ext, order, ieee, attrs, meta);
    }
  }

  /** In a tiled layout, the blocks of the loops are full tiles: no block
      width or height is cut. */
  lemma TiledBlockSizes(l: Layout, i: nat, j: nat)
    requires l.padding
    ensures BlockWidthAt(l, i) == Ok(l.blockWidth) && BlockHeightAt(l, j) == Ok(l.blockHeight)
  {
  }

  /** In a tiled layout, block (i, j) of the loops has a non-empty rectangle
      inside the image. */
  lemma BlockInImage(l: Layout, i: nat, j: nat)
    requires Tiled(l) && i < l.across && j < l.down
    ensures var b := BlockRect(l, i, j, l.blockWidth, l.blockHeight);
      0 <= b.xmin < b.xmax <= l.width && 0 <= b.ymin < b.ymax <= l.height
  {
    StartsInside(i, l.across, l.blockWidth, l.width);
    StartsInside(j, l.down, l.blockHeight, l.height);
  }

  /** Every index y * width + x that block (i, j) of a tiled layout writes is
      below width * height. */
  lemma BlockIndexInImage(l: Layout, i: nat, j: nat, x: int, y: int)
    requires Tiled(l) && i < l.across && j < l.down
    requires var b := BlockRect(l, i, j, l.blockWidth, l.blockHeight);
      b.xmin <= x < b.xmax && b.ymin <= y < b.ymax
    ensures 0 <= Index(l.width, y, x) < l.width * l.height
  {
    BlockInImage(l, i, j);
    IndexInBounds(l.width, l.height, y, x);
  }

  /** a <= b scales to a * c <= b * c. */
  lemma MulMono(a: nat, b: nat, c: nat)
    requires a <= b
    ensures a * c <= b * c
  {
    assert b * c == a * c + (b - a) * c;
  }

  /** Block (i, j) of the loops uses table entry j * across + i, which is
      below across * down, and distinct blocks use distinct entries. */
  lemma BlockEntry(across: nat, down: nat, i: nat, j: nat, i': nat, j': nat)
    requires i < across && j < down && i' < across && j' < down
    ensures j * across + i < across * down
    ensures j * across + i == j' * across + i' ==> i == i' && j == j'
  {
    assert (j + 1) * across == j * across + across;
    MulMono(j + 1, down, across);
    assert down * across == across * down;
    if j < j' {
      MulMono(j + 1, j', across);
    } else if j' < j {
      assert (j' + 1) * across == j' * across + across;
      MulMono(j' + 1, j, across);
    }
  }

  /** Block k of n, each of size s, starts inside an extent w when
      (n - 1) * s < w. */
  lemma StartsInside(k: nat, n: nat, s: nat, w: nat)
    requires k < n && n * s < w + s
    ensures k * s < w
  {
    assert k * s <= (n - 1) * s by {
      assert (n - 1 - k) * s >= 0;
    }
    assert (n - 1) * s + s == n * s;
  }
}
