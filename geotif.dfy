/** GeoTif.go's GeoTif record and Open.go's open and OpenGeoTif: the reader
    fills the record's fields one stage after another (byte order, directory,
    GeoKeys, Meta, Data), each stage reading what the earlier ones stored. The
    file is given as its bytes. */
module GeoTiff {
  import opened Errors
  import opened Binary
  import opened Consts
  import opened Attributes
  import opened Header
  import GeoKeys
  import opened ImageMeta
  import opened Predictor
  import opened GeoDataRead
  import opened Pixels
  import opened ReadData

  // ---------------------------------------------------------------------------
  // What open computes

  /** The fields of a GeoTif after open: the byte order, the header offset,
      the directory, the GeoKeys, the Meta and the pixel values. */
  datatype Image = Image(order: ByteOrder, offset: nat, attribute: seq<Attribute>, geoKeys: seq<Attribute>,
                         meta: Meta, data: seq<real>)

  /** open, on a record whose directory and GeoKeys start as attrs0 and keys0
      (nil for a new record): the byte order, then the later stages; the
      first error is wrapped by the package creator, with WithFunction("open")
      after the byte order. */
  function OpenSpec(file: seq<byte>, codecs: Codecs, ext: Externals, ieee: Ieee,
                    attrs0: seq<Attribute>, keys0: seq<Attribute>): Result<Image>
  {
    var order :- ByteOrderOf(file).Wrap([], []);
    AfterOrder(file, codecs, ext, ieee, order, attrs0, keys0)
  }

  /** open after the byte order: the header offset and directory; an offset
      of 0 keeps attrs0. */
  function AfterOrder(file: seq<byte>, codecs: Codecs, ext: Externals, ieee: Ieee, order: ByteOrder,
                         attrs0: seq<Attribute>, keys0: seq<Attribute>): Result<Image>
  {
    var dir :- ReadDirectory(file, order).Wrap([WithFunction("open")], []);
    AfterDirectory(file, codecs, ext, ieee, order, dir.offset, if dir.offset == 0 then attrs0 else dir.entries, keys0)
  }

  /** open after the directory: the GeoKeys; a key count of 0 keeps keys0. */
  function AfterDirectory(file: seq<byte>, codecs: Codecs, ext: Externals, ieee: Ieee, order: ByteOrder,
                    offset: nat, attrs: seq<Attribute>, keys0: seq<Attribute>): Result<Image>
  {
    var keys :- GeoKeys.ParseGeoKeys(attrs, ext, order).Wrap([WithFunction("open")], []);
    AfterKeys(file, codecs, ext, ieee, order, offset, attrs, if keys.Some? then keys.value else keys0)
  }

  /** open after the GeoKeys: the Meta, then the pixel values. */
  function AfterKeys(file: seq<byte>, codecs: Codecs, ext: Externals, ieee: Ieee, order: ByteOrder,
                    offset: nat, attrs: seq<Attribute>, keys: seq<Attribute>): Result<Image>
  {
    var meta :- ImageMeta.InitMeta(attrs, ext).Wrap([WithFunction("open")], []);
    var data :- ReadDataSpec(file, codecs, ext, order, ieee, attrs, meta).Wrap([WithFunction("open")], []);
    Ok(Image(order, offset, attrs, keys, meta, data))
  }

  /** OpenGeoTif: open on a new record; its error wrapped once more by a
      creator named "OpenGeoTif". */
  function OpenGeoTifSpec(file: seq<byte>, codecs: Codecs, ext: Externals, ieee: Ieee): Result<Image> {
    var r := OpenSpec(file, codecs, ext, ieee, [], []);
    if r.Fail? then Fail(Geo(Create("OpenGeoTif", [WithError(Some(r.error))]))) else r
  }

  // ---------------------------------------------------------------------------
  // What a successful open implies

  /** A successful open ran every stage: the image holds the byte order, the
      directory (or attrs0 at header offset 0), the parsed GeoKeys (or keys0
      at a key count of 0), the Meta and the pixel values each stage computes
      from the ones before. */
  lemma OpenStages(file: seq<byte>, codecs: Codecs, ext: Externals, ieee: Ieee,
                   attrs0: seq<Attribute>, keys0: seq<Attribute>)
    ensures var s := OpenSpec(file, codecs, ext, ieee, attrs0, keys0);
      s.Ok? ==>
        var img := s.value;
        ByteOrderOf(file) == Ok(img.order) && ReadDirectory(file, img.order).Ok? &&
        img.offset == ReadDirectory(file, img.order).value.offset &&
        img.attribute == (if img.offset == 0 then attrs0 else ReadDirectory(file, img.order).value.entries) &&
        GeoKeys.ParseGeoKeys(img.attribute, ext, img.order).Ok? &&
        img.geoKeys == (match GeoKeys.ParseGeoKeys(img.attribute, ext, img.order).value
                        case Some(keys) => keys
                        case None => keys0) &&
        ImageMeta.InitMeta(img.attribute, ext) == Ok(img.meta) &&
        ReadDataSpec(file, codecs, ext, img.order, ieee, img.attribute, img.meta) == Ok(img.data)
  {
    if OpenSpec(file, codecs, ext, ieee, attrs0, keys0).Ok? {
      var order := ByteOrderOf(file).value;
      DirectoryStage(file, codecs, ext, ieee, order, attrs0, keys0);
      var dir := ReadDirectory(file, order).value;
      var attrs := if dir.offset == 0 then attrs0 else dir.entries;
      KeysStage(file, codecs, ext, ieee, order, dir.offset, attrs, keys0);
      var keys := GeoKeys.ParseGeoKeys(attrs, ext, order).value;
      MetaStage(file, codecs, ext, ieee, order, dir.offset, attrs, if keys.Some? then keys.value else keys0);
    }
  }

  /** The directory stage of a successful open. */
  lemma DirectoryStage(file: seq<byte>, codecs: Codecs, ext: Externals, ieee: Ieee, order: ByteOrder,
                       attrs0: seq<Attribute>, keys0: seq<Attribute>)
    requires AfterOrder(file, codecs, ext, ieee, order, attrs0, keys0).Ok?
    ensures ReadDirectory(file, order).Ok?
    ensures var dir := ReadDirectory(file, order).value;
      AfterOrder(file, codecs, ext, ieee, order, attrs0, keys0) ==
      AfterDirectory(file, codecs, ext, ieee, order, dir.offset, if dir.offset == 0 then attrs0 else dir.entries, keys0)
  {
  }

  /** The GeoKeys stage of a successful open. */
  lemma KeysStage(file: seq<byte>, codecs: Codecs, ext: Externals, ieee: Ieee, order: ByteOrder,
                  offset: nat, attrs: seq<Attribute>, keys0: seq<Attribute>)
    requires AfterDirectory(file, codecs, ext, ieee, order, offset, attrs, keys0).Ok?
    ensures GeoKeys.ParseGeoKeys(attrs, ext, order).Ok?
    ensures var keys := GeoKeys.ParseGeoKeys(attrs, ext, order).value;
      AfterDirectory(file, codecs, ext, ieee, order, offset, attrs, keys0) ==
      AfterKeys(file, codecs, ext, ieee, order, offset, attrs, if keys.Some? then keys.value else keys0)
  {
  }

  /** The Meta and pixel stages of a successful open. */
  lemma MetaStage(file: seq<byte>, codecs: Codecs, ext: Externals, ieee: Ieee, order: ByteOrder,
                  offset: nat, attrs: seq<Attribute>, keys: seq<Attribute>)
    requires AfterKeys(file, codecs, ext, ieee, order, offset, attrs, keys).Ok?
    ensures var img := AfterKeys(file, codecs, ext, ieee, order, offset, attrs, keys).value;
      img.order == order && img.offset == offset && img.attribute == attrs && img.geoKeys == keys &&
      ImageMeta.InitMeta(attrs, ext) == Ok(img.meta) &&
      ReadDataSpec(file, codecs, ext, order, ieee, attrs, img.meta) == Ok(img.data)
  {
  }

  /** An image that opens starts with one of the two headers, has its
      directory at the u32 at offset 4, is tiled (a non-zero TileWidth), has
      a pixel mode, and holds width * height pixel values. */
  lemma OpenImage(file: seq<byte>, codecs: Codecs, ext: Externals, ieee: Ieee,
                  attrs0: seq<Attribute>, keys0: seq<Attribute>)
    ensures var s := OpenSpec(file, codecs, ext, ieee, attrs0, keys0);
      s.Ok? ==>
        var img := s.value;
        |file| >= 8 && (file[..4] == LittleHeader || file[..4] == BigHeader) &&
        (img.order == LittleEndian <==> file[..4] == LittleHeader) &&
        img.offset == Uint32(img.order, file[4..8]) &&
        UintsOf(img.attribute, TileWidth) != [] && UintsOf(img.attribute, TileWidth)[0] != 0 &&
        img.meta.mode != Unset &&
        |img.data| == img.meta.columns * img.meta.rows
  {
    var s := OpenSpec(file, codecs, ext, ieee, attrs0, keys0);
    if s.Ok? {
      var img := s.value;
      OpenStages(file, codecs, ext, ieee, attrs0, keys0);
      DirectoryLayout(file, img.order);
      ReadDataTiled(file, codecs, ext, img.order, ieee, img.attribute, img.meta);
      InitMetaOptional(img.attribute, ext);
      ModeOfCases(img.attribute, ext, img.meta.photometric, img.meta.bitsPerSample, NodataError(img.attribute, ext));
    }
  }

  /** A new record whose header offset is 0 has no directory, hence no GeoKey
      directory: OpenGeoTif fails. */
  lemma NoDirectoryFails(file: seq<byte>, codecs: Codecs, ext: Externals, ieee: Ieee)
    requires ByteOrderOf(file).Ok? && ReadDirectory(file, ByteOrderOf(file).value) == Ok(Directory(0, []))
    ensures OpenGeoTifSpec(file, codecs, ext, ieee).Fail?
  {
    GeoKeys.ParseGeoKeysLayout([], ext, ByteOrderOf(file).value);
  }

  /** OpenGeoTif reports an error of open as a GeoError named "OpenGeoTif"
      wrapping it, with an empty message; a panic passes through. */
  lemma OpenGeoTifErrors(file: seq<byte>, codecs: Codecs, ext: Externals, ieee: Ieee)
    ensures var s := OpenSpec(file, codecs, ext, ieee, [], []);
      s.Fail? ==> OpenGeoTifSpec(file, codecs, ext, ieee) == Fail(Geo(GeoError(Some(s.error), "OpenGeoTif", "")))
    ensures OpenGeoTifSpec(file, codecs, ext, ieee).Panic? <==> OpenSpec(file, codecs, ext, ieee, [], []).Panic?
    ensures OpenGeoTifSpec(file, codecs, ext, ieee).Ok? ==>
      OpenGeoTifSpec(file, codecs, ext, ieee) == OpenSpec(file, codecs, ext, ieee, [], [])
  {
    var s := OpenSpec(file, codecs, ext, ieee, [], []);
    if s.Fail? {
      assert ApplyAll(GeoError(None, "OpenGeoTif", ""), [WithError(Some(s.error))]) ==
             ApplyAll(GeoError(Some(s.error), "OpenGeoTif", ""), []);
    }
  }

  // ---------------------------------------------------------------------------
  // The record

  /** The zero Meta of a new record. */
  const NoMeta: Meta := Meta(0, 0, 0, 0, 0, [], false, 0, [], [], Unset)

  class GeoTif {
    const file: seq<byte>
    var order: ByteOrder
    var offset: nat
    var attribute: seq<Attribute>
    var geoKeys: seq<Attribute>
    var meta: Meta
    var data: GeoData

    /** GeoTif{FilePath, GeoTifHeader{}}: every field at its zero value. The
        byte order, a nil interface until checkBigOrLittle sets it, starts as
        little-endian; no stage reads it before. */
    constructor (file: seq<byte>)
      ensures this.file == file && order == LittleEndian && offset == 0
      ensures attribute == [] && geoKeys == [] && meta == NoMeta
      ensures fresh(data) && data.data.Length == 0
    {
      this.file := file;
      order := LittleEndian;
      offset := 0;
      attribute := [];
      geoKeys := [];
      meta := NoMeta;
      data := new GeoData(0);
    }

    /** checkBigOrLittle: the first four bytes select the byte order. */
    method CheckBigOrLittle() returns (r: Result<()>)
      modifies this`order
      ensures var s := ByteOrderOf(file);
        (s.Ok? ==> r == Ok(()) && order == s.value) &&
        (!s.Ok? ==> r == s.PropagateFailure() && order == old(order))
    {
      var head := ReadFile(file, 0, 4);
      if !head.Ok? {
        return head.Wrap([], []).PropagateFailure();
      }
      var magic := Uint32(BigEndian, Visible(head.value));
      if magic == LittleEndianMagic {
        order := LittleEndian;
      } else if magic == BigEndianMagic {
        order := BigEndian;
      } else {
        return Raise([WithFunction("checkBigOrLittle"),
                      WithError(Some(Text("undefined byte order [ " + LowerHex(magic) + "]")))]);
      }
      return Ok(());
    }

    /** readAttribute: the header offset, then, when it is not 0, a directory
        of as many zero attributes as the count says, filled entry by entry
        (Entry). */
    method ReadAttribute() returns (r: Result<()>)
      modifies this`offset, this`attribute
      ensures var s := ReadDirectory(file, order);
        (s.Ok? ==> r == Ok(()) && offset == s.value.offset &&
                   attribute == if s.value.offset == 0 then old(attribute) else s.value.entries) &&
        (!s.Ok? ==> r == s.PropagateFailure())
    {
      var head := ReadFile(file, 4, 4).Wrap([WithFunction("readAttribute")], []);
      if !head.Ok? {
        return head.PropagateFailure();
      }
      offset := Uint32(order, Visible(head.value));
      if offset == 0 {
        assert ReadDirectory(file, order) == Ok(Directory(0, []));
        return Ok(());
      }
      var t := TableAt(file, order, offset);
      if !t.Ok? {
        return t.PropagateFailure();
      }
      var (table, num) := t.value;
      var entries := new Attribute[num](_ => ZeroAttribute);
      r := CollectInto(entries, EntryStep(file, order, table));
      attribute := entries[..];
    }

    /** parseGeoKeys: with a non-zero key count, GeoKeys becomes that many zero
        attributes filled key by key; a count of 0 leaves it as it was. */
    method ParseGeoKeys(ext: Externals) returns (r: Result<()>)
      modifies this`geoKeys
      ensures var s := GeoKeys.ParseGeoKeys(attribute, ext, order);
        (s.Ok? ==> r == Ok(()) &&
                   geoKeys == if s.value.Some? then s.value.value else old(geoKeys)) &&
        (!s.Ok? ==> r == s.PropagateFailure())
    {
      var dir := GetAttributeByTag(attribute, ext.geoKeyDirectoryTag);
      if dir.Fail? {
        return Raise([WithFunction("parseGeoKeys"), WithError(Some(dir.error))]);
      }
      var v := dir.value.value.shorts;
      if |v| < 4 {
        return Panic(OutOfRange);
      }
      var num := v[3];
      if num == 0 {
        return Ok(());
      }
      var keys := new Attribute[num](_ => ZeroAttribute);
      r := CollectInto(keys, GeoKeys.KeyStep(attribute, ext, order, v));
      geoKeys := keys[..];
    }

    /** initMeta: the Meta of the directory's values, then the mode. */
    method InitMeta(ext: Externals) returns (r: Result<()>)
      modifies this`meta
      ensures var s := ImageMeta.InitMeta(attribute, ext);
        (s.Ok? ==> r == Ok(()) && meta == s.value) &&
        (!s.Ok? ==> r == s.PropagateFailure())
    {
      r := InitFields(ext);
      if !r.Ok? {
        return;
      }
      r := SetMode(ext);
    }

    /** initMeta up to its switch: the Meta literal of the required values,
        then BitsPerSample, the raster type, the EPSG code and the nodata
        text. */
    method InitFields(ext: Externals) returns (r: Result<()>)
      modifies this`meta
      ensures var s := MetaFields(attribute, ext);
        (s.Ok? ==> r == Ok(()) && meta == s.value) &&
        (!s.Ok? ==> r == s.PropagateFailure())
    {
      var req := Required(attribute);
      if !req.Ok? {
        return req.PropagateFailure();
      }
      var v := req.value;
      meta := Meta(v[0], v[1], v[2], v[3], v[4], [], false, 0, [], [], Unset);
      meta := meta.(bitsPerSample := UintsOf(attribute, BitsPerSample));
      var area := PixelIsArea(attribute, ext);
      if !area.Ok? {
        return area.PropagateFailure();
      }
      meta := meta.(pixelIsArea := area.value);
      var epsg := Epsg(attribute, ext);
      if !epsg.Ok? {
        return epsg.PropagateFailure();
      }
      meta := meta.(epsg := epsg.value);
      var nodata := GetAttributeByTag(attribute, ext.gdalNodata);
      if nodata.Ok? {
        meta := meta.(nodata := nodata.value.value.ascii);
      }
      return Ok(());
    }

    /** initMeta's switch on PhotometricInterp: the mode and, for a paletted
        image, the palette built from the colour map. */
    method SetMode(ext: Externals) returns (r: Result<()>)
      requires meta.mode == Unset && meta.palette == []
      modifies this`meta
      ensures var s := ModeOf(attribute, ext, old(meta.photometric), old(meta.bitsPerSample),
                              NodataError(attribute, ext));
        (s.Ok? ==> r == Ok(()) && meta == old(meta).(mode := s.value.0, palette := s.value.1)) &&
        (!s.Ok? ==> r == s.PropagateFailure())
    {
      var bits := meta.bitsPerSample;
      if meta.photometric == ext.piRGB {
        var first := CheckAllIsFirst(bits);
        if !first.Ok? {
          return Panic(OutOfRange);
        }
        if !first.value.1 {
          return Raise([WithFunction("initMeta"), WithError(NodataError(attribute, ext))]);
        }
        if |bits| == 3 {
          meta := meta.(mode := RGB);
        } else if |bits| == 4 {
          var extra := GetAttributeByTag(attribute, ExtraSamples);
          if extra.Fail? {
            return Raise([WithFunction("initMeta"), WithErrorText("wrong number of samples for RGB")]);
          }
          var es := extra.value.value.uints;
          if es == [] {
            return Panic(OutOfRange);
          }
          if es[0] == 1 {
            meta := meta.(mode := RGBA);
          } else if es[0] == 2 {
            meta := meta.(mode := NRGBA);
          } else {
            return Raise([WithFunction("initMeta"), WithErrorText("wrong number of samples for RGB")]);
          }
        } else {
          return Raise([WithFunction("initMeta"),
                        WithErrorText("wrong number of samples for RGB,require 3 or 4,but get " + Decimal(|bits|))]);
        }
      } else if meta.photometric == ext.piPaletted {
        meta := meta.(mode := Paletted);
        var cm := GetAttributeByTag(attribute, ColorMap);
        if cm.Fail? {
          return Raise([WithFunction("initMeta"), WithErrorText("could not found the colormap")]);
        }
        var vals := cm.value.value.uints;
        var n := |vals| / 3;
        if n <= 0 || n >= 256 || |vals| % 3 != 0 {
          return Raise([WithFunction("initMeta"),
                        WithErrorText("require 0 < numColors < 256, but is " + Decimal(n) +
                                      " and len(colors)%3 should be 0, but " + Decimal(|vals| % 3))]);
        }
        var palette := BuildPalette(vals, n);
        assert palette[..] == Palette(vals, n);
        meta := meta.(palette := palette[..]);
      } else if meta.photometric == ext.piWhiteIsZero {
        meta := meta.(mode := GrayInvert);
      } else if meta.photometric == ext.piBlackIsZero {
        meta := meta.(mode := Gray);
      } else {
        return Raise([WithFunction("initMeta"), WithErrorText("unkonw image format:[" + Decimal(meta.photometric) + "]")]);
      }
      return Ok(());
    }

    /** readData: the block layout, then every block into a new GeoData of
        width * height zeros, which becomes the record's Data only when every
        block succeeded. */
    method ReadData(codecs: Codecs, ext: Externals, ieee: Ieee) returns (r: Result<()>)
      modifies this`data
      ensures var s := ReadDataSpec(file, codecs, ext, order, ieee, attribute, meta);
        (s.Ok? ==> r == Ok(()) && fresh(data) && data.data[..] == s.value) &&
        (!s.Ok? ==> r == s.PropagateFailure() && data == old(data))
    {
      var layout := LayoutOf(attribute, meta);
      if !layout.Ok? {
        return layout.PropagateFailure();
      }
      var gData;
      r, gData := ReadBlocksInto(Reader(file, codecs, ext, order, ieee, meta, layout.value));
      if r.Ok? {
        data := gData;
      }
    }

    /** readData's blocks read into a fresh record of width * height zeros. */
    method ReadBlocksInto(rd: Reader) returns (r: Result<()>, gData: GeoData)
      ensures fresh(gData)
      ensures var s := Across(rd, seq(meta.columns * meta.rows, _ => 0.0), 0);
        (s.Ok? ==> r == Ok(()) && gData.data[..] == s.value) &&
        (!s.Ok? ==> r == s.PropagateFailure())
    {
      gData := new GeoData(meta.columns * meta.rows);
      assert gData.data[..] == seq(meta.columns * meta.rows, _ => 0.0);
      r := ReadBlocks(gData, rd);
    }

    /** open: the stages in order, each error wrapped as open wraps it. */
    method Open(codecs: Codecs, ext: Externals, ieee: Ieee) returns (r: Result<()>)
      modifies this`order, this`offset, this`attribute, this`geoKeys, this`meta, this`data
      ensures var s := OpenSpec(file, codecs, ext, ieee, old(attribute), old(geoKeys));
        (s.Ok? ==> r == Ok(()) && fresh(data) && Holds(s.value)) &&
        (!s.Ok? ==> r == s.PropagateFailure())
    {
      r := CheckBigOrLittle();
      if !r.Ok? {
        return r.Wrap([], []);
      }
      r := OpenDirectory(codecs, ext, ieee);
    }

    /** open after the byte order. */
    method OpenDirectory(codecs: Codecs, ext: Externals, ieee: Ieee) returns (r: Result<()>)
      modifies this`offset, this`attribute, this`geoKeys, this`meta, this`data
      ensures var s := AfterOrder(file, codecs, ext, ieee, order, old(attribute), old(geoKeys));
        (s.Ok? ==> r == Ok(()) && fresh(data) && Holds(s.value)) &&
        (!s.Ok? ==> r == s.PropagateFailure())
    {
      r := ReadAttribute();
      if !r.Ok? {
        return r.Wrap([WithFunction("open")], []);
      }
      r := OpenKeys(codecs, ext, ieee);
    }

    /** open after the directory. */
    method OpenKeys(codecs: Codecs, ext: Externals, ieee: Ieee) returns (r: Result<()>)
      modifies this`geoKeys, this`meta, this`data
      ensures var s := AfterDirectory(file, codecs, ext, ieee, order, offset, attribute, old(geoKeys));
        (s.Ok? ==> r == Ok(()) && fresh(data) && Holds(s.value)) &&
        (!s.Ok? ==> r == s.PropagateFailure())
    {
      r := ParseGeoKeys(ext);
      if !r.Ok? {
        return r.Wrap([WithFunction("open")], []);
      }
      r := OpenMeta(codecs, ext, ieee);
    }

    /** open after the GeoKeys. */
    method OpenMeta(codecs: Codecs, ext: Externals, ieee: Ieee) returns (r: Result<()>)
      modifies this`meta, this`data
      ensures var s := AfterKeys(file, codecs, ext, ieee, order, offset, attribute, geoKeys);
        (s.Ok? ==> r == Ok(()) && fresh(data) && Holds(s.value)) &&
        (!s.Ok? ==> r == s.PropagateFailure())
    {
      r := InitMeta(ext);
      if !r.Ok? {
        return r.Wrap([WithFunction("open")], []);
      }
      r := ReadData(codecs, ext, ieee);
      if !r.Ok? {
        return r.Wrap([WithFunction("open")], []);
      }
    }

    /** The record's fields are those of img, with fresh pixel storage. */
    ghost predicate Holds(img: Image)
      reads this, data, data.data
    {
      order == img.order && offset == img.offset && attribute == img.attribute &&
      geoKeys == img.geoKeys && meta == img.meta && data.data[..] == img.data
    }
  }

  /** One iteration of readData's inner loop: block (i, j) read and
      decompressed into the buffer, the predictor reversed in place, and its
      pixels placed from offset 0. */
  method ReadBlock(gData: GeoData, rd: Reader, i: nat, j: nat, blkW: nat) returns (r: Result<()>)
    modifies gData, gData.data
    ensures gData.data == old(gData.data)
    ensures var s := Block(rd, old(gData.data[..]), i, j, blkW);
      (s.Ok? ==> r == Ok(()) && gData.data[..] == s.value) &&
      (!s.Ok? ==> r == s.PropagateFailure())
  {
    var l := rd.layout;
    var blkH := BlockHeightAt(l, j);
    if !blkH.Ok? {
      return blkH.PropagateFailure();
    }
    var k := j * l.across + i;
    if k >= |l.offsets| || k >= |l.counts| {
      return Panic(OutOfRange);
    }
    var b := BlockRect(l, i, j, blkW, blkH.value);
    var raw := Read(rd.file, rd.codecs, rd.ext, l.compression, l.offsets[k], l.counts[k]);
    if !raw.Ok? {
      return raw.Wrap([WithFunction("readData")], []).PropagateFailure();
    }
    r := LoadBlock(gData, rd, b, raw.value);
  }

  /** The decompressed bytes of a block loaded into the record's buffer, the
      predictor reversed there, and the pixels placed. */
  method LoadBlock(gData: GeoData, rd: Reader, b: Rectangle, raw: seq<byte>) returns (r: Result<()>)
    modifies gData, gData.data
    ensures gData.data == old(gData.data)
    ensures var s := AfterDecompress(rd, old(gData.data[..]), b, raw);
      (s.Ok? ==> r == Ok(()) && gData.data[..] == s.value) &&
      (!s.Ok? ==> r == s.PropagateFailure())
  {
    gData.Load(raw);
    var ok := UndiffBlock(gData.buf, rd.order, rd.layout.predictor, rd.ext.prHorizontal,
                          rd.meta.bitsPerSample, b.xmin, b.xmax, b.ymin, b.ymax);
    if !ok {
      return Panic(OutOfRange);
    }
    r := PlaceSamples(gData, rd, b);
  }

  /** The placing step of ReadBlock, over the block's undiffed bytes. */
  method PlaceSamples(gData: GeoData, rd: Reader, b: Rectangle) returns (r: Result<()>)
    requires gData.off == 0
    modifies gData`off, gData.data
    ensures var s := PlaceBlock(rd, old(gData.data[..]), b, gData.buf[..]);
      (s.Ok? ==> r == Ok(()) && gData.data[..] == s.value) &&
      (!s.Ok? ==> r == s.PropagateFailure())
  {
    var l := rd.layout;
    var sample := SampleOf(rd.meta, rd.order, rd.ieee);
    if !sample.Ok? {
      return sample.PropagateFailure();
    }
    if sample.value.None? {
      return Ok(());
    }
    var d := DecodingOf(sample.value.value);
    ghost var p := Placement(d, gData.buf[..], l.width, l.blockWidth);
    RectPanics(p, gData.data[..], 0, b.ymin, b.ymax, b.xmin, b.xmax);
    var ok := gData.Place(d, b.xmin, b.xmax, b.ymin, b.ymax, l.width, l.blockWidth);
    if !ok {
      return Panic(OutOfRange);
    }
    return Ok(());
  }

  /** readData's outer loop: the columns of blocks 0 .. across - 1, each
      with its block width. */
  method ReadBlocks(gData: GeoData, rd: Reader) returns (r: Result<()>)
    modifies gData, gData.data
    ensures gData.data == old(gData.data)
    ensures var s := Across(rd, old(gData.data[..]), 0);
      (s.Ok? ==> r == Ok(()) && gData.data[..] == s.value) &&
      (!s.Ok? ==> r == s.PropagateFailure())
  {
    ghost var spec := Across(rd, gData.data[..], 0);
    var i := 0;
    while i < rd.layout.across
      invariant gData.data == old(gData.data)
      invariant spec == Across(rd, gData.data[..], i)
      decreases rd.layout.across - i
    {
      var blkW := BlockWidthAt(rd.layout, i);
      if !blkW.Ok? {
        return blkW.PropagateFailure();
      }
      r := ReadColumn(gData, rd, i, blkW.value);
      if !r.Ok? {
        return;
      }
      i := i + 1;
    }
    return Ok(());
  }

  /** readData's inner loop: blocks 0 .. down - 1 of column i. */
  method ReadColumn(gData: GeoData, rd: Reader, i: nat, blkW: nat) returns (r: Result<()>)
    modifies gData, gData.data
    ensures gData.data == old(gData.data)
    ensures var s := Column(rd, old(gData.data[..]), i, 0, blkW);
      (s.Ok? ==> r == Ok(()) && gData.data[..] == s.value) &&
      (!s.Ok? ==> r == s.PropagateFailure())
  {
    ghost var spec := Column(rd, gData.data[..], i, 0, blkW);
    var j := 0;
    while j < rd.layout.down
      invariant gData.data == old(gData.data)
      invariant spec == Column(rd, gData.data[..], i, j, blkW)
      decreases rd.layout.down - j
    {
      r := ReadBlock(gData, rd, i, j, blkW);
      if !r.Ok? {
        return;
      }
      j := j + 1;
    }
    return Ok(());
  }

  /** OpenGeoTif: a new record opened; nil and the wrapped error on failure. */
  method OpenGeoTif(file: seq<byte>, codecs: Codecs, ext: Externals, ieee: Ieee) returns (r: Result<GeoTif>)
    ensures var s := OpenGeoTifSpec(file, codecs, ext, ieee);
      (s.Ok? ==> r.Ok? && fresh(r.value) && fresh(r.value.data) && r.value.file == file && r.value.Holds(s.value)) &&
      (!s.Ok? ==> r == s.PropagateFailure())
  {
    var g := new GeoTif(file);
    var e := g.Open(codecs, ext, ieee);
    if e.Fail? {
      return Fail(Geo(Create("OpenGeoTif", [WithError(Some(e.error))])));
    }
    if e.Panic? {
      return e.PropagateFailure();
    }
    return Ok(g);
  }
}
