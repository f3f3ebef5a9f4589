/** Open.go, initMeta and its helpers checkAllIsFirst and minInt: the image
    description derived from the directory's attributes. */
module ImageMeta {
  import opened Errors
  import opened Binary
  import opened Consts
  import opened Attributes
  import opened Color

  // ---------------------------------------------------------------------------
  // checkAllIsFirst and minInt

  /** Every value of a non-empty list equals its first. */
  predicate AllSame(arr: seq<nat>)
    requires |arr| > 0
  {
    forall i :: 0 <= i < |arr| ==> arr[i] == arr[0]
  }

  /** checkAllIsFirst: (arr[0], true) when every value equals the first,
      (0, false) otherwise; an empty list panics on arr[0]. */
  method CheckAllIsFirst(arr: seq<nat>) returns (r: Result<(nat, bool)>)
    ensures r.Ok? <==> |arr| > 0
    ensures r.Panic? ==> r.reason == OutOfRange
    ensures r.Ok? ==> (r.value == (arr[0], true) <==> AllSame(arr))
    ensures r.Ok? ==> (r.value == (0, false) <==> !AllSame(arr))
  {
    if |arr| == 0 {
      return Panic(OutOfRange);
    }
    var f := arr[0];
    var i := 1;
    while i < |arr|
      invariant 1 <= i <= |arr|
      invariant forall k :: 0 <= k < i ==> arr[k] == f
    {
      if f != arr[i] {
        return Ok((0, false));
      }
      i := i + 1;
    }
    return Ok((f, true));
  }

  /** minInt. */
  function MinInt(a: int, b: int): (m: int)
    ensures m <= a && m <= b
    ensures m == a || m == b
  {
    if a <= b then a else b
  }

  // ---------------------------------------------------------------------------
  // The required tags

  /** The tags whose first value initMeta reads unconditionally, in the order
      of the Meta literal: Columns, Rows, PhotometricInterp, samplesPerPixel,
      SampleFormat. */
  const RequiredTags: seq<nat> := [ImageWidth, ImageLength, PhotometricInterpretation, SamplesPerPixel, SampleFormat]

  /** `getValue(tag)[0]` for each tag in turn: the first value of each, or a
      panic at the first tag whose uint values are empty. */
  function FirstValues(attrs: seq<Attribute>, tags: seq<nat>): (r: Result<seq<nat>>)
    ensures !r.Fail?
    ensures r.Ok? ==> |r.value| == |tags|
    decreases |tags|
  {
    if tags == [] then Ok([])
    else
      var u := UintsOf(attrs, tags[0]);
      if u == [] then Panic(OutOfRange)
      else Prepend([u[0]], FirstValues(attrs, tags[1..]))
  }

  /** FirstValues panics exactly when some tag, in particular a missing one,
      has no uint values, and otherwise reads the first value of each tag. */
  lemma {:induction false} FirstValuesSpec(attrs: seq<Attribute>, tags: seq<nat>)
    ensures FirstValues(attrs, tags).Panic? <==> exists i :: 0 <= i < |tags| && UintsOf(attrs, tags[i]) == []
    ensures var r := FirstValues(attrs, tags);
      r.Ok? ==> (|r.value| == |tags| &&
        forall i :: 0 <= i < |tags| ==> |UintsOf(attrs, tags[i])| > 0 && r.value[i] == UintsOf(attrs, tags[i])[0])
    decreases |tags|
  {
    if tags != [] && UintsOf(attrs, tags[0]) != [] {
      var rest := tags[1..];
      FirstValuesSpec(attrs, rest);
      assert forall i :: 1 <= i < |tags| ==> tags[i] == rest[i - 1];
      if FirstValues(attrs, rest).Panic? {
        var j :| 0 <= j < |rest| && UintsOf(attrs, rest[j]) == [];
        assert UintsOf(attrs, tags[j + 1]) == [];
      }
    }
  }

  /** The first tag of the list that the directory does not hold. */
  function FirstMissing(attrs: seq<Attribute>, tags: seq<nat>): (r: Option<nat>)
    ensures r.Some? ==> r.value in tags && GetAttributeByTag(attrs, r.value).Fail?
    ensures r.None? <==> forall i :: 0 <= i < |tags| ==> GetAttributeByTag(attrs, tags[i]).Ok?
    decreases |tags|
  {
    if tags == [] then None
    else if GetAttributeByTag(attrs, tags[0]).Fail? then Some(tags[0])
    else
      var rest := FirstMissing(attrs, tags[1..]);
      assert forall i :: 1 <= i < |tags| ==> tags[i] == tags[1..][i - 1];
      rest
  }

  /** The required values as initMeta computes them: the `errs` check that
      follows the Meta literal is never reached with an error in it, because a
      missing tag has already panicked on its empty value list. */
  function RequiredAsWritten(attrs: seq<Attribute>): Result<seq<nat>> {
    FirstValues(attrs, RequiredTags)
  }

  /** The required values as the `errs` check means them: a missing tag is
      reported as the error of its lookup, wrapped twice with the function
      name initMeta; a present tag without values still panics. */
  function Required(attrs: seq<Attribute>): Result<seq<nat>> {
    var missing := FirstMissing(attrs, RequiredTags);
    if missing.Some? then
      var e := GetAttributeByTag(attrs, missing.value).error;
      Raise([WithFunction("initMeta"),
             WithError(Some(Geo(Create("", [WithError(Some(e)), WithFunction("initMeta")]))))])
    else RequiredAsWritten(attrs)
  }

  /** As written, initMeta never returns the error it collects for a missing
      required tag: it panics. A directory without attributes shows it. */
  lemma RequiredErrorUnreachable(attrs: seq<Attribute>)
    ensures !RequiredAsWritten(attrs).Fail?
    ensures (exists t :: t in RequiredTags && GetAttributeByTag(attrs, t).Fail?) ==> RequiredAsWritten(attrs).Panic?
    ensures RequiredAsWritten([]).Panic? && Required([]).Fail?
  {
    FirstValuesSpec(attrs, RequiredTags);
    FirstValuesSpec([], RequiredTags);
    if t :| t in RequiredTags && GetAttributeByTag(attrs, t).Fail? {
      var i :| 0 <= i < |RequiredTags| && RequiredTags[i] == t;
      assert UintsOf(attrs, RequiredTags[i]) == [];
    }
    assert GetAttributeByTag([], ImageWidth).Fail?;
    assert UintsOf([], RequiredTags[0]) == [];
  }

  /** The corrected reading fails exactly when a required tag is missing, and
      otherwise yields the first value of each required tag. */
  lemma RequiredReports(attrs: seq<Attribute>)
    ensures Required(attrs).Fail? <==> exists t :: t in RequiredTags && GetAttributeByTag(attrs, t).Fail?
    ensures Required(attrs).Ok? ==>
      |Required(attrs).value| == 5 &&
      forall i :: 0 <= i < 5 ==> |UintsOf(attrs, RequiredTags[i])| > 0 &&
                                 Required(attrs).value[i] == UintsOf(attrs, RequiredTags[i])[0]
  {
    FirstValuesSpec(attrs, RequiredTags);
    if t :| t in RequiredTags && GetAttributeByTag(attrs, t).Fail? {
      var i :| 0 <= i < |RequiredTags| && RequiredTags[i] == t;
    }
  }

  // ---------------------------------------------------------------------------
  // Meta

  /** Meta, without TiepointData (which Transform computes): the image size,
      the sample layout, the GeoKey-derived raster type and EPSG code, the
      GDAL nodata text, and the pixel mode with its palette. */
  datatype Meta = Meta(
    columns: nat,
    rows: nat,
    photometric: nat,
    samplesPerPixel: nat,
    sampleFormat: nat,
    bitsPerSample: seq<nat>,
    pixelIsArea: bool,
    epsg: nat,
    nodata: seq<byte>,
    palette: seq<bv32>,
    mode: ImageMode)

  /** RasterPixelIsArea: the first value of the GTRasterTypeGeoKey attribute
      is 1; false when the attribute is missing; a panic when it has no
      values. */
  function PixelIsArea(attrs: seq<Attribute>, ext: Externals): (r: Result<bool>)
    ensures !r.Fail?
    ensures r == Ok(true) <==> UintsOf(attrs, ext.gtRasterTypeGeoKey) != [] && UintsOf(attrs, ext.gtRasterTypeGeoKey)[0] == 1
    ensures GetAttributeByTag(attrs, ext.gtRasterTypeGeoKey).Fail? ==> r == Ok(false)
    ensures GetAttributeByTag(attrs, ext.gtRasterTypeGeoKey).Ok? ==>
      (r.Panic? <==> UintsOf(attrs, ext.gtRasterTypeGeoKey) == [])
  {
    var a := GetAttributeByTag(attrs, ext.gtRasterTypeGeoKey);
    if a.Fail? then Ok(false)
    else if a.value.value.uints == [] then Panic(OutOfRange)
    else Ok(a.value.value.uints[0] == 1)
  }

  /** EPSGCode: the first value of the ProjectionGeoKey attribute, else of the
      GeographicTypeGeoKey attribute, else 0; a panic when the attribute used
      has no values. */
  function Epsg(attrs: seq<Attribute>, ext: Externals): (r: Result<nat>)
    ensures !r.Fail?
    ensures r.Ok? && r.value != 0 ==>
      (UintsOf(attrs, ext.projectionGeoKey) != [] && r.value == UintsOf(attrs, ext.projectionGeoKey)[0]) ||
      (GetAttributeByTag(attrs, ext.projectionGeoKey).Fail? &&
       UintsOf(attrs, ext.geographicTypeGeoKey) != [] && r.value == UintsOf(attrs, ext.geographicTypeGeoKey)[0])
    ensures GetAttributeByTag(attrs, ext.projectionGeoKey).Ok? ==>
      (r.Panic? <==> UintsOf(attrs, ext.projectionGeoKey) == []) &&
      (UintsOf(attrs, ext.projectionGeoKey) != [] ==> r == Ok(UintsOf(attrs, ext.projectionGeoKey)[0]))
    ensures GetAttributeByTag(attrs, ext.projectionGeoKey).Fail? && GetAttributeByTag(attrs, ext.geographicTypeGeoKey).Ok? ==>
      (r.Panic? <==> UintsOf(attrs, ext.geographicTypeGeoKey) == []) &&
      (UintsOf(attrs, ext.geographicTypeGeoKey) != [] ==> r == Ok(UintsOf(attrs, ext.geographicTypeGeoKey)[0]))
    ensures GetAttributeByTag(attrs, ext.projectionGeoKey).Fail? && GetAttributeByTag(attrs, ext.geographicTypeGeoKey).Fail? ==>
      r == Ok(0)
  {
    var p := GetAttributeByTag(attrs, ext.projectionGeoKey);
    if p.Ok? then
      if p.value.value.uints == [] then Panic(OutOfRange) else Ok(p.value.value.uints[0])
    else
      var g := GetAttributeByTag(attrs, ext.geographicTypeGeoKey);
      if g.Ok? then
        if g.value.value.uints == [] then Panic(OutOfRange) else Ok(g.value.value.uints[0])
      else Ok(0)
  }

  /** The palette colour i of a ColorMap of n colours: opaque, with the red,
      green and blue values at i, i + n and i + 2n rescaled to 8 bits. */
  function PaletteColor(vals: seq<nat>, n: nat, i: nat): bv32
    requires i < n && 3 * n <= |vals|
  {
    Pack(0xFF, Channel(Scale(vals[i])), Channel(Scale(vals[i + n])), Channel(Scale(vals[i + 2 * n])))
  }

  /** The loop that fills `palette = make([]uint32, numColors)`. */
  method BuildPalette(vals: seq<nat>, n: nat) returns (palette: array<bv32>)
    requires 3 * n <= |vals|
    ensures fresh(palette) && palette.Length == n
    ensures forall i :: 0 <= i < n ==> palette[i] == PaletteColor(vals, n, i)
  {
    palette := new bv32[n];
    var i := 0;
    while i < n
      invariant 0 <= i <= n
      invariant forall k :: 0 <= k < i ==> palette[k] == PaletteColor(vals, n, k)
    {
      palette[i] := PaletteColor(vals, n, i);
      i := i + 1;
    }
  }

  /** The palette as a value. */
  function Palette(vals: seq<nat>, n: nat): (p: seq<bv32>)
    requires 3 * n <= |vals|
    ensures |p| == n && forall i :: 0 <= i < n ==> p[i] == PaletteColor(vals, n, i)
  {
    seq(n, i requires 0 <= i < n => PaletteColor(vals, n, i))
  }

  /** With 16-bit colour map values, each palette colour is opaque and carries
      the rescaled red, green and blue, each below 256, in its three lower
      bytes. */
  lemma PaletteChannels(vals: seq<nat>, n: nat, i: nat)
    requires i < n && 3 * n <= |vals|
    requires vals[i] <= 0xFFFF && vals[i + n] <= 0xFFFF && vals[i + 2 * n] <= 0xFFFF
    ensures var c := PaletteColor(vals, n, i);
      c >> 24 == 0xFF &&
      (c >> 16) & 0xFF == Channel(Scale(vals[i])) &&
      (c >> 8) & 0xFF == Channel(Scale(vals[i + n])) &&
      c & 0xFF == Channel(Scale(vals[i + 2 * n]))
    ensures Channel(Scale(vals[i])) as int == Scale(vals[i]) &&
      Channel(Scale(vals[i + n])) as int == Scale(vals[i + n]) &&
      Channel(Scale(vals[i + 2 * n])) as int == Scale(vals[i + 2 * n])
  {
    ChannelSmall(Scale(vals[i]));
    ChannelSmall(Scale(vals[i + n]));
    ChannelSmall(Scale(vals[i + 2 * n]));
    PackFields(0xFF, Channel(Scale(vals[i])), Channel(Scale(vals[i + n])), Channel(Scale(vals[i + 2 * n])));
  }

  /** The switch on PhotometricInterp: the pixel mode and, for a paletted
      image, the palette. `nodataErr` is the error of the GDAL_NODATA lookup,
      which an RGB image with unequal BitsPerSample returns wrapped. */
  function ModeOf(attrs: seq<Attribute>, ext: Externals, p: nat, bits: seq<nat>,
                  nodataErr: Option<ErrorValue>): Result<(ImageMode, seq<bv32>)>
  {
    if p == ext.piRGB then
      if |bits| == 0 then Panic(OutOfRange)
      else if !AllSame(bits) then Raise([WithFunction("initMeta"), WithError(nodataErr)])
      else if |bits| == 3 then Ok((RGB, []))
      else if |bits| == 4 then
        var extra := GetAttributeByTag(attrs, ExtraSamples);
        if extra.Fail? then Raise([WithFunction("initMeta"), WithErrorText("wrong number of samples for RGB")])
        else if extra.value.value.uints == [] then Panic(OutOfRange)
        else if extra.value.value.uints[0] == 1 then Ok((RGBA, []))
        else if extra.value.value.uints[0] == 2 then Ok((NRGBA, []))
        else Raise([WithFunction("initMeta"), WithErrorText("wrong number of samples for RGB")])
      else Raise([WithFunction("initMeta"),
                  WithErrorText("wrong number of samples for RGB,require 3 or 4,but get " + Decimal(|bits|))])
    else if p == ext.piPaletted then
      var cm := GetAttributeByTag(attrs, ColorMap);
      if cm.Fail? then Raise([WithFunction("initMeta"), WithErrorText("could not found the colormap")])
      else
        var vals := cm.value.value.uints;
        var n := |vals| / 3;
        if n <= 0 || n >= 256 || |vals| % 3 != 0 then
          Raise([WithFunction("initMeta"),
                 WithErrorText("require 0 < numColors < 256, but is " + Decimal(n) +
                               " and len(colors)%3 should be 0, but " + Decimal(|vals| % 3))])
        else Ok((Paletted, Palette(vals, n)))
    else if p == ext.piWhiteIsZero then Ok((GrayInvert, []))
    else if p == ext.piBlackIsZero then Ok((Gray, []))
    else Raise([WithFunction("initMeta"), WithErrorText("unkonw image format:[" + Decimal(p) + "]")])
  }

  /** The value of `err` when the switch starts: the outcome of the
      GDAL_NODATA lookup, the last one assigned to it. */
  function NodataError(attrs: seq<Attribute>, ext: Externals): Option<ErrorValue> {
    var nodata := GetAttributeByTag(attrs, ext.gdalNodata);
    if nodata.Ok? then None else Some(nodata.error)
  }

  /** initMeta: the required values (reported as Required does), then the
      optional BitsPerSample, raster type, EPSG code and nodata text, then the
      pixel mode. */
  function InitMeta(attrs: seq<Attribute>, ext: Externals): Result<Meta> {
    var m :- MetaFields(attrs, ext);
    var mp :- ModeOf(attrs, ext, m.photometric, m.bitsPerSample, NodataError(attrs, ext));
    Ok(m.(mode := mp.0, palette := mp.1))
  }

  /** The Meta before the switch: the required values, then the optional
      BitsPerSample, raster type, EPSG code and nodata text; no palette and no
      mode yet. */
  function MetaFields(attrs: seq<Attribute>, ext: Externals): (r: Result<Meta>)
    ensures r.Ok? ==> r.value.mode == Unset && r.value.palette == []
  {
    var req :- Required(attrs);
    var bits := UintsOf(attrs, BitsPerSample);
    var area :- PixelIsArea(attrs, ext);
    var epsg :- Epsg(attrs, ext);
    var nodata := GetAttributeByTag(attrs, ext.gdalNodata);
    var text := if nodata.Ok? then nodata.value.value.ascii else [];
    Ok(Meta(req[0], req[1], req[2], req[3], req[4], bits, area, epsg, text, [], Unset))
  }

  /** What the samples of each pixel mode look like: RGB has three equal
      BitsPerSample, RGBA and NRGBA four with ExtraSamples 1 and 2, a paletted
      image a colour map of 3n values with 0 < n < 256 and the palette built
      from it; the gray modes come from their interpretations; a successful
      switch always sets a mode. */
  lemma ModeOfCases(attrs: seq<Attribute>, ext: Externals, p: nat, bits: seq<nat>, nodataErr: Option<ErrorValue>)
    ensures var r := ModeOf(attrs, ext, p, bits, nodataErr);
      r.Ok? ==> r.value.0 != Unset && (r.value.0 != Paletted ==> r.value.1 == [])
    ensures var r := ModeOf(attrs, ext, p, bits, nodataErr);
      r.Ok? && r.value.0 in {RGB, RGBA, NRGBA} ==>
        p == ext.piRGB && |bits| > 0 && AllSame(bits) &&
        (r.value.0 == RGB <==> |bits| == 3) &&
        (r.value.0 != RGB ==> UintsOf(attrs, ExtraSamples) != [] &&
                              UintsOf(attrs, ExtraSamples)[0] == if r.value.0 == RGBA then 1 else 2)
    ensures var r := ModeOf(attrs, ext, p, bits, nodataErr);
      r.Ok? && r.value.0 == Paletted ==>
        p != ext.piRGB && p == ext.piPaletted &&
        var vals := UintsOf(attrs, ColorMap);
        var n := |vals| / 3;
        GetAttributeByTag(attrs, ColorMap).Ok? && 0 < n < 256 && |vals| == 3 * n && r.value.1 == Palette(vals, n)
    ensures var r := ModeOf(attrs, ext, p, bits, nodataErr);
      r.Ok? && r.value.0 == GrayInvert ==> p == ext.piWhiteIsZero && p !in {ext.piRGB, ext.piPaletted}
    ensures var r := ModeOf(attrs, ext, p, bits, nodataErr);
      r.Ok? && r.value.0 == Gray ==> p == ext.piBlackIsZero && p !in {ext.piRGB, ext.piPaletted, ext.piWhiteIsZero}
    ensures p !in {ext.piRGB, ext.piPaletted, ext.piWhiteIsZero, ext.piBlackIsZero} ==>
      ModeOf(attrs, ext, p, bits, nodataErr).Fail?
  {
  }

  /** The converse of ModeOfCases: each photometric interpretation and sample
      layout the switch accepts does select its mode, and each layout it
      rejects is an error (or, for an empty BitsPerSample or ExtraSamples
      list, the index panic of the source). */
  lemma ModeOfComplete(attrs: seq<Attribute>, ext: Externals, p: nat, bits: seq<nat>, nodataErr: Option<ErrorValue>)
    ensures p == ext.piRGB ==>
      var r := ModeOf(attrs, ext, p, bits, nodataErr);
      var extra := UintsOf(attrs, ExtraSamples);
      (|bits| == 0 ==> r == Panic(OutOfRange)) &&
      (|bits| > 0 && !AllSame(bits) ==> r.Fail?) &&
      (|bits| > 0 && AllSame(bits) ==>
        (|bits| == 3 ==> r == Ok((RGB, []))) &&
        (|bits| == 4 && GetAttributeByTag(attrs, ExtraSamples).Fail? ==> r.Fail?) &&
        (|bits| == 4 && GetAttributeByTag(attrs, ExtraSamples).Ok? && extra == [] ==> r == Panic(OutOfRange)) &&
        (|bits| == 4 && extra != [] && extra[0] == 1 ==> r == Ok((RGBA, []))) &&
        (|bits| == 4 && extra != [] && extra[0] == 2 ==> r == Ok((NRGBA, []))) &&
        (|bits| == 4 && extra != [] && extra[0] != 1 && extra[0] != 2 ==> r.Fail?) &&
        (|bits| != 3 && |bits| != 4 ==> r.Fail?))
    ensures p != ext.piRGB && p == ext.piPaletted ==>
      var r := ModeOf(attrs, ext, p, bits, nodataErr);
      var vals := UintsOf(attrs, ColorMap);
      var n := |vals| / 3;
      (GetAttributeByTag(attrs, ColorMap).Ok? && 0 < n < 256 && |vals| % 3 == 0 ==> r == Ok((Paletted, Palette(vals, n)))) &&
      (GetAttributeByTag(attrs, ColorMap).Fail? || n == 0 || n >= 256 || |vals| % 3 != 0 ==> r.Fail?)
    ensures p !in {ext.piRGB, ext.piPaletted} && p == ext.piWhiteIsZero ==>
      ModeOf(attrs, ext, p, bits, nodataErr) == Ok((GrayInvert, []))
    ensures p !in {ext.piRGB, ext.piPaletted, ext.piWhiteIsZero} && p == ext.piBlackIsZero ==>
      ModeOf(attrs, ext, p, bits, nodataErr) == Ok((Gray, []))
  {
  }

  /** The image size and sample layout initMeta records are the required
      values (RequiredReports: the first value of each tag), and a missing one
      of those tags is an error. */
  lemma InitMetaRequired(attrs: seq<Attribute>, ext: Externals)
    ensures var r := InitMeta(attrs, ext);
      r.Ok? ==> Required(attrs) == Ok([r.value.columns, r.value.rows, r.value.photometric,
                                       r.value.samplesPerPixel, r.value.sampleFormat])
    ensures (exists t :: t in RequiredTags && GetAttributeByTag(attrs, t).Fail?) ==> InitMeta(attrs, ext).Fail?
  {
    var r := InitMeta(attrs, ext);
    if r.Ok? {
      var req := Required(attrs).value;
      assert |req| == 5;
      assert req == [req[0], req[1], req[2], req[3], req[4]];
    } else {
      RequiredReports(attrs);
    }
  }

  /** The rest of the Meta initMeta builds: BitsPerSample is the attribute's
      values (nil when missing), the nodata text is the GDAL_NODATA attribute's
      ASCII, and mode and palette are what the switch on the photometric
      interpretation chose. */
  lemma InitMetaOptional(attrs: seq<Attribute>, ext: Externals)
    ensures var r := InitMeta(attrs, ext);
      r.Ok? ==>
        var m := r.value;
        m.bitsPerSample == UintsOf(attrs, BitsPerSample) &&
        PixelIsArea(attrs, ext) == Ok(m.pixelIsArea) && Epsg(attrs, ext) == Ok(m.epsg) &&
        (GetAttributeByTag(attrs, ext.gdalNodata).Ok? ==> m.nodata == GetAttributeByTag(attrs, ext.gdalNodata).value.value.ascii) &&
        (GetAttributeByTag(attrs, ext.gdalNodata).Fail? ==> m.nodata == [])
    ensures var r := InitMeta(attrs, ext);
      r.Ok? ==> ModeOf(attrs, ext, r.value.photometric, r.value.bitsPerSample, NodataError(attrs, ext)) ==
                Ok((r.value.mode, r.value.palette))
  {
    var r := InitMeta(attrs, ext);
    if r.Ok? {
      var req := Required(attrs).value;
      assert r.value.photometric == req[2];
    }
  }
}
