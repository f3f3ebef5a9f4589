/** Const.go: the header magic numbers, the TIFF tags the reader looks up, the
    TIFF field types and their sizes; plus the named constants whose values are
    defined outside the modelled files, gathered in one record. */
module Consts {
  import opened Errors
  import opened Binary

  /** The first four bytes of the file read big-endian: "II*\0" and "MM\0*". */
  const LittleEndianMagic: nat := 0x49492A00
  const BigEndianMagic: nat := 0x4D4D002A

  /** The header bytes each magic number stands for. */
  const LittleHeader: seq<byte> := [0x49, 0x49, 0x2A, 0x00]
  const BigHeader: seq<byte> := [0x4D, 0x4D, 0x00, 0x2A]

  /** The two magic numbers differ and are exactly the big-endian readings of
      the "II*\0" and "MM\0*" headers; no other four bytes read as either. */
  lemma MagicHeaders(b: seq<byte>)
    requires |b| == 4
    ensures LittleEndianMagic != BigEndianMagic
    ensures Uint(BigEndian, b) == LittleEndianMagic <==> b == LittleHeader
    ensures Uint(BigEndian, b) == BigEndianMagic <==> b == BigHeader
  {
    PutUint(BigEndian, b);
    assert Pow256(4) == 0x1_0000_0000;
    UintPut(BigEndian, LittleEndianMagic, 4);
    UintPut(BigEndian, BigEndianMagic, 4);
    assert Put(BigEndian, LittleEndianMagic, 4) == LittleHeader;
    assert Put(BigEndian, BigEndianMagic, 4) == BigHeader;
  }

  // TIFF tags (AttributeTag values).
  const ImageWidth: nat := 256
  const ImageLength: nat := 257
  const BitsPerSample: nat := 258
  const Compression: nat := 259
  const PhotometricInterpretation: nat := 262
  const StripOffsets: nat := 273
  const SamplesPerPixel: nat := 277
  const RowsPerStrip: nat := 278
  const StripByteCounts: nat := 279
  const Predictor: nat := 317
  const ColorMap: nat := 320
  const TileWidth: nat := 322
  const TileLength: nat := 323
  const TileOffsets: nat := 324
  const TileByteCounts: nat := 325
  const ExtraSamples: nat := 338
  const SampleFormat: nat := 339

  // TIFF field types (DataType, a signed 16-bit integer).
  const NONE: int := 0
  const BYTE: int := 1
  const ASCII: int := 2
  const SHORT: int := 3
  const LONG: int := 4
  const RATIONAL: int := 5
  const SBYTE: int := 6
  const UNDEFINED: int := 7
  const SSHORT: int := 8
  const SLONG: int := 9
  const SRATIONAL: int := 10
  const FLOAT: int := 11
  const DOUBLE: int := 12

  /** DataTypeLen: the size in bytes of one value of each field type. */
  const DataTypeLen: seq<nat> := [0, 1, 1, 2, 4, 8, 1, 1, 2, 4, 8, 4, 8]

  /** DataType.Bytes as written: the guard lets dt == 13 and every negative dt
      through to the table lookup, which then indexes outside the 13-entry
      table; None stands for that index-out-of-range panic. */
  function BytesAsWritten(dt: int): (r: Option<nat>)
    ensures dt == 0 || dt > 13 ==> r == Some(0)
  {
    if dt == 0 || dt > |DataTypeLen| then Some(DataTypeLen[0])
    else if 0 <= dt < |DataTypeLen| then Some(DataTypeLen[dt])
    else None
  }

  /** The guard of DataType.Bytes is off by one: the types it fails to turn
      away are exactly 13 and the negative ones. */
  lemma BytesGuardOffByOne(dt: int)
    ensures BytesAsWritten(dt).None? <==> dt == 13 || dt < 0
    ensures BytesAsWritten(dt).Some? ==> BytesAsWritten(dt).value == TypeBytes(dt)
  {
  }

  /** The intended DataType.Bytes: the table entry for the twelve TIFF types,
      0 for every other code. */
  function TypeBytes(dt: int): (n: nat)
    ensures dt in {BYTE, ASCII, SBYTE, UNDEFINED} ==> n == 1
    ensures dt in {SHORT, SSHORT} ==> n == 2
    ensures dt in {LONG, SLONG, FLOAT} ==> n == 4
    ensures dt in {RATIONAL, SRATIONAL, DOUBLE} ==> n == 8
    ensures n == 0 <==> !(BYTE <= dt <= DOUBLE)
  {
    if BYTE <= dt < |DataTypeLen| then DataTypeLen[dt] else 0
  }

  /** GeoTIFF tags, geokey ids and enumerations that the reader names but that
      are defined outside the modelled files. The reader only compares against
      them, in the order its switch statements list them. */
  datatype Externals = Externals(
    geoKeyDirectoryTag: nat,
    geoDoubleParamsTag: nat,
    geoAsciiParamsTag: nat,
    modelTransformationTag: nat,
    modelTiepointTag: nat,
    modelPixelScaleTag: nat,
    gtRasterTypeGeoKey: nat,
    projectionGeoKey: nat,
    geographicTypeGeoKey: nat,
    gdalNodata: nat,
    piRGB: nat,
    piPaletted: nat,
    piWhiteIsZero: nat,
    piBlackIsZero: nat,
    prHorizontal: nat,
    cNone: nat,
    cLZW: nat,
    cDeflate: nat,
    cDeflateOld: nat,
    cPackBits: nat)

  /** ImageMode; Unset is the zero value a Meta starts with. */
  datatype ImageMode = Unset | Gray | GrayInvert | Paletted | RGB | RGBA | NRGBA
}
