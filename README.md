# GeoTIFF reader: a verified Dafny model

This project models the GeoTIFF reader of the `GeoTiff` Go package and the rune
conversions of `Datas/Strings.go`. A file is a sequence of bytes, and opening it
goes through these stages:

- The TIFF header's magic number selects the byte order (section 2 of TIFF 6.0).
- The image file directory is read as 12-byte entries. Each entry's value is
  either inline or fetched through an offset, then decoded per data type.
- The GeoKey directory is unpacked into keys. Each key's value is inline or
  sliced out of the GeoDoubleParams or GeoAsciiParams attribute (section 2.4
  of GeoTIFF 1.0).
- The image metadata is read and the photometric mode and palette are derived.
- The pixel data is read block by block (tiles), in these steps:
  - each block is decompressed (none, PackBits, or LZW/zlib as opaque codecs);
  - the horizontal predictor is undone in place (section 14 of TIFF 6.0);
  - each sample is decoded and written into the row-major `Data` array.

Beside the open path, the project models these parts:

- the affine transform selection of `transform.Init` (section 2.6 of GeoTIFF 1.0);
- the signed converters of `Convert.go`;
- the functional-options error builder of `Error.go`;
- the `[]rune` conversions of `Datas/Strings.go`.

Outcomes are `Result<T>` (in `Errors`):

- `Ok` is success.
- `Fail` is a Go `error` return, carrying the same `GeoError` record the code builds.
- `Panic` is a Go runtime panic: an index out of range or a division by zero.

Go's unbounded-looking `uint`/`int` arithmetic is modelled where widths matter:
`Bytes()` wraps at 2^32, `uint16` and `byte` additions wrap, and signed
conversions use two's complement. Constants defined in files that are not
part of this model are fields of the parameter record `Consts.Externals`, and
no values are guessed for them. Examples are `GeoKeyDirectoryTag`, the `PI_*`
photometric codes, the `c*` compression codes and `prHorizontal`.

Stateful code keeps its form:

- `GeoTif`, `GeoData` and `transform` are classes whose methods update their
  fields.
- The predictor works in place on an `array<byte>`.
- The pixel loops write an `array<real>`.
- Each method is proved against a pure specification function (`OpenSpec`,
  `ReadDataSpec`, `Undiff`, `Rect`, `InitSpec`, ...). The properties are
  proved about those functions.

The package defines the strip tags StripOffsets, RowsPerStrip and
StripByteCounts (GeoTiff/Const.go:17-20). Its strip branch
(GeoTiff/Open.go:344-356) tests each lookup's error the wrong way round. It
reads RowsPerStrip's first value only when that tag is missing, which indexes an
empty value. It assigns the block offsets only from a missing attribute, so
they stay nil and the first block read indexes them out of range. The model follows the code, and
`ReadData.StripAlwaysPanics` states that readData panics on every image without
tiles.

## Model

| member | source | states |
|---|---|---|
| Header.ByteOrderOf | GeoTiff/Open.go:54-70 | the first four bytes "II*\0" give little-endian, "MM\0*" give big-endian, anything else (or a file shorter than 4 bytes) is an error, never a panic |
| Consts.MagicHeaders | GeoTiff/Const.go:3-6 | the two magic numbers differ, and a 4-byte header read big-endian equals each magic number exactly when it is the "II*\0" / "MM\0*" header |
| Consts.TypeBytes | GeoTiff/Const.go:71-82 | the byte size of every TIFF data type: 1 for BYTE/ASCII/SBYTE/UNDEFINED, 2 for SHORT/SSHORT, 4 for LONG/SLONG/FLOAT, 8 for RATIONAL/SRATIONAL/DOUBLE, 0 exactly for codes outside the table |
| Consts.BytesAsWritten | GeoTiff/Const.go:77-82 | the guard as written: codes 0 and above 13 give 0 |
| Consts.BytesGuardOffByOne | GeoTiff/Const.go:77-82 | the guard as written indexes past the 13-entry table exactly for code 13 and negative codes, and agrees with TypeBytes everywhere else |
| Attributes.AttrBytes | GeoTiff/GeoTif.go:25-27 | Bytes() is Len times the type's size, wrapped to uint32: equal to the product when it is below 2^32; on the corrected size table (see Findings), 0 for codes outside 1..12 |
| Attributes.ReadFile | GeoTiff/GeoTif.go:120-130 | a read of n bytes at an offset never panics, succeeds exactly when n bytes are available there, and then returns exactly those bytes |
| Attributes.FindTag | GeoTiff/GeoTif.go:131-138 | the index of the first attribute with the tag at or after `from`; none when no later attribute has it |
| Attributes.Lookup | GeoTiff/GeoTif.go:131-138 | some attribute exactly when one has the tag, and then the first one with it |
| Attributes.GetAttributeByTag | GeoTiff/GeoTif.go:131-138 | returns the first attribute with the tag and fails (never panics) exactly when no attribute has it |
| Attributes.NewGeoAttribute | GeoTiff/GeoTif.go:140-151 | accepts exactly 12-byte input, a u16 tag, signed 16-bit type and u32 count, keeps bytes 8..12 verbatim (with the capacity behind them) and sets Offset 0 and no value |
| Attributes.NewGeoAttributeDecodes | GeoTiff/GeoTif.go:140-151 | round trip: an entry encoded in the file's byte order from tag, type, count and 4 value bytes decodes back to exactly those fields |
| Attributes.DecodeWords | GeoTiff/GeoTif.go:178-195 | the SHORT/LONG loop yields exactly the count-many words of the given width decoded in the file's order |
| Attributes.CopyBytes | GeoTiff/GeoTif.go:164-177 | the BYTE/ASCII loop copies exactly the first Len bytes |
| Attributes.ParseValue | GeoTiff/GeoTif.go:153-212 | the in-place value decoding computes exactly the specification `Parsed` |
| Attributes.ParsedValues | GeoTiff/GeoTif.go:153-212 | on success the header fields are unchanged; SHORT/LONG give Len words, word i decoded from bytes [w*i, w*i+w), mirrored in `uint`; BYTE/ASCII set uint[i] to byte i; FLOAT/DOUBLE leave uint = [0]; it fails exactly for NONE, RATIONAL, SBYTE, UNDEFINED, SSHORT, SLONG, SRATIONAL and unknown types |
| Attributes.ParseShortsRoundTrip | GeoTiff/GeoTif.go:178-186 | round trip: SHORT values written in the file's order and parsed give back the same values, in `shorts` and in `uint` |
| Attributes.ToFloat64 | GeoTiff/GeoTif.go:213-229 | DOUBLE gives the values reinterpreted one for one; FLOAT gives Len reinterpreted values (a panic if fewer are stored); any other type gives 2*Len values, Len zeros followed by the `uint` values |
| Binary.UintPut | GeoTiff/GeoTif.go:140-151 | decoding the n-byte encoding of a value below 256^n, in either byte order, gives the value back |
| Binary.PutUint | GeoTiff/GeoTif.go:140-151 | encoding a decoded word, in either byte order, gives back the same bytes |
| Binary.ToSigned | GeoTiff/Convert.go:11-21 | the two's-complement reading of an n-byte word: negative exactly when the top bit is set, and equal to the word or the word minus 256^n |
| Binary.Reslice | GeoTiff/Open.go:96-100 | a Go reslice s[lo:hi] is legal exactly when lo <= hi <= cap(s), shows bytes lo..hi of the backing array and keeps the capacity behind it |
| Header.TableLayout | GeoTiff/Open.go:74-94 | the directory table at offset off holds the u16 count read at off and the 12*count bytes that follow it |
| Header.DecodedFields | GeoTiff/Open.go:96-100 | entry bytes taken from the file decode to the tag, type and count at file offsets e, e+2, e+4 with the value bytes e+8..e+12 |
| Header.FetchFields | GeoTiff/Open.go:101-109 | when Bytes() > 4 the value bytes are replaced by Bytes() bytes read at the u32 they encode; otherwise the entry is unchanged |
| Header.EntryDecodes | GeoTiff/Open.go:96-114 | entry i of the table is the attribute stored at file offset base+12*i: its fields, its value bytes (inline or fetched), and its parsed value |
| Header.EntriesLayout | GeoTiff/Open.go:96-114 | a directory read succeeds with exactly `count` entries, entry i being the decoding of the i-th 12-byte slot |
| Header.DirectoryLayout | GeoTiff/Open.go:72-118 | the directory offset is the u32 at file offset 4; offset 0 gives no entries without error; any other offset gives the entries read there |
| GeoKeys.ParseGeoKeysLayout | GeoTiff/Open.go:120-171 | a missing GeoKeyDirectory is an error; on success the key count is SHORT[3], 0 keys leaves the keys as they were, and key i is the decoding of SHORT[4i+4..4i+7] |
| GeoKeys.GeoKeyInline | GeoTiff/Open.go:137-142 | location 0 gives a SHORT attribute with Len = SHORT[4i+6] whose value bytes encode SHORT[4i+7]; it succeeds exactly when those indices exist and Len <= 1 |
| GeoKeys.InlineKeyRoundTrip | GeoTiff/Open.go:137-142 | an inline key value encoded and parsed gives back the value when Len is 1, and parsing fails past Len 1 |
| GeoKeys.GeoKeyParams | GeoTiff/Open.go:143-164 | the DOUBLE / ASCII location takes bytes [idx*w, idx*w+Len) of the GeoDoubleParams / GeoAsciiParams value, with Offset = idx; it fails exactly when the parameter attribute is missing |
| GeoKeys.GeoKeyOther | GeoTiff/Open.go:131-167 | any other location yields a zero attribute with only Len set, and a key can fail only when its parameter attribute is missing |
| ImageMeta.CheckAllIsFirst | GeoTiff/Open.go:175-183 | on a non-empty slice returns (arr[0], true) exactly when every element equals arr[0] and (0, false) otherwise; an empty slice panics |
| ImageMeta.MinInt | GeoTiff/Open.go:295-300 | the result is one of the two arguments and at most both |
| ImageMeta.FirstValuesSpec | GeoTiff/Open.go:186-215 | reading `[0]` of each required tag panics exactly when some tag has no values, and otherwise gives each tag's first value in order |
| ImageMeta.FirstMissing | GeoTiff/Open.go:186-215 | the first required tag that is missing, and none exactly when all are present |
| ImageMeta.RequiredErrorUnreachable | GeoTiff/Open.go:186-215 | as written, the required-tag reading never returns its collected error: a missing tag panics first |
| ImageMeta.RequiredReports | GeoTiff/Open.go:186-215 | the corrected reading fails exactly when a required tag is missing and otherwise yields the five first values Columns, Rows, Photometric, SamplesPerPixel, SampleFormat |
| ImageMeta.PixelIsArea | GeoTiff/Open.go:220-227 | never an error; false when GTRasterTypeGeoKey is absent; when present, a panic exactly when it has no values, and true exactly when its first value is 1 |
| ImageMeta.Epsg | GeoTiff/Open.go:229-233 | the EPSG code is a present ProjectionGeoKey's first value, else a present GeographicTypeGeoKey's first value, else 0; it panics exactly when the key it uses has no values, and is never an error |
| ImageMeta.BuildPalette | GeoTiff/Open.go:273-281 | the colour loop fills exactly n entries, entry i packing channels vals[i], vals[i+n], vals[i+2n] |
| ImageMeta.Palette | GeoTiff/Open.go:273-281 | the palette has exactly n entries, each the packed colour of entry i |
| ImageMeta.PaletteChannels | GeoTiff/Open.go:273-281 | each palette colour has alpha 0xFF and red, green, blue equal to the 16-to-8-bit scaling of vals[i], vals[i+n], vals[i+2n] |
| ImageMeta.ModeOfCases | GeoTiff/Open.go:240-291 | RGB needs equal BitsPerSample: 3 samples give RGB, ExtraSamples 1 gives RGBA, 2 gives NRGBA; Paletted needs a ColorMap of 3n values with 0 < n < 256 and yields its palette; WhiteIsZero gives GrayInvert, BlackIsZero gives Gray; any other interpretation is an error; only Paletted carries a palette |
| ImageMeta.ModeOfComplete | GeoTiff/Open.go:240-291 | conversely, RGB with 3 equal sample sizes gives RGB, 4 equal sizes with ExtraSamples 1 or 2 give RGBA or NRGBA, any other ExtraSamples value, a missing ExtraSamples, unequal sizes or another count is an error, and an empty list panics; a ColorMap of 3n values with 0 < n < 256 gives Paletted with its palette and any other or missing ColorMap is an error; WhiteIsZero gives GrayInvert and BlackIsZero gives Gray |
| ImageMeta.InitMetaRequired | GeoTiff/Open.go:184-215 | a successful initMeta stores the required tags' first values in Columns, Rows, Photometric, SamplesPerPixel and SampleFormat, and a missing required tag makes it fail |
| ImageMeta.InitMetaOptional | GeoTiff/Open.go:216-293 | BitsPerSample is the tag's whole value, PixelIsArea, EPSG and Nodata come from their keys (Nodata empty when absent), and mode and palette are the mode derivation's result |
| Color.ChannelSmall | GeoTiff/Open.go:273-281 | a value below 256 converts to a uint32 channel unchanged |
| Color.PackFields | GeoTiff/Open.go:273-281 | a << 24 \| r << 16 \| g << 8 \| b of four bytes gives each byte back from its own position |
| Color.ScaleEnds | GeoTiff/Open.go:275-277 | the 16-to-8-bit scaling maps 0 to 0 and 0xFFFF to 0xFF and is monotone |
| GeoDataRead.ReadCNone | GeoTiff/GeoData.go:55-65 | uncompressed data is exactly bytes [offset, offset+size) of the file; a short read is an EOF error, never a panic |
| GeoDataRead.PackBitsFrom | GeoTiff/GeoData.go:69-96 | PackBits decoding never returns an error: it succeeds or panics on a truncated run |
| GeoDataRead.ReadCPackBits | GeoTiff/GeoData.go:69-96 | the pos-cursor decoding loop computes exactly the PackBits specification of the raw bytes |
| GeoDataRead.PackBitsConcat | GeoTiff/GeoData.go:73-93 | decoding a concatenation of complete runs is the concatenation of their decodings |
| GeoDataRead.PackBitsDecodesRuns | GeoTiff/GeoData.go:73-93 | round trip: any sequence of valid literal and replicate runs, encoded, decodes to its expansion |
| GeoDataRead.PackBitsExample | GeoTiff/GeoData.go:73-93 | [02 01 02 03 FE 07] decodes to [01 02 03 07 07 07] |
| GeoDataRead.PackBitsHeader128 | GeoTiff/GeoData.go:75-83 | header 128 emits the next byte 129 times (not the no-op of section 9 of TIFF 6.0) and continues after it |
| GeoDataRead.PackBitsTruncated | GeoTiff/GeoData.go:75-91 | a repeat header as the last byte, or a literal run past the end, panics |
| GeoDataRead.Decompress | GeoTiff/GeoData.go:23-54 | an unsupported compression code is an error naming the code; no compression yields the block's bytes exactly when the range is in the file, else the wrapped EOF error; LZW yields the decoder's output on the section; Deflate yields the zlib output or wraps its error; PackBits yields the decoding of the block's bytes, and an unwrapped EOF when the range leaves the file |
| GeoDataRead.Read | GeoTiff/GeoData.go:23-54 | the switch on the compression code, each arm reading and decoding the block, computes exactly the specification Decompress |
| Convert.ConverInt8 | GeoTiff/Convert.go:23-25 | a byte b reads as b when b < 128 and b - 256 otherwise |
| Convert.ConverInt | GeoTiff/Convert.go:11-21 | the signed n-byte reading exists exactly when n bytes are given and lies in [-256^n/2, 256^n/2) |
| Convert.ConverInt16 | GeoTiff/Convert.go:19-21 | defined exactly on 2 or more bytes, with a value in the int16 range |
| Convert.ConverInt32 | GeoTiff/Convert.go:15-17 | defined exactly on 4 or more bytes, with a value in the int32 range |
| Convert.ConverInt64 | GeoTiff/Convert.go:11-13 | defined exactly on 8 or more bytes, with a value in the int64 range |
| Convert.ConverIntRoundTrip | GeoTiff/Convert.go:11-21 | any value in range written as two's complement in either byte order reads back as itself |
| Convert.ConverInt8RoundTrip | GeoTiff/Convert.go:23-25 | any int8 value stored as a byte reads back as itself |
| Pixels.GeoData.ToConver | GeoTiff/Convert.go:27-35 | the nested loops compute exactly the pixel-placement specification for 2-byte slices handed to the converter |
| Pixels.RectFrame | GeoTiff/Convert.go:27-35 | the pixel loops change only indices y*width+x with y in [ymin, ymax) and x in [xmin, xmax) |
| Pixels.RowFrame | GeoTiff/Convert.go:29-33 | one row of the loops changes only indices y*width+x with x in [xmin, xmax) |
| Pixels.RectAdvance | GeoTiff/Convert.go:27-35 | the offset advances by exactly the sample size per pixel (2 for ToConver), whatever the converter |
| Pixels.RowAdvance | GeoTiff/Convert.go:29-33 | one row advances the offset by the sample size times the row's pixel count |
| Pixels.RectContent | GeoTiff/Open.go:455-680 | pixel (x, y) of the block ends as the decoding of the bytes at offset size*((y-ymin)*(xmax-xmin)+(x-xmin)) of the block buffer |
| Pixels.RowContent | GeoTiff/Open.go:459-467 | pixel x of a row ends as the decoding of the bytes at offset size*(x-xmin) from the row's start |
| Pixels.RectPanics | GeoTiff/Open.go:455-680 | the pixel loops can only succeed or panic with an index out of range, never return an error |
| Pixels.RowPanics | GeoTiff/Open.go:459-467 | one row of the loops can only succeed or panic with an index out of range |
| Pixels.Value | GeoTiff/Open.go:455-680 | every non-palette sample decoding succeeds; a palette index succeeds exactly when it is inside the palette, giving that entry's packed value, and otherwise panics |
| Pixels.DecodingOf | GeoTiff/Open.go:455-680 | each sample kind's decoding reads its own byte width, skips past-the-end pixels only for floats, adjusts row ends only for float32, and agrees with Value |
| Pixels.GeoData.constructor | GeoTiff/Open.go:313-317 | a fresh GeoData has an empty buffer, offset 0 and n zero values |
| Pixels.GeoData.Load | GeoTiff/Open.go:420-425 | the block's bytes become the buffer and the offset is reset to 0 |
| Pixels.GeoData.PlacePixel | GeoTiff/Open.go:461-466 | one pixel written as the specification Step: false exactly where the source panics |
| Pixels.GeoData.PlaceRow | GeoTiff/Open.go:461-466 | the inner loop computes exactly the specification Row |
| Pixels.GeoData.Place | GeoTiff/Open.go:455-680 | the nested pixel loops compute exactly the specification Rect |
| Predictor.Undiff | GeoTiff/Open.go:427-453 | a predictor other than horizontal, or a bit depth other than 8 or 16, leaves the buffer unchanged; no BitsPerSample panics; the length never changes |
| Predictor.UndiffRowSums | GeoTiff/Open.go:427-453 | within a fitting row, the first spp words are unchanged, every later word is (word + word spp earlier) mod 2^8 or 2^16 on byte-order-decoded words, and bytes outside the row are unchanged |
| Predictor.UndiffRowRoundTrip | GeoTiff/Open.go:427-453 | round trip: horizontally differencing a row and undoing it gives back the original row |
| Predictor.WordIsUint | GeoTiff/Open.go:436-437 | a predictor word is the byte-order decoding of its 1 or 2 bytes |
| Predictor.AddWord16 | GeoTiff/Open.go:436-438 | one 16-bit step stores the wrapped sum of the word and the word bpp bytes earlier |
| Predictor.AddByte | GeoTiff/Open.go:448 | one 8-bit step stores the byte plus the byte spp earlier, mod 256 |
| Predictor.SumWord16 | GeoTiff/Open.go:435-440 | one 16-bit step advances the row's running sum by one word |
| Predictor.SumByte | GeoTiff/Open.go:447-450 | one 8-bit step advances the row's running sum by one byte |
| Predictor.ReverseRow16 | GeoTiff/Open.go:434-440 | one 16-bit row succeeds exactly when it fits the buffer, and then leaves the buffer as the row's running sums |
| Predictor.ReverseRow8 | GeoTiff/Open.go:446-450 | one 8-bit row succeeds exactly when it fits the buffer, and then leaves the buffer as the row's running sums |
| Predictor.ReverseRows16 | GeoTiff/Open.go:429-441 | the 16-bit row loop computes exactly the specification UndiffRows |
| Predictor.ReverseRows8 | GeoTiff/Open.go:442-451 | the 8-bit row loop computes exactly the specification UndiffRows |
| Predictor.UndiffBlock | GeoTiff/Open.go:427-453 | the in-place predictor reversal computes exactly the specification Undiff |
| ReadData.FirstUint | GeoTiff/Open.go:305-310 | nothing when the tag is absent; when present, a panic exactly when it has no values, otherwise its first value |
| ReadData.SampleOf | GeoTiff/Open.go:455-680 | the sample kind is defined exactly for supported mode, format and bit depth combinations (8/16/32/64-bit integers, 32/64-bit floats) and is none only for an unset mode |
| ReadData.SampleWidths | GeoTiff/Open.go:455-680 | grey integer samples are BitsPerSample/8 bytes wide and unsigned exactly for format 1; floats are the only guarded kinds; paletted samples index the palette |
| ReadData.TiledGeometry | GeoTiff/Open.go:325-343 | a tiled layout takes TileWidth and TileLength (both positive), blocksAcross = ceil(width/tileW), blocksDown = ceil(height/tileH), and the tile offsets and counts |
| ReadData.TiledFields | GeoTiff/Open.go:325-343 | the layout's width and height are Columns and Rows, and it is tiled exactly when TileWidth's first value is non-zero |
| ReadData.StripFields | GeoTiff/Open.go:344-356 | the strip branch, as written, takes no offsets, one block across, and one block of the image's full height |
| ReadData.StripAlwaysPanics | GeoTiff/Open.go:311-356 | with TileWidth absent or 0, reading the data panics whatever the file holds |
| ReadData.ReadDataTiled | GeoTiff/Open.go:325-343 | data can be read only from a tiled image with TileLength present |
| ReadData.TiledBlockSizes | GeoTiff/Open.go:371-380 | in a tiled layout every block has the full tile width and height |
| ReadData.BlockInImage | GeoTiff/Open.go:413-419 | every block's rectangle, clipped by minInt, is non-empty and inside the image |
| ReadData.BlockIndexInImage | GeoTiff/Open.go:413-419 | every index y*width+x written for a block is below width*height |
| ReadData.BlockEntry | GeoTiff/Open.go:381-382 | the entry index j*blocksAcross+i of every block (i, j) of the grid is below blocksAcross*blocksDown, and distinct blocks get distinct indices |
| ReadData.ReadDataSpec | GeoTiff/Open.go:301-682 | a successful read yields exactly Columns*Rows values |
| Errors.CreateWithoutOptions | GeoTiff/Error.go:41-53 | a creator with no options yields {Err: nil, Function: name, Msg: ""}, whose text is "[name]: <nil>\n" |
| Errors.ApplyChangesOneField | GeoTiff/Error.go:20-39 | each option changes only its own field, and WithErrorText(t) sets an error whose text is t |
| Errors.ApplyAllSplit | GeoTiff/Error.go:48-50 | options apply left to right: applying a + b is applying a, then b |
| Errors.LastOptionWins | GeoTiff/Error.go:41-53 | each field ends as set by the last option touching it, or keeps the creator's default |
| Errors.OptionsKeepErr | GeoTiff/Error.go:20-29 | options that do not touch Err leave it as it was |
| Errors.ErrorStringIgnoresMsg | GeoTiff/Error.go:14-16 | Error() depends only on Function and Err: Msg never appears |
| Errors.CollectInto | GeoTiff/Open.go:96-114 | the entry loop fills the array with every step's value, or stops at the first failing step with that step's outcome and leaves later slots untouched |
| Errors.CollectFrom | GeoTiff/Open.go:96-114 | a successful collection holds exactly one value per step, in order |
| Errors.CollectAll | GeoTiff/Open.go:131-167 | a successful collection from 0 holds exactly one value per step, in order |
| Errors.CollectStops | GeoTiff/Open.go:96-114 | a failed collection returns the outcome of the first failing step, every earlier step having succeeded |
| GeoTiff.GeoTif.constructor | GeoTiff/Open.go:11-21 | a fresh GeoTif over the file's bytes with no attributes, keys or metadata |
| GeoTiff.GeoTif.CheckBigOrLittle | GeoTiff/Open.go:54-70 | sets the byte order from the header exactly when it is recognised, and returns the error otherwise |
| GeoTiff.GeoTif.ReadAttribute | GeoTiff/Open.go:72-118 | sets the directory offset and entries as read (keeping the attributes for offset 0) or returns the read's error or panic |
| GeoTiff.GeoTif.ParseGeoKeys | GeoTiff/Open.go:120-171 | sets the GeoKeys as parsed (unchanged when there are 0 keys) or returns the error or panic |
| GeoTiff.GeoTif.InitMeta | GeoTiff/Open.go:184-293 | sets Meta to the specification InitMeta or returns its error or panic |
| GeoTiff.GeoTif.InitFields | GeoTiff/Open.go:184-237 | sets Meta's tag-derived fields as the specification MetaFields |
| GeoTiff.GeoTif.SetMode | GeoTiff/Open.go:240-291 | sets only Meta's mode and palette, as the mode derivation gives them |
| GeoTiff.GeoTif.ReadData | GeoTiff/Open.go:301-682 | on success holds fresh data equal to the specification ReadDataSpec; on failure returns its outcome and keeps the old data |
| GeoTiff.GeoTif.ReadBlocksInto | GeoTiff/Open.go:313-380 | a fresh Columns*Rows zero array filled block by block as the specification Across |
| GeoTiff.GeoTif.Open | GeoTiff/Open.go:22-51 | the open stages together compute exactly OpenSpec |
| GeoTiff.GeoTif.OpenDirectory | GeoTiff/Open.go:33-48 | the stages after the byte order compute the matching part of OpenSpec |
| GeoTiff.GeoTif.OpenKeys | GeoTiff/Open.go:37-48 | the stages after the directory compute the matching part of OpenSpec |
| GeoTiff.GeoTif.OpenMeta | GeoTiff/Open.go:41-48 | the metadata and data stages compute the matching part of OpenSpec |
| GeoTiff.ReadBlock | GeoTiff/Open.go:381-680 | reading, decompressing, un-predicting and placing one block computes exactly the specification Block |
| GeoTiff.LoadBlock | GeoTiff/Open.go:420-680 | from the decompressed bytes on, one block computes exactly the specification AfterDecompress |
| GeoTiff.PlaceSamples | GeoTiff/Open.go:455-680 | the mode switch places the block's samples exactly as the specification PlaceBlock |
| GeoTiff.ReadColumn | GeoTiff/Open.go:376-680 | the inner block loop computes exactly the specification Column |
| GeoTiff.ReadBlocks | GeoTiff/Open.go:371-680 | the outer block loop computes exactly the specification Across |
| GeoTiff.OpenGeoTif | GeoTiff/Open.go:11-21 | a successful open gives a fresh GeoTif holding the specification image; a failure is wrapped as an "OpenGeoTif" error |
| GeoTiff.OpenStages | GeoTiff/Open.go:22-51 | an opened image has the header's byte order, the directory's offset and entries, the parsed GeoKeys, Meta equal to InitMeta, and Data equal to ReadDataSpec |
| GeoTiff.OpenImage | GeoTiff/Open.go:22-51 | an opened file starts with a recognised header, its order matches the header, its offset is the u32 at 4, it is tiled, its mode is set, and it has Columns*Rows values |
| GeoTiff.NoDirectoryFails | GeoTiff/Open.go:120-125 | a file whose directory offset is 0 has no GeoKeyDirectory, so opening it is an error |
| GeoTiff.OpenGeoTifErrors | GeoTiff/Open.go:11-21 | an open error is wrapped as GeoError{Err: the error, Function: "OpenGeoTif"}; panics and successes pass through |
| Wkt.GetAttributeAndCheck | GeoTiff/WKT.go:21-32 | fails when the tag is missing or has fewer than `size` values, panics where the value conversion panics, and otherwise returns the whole converted slice |
| Wkt.ResolutionChoice | GeoTiff/WKT.go:99-115 | PixelScale (at least 3 values) gives [v0, -v1, v2], else ModelTransformation (at least 16) gives [v0, v5, v10], else the resolution is unchanged |
| Wkt.InitEmpty | GeoTiff/WKT.go:36-45 | Init with no attributes sets Data to the identity [0,1,0,0,0,1] and fails |
| Wkt.TransformationFirst | GeoTiff/WKT.go:50-56 | a ModelTransformation with at least 16 values takes precedence: Data = [v3, v0, v1, v7, v4, v5], tiepoints unchanged, Resolution = [v3, v4, 0] |
| Wkt.TiepointBranch | GeoTiff/WKT.go:57-76 | otherwise ModelTiepoint gives Data = [Res0, 0, x, 0, Res1, y] of the last tuple, panics when its length is not a multiple of 6, and stores every tuple in slot 0 so slot 0 holds the last and the rest stay zero |
| Wkt.ScaleData | GeoTiff/WKT.go:78-83 | the pixel-scale transform has Data1 = s0, Data5 = -\|s1\| and zero elsewhere |
| Wkt.OriginUnused | GeoTiff/WKT.go:78-89 | in the pixel-scale branch the tiepoint is always missing, so the origin shift never applies and Data0 = Data3 = 0 |
| Wkt.NoEncodingFails | GeoTiff/WKT.go:90-92 | with no transformation, tiepoint or pixel scale, Init fails with "can not init t.Data" |
| Wkt.ResolutionEnd | GeoTiff/WKT.go:93-95 | on success Data has 6 values and Resolution ends as [Data0, Data4, 0], whatever initResolution set |
| Wkt.Transform.constructor | GeoTiff/WKT.go:9-15 | a zero transform: zero Data and Resolution, no tiepoints, both flags false |
| Wkt.Transform.InitResolution | GeoTiff/WKT.go:99-115 | sets Resolution to the specification ResolutionOf |
| Wkt.Transform.StoreTiePoints | GeoTiff/WKT.go:59-70 | stores the tiepoint array as the specification TiePointsOf, or panics on a length not divisible by 6 |
| Wkt.Transform.SelectData | GeoTiff/WKT.go:50-92 | the encoding precedence sets Data (and the tiepoints) as the specification DataOf; an error leaves Data at the identity |
| Wkt.Transform.SelectTiepoint | GeoTiff/WKT.go:57-92 | the branches after the transformation set Data as FromTiepoint |
| Wkt.Transform.SelectScale | GeoTiff/WKT.go:78-92 | the pixel-scale branch sets Data as FromScale |
| Wkt.Transform.SetPointOrigin | GeoTiff/WKT.go:80-88 | the origin and half-pixel adjustment sets Data as PointOrigin |
| Wkt.Transform.Init | GeoTiff/WKT.go:35-97 | Init returns the specification's outcome and, unless it panics, leaves Data, TilePoints and Resolution as InitSpec |
| Wkt.Transform.InitRest | GeoTiff/WKT.go:47-97 | the steps after the identity is set return and leave the state as the specification Resolved |
| Datas.StringToUint32 | Datas/Strings.go:3-15 | one value per rune, in order, value i being rune i |
| Datas.StringToUint16 | Datas/Strings.go:17-29 | one value per rune, in order, value i being rune i mod 2^16 |
| Datas.RunesRoundTrip | Datas/Strings.go:3-15 | the int32 values give back the string: nothing is lost |
| Datas.RuneRanges | Datas/Strings.go:3-29 | int32 values are code points below 0x110000; uint16 values are below 2^16 and equal the int32 value mod 2^16 |
| Datas.EmptyString | Datas/Strings.go:3-29 | the empty string gives no values |
| Datas.RunesAgree | Datas/Strings.go:3-29 | the two conversions agree element by element exactly when every rune is below 65536 |
| Datas.RunesAppend | Datas/Strings.go:3-29 | both conversions work rune by rune: a concatenation gives the concatenation of the values |

## Left out

- LZW and zlib decompression (GeoTiff/GeoData.go:29-44) call Go's `compress/lzw` and `compress/zlib`. They are the opaque parameter `GeoDataRead.Codecs`: LZW is a total function and zlib may fail.
- IEEE-754 reinterpretation (`math.Float32frombits`/`Float64frombits`) is the parameter `Attributes.Ieee`. Float arithmetic is not modelled.
- Color.Scale: 16-to-8-bit scaling, whether in palette channels or RGB16/RGBA16 pixels, is v*255/65535 rounded down. The source computes it in float64 and truncates. Float rounding is not modelled, so only the endpoints and monotonicity are stated.
- `os.Open` and the `io.ReaderAt` file (GeoTiff/Open.go:25-28, GeoTiff/GeoTif.go:120-130) are replaced by the file's bytes. A short `ReadAt` is a failure, and the file is never closed.
- Go's fixed-width `uint`/`int` are unbounded here. The model assumes width*height, block offsets and counts do not overflow a 64-bit int.
- The result of `checkAllIsFirst` is written back into `Meta.BitsPerSample[0]` (GeoTiff/Open.go:242), which aliases the attribute's `uint` slice. On success the value written is the one already there. On failure it writes 0 just before initMeta returns its error. That write, and the sharing of the slice, are not modelled.
- GeoKeys get tag 0 and the key id is dropped, as in the source. The model does not resolve the cached `Tag`.
- `GeoTif.String`, `toString`, `toBytes`, `getValue` (GeoTiff/GeoTif.go:73-116, 232-238) are not modelled: they are pretty-printing and an `interface{}` accessor.
- `fmt` formatting is modelled only as far as `Errors.ErrorString` needs it. That covers `[%s]: %v` with decimal and hexadecimal numbers; `% x` byte dumps are not modelled.
- `Datas/Structs.go`, `compress/`, `FileDirUtils/`, `Flags/` and `test/` are not part of this model. They are file, zip and flag I/O wrappers and experiments.
- Datas.StringToUint32: a Go string is UTF-8 bytes. Here it is already a sequence of Unicode scalar values, so UTF-8 decoding and the U+FFFD substitution of invalid bytes are not modelled.
- Wkt.Transform.Init: the state left behind by a panic is not stated, only that the panic is returned.
- GeoTiff.GeoTif.Open: the state left behind by a failed stage is not stated, only the outcome.
- `transform.Init` is never called by `open`. `Wkt` models it on its own, taking the attributes as input.
- Pixels.Value: float32/float64 grey samples use the `Ieee` parameter. The float32 loop's odd offset adjustment at row ends (GeoTiff/Open.go:551-553) is modelled as written, but its effect is not characterised by a lemma.
- Attributes.AttrBytes: uses the corrected size table, so a data type code of 13 or a negative code gives 0 (and parseValue then fails) where geoAttribute.Bytes as written indexes past the table and panics (GeoTiff/Const.go:77-82, reached from GeoTiff/Open.go:101). The as-written guard is modelled separately (see Findings).
- ImageMeta.InitMeta: reads the required tags through the corrected Required, so a missing ImageWidth, ImageLength, PhotometricInterpretation, SamplesPerPixel or SampleFormat is an initMeta error, where the source as written panics on the `[0]` index first (see Findings).
- ImageMeta.InitMetaRequired: states the corrected behaviour of a missing required tag (an error); the as-written panic is ImageMeta.RequiredErrorUnreachable.
- Pixels.PixelAt: a block buffer is bounded by its length. Go slices `buf[off:off+n]` up to the slice's capacity, which exceeds its length after PackBits (`make([]byte, 0, len(srcBuf))` plus `append`, GeoTiff/GeoData.go:72) and after the `io.ReadAll` of LZW and zlib. There Go reads zero bytes past the end where the model panics. For uncompressed blocks capacity equals length and the model is exact; the 8-bit and palette reads index the buffer and use its length, as modelled.
- Pixels.GeoData.PlacePixel: the same length bound as Pixels.PixelAt.
- Pixels.GeoData.ToConver: the same length bound as Pixels.PixelAt for the 2-byte slices of the converter (GeoTiff/Convert.go:27-35). The converter is a total function from bytes to a real, so a caller-given conversion that panics in Go cannot be expressed.
- Predictor.UndiffRow: the 16-bit horizontal predictor slices `buf[off:off+2]` (GeoTiff/Open.go:436-438), which Go allows up to capacity and writes there beyond the length; the model panics once a word leaves the length. The 8-bit predictor indexes the buffer and is exact.
- Predictor.ReverseRow16: the same length bound as Predictor.UndiffRow.
- `GeoTiff.GeoTif.Open`, `OpenDirectory`, `OpenKeys`, `OpenMeta`, `Wkt.Transform.InitRest`, `GeoTiff.LoadBlock` and `GeoTiff.PlaceSamples` split single Go functions into consecutive steps. Together they perform the same sequence of updates as the Go function.

## Findings

| source | as written | input that shows it | evidently intended | confidence | as-written member | corrected member |
|---|---|---|---|---|---|---|
| GeoTiff/Const.go:77-82 | the guard `dt == 0 \|\| int(dt) > len(DataTypeLen)` lets `dt == 13` and negative codes through to index the 13-entry table | data type code 13 (or -1) in a directory entry | codes outside 1..12 have size 0 | not executed | Consts.BytesGuardOffByOne | Consts.TypeBytes |
| GeoTiff/Open.go:186-215 | each required tag's `[0]` is read before the collected errors are checked, so a missing tag panics and the error is never returned | an image with no ImageWidth tag | a missing required tag is reported as an initMeta error | not executed | ImageMeta.RequiredErrorUnreachable | ImageMeta.RequiredReports |
