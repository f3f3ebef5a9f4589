/** GeoData.go: reading one block of pixel data with the file's compression,
    and the PackBits decoder. */
module GeoDataRead {
  import opened Errors
  import opened Binary
  import opened Consts

  /** What Go's compress/zlib reader yields for a section: the bytes read, or
      the error that NewReader or Close reports. */
  datatype CodecResult = Decoded(bytes: seq<byte>) | CodecError(err: ErrorValue)

  /** compress/lzw (MSB order, 8-bit literals) and compress/zlib as functions of
      the compressed section. The LZW function yields whatever io.ReadAll read
      before any error: the reader discards that error (it is overwritten by
      Close, which returns nil). */
  datatype Codecs = Codecs(lzw: seq<byte> -> seq<byte>, zlib: seq<byte> -> CodecResult)

  /** io.NewSectionReader(file, offset, size): the existing bytes of
      [offset, offset+size). */
  function Section(file: seq<byte>, offset: nat, size: nat): (s: seq<byte>)
    ensures |s| <= size
  {
    if offset >= |file| then []
    else if offset + size <= |file| then file[offset..offset + size]
    else file[offset..]
  }

  /** The error ReadAt returns when the file ends first. */
  const EOF := Text("EOF")

  /** readCNone on a plain io.ReaderAt: `size` bytes at `offset`; a short read
      returns io.EOF. */
  function ReadCNone(file: seq<byte>, offset: nat, size: nat): (r: Result<seq<byte>>)
    ensures !r.Panic?
    ensures r.Ok? <==> size == 0 || offset + size <= |file|
    ensures r.Ok? ==> |r.value| == size && (size > 0 ==> r.value == file[offset..offset + size])
    ensures r.Fail? ==> r.error == EOF
  {
    if size == 0 then Ok([])
    else if offset + size <= |file| then Ok(file[offset..offset + size])
    else Fail(EOF)
  }

  // ---------------------------------------------------------------------------
  // PackBits

  /** `n` copies of `b`. */
  function Repeat(b: byte, n: nat): (r: seq<byte>)
    ensures |r| == n && forall i :: 0 <= i < n ==> r[i] == b
  {
    seq(n, _ => b)
  }

  /** The decoding loop of readCPackBits from cursor `pos`. A header h > 127
      emits the next byte 256-h+1 times and advances 2; otherwise the next h+1
      bytes are copied and the cursor advances h+2. Indexing past the input
      panics. */
  function PackBitsFrom(src: seq<byte>, pos: nat): (r: Result<seq<byte>>)
    requires pos <= |src|
    ensures !r.Fail?
    decreases |src| - pos
  {
    if pos == |src| then Ok([])
    else
      var h := src[pos];
      if h > 127 then
        if pos + 1 >= |src| then Panic(OutOfRange)
        else Prepend(Repeat(src[pos + 1], 256 - h + 1), PackBitsFrom(src, pos + 2))
      else
        if pos + h + 1 >= |src| then Panic(OutOfRange)
        else Prepend(src[pos + 1..pos + h + 2], PackBitsFrom(src, pos + h + 2))
  }

  /** The decoding of a whole input. */
  function PackBits(src: seq<byte>): Result<seq<byte>> {
    PackBitsFrom(src, 0)
  }

  /** readCPackBits: the raw bytes [offset, offset+size), decoded. A failed raw
      read is returned as it is, not wrapped. */
  function ReadCPackBitsSpec(file: seq<byte>, offset: nat, size: nat): Result<seq<byte>> {
    var src :- ReadCNone(file, offset, size);
    PackBits(src)
  }

  /** readCPackBits, appending to `buf` with a `pos` cursor. */
  method ReadCPackBits(file: seq<byte>, offset: nat, size: nat) returns (r: Result<seq<byte>>)
    ensures r == ReadCPackBitsSpec(file, offset, size)
  {
    var raw := ReadCNone(file, offset, size);
    if !raw.Ok? {
      return raw;
    }
    var src := raw.value;
    var buf: seq<byte> := [];
    var pos := 0;
    assert Prepend(buf, PackBitsFrom(src, pos)) == PackBits(src) by {
      if PackBits(src).Ok? {
        assert buf + PackBits(src).value == PackBits(src).value;
      }
    }
    while pos < |src|
      invariant pos <= |src|
      invariant PackBits(src) == Prepend(buf, PackBitsFrom(src, pos))
      decreases |src| - pos
    {
      var header := src[pos];
      if header > 127 {
        if pos + 1 >= |src| {
          return Panic(OutOfRange);
        }
        var copyCount := 256 - header;
        var copyByte := src[pos + 1];
        var buf0 := buf;
        for i := 0 to copyCount + 1
          invariant buf == buf0 + Repeat(copyByte, i)
        {
          buf := buf + [copyByte];
        }
        PrependPrepend(buf0, Repeat(copyByte, copyCount + 1), PackBitsFrom(src, pos + 2));
        pos := pos + 2;
      } else {
        if pos + header + 1 >= |src| {
          return Panic(OutOfRange);
        }
        var start := pos;
        var buf0 := buf;
        for i := 0 to header + 1
          invariant pos == start + i
          invariant buf == buf0 + src[start + 1..pos + 1]
        {
          pos := pos + 1;
          buf := buf + [src[pos]];
        }
        PrependPrepend(buf0, src[start + 1..start + header + 2], PackBitsFrom(src, start + header + 2));
        pos := pos + 1;
      }
    }
    assert buf + [] == buf;
    r := Ok(buf);
  }

  /** A PackBits run: a literal of 1 to 128 bytes, or 2 to 129 copies of a byte. */
  datatype Run = Literal(bytes: seq<byte>) | Replicate(count: nat, value: byte)

  predicate ValidRun(run: Run) {
    match run
    case Literal(bs) => 1 <= |bs| <= 128
    case Replicate(n, _) => 2 <= n <= 129
  }

  /** The header and data bytes of a run. */
  function EncodeRun(run: Run): seq<byte>
    requires ValidRun(run)
  {
    match run
    case Literal(bs) => [|bs| - 1] + bs
    case Replicate(n, v) => [257 - n, v]
  }

  /** The bytes a run stands for. */
  function Expand(run: Run): seq<byte> {
    match run
    case Literal(bs) => bs
    case Replicate(n, v) => Repeat(v, n)
  }

  function EncodeRuns(runs: seq<Run>): seq<byte>
    requires forall i :: 0 <= i < |runs| ==> ValidRun(runs[i])
  {
    if runs == [] then [] else EncodeRun(runs[0]) + EncodeRuns(runs[1..])
  }

  function ExpandRuns(runs: seq<Run>): seq<byte> {
    if runs == [] then [] else Expand(runs[0]) + ExpandRuns(runs[1..])
  }

  /** Decoding a concatenation whose first part decodes completely is the
      concatenation of the decodings. */
  lemma {:induction false} PackBitsConcat(a: seq<byte>, b: seq<byte>, pos: nat)
    requires pos <= |a| && PackBitsFrom(a, pos).Ok?
    ensures PackBitsFrom(a + b, pos) == Prepend(PackBitsFrom(a, pos).value, PackBits(b))
    decreases |a| - pos
  {
    var ab := a + b;
    if pos == |a| {
      if b == [] {
        assert ab == a;
      } else {
        PackBitsShift(a, b, 0);
        if PackBits(b).Ok? {
          assert [] + PackBits(b).value == PackBits(b).value;
        }
      }
    } else {
      var h := a[pos];
      assert ab[pos] == h;
      if h > 127 {
        assert ab[pos + 1] == a[pos + 1];
        PackBitsConcat(a, b, pos + 2);
        PrependPrepend(Repeat(a[pos + 1], 256 - h + 1), PackBitsFrom(a, pos + 2).value, PackBits(b));
      } else {
        assert ab[pos + 1..pos + h + 2] == a[pos + 1..pos + h + 2];
        PackBitsConcat(a, b, pos + h + 2);
        PrependPrepend(a[pos + 1..pos + h + 2], PackBitsFrom(a, pos + h + 2).value, PackBits(b));
      }
    }
  }

  /** Decoding from position |a| + pos of a + b is decoding b from pos. */
  lemma {:induction false} PackBitsShift(a: seq<byte>, b: seq<byte>, pos: nat)
    requires pos <= |b|
    ensures PackBitsFrom(a + b, |a| + pos) == PackBitsFrom(b, pos)
    decreases |b| - pos
  {
    var ab := a + b;
    var p := |a| + pos;
    if pos < |b| {
      var h := b[pos];
      assert ab[p] == h;
      if h > 127 {
        if pos + 1 < |b| {
          assert ab[p + 1] == b[pos + 1];
          PackBitsShift(a, b, pos + 2);
        }
      } else {
        if pos + h + 1 < |b| {
          assert ab[p + 1..p + h + 2] == b[pos + 1..pos + h + 2];
          PackBitsShift(a, b, pos + h + 2);
        }
      }
    }
  }

  /** Every sequence of valid runs is decoded to the bytes it stands for. */
  lemma {:induction false} PackBitsDecodesRuns(runs: seq<Run>)
    requires forall i :: 0 <= i < |runs| ==> ValidRun(runs[i])
    ensures PackBits(EncodeRuns(runs)) == Ok(ExpandRuns(runs))
    decreases |runs|
  {
    if runs != [] {
      var e := EncodeRun(runs[0]);
      assert PackBits(e) == Ok(Expand(runs[0])) by {
        match runs[0]
        case Literal(bs) =>
          assert e[0] == |bs| - 1 && |e| == |bs| + 1;
          assert e[1..|bs| + 1] == bs;
          assert PackBitsFrom(e, |bs| + 1) == Ok([]);
          assert bs + [] == bs;
        case Replicate(n, v) =>
          assert e[0] == 257 - n && e[1] == v && |e| == 2;
          assert PackBitsFrom(e, 2) == Ok([]);
          assert Repeat(v, n) + [] == Repeat(v, n);
      }
      PackBitsDecodesRuns(runs[1..]);
      PackBitsConcat(e, EncodeRuns(runs[1..]), 0);
    }
  }

  /** [02 01 02 03 FE 07]: a three-byte literal, then 0xFE repeats 07 three times. */
  lemma PackBitsExample()
    ensures PackBits([0x02, 0x01, 0x02, 0x03, 0xFE, 0x07]) == Ok([0x01, 0x02, 0x03, 0x07, 0x07, 0x07])
  {
    var src: seq<byte> := [0x02, 0x01, 0x02, 0x03, 0xFE, 0x07];
    assert src[4] == 0xFE && src[5] == 0x07 && src[0] == 0x02;
    assert PackBitsFrom(src, 6) == Ok([]);
    assert Repeat(0x07, 3) == [0x07, 0x07, 0x07];
    assert PackBitsFrom(src, 4) == Prepend(Repeat(0x07, 3), PackBitsFrom(src, 6));
    assert [0x07, 0x07, 0x07] + [] == [0x07, 0x07, 0x07];
    assert PackBitsFrom(src, 0) == Prepend(src[1..4], PackBitsFrom(src, 4));
    assert src[1..4] == [0x01, 0x02, 0x03];
    assert [0x01, 0x02, 0x03] + [0x07, 0x07, 0x07] == [0x01, 0x02, 0x03, 0x07, 0x07, 0x07];
    assert PackBits(src) == Ok([0x01, 0x02, 0x03, 0x07, 0x07, 0x07]);
  }

  /** Header 128 (-128 as a signed byte) emits 129 copies of the next byte
      and consumes it, where section 9 of TIFF 6.0 makes it a no-op. */
  lemma PackBitsHeader128(v: byte, rest: seq<byte>)
    ensures PackBits([128, v] + rest) == Prepend(Repeat(v, 129), PackBits(rest))
  {
    PackBitsShift([128, v], rest, 0);
  }

  /** A repeat header with no byte after it, and a literal run longer than the
      remaining input, index past the input. */
  lemma PackBitsTruncated(h: byte, tail: seq<byte>)
    ensures h > 127 ==> PackBits([h]).Panic?
    ensures h <= 127 && |tail| <= h ==> PackBits([h] + tail).Panic?
  {
  }

  // ---------------------------------------------------------------------------
  // geoDataReader.read

  /** geoDataReader.read: the bytes of block [offset, offset+size) after the
      compression named by `compression`, compared with the constants in the
      order the switch lists them. */
  function Decompress(file: seq<byte>, codecs: Codecs, ext: Externals, compression: nat,
                      offset: nat, size: nat): (r: Result<seq<byte>>)
    ensures compression !in {ext.cNone, ext.cLZW, ext.cDeflate, ext.cDeflateOld, ext.cPackBits} ==>
      r == Raise([WithFunction("geoDataReader.read"),
                  WithErrorText("Unsupported compression value " + Decimal(compression))])
    ensures compression == ext.cNone ==>
      !r.Panic? && (r.Ok? <==> size == 0 || offset + size <= |file|) &&
      (r.Ok? && size > 0 ==> r.value == file[offset..offset + size]) &&
      (r.Ok? && size == 0 ==> r.value == []) &&
      (r.Fail? ==> r.error == Geo(Create("", [WithFunction("geoDataReader.read"), WithError(Some(EOF))])))
    ensures compression == ext.cLZW && compression != ext.cNone ==>
      r == Ok(codecs.lzw(Section(file, offset, size)))
    ensures compression in {ext.cDeflate, ext.cDeflateOld} && compression !in {ext.cNone, ext.cLZW} ==>
      (codecs.zlib(Section(file, offset, size)).Decoded? ==> r == Ok(codecs.zlib(Section(file, offset, size)).bytes)) &&
      (codecs.zlib(Section(file, offset, size)).CodecError? ==>
         r.Fail? && r.error == Geo(Create("", [WithFunction("geoDataReader.read"),
                                               WithError(Some(codecs.zlib(Section(file, offset, size)).err))])))
    ensures compression == ext.cPackBits && compression !in {ext.cNone, ext.cLZW, ext.cDeflate, ext.cDeflateOld} ==>
      (size > 0 && offset + size <= |file| ==> r == PackBits(file[offset..offset + size])) &&
      (size == 0 ==> r == Ok([])) &&
      (size > 0 && offset + size > |file| ==> r == Fail(EOF))
  {
    if compression == ext.cNone then
      assert [WithFunction("geoDataReader.read")] + [WithError(Some(EOF))] + [] ==
             [WithFunction("geoDataReader.read"), WithError(Some(EOF))];
      ReadCNone(file, offset, size).Wrap([WithFunction("geoDataReader.read")], [])
    else if compression == ext.cLZW then
      Ok(codecs.lzw(Section(file, offset, size)))
    else if compression == ext.cDeflate || compression == ext.cDeflateOld then
      match codecs.zlib(Section(file, offset, size))
      case Decoded(b) => Ok(b)
      case CodecError(e) => Raise([WithFunction("geoDataReader.read"), WithError(Some(e))])
    else if compression == ext.cPackBits then
      ReadCPackBitsSpec(file, offset, size)
    else
      Raise([WithFunction("geoDataReader.read"),
             WithErrorText("Unsupported compression value " + Decimal(compression))])
  }

  /** geoDataReader.read: the switch on the compression code. */
  method Read(file: seq<byte>, codecs: Codecs, ext: Externals, compression: nat,
              offset: nat, size: nat) returns (r: Result<seq<byte>>)
    ensures r == Decompress(file, codecs, ext, compression, offset, size)
  {
    if compression == ext.cNone {
      var raw := ReadCNone(file, offset, size);
      if raw.Fail? {
        return Raise([WithFunction("geoDataReader.read"), WithError(Some(raw.error))]);
      }
      r := raw;
    } else if compression == ext.cLZW {
      var section := Section(file, offset, size);
      r := Ok(codecs.lzw(section));
    } else if compression == ext.cDeflate || compression == ext.cDeflateOld {
      var section := Section(file, offset, size);
      var decoded := codecs.zlib(section);
      if decoded.CodecError? {
        return Raise([WithFunction("geoDataReader.read"), WithError(Some(decoded.err))]);
      }
      r := Ok(decoded.bytes);
    } else if compression == ext.cPackBits {
      r := ReadCPackBits(file, offset, size);
    } else {
      r := Raise([WithFunction("geoDataReader.read"),
                  WithErrorText("Unsupported compression value " + Decimal(compression))]);
    }
  }
}
