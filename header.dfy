/** Open.go, the TIFF header: byte-order detection (checkBigOrLittle) and the
    image file directory (readAttribute). */
module Header {
  import opened Errors
  import opened Binary
  import opened Consts
  import opened Attributes
  import opened Color

  // ---------------------------------------------------------------------------
  // checkBigOrLittle

  /** checkBigOrLittle: the first four bytes read big-endian select the byte
      order; a short file or any other magic number is an error. `[% x]`
      prints the number in lower-case hex after a space. */
  function ByteOrderOf(file: seq<byte>): (r: Result<ByteOrder>)
    ensures !r.Panic?
    ensures r == Ok(LittleEndian) <==> |file| >= 4 && file[..4] == LittleHeader
    ensures r == Ok(BigEndian) <==> |file| >= 4 && file[..4] == BigHeader
  {
    var data := ReadFile(file, 0, 4);
    if data.Ok? then
      var magic := Uint32(BigEndian, Visible(data.value));
      assert Visible(data.value)[..4] == file[..4];
      MagicHeaders(file[..4]);
      if magic == LittleEndianMagic then Ok(LittleEndian)
      else if magic == BigEndianMagic then Ok(BigEndian)
      else Raise([WithFunction("checkBigOrLittle"),
                  WithError(Some(Text("undefined byte order [ " + LowerHex(magic) + "]")))])
    else data.Wrap([], []).PropagateFailure()
  }

  // ---------------------------------------------------------------------------
  // readAttribute

  /** The header offset read at file offset 4 and the directory entries read
      from it; offset 0 means there is no directory. */
  datatype Directory = Directory(offset: nat, entries: seq<Attribute>)

  /** An entry whose values take more than four bytes keeps, in place of
      them, their file offset, and its SourceValue becomes the Bytes() bytes
      read there. */
  function Fetch(file: seq<byte>, order: ByteOrder, a: Attribute, i: nat): (r: Result<Attribute>)
    requires a.source.len == 4
  {
    var total := AttrBytes(a);
    if total > 4 then
      var off := Uint32(order, Visible(a.source));
      var data := ReadFile(file, off, total);
      if data.Ok? then Ok(a.(offset := off, source := data.value))
      else data.Wrap([WithFunction("readAttribute")],
                     [WithErrorText("for[" + Decimal(i) + "] read realSourceData")]).PropagateFailure()
    else Ok(a)
  }

  /** Entry i of the directory table: its 12 bytes decoded, its value fetched,
      its values parsed. */
  function Entry(file: seq<byte>, order: ByteOrder, table: Slice, i: nat): (r: Result<Attribute>)
    requires 12 * i + 12 <= table.len
  {
    var raw := Reslice(table, 12 * i, 12 * i + 12).value;
    var a := NewGeoAttribute(raw, order).value;
    var fetched := Fetch(file, order, a, i);
    if fetched.Ok? then
      Parsed(fetched.value, order).Wrap([WithFunction("readAttribute")],
                                        [WithErrorText("for[" + Decimal(i) + "] parse value")])
    else fetched
  }

  /** The loop body of readAttribute as a step over entry indices. */
  function EntryStep(file: seq<byte>, order: ByteOrder, table: Slice): nat --> Result<Attribute> {
    (i: nat) requires 12 * i + 12 <= table.len => Entry(file, order, table, i)
  }

  /** readAttribute: the u32 at offset 4 locates the directory; the u16 there
      counts its 12-byte entries, which follow it. */
  function ReadDirectory(file: seq<byte>, order: ByteOrder): Result<Directory> {
    var head :- ReadFile(file, 4, 4).Wrap([WithFunction("readAttribute")], []);
    var offset := Uint32(order, Visible(head));
    if offset == 0 then Ok(Directory(0, []))
    else
      var entries :- EntriesAt(file, order, offset);
      Ok(Directory(offset, entries))
  }

  /** The entry count of the directory at a non-zero offset and the table of
      12-byte entries that follows it. */
  function TableAt(file: seq<byte>, order: ByteOrder, offset: nat): (r: Result<(Slice, nat)>)
    ensures r.Ok? ==> 12 * r.value.1 <= r.value.0.len
  {
    var count :- ReadFile(file, offset, 2).Wrap([WithFunction("readAttribute")], []);
    var num := Uint16(order, Visible(count));
    var table :- ReadFile(file, offset + 2, 12 * num).Wrap([WithFunction("readAttribute")], []);
    Ok((table, num))
  }

  /** The entries of the directory at a non-zero offset. */
  function EntriesAt(file: seq<byte>, order: ByteOrder, offset: nat): Result<seq<Attribute>> {
    var t :- TableAt(file, order, offset);
    Collect(EntryStep(file, order, t.0), 0, t.1)
  }

  /** What entry `a` holds when its 12 bytes start at file offset e: tag, type
      and count read in the file's order; the four value bytes kept when the
      values fit in them, otherwise read at the offset they encode; the values
      parsed from that source. */
  predicate EntryAt(file: seq<byte>, order: ByteOrder, e: nat, a: Attribute) {
    e + 12 <= |file| &&
    a.tag == Uint16(order, file[e..e + 2]) &&
    a.typ == ToSigned(Uint16(order, file[e + 2..e + 4]), 2) &&
    a.len == Uint32(order, file[e + 4..e + 8]) &&
    (AttrBytes(a) <= 4 ==> a.offset == 0 && Visible(a.source) == file[e + 8..e + 12]) &&
    (AttrBytes(a) > 4 ==> a.offset == Uint32(order, file[e + 8..e + 12]) &&
                          a.offset + AttrBytes(a) <= |file| &&
                          Visible(a.source) == file[a.offset..a.offset + AttrBytes(a)]) &&
    Parsed(a.(value := NilValue), order) == Ok(a)
  }

  /** A slice of a slice of the file is a slice of the file. */
  lemma SubSlice(b: seq<byte>, file: seq<byte>, e: nat, lo: nat, hi: nat)
    requires e + |b| <= |file| && b == file[e..e + |b|] && lo <= hi <= |b|
    ensures b[lo..hi] == file[e + lo..e + hi]
  {
    forall k | 0 <= k < hi - lo
      ensures b[lo..hi][k] == file[e + lo..e + hi][k]
    {
      assert b[lo + k] == file[e + lo + k];
    }
  }

  /** The fields newGeoAttribute reads out of a 12-byte entry copied from
      file offset e. */
  lemma DecodedFields(raw: Slice, order: ByteOrder, file: seq<byte>, e: nat)
    requires raw.len == 12 && e + 12 <= |file| && Visible(raw) == file[e..e + 12]
    ensures var a := NewGeoAttribute(raw, order).value;
      a.tag == Uint16(order, file[e..e + 2]) &&
      a.typ == ToSigned(Uint16(order, file[e + 2..e + 4]), 2) &&
      a.len == Uint32(order, file[e + 4..e + 8]) &&
      a.source.len == 4 && Visible(a.source) == file[e + 8..e + 12] &&
      a.offset == 0 && a.value == NilValue
  {
    var b := Visible(raw);
    SubSlice(b, file, e, 0, 2);
    SubSlice(b, file, e, 2, 4);
    SubSlice(b, file, e, 4, 8);
    SubSlice(b, file, e, 8, 12);
  }

  /** What fetching the out-of-line values changes: only offset and source. */
  lemma FetchFields(file: seq<byte>, order: ByteOrder, a: Attribute, i: nat)
    requires a.source.len == 4
    requires Fetch(file, order, a, i).Ok?
    ensures var f := Fetch(file, order, a, i).value;
      f.tag == a.tag && f.typ == a.typ && f.len == a.len && f.value == a.value &&
      (AttrBytes(a) <= 4 ==> f == a) &&
      (AttrBytes(a) > 4 ==> f.offset == Uint32(order, Visible(a.source)) &&
                            f.offset + AttrBytes(a) <= |file| &&
                            Visible(f.source) == file[f.offset..f.offset + AttrBytes(a)])
  {
  }

  /** The parsed attribute satisfies EntryAt once its raw fields do. */
  lemma ParsedEntryAt(file: seq<byte>, order: ByteOrder, e: nat, a: Attribute, f: Attribute, x: Attribute)
    requires e + 12 <= |file|
    requires a.tag == Uint16(order, file[e..e + 2]) &&
             a.typ == ToSigned(Uint16(order, file[e + 2..e + 4]), 2) &&
             a.len == Uint32(order, file[e + 4..e + 8]) &&
             Visible(a.source) == file[e + 8..e + 12] && a.offset == 0 && a.value == NilValue
    requires f.tag == a.tag && f.typ == a.typ && f.len == a.len && f.value == a.value
    requires AttrBytes(a) <= 4 ==> f == a
    requires AttrBytes(a) > 4 ==> f.offset == Uint32(order, file[e + 8..e + 12]) &&
                                  f.offset + AttrBytes(a) <= |file| &&
                                  Visible(f.source) == file[f.offset..f.offset + AttrBytes(a)]
    requires Parsed(f, order) == Ok(x)
    ensures EntryAt(file, order, e, x)
  {
    ParsedValues(f, order);
    assert x.(value := NilValue) == f;
  }

  /** An entry that decodes was fetched and then parsed. */
  lemma EntryParsed(file: seq<byte>, order: ByteOrder, table: Slice, i: nat, x: Attribute)
    requires 12 * i + 12 <= table.len
    requires Entry(file, order, table, i) == Ok(x)
    ensures var a := NewGeoAttribute(Reslice(table, 12 * i, 12 * i + 12).value, order).value;
      Fetch(file, order, a, i).Ok? && Parsed(Fetch(file, order, a, i).value, order) == Ok(x)
  {
  }

  /** A decoded entry is the entry at its place in the table. */
  lemma EntryDecodes(file: seq<byte>, order: ByteOrder, table: Slice, base: nat, num: nat, i: nat, x: Attribute)
    requires i < num && 12 * num <= table.len
    requires base + 12 * num <= |file| && Visible(table) == file[base..base + 12 * num]
    requires Entry(file, order, table, i) == Ok(x)
    ensures EntryAt(file, order, base + 12 * i, x)
  {
    EntryParsed(file, order, table, i, x);
    TableEntryAt(file, order, table, base, num, i, x);
  }

  /** Entry i of a table copied from file offset base is at base + 12 * i. */
  lemma TableEntryAt(file: seq<byte>, order: ByteOrder, table: Slice, base: nat, num: nat, i: nat, x: Attribute)
    requires i < num && 12 * num <= table.len
    requires base + 12 * num <= |file| && Visible(table) == file[base..base + 12 * num]
    requires var a := NewGeoAttribute(Reslice(table, 12 * i, 12 * i + 12).value, order).value;
      Fetch(file, order, a, i).Ok? && Parsed(Fetch(file, order, a, i).value, order) == Ok(x)
    ensures EntryAt(file, order, base + 12 * i, x)
  {
    RawOfTable(file, table, base, num, i);
    RawEntryAt(file, order, Reslice(table, 12 * i, 12 * i + 12).value, base + 12 * i, i, x);
  }

  /** The 12 bytes of entry i, re-sliced from a table copied from file offset
      base, are the file's bytes at base + 12 * i. */
  lemma RawOfTable(file: seq<byte>, table: Slice, base: nat, num: nat, i: nat)
    requires i < num && 12 * num <= table.len
    requires base + 12 * num <= |file| && Visible(table) == file[base..base + 12 * num]
    ensures var raw := Reslice(table, 12 * i, 12 * i + 12).value;
      raw.len == 12 && Visible(raw) == file[base + 12 * i..base + 12 * i + 12]
  {
    var raw := Reslice(table, 12 * i, 12 * i + 12).value;
    assert Visible(raw) == Visible(table)[12 * i..12 * i + 12];
    SubSlice(Visible(table), file, base, 12 * i, 12 * i + 12);
  }

  /** The entry at file offset e, from its 12 bytes copied out of the file. */
  lemma RawEntryAt(file: seq<byte>, order: ByteOrder, raw: Slice, e: nat, i: nat, x: Attribute)
    requires raw.len == 12 && e + 12 <= |file| && Visible(raw) == file[e..e + 12]
    requires var a := NewGeoAttribute(raw, order).value;
      Fetch(file, order, a, i).Ok? && Parsed(Fetch(file, order, a, i).value, order) == Ok(x)
    ensures EntryAt(file, order, e, x)
  {
    DecodedFields(raw, order, file, e);
    var a := NewGeoAttribute(raw, order).value;
    FetchFields(file, order, a, i);
    ParsedEntryAt(file, order, e, a, Fetch(file, order, a, i).value, x);
  }

  /** The count is the u16 at the directory offset and the table is the bytes
      that follow it. */
  lemma TableLayout(file: seq<byte>, order: ByteOrder, off: nat)
    ensures var r := TableAt(file, order, off);
      r.Ok? ==> off + 2 + 12 * r.value.1 <= |file| && r.value.1 == Uint16(order, file[off..off + 2]) &&
                Visible(r.value.0) == file[off + 2..off + 2 + 12 * r.value.1]
  {
    var r := TableAt(file, order, off);
    if r.Ok? {
      var count := ReadFile(file, off, 2).value;
      assert Visible(count)[..2] == file[off..off + 2];
      if r.value.1 == 0 {
        assert Visible(r.value.0) == [];
      }
    }
  }

  /** The directory at a non-zero offset holds as many entries as the u16
      there says, entry i being what Entry decodes from the table's i-th 12
      bytes (EntryDecodes says what that is). */
  lemma EntriesLayout(file: seq<byte>, order: ByteOrder, off: nat)
    ensures var r := EntriesAt(file, order, off);
      r.Ok? ==> TableAt(file, order, off).Ok? &&
                var (table, num) := TableAt(file, order, off).value;
                |r.value| == num && forall i :: 0 <= i < num ==> EntryStep(file, order, table)(i) == Ok(r.value[i])
  {
    var r := EntriesAt(file, order, off);
    if r.Ok? {
      var (table, num) := TableAt(file, order, off).value;
      CollectAll(EntryStep(file, order, table), num);
    }
  }

  /** readAttribute: the directory is located by the u32 at offset 4; offset
      0 gives an empty list without error. */
  lemma DirectoryLayout(file: seq<byte>, order: ByteOrder)
    ensures var r := ReadDirectory(file, order);
      r.Ok? ==> |file| >= 8 && r.value.offset == Uint32(order, file[4..8]) &&
                (r.value.offset == 0 ==> r.value.entries == []) &&
                (r.value.offset != 0 ==> EntriesAt(file, order, r.value.offset) == Ok(r.value.entries))
  {
    var r := ReadDirectory(file, order);
    if r.Ok? {
      var head := ReadFile(file, 4, 4).value;
      assert Visible(head)[..4] == file[4..8];
    }
  }
}
