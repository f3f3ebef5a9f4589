/** GeoTif.go: a directory entry (geoAttribute), its decoding from 12 bytes,
    the decoding of its values by field type, the lookup by tag, the conversion
    to float64 and the bounded file read. */
module Attributes {
  import opened Errors
  import opened Binary
  import opened Consts

  /** geoAttributeValue without its interface{} copy. FLOAT and DOUBLE values
      are kept as their raw IEEE-754 bit patterns; an empty sequence stands for
      Go's nil slice and for the empty string. */
  datatype AttrValue = AttrValue(
    bytes: seq<byte>,
    ascii: seq<byte>,
    shorts: seq<nat>,
    longs: seq<nat>,
    floats: seq<nat>,
    doubles: seq<nat>,
    uints: seq<nat>)

  /** The zero geoAttributeValue: every slice nil. */
  const NilValue := AttrValue([], [], [], [], [], [], [])

  /** The value parseValue starts from: every slice nil except uint == [0]. */
  const ResetValue := NilValue.(uints := [0])

  /** geoAttribute: tag, field type (a signed 16-bit code), value count, the
      value bytes (a slice that may have capacity beyond its length), the file
      offset they came from and the decoded values. */
  datatype Attribute = Attribute(
    tag: nat,
    typ: int,
    len: nat,
    source: Slice,
    offset: nat,
    value: AttrValue)

  /** geoAttribute{}: what a failed lookup returns. */
  const ZeroAttribute := Attribute(0, NONE, 0, MakeSlice([]), 0, NilValue)

  /** math.Float32frombits / math.Float64frombits, widened to float64. */
  datatype Ieee = Ieee(single: nat -> real, double: nat -> real)

  /** geoAttribute.Bytes: Len * Type.Bytes() in uint32 arithmetic. */
  function AttrBytes(a: Attribute): (n: nat)
    ensures n < 0x1_0000_0000
    ensures a.len * TypeBytes(a.typ) < 0x1_0000_0000 ==> n == a.len * TypeBytes(a.typ)
    ensures TypeBytes(a.typ) == 0 ==> n == 0
  {
    (a.len * TypeBytes(a.typ)) % 0x1_0000_0000
  }

  // ---------------------------------------------------------------------------
  // readFile

  /** The count ReadAt reports: the bytes that exist at and after `offset`, at
      most `n`. */
  function Available(file: seq<byte>, offset: nat, n: nat): nat {
    if offset >= |file| then 0 else if |file| - offset < n then |file| - offset else n
  }

  /** GeoTif.readFile: `n` bytes at `offset`, failing whenever fewer are
      available. The buffer is freshly made, so its capacity is its length. */
  function ReadFile(file: seq<byte>, offset: nat, n: nat): (r: Result<Slice>)
    ensures !r.Panic?
    ensures r.Ok? <==> Available(file, offset, n) == n
    ensures r.Ok? ==> |Visible(r.value)| == n && Cap(r.value) == n
    ensures r.Ok? && n > 0 ==> Visible(r.value) == file[offset..offset + n]
  {
    if n == 0 then Ok(MakeSlice([]))
    else if offset + n <= |file| then Ok(MakeSlice(file[offset..offset + n]))
    else
      Raise([WithFunction("readFile"),
             WithErrorText("read [" + Decimal(n) + "] bytes, but only get [" +
                           Decimal(Available(file, offset, n)) + "] bytes")])
  }

  // ---------------------------------------------------------------------------
  // getAttributeByTag

  /** The index of the first attribute at or after `from` with tag `tag`. */
  function FindTag(attrs: seq<Attribute>, tag: nat, from: nat): (r: Option<nat>)
    requires from <= |attrs|
    ensures r.Some? ==> from <= r.value < |attrs| && attrs[r.value].tag == tag
    ensures r.Some? ==> forall j :: from <= j < r.value ==> attrs[j].tag != tag
    ensures r.None? ==> forall j :: from <= j < |attrs| ==> attrs[j].tag != tag
    decreases |attrs| - from
  {
    if from == |attrs| then None
    else if attrs[from].tag == tag then Some(from)
    else FindTag(attrs, tag, from + 1)
  }

  /** The first attribute carrying the tag, if any. */
  function Lookup(attrs: seq<Attribute>, tag: nat): (r: Option<Attribute>)
    ensures r.Some? <==> exists i :: 0 <= i < |attrs| && attrs[i].tag == tag
    ensures r.Some? ==> exists i :: 0 <= i < |attrs| && attrs[i] == r.value && r.value.tag == tag &&
                                    forall j :: 0 <= j < i ==> attrs[j].tag != tag
  {
    match FindTag(attrs, tag, 0)
    case Some(i) => Some(attrs[i])
    case None => None
  }

  /** GeoAttributes.getAttributeByTag: the first attribute carrying the tag, or
      an error with a message and a nil Err. */
  function GetAttributeByTag(attrs: seq<Attribute>, tag: nat): (r: Result<Attribute>)
    ensures !r.Panic?
    ensures r.Ok? <==> Lookup(attrs, tag).Some?
    ensures r.Ok? ==> r.value == Lookup(attrs, tag).value
    ensures r.Ok? <==> exists i :: 0 <= i < |attrs| && attrs[i].tag == tag
    ensures r.Ok? ==> exists i :: 0 <= i < |attrs| && attrs[i] == r.value && r.value.tag == tag &&
                                  forall j :: 0 <= j < i ==> attrs[j].tag != tag
    ensures r.Fail? ==> r.error.Geo? && r.error.inner.err.None?
  {
    match Lookup(attrs, tag)
    case Some(a) => Ok(a)
    case None =>
      var opts := [WithFunction("getAttributeByTag"),
                   WithMsg("can not found attribute [" + Decimal(tag) + "]")];
      OptionsKeepErr(GeoError(None, "", ""), opts);
      Raise(opts)
  }

  /** `atr.GeoAttributeValue.uint` after `atr, err := getAttributeByTag(tag)`:
      the zero attribute's nil slice when the tag is missing. */
  function UintsOf(attrs: seq<Attribute>, tag: nat): seq<nat> {
    var r := Lookup(attrs, tag);
    if r.Some? then r.value.value.uints else []
  }

  // ---------------------------------------------------------------------------
  // newGeoAttribute

  /** newGeoAttribute: a 12-byte directory entry. Tag, type and count are read
      in the file's byte order, the type reinterpreted as int16; the last four
      bytes are kept, as a re-slice of the entry, as SourceValue. */
  function NewGeoAttribute(data: Slice, order: ByteOrder): (r: Result<Attribute>)
    ensures !r.Panic?
    ensures r.Ok? <==> data.len == 12
    ensures r.Ok? ==> r.value.tag < 0x1_0000 && -0x8000 <= r.value.typ < 0x8000
    ensures r.Ok? ==> r.value.len < 0x1_0000_0000
    ensures r.Ok? ==> Visible(r.value.source) == Visible(data)[8..12] &&
                      Cap(r.value.source) == Cap(data) - 8
    ensures r.Ok? ==> r.value.offset == 0 && r.value.value == NilValue
  {
    if data.len != 12 then
      Raise([WithFunction("readFile"),
             WithErrorText("require data len is 12, but data len is " + Decimal(data.len))])
    else
      var b := Visible(data);
      assert Pow256(2) == 0x1_0000;
      Ok(Attribute(Uint16(order, b[0..2]), ToSigned(Uint16(order, b[2..4]), 2),
                   Uint32(order, b[4..8]), Reslice(data, 8, 12).value, 0, NilValue))
  }

  /** The 12 bytes that describe an entry in the given byte order. */
  function EncodeEntry(order: ByteOrder, tag: nat, typ: int, count: nat, value: seq<byte>): (e: seq<byte>)
    requires |value| == 4
    ensures |e| == 12
  {
    Put(order, tag, 2) + Put(order, typ % 0x1_0000, 2) + Put(order, count, 4) + value
  }

  /** Decoding an encoded entry gives back its tag, type, count and value bytes. */
  lemma NewGeoAttributeDecodes(order: ByteOrder, tag: nat, typ: int, count: nat, value: seq<byte>)
    requires tag < 0x1_0000 && -0x8000 <= typ < 0x8000 && count < 0x1_0000_0000 && |value| == 4
    ensures NewGeoAttribute(MakeSlice(EncodeEntry(order, tag, typ, count, value)), order)
         == Ok(Attribute(tag, typ, count, ByteSlice(value, 4), 0, NilValue))
  {
    var e := EncodeEntry(order, tag, typ, count, value);
    assert Visible(MakeSlice(e)) == e;
    assert Pow256(2) == 0x1_0000;
    assert Pow256(4) == 0x1_0000_0000;
    assert e[0..2] == Put(order, tag, 2);
    assert e[2..4] == Put(order, typ % 0x1_0000, 2);
    assert e[4..8] == Put(order, count, 4);
    assert e[8..] == value;
    UintPut(order, tag, 2);
    UintPut(order, typ % 0x1_0000, 2);
    UintPut(order, count, 4);
    assert e[0..2][..2] == e[0..2];
    assert e[2..4][..2] == e[2..4];
    assert e[4..8][..4] == e[4..8];
    assert Uint16(order, e[0..2]) == tag;
    assert Uint16(order, e[2..4]) == typ % 0x1_0000;
    assert ToSigned(typ % 0x1_0000, 2) == typ;
    assert Uint32(order, e[4..8]) == count;
    assert Reslice(MakeSlice(e), 8, 12).value == ByteSlice(value, 4);
  }

  // ---------------------------------------------------------------------------
  // parseValue

  lemma MulMono(w: nat, a: nat, b: nat)
    requires a <= b
    ensures w * a <= w * b
  {
  }

  /** `count` unsigned values of `w` bytes each, read in `order` from the start
      of `b`. */
  function Words(b: seq<byte>, order: ByteOrder, w: nat, count: nat): (ws: seq<nat>)
    requires w * count <= |b|
    ensures |ws| == count
  {
    seq(count, i requires 0 <= i < count => MulMono(w, i + 1, count); Uint(order, b[w * i..w * i + w]))
  }

  function Widen(b: seq<byte>): (r: seq<nat>)
    ensures |r| == |b| && forall i :: 0 <= i < |b| ==> r[i] == b[i]
  {
    seq(|b|, i requires 0 <= i < |b| => b[i] as nat)
  }

  /** parseValue: the values of each field type. BYTE and ASCII index the
      slice's length; SHORT, LONG, FLOAT and DOUBLE re-slice, which Go checks
      against the capacity. An index past either panics; any other type is an
      error, returned after the values were reset. */
  function Parsed(a: Attribute, order: ByteOrder): (r: Result<Attribute>)
  {
    var vis := Visible(a.source);
    var cap := a.source.backing;
    if a.typ == BYTE then
      if a.len <= |vis| then Ok(a.(value := ResetValue.(bytes := vis, uints := Widen(vis[..a.len]))))
      else Panic(OutOfRange)
    else if a.typ == ASCII then
      if a.len <= |vis| then Ok(a.(value := ResetValue.(ascii := vis, uints := Widen(vis[..a.len]))))
      else Panic(OutOfRange)
    else if a.typ == SHORT then
      if 2 * a.len <= |cap| then
        var ws := Words(cap, order, 2, a.len);
        Ok(a.(value := ResetValue.(shorts := ws, uints := ws)))
      else Panic(OutOfRange)
    else if a.typ == LONG then
      if 4 * a.len <= |cap| then
        var ws := Words(cap, order, 4, a.len);
        Ok(a.(value := ResetValue.(longs := ws, uints := ws)))
      else Panic(OutOfRange)
    else if a.typ == FLOAT then
      if 4 * a.len <= |cap| then Ok(a.(value := ResetValue.(floats := Words(cap, order, 4, a.len))))
      else Panic(OutOfRange)
    else if a.typ == DOUBLE then
      if 8 * a.len <= |cap| then Ok(a.(value := ResetValue.(doubles := Words(cap, order, 8, a.len))))
      else Panic(OutOfRange)
    else
      Raise([WithFunction("parseValue"),
             WithError(Some(Text("unknow datatype [" + DecimalInt(a.typ) + "]"))),
             WithMsg("to default")])
  }

  /** The loop `for i := 0; i < Len; i++ { v[i] = order.UintW(b[i*w : i*w+w]) }`. */
  method DecodeWords(b: seq<byte>, order: ByteOrder, w: nat, count: nat) returns (ws: seq<nat>)
    requires w * count <= |b|
    ensures ws == Words(b, order, w, count)
  {
    var v := new nat[count];
    for i := 0 to count
      invariant forall k :: 0 <= k < i ==> v[k] == Words(b, order, w, count)[k]
    {
      MulMono(w, i + 1, count);
      v[i] := Uint(order, b[w * i..w * i + w]);
    }
    ws := v[..];
  }

  /** The loop `for i := 0; i < Len; i++ { uint[i] = uint(SourceValue[i]) }`. */
  method CopyBytes(b: seq<byte>, count: nat) returns (u: seq<nat>)
    requires count <= |b|
    ensures u == Widen(b[..count])
  {
    var v := new nat[count];
    for i := 0 to count
      invariant forall k :: 0 <= k < i ==> v[k] == b[k]
    {
      v[i] := b[i];
    }
    u := v[..];
  }

  /** geoAttribute.parseValue, on the attribute its receiver refers to:
      the attribute with its values decoded, or the panic or error. */
  method ParseValue(a: Attribute, order: ByteOrder) returns (r: Result<Attribute>)
    ensures r == Parsed(a, order)
  {
    var vis := Visible(a.source);
    var cap := a.source.backing;
    if a.typ == BYTE || a.typ == ASCII {
      if a.len > |vis| {
        return Panic(OutOfRange);
      }
      var u := CopyBytes(vis, a.len);
      if a.typ == BYTE {
        r := Ok(a.(value := ResetValue.(bytes := vis, uints := u)));
      } else {
        r := Ok(a.(value := ResetValue.(ascii := vis, uints := u)));
      }
    } else if a.typ in {SHORT, LONG, FLOAT, DOUBLE} {
      var w := TypeBytes(a.typ);
      if w * a.len > |cap| {
        return Panic(OutOfRange);
      }
      var ws := DecodeWords(cap, order, w, a.len);
      if a.typ == SHORT {
        r := Ok(a.(value := ResetValue.(shorts := ws, uints := ws)));
      } else if a.typ == LONG {
        r := Ok(a.(value := ResetValue.(longs := ws, uints := ws)));
      } else if a.typ == FLOAT {
        r := Ok(a.(value := ResetValue.(floats := ws)));
      } else {
        r := Ok(a.(value := ResetValue.(doubles := ws)));
      }
    } else {
      r := Raise([WithFunction("parseValue"),
                  WithError(Some(Text("unknow datatype [" + DecimalInt(a.typ) + "]"))),
                  WithMsg("to default")]);
    }
  }

  /** SHORT and LONG values are the byte-order readings of consecutive 2- and
      4-byte words, mirrored in uint; FLOAT and DOUBLE leave uint == [0]; BYTE
      and ASCII copy the first Len bytes; the seven other types are errors. */
  lemma ParsedValues(a: Attribute, order: ByteOrder)
    ensures var r := Parsed(a, order);
      r.Ok? ==> r.value.tag == a.tag && r.value.typ == a.typ && r.value.len == a.len &&
                r.value.source == a.source && r.value.offset == a.offset
    ensures var r := Parsed(a, order);
      r.Ok? && a.typ in {SHORT, LONG} ==>
        var w := TypeBytes(a.typ);
        var vs := if a.typ == SHORT then r.value.value.shorts else r.value.value.longs;
        |vs| == a.len && r.value.value.uints == vs &&
        forall i :: 0 <= i < a.len ==> w * i + w <= |a.source.backing| &&
                                       vs[i] == Uint(order, a.source.backing[w * i..w * i + w])
    ensures var r := Parsed(a, order);
      r.Ok? && a.typ in {BYTE, ASCII} ==>
        |r.value.value.uints| == a.len && forall i :: 0 <= i < a.len ==> r.value.value.uints[i] == a.source.backing[i]
    ensures var r := Parsed(a, order);
      r.Ok? && a.typ in {FLOAT, DOUBLE} ==> r.value.value.uints == [0]
    ensures Parsed(a, order).Fail? <==> a.typ in {NONE, RATIONAL, SBYTE, UNDEFINED, SSHORT, SLONG, SRATIONAL} || !(NONE <= a.typ <= DOUBLE)
  {
    var r := Parsed(a, order);
    if r.Ok? && a.typ in {SHORT, LONG} {
      var w := TypeBytes(a.typ);
      forall i | 0 <= i < a.len
        ensures w * i + w <= |a.source.backing|
      {
        MulMono(w, i + 1, a.len);
      }
    }
  }

  /** Values written as consecutive 2-byte SHORT words in `order` and then
      parsed as a SHORT attribute are read back unchanged. */
  lemma ParseShortsRoundTrip(order: ByteOrder, vs: seq<nat>, tag: nat)
    requires forall i :: 0 <= i < |vs| ==> vs[i] < 0x1_0000
    ensures var a := Attribute(tag, SHORT, |vs|, MakeSlice(PutShorts(order, vs)), 0, NilValue);
      Parsed(a, order).Ok? && Parsed(a, order).value.value.shorts == vs &&
      Parsed(a, order).value.value.uints == vs
  {
    var a := Attribute(tag, SHORT, |vs|, MakeSlice(PutShorts(order, vs)), 0, NilValue);
    var ws := Words(a.source.backing, order, 2, |vs|);
    forall i | 0 <= i < |vs|
      ensures ws[i] == vs[i]
    {
      PutShortsSlice(order, vs, i);
      assert Pow256(2) == 0x1_0000;
      UintPut(order, vs[i], 2);
    }
  }

  /** The SHORT encodings of `vs`, laid end to end. */
  function PutShorts(order: ByteOrder, vs: seq<nat>): (b: seq<byte>)
    ensures |b| == 2 * |vs|
  {
    if vs == [] then [] else PutShorts(order, vs[..|vs| - 1]) + Put(order, vs[|vs| - 1], 2)
  }

  lemma {:induction false} PutShortsSlice(order: ByteOrder, vs: seq<nat>, i: nat)
    requires i < |vs|
    ensures PutShorts(order, vs)[2 * i..2 * i + 2] == Put(order, vs[i], 2)
    decreases |vs|
  {
    var n := |vs| - 1;
    var p := PutShorts(order, vs[..n]);
    var q := Put(order, vs[n], 2);
    assert PutShorts(order, vs) == p + q;
    if i < n {
      PutShortsSlice(order, vs[..n], i);
      assert vs[..n][i] == vs[i];
      assert (p + q)[2 * i..2 * i + 2] == p[2 * i..2 * i + 2];
    } else {
      assert (p + q)[2 * i..2 * i + 2] == q;
    }
  }

  // ---------------------------------------------------------------------------
  // toFloat64

  /** geoAttribute.toFloat64. DOUBLE returns its values as they are, FLOAT
      widens its first Len values; every other type returns Len zeros FOLLOWED
      by the first Len uint values, because the result is made with length Len
      and then appended to. Indexing past the FLOAT or uint values panics. */
  function ToFloat64(a: Attribute, ieee: Ieee): (r: Result<seq<real>>)
    ensures !r.Fail?
    ensures a.typ == DOUBLE ==> (r.Ok? && |r.value| == |a.value.doubles| &&
      forall i :: 0 <= i < |r.value| ==> r.value[i] == ieee.double(a.value.doubles[i]))
    ensures a.typ == FLOAT ==> (r.Ok? <==> a.len <= |a.value.floats|)
    ensures a.typ == FLOAT && r.Ok? ==> (|r.value| == a.len &&
      forall i :: 0 <= i < a.len ==> r.value[i] == ieee.single(a.value.floats[i]))
    ensures a.typ != DOUBLE && a.typ != FLOAT ==> (r.Ok? <==> a.len <= |a.value.uints|)
    ensures a.typ != DOUBLE && a.typ != FLOAT && r.Ok? ==> (|r.value| == 2 * a.len &&
      (forall i :: 0 <= i < a.len ==> r.value[i] == 0.0) &&
      (forall i :: 0 <= i < a.len ==> r.value[a.len + i] == a.value.uints[i] as real))
  {
    if a.typ == DOUBLE then
      Ok(seq(|a.value.doubles|, i requires 0 <= i < |a.value.doubles| => ieee.double(a.value.doubles[i])))
    else if a.typ == FLOAT then
      if a.len <= |a.value.floats| then
        Ok(seq(a.len, i requires 0 <= i < a.len => ieee.single(a.value.floats[i])))
      else Panic(OutOfRange)
    else
      if a.len <= |a.value.uints| then
        Ok(seq(a.len, _ => 0.0) + seq(a.len, i requires 0 <= i < a.len => a.value.uints[i] as real))
      else Panic(OutOfRange)
  }
}
