/** Open.go, parseGeoKeys: the GeoKey directory is a SHORT attribute whose
    fourth value counts the keys that follow it in groups of four (key id,
    location, count, value or index). A key either holds its value inline or
    points into the DOUBLE or ASCII parameter attribute. */
module GeoKeys {
  import opened Errors
  import opened Binary
  import opened Consts
  import opened Attributes

  /** parseValue on a key the reader built itself; its error is ignored, and a
      SHORT, DOUBLE or ASCII key never has one. */
  function ParsedKey(a: Attribute, order: ByteOrder): (r: Result<Attribute>)
    requires a.typ in {SHORT, DOUBLE, ASCII}
    ensures !r.Fail?
  {
    ParsedValues(a, order);
    Parsed(a, order)
  }

  /** A key stored in a parameter attribute: its values are the bytes
      [idx * w, idx * w + Len) of that attribute's value bytes, re-sliced
      against their capacity. The attribute is looked up by tag. */
  function ParamsKey(attrs: seq<Attribute>, tag: nat, msg: string, w: nat, typ: int,
                     a: Attribute, v: seq<nat>, from: nat, order: ByteOrder): Result<Attribute>
    requires typ in {DOUBLE, ASCII}
  {
    var p := GetAttributeByTag(attrs, tag);
    if p.Fail? then Raise([WithFunction("parseGeoKeys"), WithMsg(msg), WithError(Some(p.error))])
    else if from + 3 >= |v| then Panic(OutOfRange)
    else
      var idx := v[from + 3];
      var s := Reslice(p.value.source, idx * w, idx * w + a.len);
      if s.None? then Panic(OutOfRange)
      else ParsedKey(a.(offset := idx, source := s.value, typ := typ), order)
  }

  /** Key i of the directory values v: the group at 4i + 4. Location 0 holds
      the value inline as a SHORT; the DOUBLE and ASCII parameter tags
      (compared as uint16) point into those attributes; any other location
      leaves the zero attribute with only Len set. */
  function GeoKey(attrs: seq<Attribute>, ext: Externals, order: ByteOrder, v: seq<nat>, i: nat): Result<Attribute> {
    var from := 4 * i + 4;
    if from + 2 >= |v| then Panic(OutOfRange)
    else
      var a := ZeroAttribute.(len := v[from + 2]);
      var loc := v[from + 1];
      if loc == 0 then
        if from + 3 >= |v| then Panic(OutOfRange)
        else ParsedKey(a.(source := MakeSlice(Put(order, v[from + 3] % 0x1_0000, 2)), typ := SHORT), order)
      else if loc == ext.geoDoubleParamsTag % 0x1_0000 then
        ParamsKey(attrs, ext.geoDoubleParamsTag, "get geoDoubleDirectoryAtr fail", 8, DOUBLE, a, v, from, order)
      else if loc == ext.geoAsciiParamsTag % 0x1_0000 then
        ParamsKey(attrs, ext.geoAsciiParamsTag, "get geoASCIIDirectoryAtr fail", 1, ASCII, a, v, from, order)
      else Ok(a)
  }

  /** The loop body of parseGeoKeys as a step over key indices. */
  function KeyStep(attrs: seq<Attribute>, ext: Externals, order: ByteOrder, v: seq<nat>): nat --> Result<Attribute> {
    (i: nat) => GeoKey(attrs, ext, order, v, i)
  }

  /** parseGeoKeys: a missing key directory is an error; a directory of fewer
      than four values panics; a key count of 0 leaves the keys as they were
      (None); otherwise the keys, stopping at the first error or panic. */
  function ParseGeoKeys(attrs: seq<Attribute>, ext: Externals, order: ByteOrder): Result<Option<seq<Attribute>>> {
    var dir := GetAttributeByTag(attrs, ext.geoKeyDirectoryTag);
    if dir.Fail? then Raise([WithFunction("parseGeoKeys"), WithError(Some(dir.error))])
    else
      var v := dir.value.value.shorts;
      if |v| < 4 then Panic(OutOfRange)
      else if v[3] > 0 then
        var keys :- Collect(KeyStep(attrs, ext, order, v), 0, v[3]);
        Ok(Some(keys))
      else Ok(None)
  }

  /** The directory values parseGeoKeys reads: the SHORT values of the first
      attribute with the key directory tag. */
  function DirectoryValues(attrs: seq<Attribute>, ext: Externals): seq<nat> {
    var dir := GetAttributeByTag(attrs, ext.geoKeyDirectoryTag);
    if dir.Ok? then dir.value.value.shorts else []
  }

  /** The key count is the fourth directory value and key i is GeoKey i; a
      missing directory is an error and a count of 0 changes nothing. */
  lemma ParseGeoKeysLayout(attrs: seq<Attribute>, ext: Externals, order: ByteOrder)
    ensures (forall i :: 0 <= i < |attrs| ==> attrs[i].tag != ext.geoKeyDirectoryTag) ==>
              ParseGeoKeys(attrs, ext, order).Fail?
    ensures var r := ParseGeoKeys(attrs, ext, order); var v := DirectoryValues(attrs, ext);
      r.Ok? ==> |v| >= 4 && (r.value.None? <==> v[3] == 0)
    ensures var r := ParseGeoKeys(attrs, ext, order); var v := DirectoryValues(attrs, ext);
      r.Ok? && r.value.Some? ==>
        |v| >= 4 && |r.value.value| == v[3] &&
        forall i :: 0 <= i < v[3] ==> KeyStep(attrs, ext, order, v)(i) == Ok(r.value.value[i])
  {
    var r := ParseGeoKeys(attrs, ext, order);
    var v := DirectoryValues(attrs, ext);
    if r.Ok? && r.value.Some? {
      CollectAll(KeyStep(attrs, ext, order, v), v[3]);
    }
  }

  /** An inline key: a single SHORT value is read back as itself. */
  lemma InlineKeyRoundTrip(order: ByteOrder, x: nat, len: nat)
    requires x < 0x1_0000
    ensures var a := ZeroAttribute.(len := len, source := MakeSlice(Put(order, x, 2)), typ := SHORT);
      var r := Parsed(a, order);
      (r.Ok? <==> len <= 1) && (len == 1 ==> r.Ok? && r.value.value.shorts == [x])
  {
    var a := ZeroAttribute.(len := len, source := MakeSlice(Put(order, x, 2)), typ := SHORT);
    ParsedValues(a, order);
    if len == 1 {
      assert Pow256(2) == 0x1_0000;
      UintPut(order, x, 2);
      assert a.source.backing[0..2] == Put(order, x, 2);
    }
  }

  /** A key with location 0 holds its value inline, as a SHORT whose two
      bytes are the fourth value of its group truncated to uint16. */
  lemma GeoKeyInline(attrs: seq<Attribute>, ext: Externals, order: ByteOrder, v: seq<nat>, i: nat)
    requires 4 * i + 5 < |v| && v[4 * i + 5] == 0
    ensures var r := GeoKey(attrs, ext, order, v, i);
      r.Ok? ==> 4 * i + 7 < |v| && r.value.tag == 0 && r.value.len == v[4 * i + 6] &&
                r.value.typ == SHORT && r.value.offset == 0 &&
                Visible(r.value.source) == Put(order, v[4 * i + 7] % 0x1_0000, 2)
    ensures GeoKey(attrs, ext, order, v, i).Ok? <==> 4 * i + 7 < |v| && v[4 * i + 6] <= 1
  {
    var from := 4 * i + 4;
    if from + 3 < |v| {
      var a := ZeroAttribute.(len := v[from + 2], source := MakeSlice(Put(order, v[from + 3] % 0x1_0000, 2)), typ := SHORT);
      ParsedValues(a, order);
    }
  }

  /** A key located in a parameter attribute (w bytes per value) takes Len
      bytes of that attribute's value bytes from index * w on. */
  lemma GeoKeyParams(attrs: seq<Attribute>, tag: nat, msg: string, w: nat, typ: int,
                     a: Attribute, v: seq<nat>, from: nat, order: ByteOrder)
    requires typ in {DOUBLE, ASCII}
    ensures var r := ParamsKey(attrs, tag, msg, w, typ, a, v, from, order);
      r.Ok? ==> from + 3 < |v| && GetAttributeByTag(attrs, tag).Ok? &&
                var d := GetAttributeByTag(attrs, tag).value.source;
                var idx := v[from + 3];
                r.value == a.(offset := idx, typ := typ, source := r.value.source, value := r.value.value) &&
                idx * w + a.len <= Cap(d) && Visible(r.value.source) == d.backing[idx * w..idx * w + a.len]
    ensures ParamsKey(attrs, tag, msg, w, typ, a, v, from, order).Fail? <==> GetAttributeByTag(attrs, tag).Fail?
  {
    var r := ParamsKey(attrs, tag, msg, w, typ, a, v, from, order);
    if r.Ok? {
      var d := GetAttributeByTag(attrs, tag).value.source;
      var idx := v[from + 3];
      var s := Reslice(d, idx * w, idx * w + a.len).value;
      ParsedValues(a.(offset := idx, source := s, typ := typ), order);
    }
  }

  /** Any other location leaves the zero attribute with only Len set, and
      only a missing parameter attribute makes a key an error. */
  lemma GeoKeyOther(attrs: seq<Attribute>, ext: Externals, order: ByteOrder, v: seq<nat>, i: nat)
    ensures 4 * i + 6 < |v| && v[4 * i + 5] !in {0, ext.geoDoubleParamsTag % 0x1_0000, ext.geoAsciiParamsTag % 0x1_0000} ==>
      GeoKey(attrs, ext, order, v, i) == Ok(ZeroAttribute.(len := v[4 * i + 6]))
    ensures GeoKey(attrs, ext, order, v, i).Fail? ==>
      4 * i + 6 < |v| &&
      ((v[4 * i + 5] == ext.geoDoubleParamsTag % 0x1_0000 && GetAttributeByTag(attrs, ext.geoDoubleParamsTag).Fail?) ||
       (v[4 * i + 5] == ext.geoAsciiParamsTag % 0x1_0000 && GetAttributeByTag(attrs, ext.geoAsciiParamsTag).Fail?))
  {
  }
}
