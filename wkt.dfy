/** WKT.go: the affine transform of a GeoTIFF (section 2.6 of the GeoTIFF 1.0
    specification). Data holds (c0 .. c5) with x = c0 + c1 * col + c2 * row
    and y = c3 + c4 * col + c5 * row; Init chooses it from the
    ModelTransformation, ModelTiepoint or ModelPixelScale attribute, in that
    order. float64 values are modelled as reals. */
module Wkt {
  import opened Errors
  import opened Consts
  import opened Attributes

  /** tilePoints{i, j, k, x, y, z}: a raster point and the model point it
      maps to. */
  datatype TiePoint = TiePoint(i: real, j: real, k: real, x: real, y: real, z: real)

  const ZeroTiePoint: TiePoint := TiePoint(0.0, 0.0, 0.0, 0.0, 0.0, 0.0)

  /** The Data Init starts from, before its first check. */
  const Identity: seq<real> := [0.0, 1.0, 0.0, 0.0, 0.0, 1.0]

  function Abs(x: real): real {
    if x < 0.0 then -x else x
  }

  /** getAttributeAndCheck: the attribute with the tag, as toFloat64 widens
      it, when that gives at least size values; a missing tag or fewer values
      is an error, and a toFloat64 that indexes past its values panics. */
  function GetAttributeAndCheck(attrs: seq<Attribute>, tag: nat, size: nat, ieee: Ieee): (r: Result<seq<real>>)
    ensures Lookup(attrs, tag).None? ==> r.Fail?
    ensures r.Ok? ==> |r.value| >= size
    ensures Lookup(attrs, tag).Some? ==>
      var f := ToFloat64(Lookup(attrs, tag).value, ieee);
      (r.Panic? <==> f.Panic?) &&
      (r.Ok? <==> f.Ok? && |f.value| >= size) &&
      (r.Ok? ==> r.value == f.value)
  {
    var a := GetAttributeByTag(attrs, tag);
    if a.Fail? then Raise([WithFunction("getAttributeAndCheck"), WithError(Some(a.error))])
    else
      var f :- ToFloat64(a.value, ieee);
      if |f| >= size then Ok(f)
      else Raise([WithFunction("getAttributeAndCheck"),
                  WithErrorText("require len is " + Decimal(size) + ", but got " + Decimal(|f|))])
  }

  /** initResolution: (v0, -v1, v2) of a ModelPixelScale of at least three
      values, else (v0, v5, v10) of a ModelTransformation of at least
      sixteen, else the resolution as it was. */
  function ResolutionOf(attrs: seq<Attribute>, ext: Externals, ieee: Ieee, res: seq<real>): (r: Result<seq<real>>)
    requires |res| == 3
    ensures !r.Fail? && (r.Ok? ==> |r.value| == 3)
  {
    var scale := GetAttributeAndCheck(attrs, ext.modelPixelScaleTag, 3, ieee);
    if scale.Ok? then Ok([scale.value[0], -scale.value[1], scale.value[2]])
    else if scale.Panic? then scale.PropagateFailure()
    else
      var m := GetAttributeAndCheck(attrs, ext.modelTransformationTag, 16, ieee);
      if m.Ok? then Ok([m.value[0], m.value[5], m.value[10]])
      else if m.Panic? then m.PropagateFailure()
      else Ok(res)
  }

  /** The tuple of ModelTiepoint values starting at index at. */
  function TupleAt(v: seq<real>, at: nat): TiePoint
    requires at + 6 <= |v|
  {
    TiePoint(v[at], v[at + 1], v[at + 2], v[at + 3], v[at + 4], v[at + 5])
  }

  /** The tiepoints Init's loop leaves: |v| / 6 slots, of which the loop
      writes slot i % 6 for the tuple at i, which is slot 0 every time, so
      slot 0 holds the last tuple and the others stay zero. A count that is
      not a multiple of 6 panics on the last, short tuple. */
  function TiePointsOf(v: seq<real>): Result<seq<TiePoint>> {
    if |v| % 6 != 0 then Panic(OutOfRange)
    else Ok(seq(|v| / 6, k requires 0 <= k < |v| / 6 => if k == 0 then TupleAt(v, |v| - 6) else ZeroTiePoint))
  }

  /** Data as Init leaves it after one of the checks, and the new tiepoint
      list when the tiepoint branch made one. */
  type Choice = Result<(seq<real>, Option<seq<TiePoint>>)>

  /** Init's choice of Data, from Identity and the resolution initResolution
      left: a ModelTransformation of sixteen values wins; otherwise the
      tiepoints. A panic of any check ends Init. */
  function DataOf(attrs: seq<Attribute>, ext: Externals, ieee: Ieee, res: seq<real>,
                  pixelIsPoint: bool, pointGeoIgnore: bool): (r: Choice)
    ensures r.Ok? ==> |r.value.0| == 6
    requires |res| == 3
  {
    var m := GetAttributeAndCheck(attrs, ext.modelTransformationTag, 16, ieee);
    if m.Ok? then
      var v := m.value;
      Ok(([v[3], v[0], v[1], v[7], v[4], v[5]], None))
    else if m.Panic? then m.PropagateFailure()
    else FromTiepoint(attrs, ext, ieee, res, pixelIsPoint, pointGeoIgnore)
  }

  /** Without a ModelTransformation: a ModelTiepoint of six values gives
      (Res0, 0, x, 0, Res1, y) of tiepoint slot 0; otherwise the pixel
      scale. */
  function FromTiepoint(attrs: seq<Attribute>, ext: Externals, ieee: Ieee, res: seq<real>,
                        pixelIsPoint: bool, pointGeoIgnore: bool): (r: Choice)
    ensures r.Ok? ==> |r.value.0| == 6
    requires |res| == 3
  {
    var tp := GetAttributeAndCheck(attrs, ext.modelTiepointTag, 6, ieee);
    if tp.Ok? then
      var pts :- TiePointsOf(tp.value);
      Ok(([res[0], 0.0, pts[0].x, 0.0, res[1], pts[0].y], Some(pts)))
    else if tp.Panic? then tp.PropagateFailure()
    else FromScale(attrs, ext, ieee, pixelIsPoint, pointGeoIgnore)
  }

  /** Without a ModelTransformation or ModelTiepoint: a ModelPixelScale of two
      values sets Data1 = s0 and Data5 = -|s1|, then looks for a tiepoint
      again (PointOrigin); otherwise an error. */
  function FromScale(attrs: seq<Attribute>, ext: Externals, ieee: Ieee, pixelIsPoint: bool, pointGeoIgnore: bool): (r: Choice)
    ensures r.Ok? ==> |r.value.0| == 6
  {
    var scale := GetAttributeAndCheck(attrs, ext.modelPixelScaleTag, 2, ieee);
    if scale.Ok? then
      PointOrigin(ScaleData(scale.value), GetAttributeAndCheck(attrs, ext.modelTiepointTag, 6, ieee), pixelIsPoint, pointGeoIgnore)
    else if scale.Panic? then scale.PropagateFailure()
    else Raise([WithFunction("Transform.Init"), WithErrorText("can not init t.Data")])
  }

  /** The identity transform with the pixel sizes of a ModelPixelScale:
      Data1 = s0 and Data5 = -|s1|, the origin at (0, 0). */
  function ScaleData(v: seq<real>): (r: seq<real>)
    requires |v| >= 2
    ensures |r| == 6 && r[0] == 0.0 && r[3] == 0.0 && r[2] == 0.0 && r[4] == 0.0
    ensures r[1] == v[0] && r[5] == -Abs(v[1])
  {
    Identity[1 := v[0]][5 := -Abs(v[1])]
  }

  /** Data0 = x - i * Data1 and Data3 = y - j * Data5 for the tiepoint
      (i, j, k, x, y, z) at the start of v. */
  function MoveOrigin(d: seq<real>, v: seq<real>): (r: seq<real>)
    requires |d| == 6 && |v| >= 6
    ensures |r| == 6
  {
    d[0 := v[3] - v[0] * d[1]][3 := v[4] - v[1] * d[5]]
  }

  /** The half-pixel shift of PixelIsPoint: Data0 -= Data1 / 2 + Data2 / 2
      and Data3 -= Data4 / 2 + Data5 / 2. */
  function HalfPixel(d: seq<real>): (r: seq<real>)
    requires |d| == 6
    ensures |r| == 6
  {
    d[0 := d[0] - (d[1] * 0.5 + d[2] * 0.5)][3 := d[3] - (d[4] * 0.5 + d[5] * 0.5)]
  }

  /** The pixel-scale branch's own tiepoint check: a tiepoint moves the
      origin to x - i * Data1, y - j * Data5, by half a pixel more when
      PixelIsPoint applies and PointGeoIgnore does not. */
  function PointOrigin(d: seq<real>, tp: Result<seq<real>>, pixelIsPoint: bool, pointGeoIgnore: bool): (r: Choice)
    ensures r.Ok? ==> |r.value.0| == 6
    requires |d| == 6
  {
    if tp.Ok? && |tp.value| >= 6 then
      var d := MoveOrigin(d, tp.value);
      if pixelIsPoint && !pointGeoIgnore then Ok((HalfPixel(d), None)) else Ok((d, None))
    else if tp.Panic? then Panic(tp.reason)
    else Ok((d, None))
  }

  /** The fields Init writes. */
  datatype State = State(data: seq<real>, tilePoints: seq<TiePoint>, resolution: seq<real>)

  /** Init from state s: Data becomes Identity; no attributes is an error;
      then initResolution and the rest (Resolved). The state is the one left
      at the return, also on an error. */
  function InitSpec(attrs: seq<Attribute>, ext: Externals, ieee: Ieee, pixelIsPoint: bool, pointGeoIgnore: bool,
                    s: State): (State, Result<()>)
    requires |s.resolution| == 3
  {
    var s := s.(data := Identity);
    if |attrs| == 0 then (s, Raise([WithFunction("Transform.Init"), WithErrorText("attribute is empty")]))
    else Resolved(attrs, ext, ieee, pixelIsPoint, pointGeoIgnore, s)
  }

  /** Init from initResolution on. */
  function Resolved(attrs: seq<Attribute>, ext: Externals, ieee: Ieee, pixelIsPoint: bool, pointGeoIgnore: bool,
                    s: State): (State, Result<()>)
    requires |s.resolution| == 3
  {
    var res := ResolutionOf(attrs, ext, ieee, s.resolution);
    if !res.Ok? then (s, res.PropagateFailure())
    else Selected(attrs, ext, ieee, pixelIsPoint, pointGeoIgnore, s.(resolution := res.value))
  }

  /** Init after initResolution: the choice of Data, then the resolution
      (Data0, Data4, 0). */
  function Selected(attrs: seq<Attribute>, ext: Externals, ieee: Ieee, pixelIsPoint: bool, pointGeoIgnore: bool,
                    s: State): (State, Result<()>)
    requires |s.resolution| == 3
  {
    var d := DataOf(attrs, ext, ieee, s.resolution, pixelIsPoint, pointGeoIgnore);
    if !d.Ok? then (s, d.PropagateFailure())
    else
      var data := d.value.0;
      var pts := if d.value.1.Some? then d.value.1.value else s.tilePoints;
      (State(data, pts, [data[0], data[4], 0.0]), Ok(()))
  }

  // ---------------------------------------------------------------------------
  // Properties of Init

  /** No attributes: an error, with Data already reset to Identity. */
  lemma InitEmpty(ext: Externals, ieee: Ieee, pixelIsPoint: bool, pointGeoIgnore: bool, s: State)
    requires |s.resolution| == 3
    ensures var (t, e) := InitSpec([], ext, ieee, pixelIsPoint, pointGeoIgnore, s);
      e.Fail? && t == s.(data := Identity)
  {
  }

  /** initResolution prefers a ModelPixelScale attribute of at least three
      values, (s0, -s1, s2); without a ModelPixelScale it takes a
      ModelTransformation of at least sixteen, (m0, m5, m10); with neither
      the resolution is kept. */
  lemma ResolutionChoice(attrs: seq<Attribute>, ext: Externals, ieee: Ieee, res: seq<real>)
    requires |res| == 3
    ensures var p := Lookup(attrs, ext.modelPixelScaleTag);
      p.Some? && ToFloat64(p.value, ieee).Ok? && |ToFloat64(p.value, ieee).value| >= 3 ==>
        var f := ToFloat64(p.value, ieee).value;
        ResolutionOf(attrs, ext, ieee, res) == Ok([f[0], -f[1], f[2]])
    ensures var m := Lookup(attrs, ext.modelTransformationTag);
      Lookup(attrs, ext.modelPixelScaleTag).None? &&
      m.Some? && ToFloat64(m.value, ieee).Ok? && |ToFloat64(m.value, ieee).value| >= 16 ==>
        var f := ToFloat64(m.value, ieee).value;
        ResolutionOf(attrs, ext, ieee, res) == Ok([f[0], f[5], f[10]])
    ensures Lookup(attrs, ext.modelPixelScaleTag).None? && Lookup(attrs, ext.modelTransformationTag).None? ==>
      ResolutionOf(attrs, ext, ieee, res) == Ok(res)
  {
  }

  /** A ModelTransformation of sixteen values takes precedence over the
      other encodings: Data = (v3, v0, v1, v7, v4, v5), and the resolution
      ends as (Data0, Data4, 0). */
  lemma TransformationFirst(attrs: seq<Attribute>, ext: Externals, ieee: Ieee, pixelIsPoint: bool, pointGeoIgnore: bool,
                            s: State)
    requires |attrs| > 0 && |s.resolution| == 3
    ensures var m := GetAttributeAndCheck(attrs, ext.modelTransformationTag, 16, ieee);
      var (t, e) := InitSpec(attrs, ext, ieee, pixelIsPoint, pointGeoIgnore, s);
      m.Ok? && ResolutionOf(attrs, ext, ieee, s.resolution).Ok? ==>
        var v := m.value;
        e == Ok(()) && t.data == [v[3], v[0], v[1], v[7], v[4], v[5]] && t.tilePoints == s.tilePoints &&
        t.resolution == [v[3], v[4], 0.0]
  {
  }

  /** Without a ModelTransformation, a ModelTiepoint of six values gives
      (Res0, 0, x, 0, Res1, y) of slot 0, which holds the LAST tuple; a value
      count that is not a multiple of 6 panics. */
  lemma TiepointBranch(attrs: seq<Attribute>, ext: Externals, ieee: Ieee, res: seq<real>,
                       pixelIsPoint: bool, pointGeoIgnore: bool)
    requires |res| == 3
    requires GetAttributeAndCheck(attrs, ext.modelTransformationTag, 16, ieee).Fail?
    requires GetAttributeAndCheck(attrs, ext.modelTiepointTag, 6, ieee).Ok?
    ensures var v := GetAttributeAndCheck(attrs, ext.modelTiepointTag, 6, ieee).value;
      var r := DataOf(attrs, ext, ieee, res, pixelIsPoint, pointGeoIgnore);
      (r.Panic? <==> |v| % 6 != 0) &&
      (r.Ok? ==> var last := |v| - 6;
                 r.value.0 == [res[0], 0.0, v[last + 3], 0.0, res[1], v[last + 4]] &&
                 r.value.1.Some? && |r.value.1.value| == |v| / 6 &&
                 r.value.1.value[0] == TupleAt(v, last) &&
                 forall k :: 0 < k < |v| / 6 ==> r.value.1.value[k] == ZeroTiePoint)
  {
    assert DataOf(attrs, ext, ieee, res, pixelIsPoint, pointGeoIgnore) == FromTiepoint(attrs, ext, ieee, res, pixelIsPoint, pointGeoIgnore);
  }

  /** The pixel-scale branch (FromScale) is reached only when the tiepoint
      check has failed (FromTiepoint), and it repeats that check: the origin
      is never moved and the half-pixel shift never applies, whatever
      PixelIsPoint says. Data is Identity with Data1 = s0 and Data5 = -|s1|,
      so Data0 = Data3 = 0. */
  lemma OriginUnused(attrs: seq<Attribute>, ext: Externals, ieee: Ieee, pixelIsPoint: bool, pointGeoIgnore: bool)
    requires GetAttributeAndCheck(attrs, ext.modelTiepointTag, 6, ieee).Fail?
    requires GetAttributeAndCheck(attrs, ext.modelPixelScaleTag, 2, ieee).Ok?
    ensures var d := ScaleData(GetAttributeAndCheck(attrs, ext.modelPixelScaleTag, 2, ieee).value);
      FromScale(attrs, ext, ieee, pixelIsPoint, pointGeoIgnore) == Ok((d, None)) &&
      d[0] == 0.0 && d[3] == 0.0
  {
  }

  /** None of the three encodings: Init fails with "can not init t.Data". */
  lemma NoEncodingFails(attrs: seq<Attribute>, ext: Externals, ieee: Ieee, res: seq<real>,
                        pixelIsPoint: bool, pointGeoIgnore: bool)
    requires |res| == 3
    requires Lookup(attrs, ext.modelTransformationTag).None?
    requires Lookup(attrs, ext.modelTiepointTag).None?
    requires Lookup(attrs, ext.modelPixelScaleTag).None?
    ensures DataOf(attrs, ext, ieee, res, pixelIsPoint, pointGeoIgnore) ==
      Raise([WithFunction("Transform.Init"), WithErrorText("can not init t.Data")])
  {
  }

  /** Whatever initResolution chose, a successful Init ends with the
      resolution (Data0, Data4, 0), and Data has six values. */
  lemma ResolutionEnd(attrs: seq<Attribute>, ext: Externals, ieee: Ieee, pixelIsPoint: bool, pointGeoIgnore: bool,
                      s: State)
    requires |s.resolution| == 3
    ensures var (t, e) := InitSpec(attrs, ext, ieee, pixelIsPoint, pointGeoIgnore, s);
      e.Ok? ==> |t.data| == 6 && t.resolution == [t.data[0], t.data[4], 0.0]
  {
    if |attrs| > 0 {
      var s1 := s.(data := Identity);
      var res := ResolutionOf(attrs, ext, ieee, s1.resolution);
      if res.Ok? {
        var s2 := s1.(resolution := res.value);
        assert InitSpec(attrs, ext, ieee, pixelIsPoint, pointGeoIgnore, s) ==
               Selected(attrs, ext, ieee, pixelIsPoint, pointGeoIgnore, s2);
      }
    }
  }

  /** The transform record. Data and Resolution are Go arrays, values that
      Init rewrites element by element; TilePoints is a slice Init makes and
      fills. */
  class Transform {
    var data: seq<real>
    var pixelIsPoint: bool
    var pointGeoIgnore: bool
    var tilePoints: array<TiePoint>
    var resolution: seq<real>

    /** The zero transform: zeros, false, a nil tiepoint list. */
    constructor ()
      ensures data == [0.0, 0.0, 0.0, 0.0, 0.0, 0.0] && resolution == [0.0, 0.0, 0.0]
      ensures !pixelIsPoint && !pointGeoIgnore && fresh(tilePoints) && tilePoints.Length == 0
    {
      data := [0.0, 0.0, 0.0, 0.0, 0.0, 0.0];
      pixelIsPoint := false;
      pointGeoIgnore := false;
      tilePoints := new TiePoint[0];
      resolution := [0.0, 0.0, 0.0];
    }

    /** initResolution. */
    method InitResolution(attrs: seq<Attribute>, ext: Externals, ieee: Ieee) returns (r: Result<()>)
      requires |resolution| == 3
      modifies this`resolution
      ensures var s := ResolutionOf(attrs, ext, ieee, old(resolution));
        (s.Ok? ==> r == Ok(()) && resolution == s.value) &&
        (!s.Ok? ==> r == s.PropagateFailure() && resolution == old(resolution))
    {
      var scale := GetAttributeAndCheck(attrs, ext.modelPixelScaleTag, 3, ieee);
      if scale.Ok? {
        resolution := [scale.value[0], -scale.value[1], scale.value[2]];
        return Ok(());
      }
      if scale.Panic? {
        return scale.PropagateFailure();
      }
      var m := GetAttributeAndCheck(attrs, ext.modelTransformationTag, 16, ieee);
      if m.Ok? {
        resolution := [m.value[0], m.value[5], m.value[10]];
        return Ok(());
      }
      if m.Panic? {
        return m.PropagateFailure();
      }
      return Ok(());
    }

    /** Init's tiepoint loop: |v| / 6 zero tiepoints, then the tuple at i
        stored into slot i % 6 for i = 0, 6, 12, ... */
    method StoreTiePoints(v: seq<real>) returns (r: Result<()>)
      modifies this`tilePoints
      ensures var s := TiePointsOf(v);
        (s.Ok? ==> r == Ok(()) && fresh(tilePoints) && tilePoints[..] == s.value) &&
        (!s.Ok? ==> r == s.PropagateFailure())
    {
      var n := |v| / 6;
      tilePoints := new TiePoint[n](_ => ZeroTiePoint);
      var i := 0;
      while i < |v|
        invariant i % 6 == 0 && i <= |v|
        invariant fresh(tilePoints) && tilePoints.Length == n
        invariant forall k :: 0 < k < n ==> tilePoints[k] == ZeroTiePoint
        invariant i > 0 ==> n > 0 && tilePoints[0] == TupleAt(v, i - 6)
        decreases |v| - i
      {
        if i + 5 >= |v| || i % 6 >= n {
          assert |v| % 6 != 0;
          return Panic(OutOfRange);
        }
        tilePoints[i % 6] := TupleAt(v, i);
        i := i + 6;
      }
      ghost var expected := TiePointsOf(v).value;
      assert |expected| == n;
      assert forall k :: 0 <= k < n ==> tilePoints[k] == expected[k];
      return Ok(());
    }

    /** Init's if-else chain over the three encodings, from Data = Identity:
        the ModelTransformation branch, else FromTiepoint. */
    method SelectData(attrs: seq<Attribute>, ext: Externals, ieee: Ieee) returns (r: Result<()>)
      requires data == Identity && |resolution| == 3
      modifies this`data, this`tilePoints
      ensures var s := DataOf(attrs, ext, ieee, resolution, pixelIsPoint, pointGeoIgnore);
        (s.Ok? ==> r == Ok(()) && Chose(s.value, old(tilePoints)) && (s.value.1.Some? ==> fresh(tilePoints))) &&
        (!s.Ok? ==> r == s.PropagateFailure() && (r.Fail? ==> data == Identity && tilePoints == old(tilePoints)))
    {
      var m := GetAttributeAndCheck(attrs, ext.modelTransformationTag, 16, ieee);
      if m.Ok? {
        var v := m.value;
        data := [v[3], v[0], v[1], v[7], v[4], v[5]];
        return Ok(());
      }
      if m.Panic? {
        return m.PropagateFailure();
      }
      r := SelectTiepoint(attrs, ext, ieee);
    }

    /** The ModelTiepoint branch, else SelectScale. */
    method SelectTiepoint(attrs: seq<Attribute>, ext: Externals, ieee: Ieee) returns (r: Result<()>)
      requires data == Identity && |resolution| == 3
      modifies this`data, this`tilePoints
      ensures var s := FromTiepoint(attrs, ext, ieee, resolution, pixelIsPoint, pointGeoIgnore);
        (s.Ok? ==> r == Ok(()) && Chose(s.value, old(tilePoints)) && (s.value.1.Some? ==> fresh(tilePoints))) &&
        (!s.Ok? ==> r == s.PropagateFailure() && (r.Fail? ==> data == Identity && tilePoints == old(tilePoints)))
    {
      var tp := GetAttributeAndCheck(attrs, ext.modelTiepointTag, 6, ieee);
      if tp.Ok? {
        r := StoreTiePoints(tp.value);
        if !r.Ok? {
          return;
        }
        data := [resolution[0], 0.0, tilePoints[0].x, 0.0, resolution[1], tilePoints[0].y];
        return Ok(());
      }
      if tp.Panic? {
        return tp.PropagateFailure();
      }
      r := SelectScale(attrs, ext, ieee);
    }

    /** The ModelPixelScale branch, else the error. */
    method SelectScale(attrs: seq<Attribute>, ext: Externals, ieee: Ieee) returns (r: Result<()>)
      requires data == Identity
      modifies this`data
      ensures var s := FromScale(attrs, ext, ieee, pixelIsPoint, pointGeoIgnore);
        (s.Ok? ==> r == Ok(()) && data == s.value.0) &&
        (!s.Ok? ==> r == s.PropagateFailure() && (r.Fail? ==> data == Identity))
    {
      var scale := GetAttributeAndCheck(attrs, ext.modelPixelScaleTag, 2, ieee);
      if scale.Ok? {
        data := data[1 := scale.value[0]];
        data := data[5 := -Abs(scale.value[1])];
        r := SetPointOrigin(attrs, ext, ieee);
        return;
      }
      if scale.Panic? {
        return scale.PropagateFailure();
      }
      return Raise([WithFunction("Transform.Init"), WithErrorText("can not init t.Data")]);
    }

    /** The pixel-scale branch's tiepoint check (PointOrigin). */
    method SetPointOrigin(attrs: seq<Attribute>, ext: Externals, ieee: Ieee) returns (r: Result<()>)
      requires |data| == 6
      modifies this`data
      ensures var s := PointOrigin(old(data), GetAttributeAndCheck(attrs, ext.modelTiepointTag, 6, ieee),
                                   pixelIsPoint, pointGeoIgnore);
        (s.Ok? ==> r == Ok(()) && data == s.value.0) &&
        (!s.Ok? ==> r == s.PropagateFailure())
    {
      var tp := GetAttributeAndCheck(attrs, ext.modelTiepointTag, 6, ieee);
      if tp.Ok? {
        data := MoveOrigin(data, tp.value);
        if pixelIsPoint && !pointGeoIgnore {
          data := HalfPixel(data);
        }
      } else if tp.Panic? {
        return tp.PropagateFailure();
      }
      return Ok(());
    }

    /** The record holds the Data of a choice, and its tiepoint list when the
        choice made one (tp0 otherwise). */
    ghost predicate Chose(c: (seq<real>, Option<seq<TiePoint>>), tp0: array<TiePoint>)
      reads this, tilePoints
    {
      data == c.0 &&
      (c.1.Some? ==> tilePoints[..] == c.1.value) &&
      (c.1.None? ==> tilePoints == tp0)
    }

    /** Init: Data reset to Identity, the empty check, then InitRest. */
    method Init(attrs: seq<Attribute>, ext: Externals, ieee: Ieee) returns (r: Result<()>)
      requires |resolution| == 3
      modifies this`data, this`tilePoints, this`resolution
      ensures var (s, e) := InitSpec(attrs, ext, ieee, pixelIsPoint, pointGeoIgnore,
                                     State(old(data), old(tilePoints[..]), old(resolution)));
        r == e && (!r.Panic? ==> data == s.data && tilePoints[..] == s.tilePoints && resolution == s.resolution)
    {
      data := Identity;
      if |attrs| == 0 {
        return Raise([WithFunction("Transform.Init"), WithErrorText("attribute is empty")]);
      }
      r := InitRest(attrs, ext, ieee);
    }

    /** Init from initResolution on. */
    method InitRest(attrs: seq<Attribute>, ext: Externals, ieee: Ieee) returns (r: Result<()>)
      requires data == Identity && |resolution| == 3
      modifies this`data, this`tilePoints, this`resolution
      ensures var (s, e) := Resolved(attrs, ext, ieee, pixelIsPoint, pointGeoIgnore,
                                     State(old(data), old(tilePoints[..]), old(resolution)));
        r == e && (!r.Panic? ==> data == s.data && tilePoints[..] == s.tilePoints && resolution == s.resolution)
    {
      r := InitResolution(attrs, ext, ieee);
      if !r.Ok? {
        return;
      }
      r := SelectData(attrs, ext, ieee);
      if !r.Ok? {
        return;
      }
      resolution := [data[0], data[4], 0.0];
    }
  }
}
