/** The geometry check of the processing endpoint: a fail-fast scan over the features of
    the collection read from the input, rejecting the first multi-part geometry. Each
    feature is reduced to what the check looks at: its geometry's type tag and part count. */
module Geometry {
  import opened Options

  /** The `geom_type` tags a vector reader can produce. */
  datatype GeomType =
    | Point | LineString | LinearRing | Polygon
    | MultiPoint | MultiLineString | MultiPolygon | GeometryCollection

  function TypeName(t: GeomType): string
  {
    match t
    case Point => "Point"
    case LineString => "LineString"
    case LinearRing => "LinearRing"
    case Polygon => "Polygon"
    case MultiPoint => "MultiPoint"
    case MultiLineString => "MultiLineString"
    case MultiPolygon => "MultiPolygon"
    case GeometryCollection => "GeometryCollection"
  }

  /** A geometry as the check sees it; `parts` is `len(geom.geoms)`, read only for the
      multi-part types. */
  datatype Shape = Shape(kind: GeomType, parts: nat)

  /** A row of the collection: a feature whose geometry may be missing. */
  datatype Feature = Feature(geometry: Option<Shape>)

  /** The type names the check treats as multi-part. */
  const MultiGeoms: seq<string> := ["MultiPoint", "MultiLineString", "MultiPolygon"]

  /** `geom_type in multi_geoms and len(geom.geoms) > 1`. */
  predicate Rejected(g: Shape)
  {
    TypeName(g.kind) in MultiGeoms && g.parts > 1
  }

  /** The check compares type names; it rejects exactly the three multi types with more
      than one part, and lets single-part multis and every other type through. */
  lemma {:induction false} RejectedIff(g: Shape)
    ensures Rejected(g) <==> g.kind in {MultiPoint, MultiLineString, MultiPolygon} && g.parts > 1
  {
    if g.kind !in {MultiPoint, MultiLineString, MultiPolygon} {
      // every listed name starts with 'M', and no other tag's name does
      assert TypeName(g.kind)[0] != 'M';
      assert forall n :: n in MultiGeoms ==> n[0] == 'M';
    }
  }

  /** What stops the scan. A row without geometry stops it too: reading `geom_type` of a
      missing geometry raises. */
  datatype Verdict =
    | Accepted
    | MultiPartFound(index: nat, kind: GeomType)
    | GeometryMissing(index: nat)

  /** Does the check stop at this feature? */
  predicate Stops(f: Feature)
  {
    f.geometry.None? || Rejected(f.geometry.value)
  }

  /** The verdict of the scan from row `from` on: the first row that stops it decides. */
  function Scan(features: seq<Feature>, from: nat): (v: Verdict)
    requires from <= |features|
    ensures v.Accepted? <==> forall j :: from <= j < |features| ==> !Stops(features[j])
    ensures v.MultiPartFound? ==>
      && from <= v.index < |features|
      && features[v.index].geometry.Some?
      && Rejected(features[v.index].geometry.value)
      && v.kind == features[v.index].geometry.value.kind
      && forall j :: from <= j < v.index ==> !Stops(features[j])
    ensures v.GeometryMissing? ==>
      && from <= v.index < |features|
      && features[v.index].geometry.None?
      && forall j :: from <= j < v.index ==> !Stops(features[j])
    decreases |features| - from
  {
    if from == |features| then Accepted
    else
      match features[from].geometry
      case None => GeometryMissing(from)
      case Some(g) => if Rejected(g) then MultiPartFound(from, g.kind) else Scan(features, from + 1)
  }

  /** The loop over `gdf.iterrows()`: it leaves at the first row that stops the scan. */
  method ValidateGeometries(features: seq<Feature>) returns (v: Verdict)
    ensures v == Scan(features, 0)
  {
    var i := 0;
    while i < |features|
      invariant 0 <= i <= |features|
      invariant Scan(features, 0) == Scan(features, i)
    {
      var geom := features[i].geometry;
      if geom.None? {
        return GeometryMissing(i);
      }
      if TypeName(geom.value.kind) in MultiGeoms && geom.value.parts > 1 {
        return MultiPartFound(i, geom.value.kind);
      }
      i := i + 1;
    }
    return Accepted;
  }

  /** Validation is fail-fast, not accumulating: rows after the first offending one are
      never looked at, so appending anything after it leaves the verdict unchanged. */
  lemma {:induction false} FailFast(features: seq<Feature>, more: seq<Feature>)
    requires !Scan(features, 0).Accepted?
    ensures Scan(features + more, 0) == Scan(features, 0)
  {
    var v := Scan(features, 0);
    var k := v.index;
    ScanPrefix(features, more, 0, k);
  }

  lemma {:induction false} ScanPrefix(features: seq<Feature>, more: seq<Feature>, from: nat, k: nat)
    requires from <= k < |features| && Stops(features[k])
    requires forall j :: from <= j < k ==> !Stops(features[j])
    ensures Scan(features + more, from) == Scan(features, from)
    decreases k - from
  {
    var all := features + more;
    assert all[from] == features[from];
    if from < k {
      ScanPrefix(features, more, from + 1, k);
    }
  }

  /** The worked case: a single MultiPolygon row with two parts is rejected, and the verdict
      names "MultiPolygon". */
  lemma {:induction false} TwoPartMultiPolygonRejected()
    ensures var v := Scan([Feature(Some(Shape(MultiPolygon, 2)))], 0);
      v == MultiPartFound(0, MultiPolygon) && TypeName(v.kind) == "MultiPolygon"
  {
    assert Rejected(Shape(MultiPolygon, 2)) by {
      assert MultiGeoms[2] == "MultiPolygon";
    }
  }
}
