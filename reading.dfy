/** How the processing endpoint reads its input and reprojects it. The vector readers and
    the coordinate transformation are foreign libraries; the model keeps only which reader
    is chosen, what a collection carries into the geometry check, and its CRS tag. */
module Reading {
  import opened Options
  import opened Text
  import opened Geometry

  /** The two `engine=` values the endpoint passes to the reader. */
  datatype Engine = Fiona | Pyogrio

  /** A coordinate reference system as the collection reports it. */
  datatype Crs = Epsg(code: nat) | Custom(wkt: string)

  /** The target of the reprojection: EPSG:4686 (MAGNA-SIRGAS). */
  const TargetCrs: Crs := Epsg(4686)

  /** What a reader returns: the rows in file order and the CRS, which a file may lack. */
  datatype FeatureCollection = FeatureCollection(features: seq<Feature>, crs: Option<Crs>)

  /** KML and KMZ go through fiona, whatever the letter case of the extension; everything
      else goes through pyogrio. The ensures only unfolds the definition for callers; the
      properties are `ReaderIgnoresCase`, `KmzReadByFiona` and `ShpReadByPyogrio`. */
  function ReaderFor(filename: string): (e: Engine)
    ensures e == Fiona <==> EndsWith(Lower(filename), ".kml") || EndsWith(Lower(filename), ".kmz")
  {
    var name := Lower(filename);
    if EndsWith(name, ".kml") || EndsWith(name, ".kmz") then Fiona else Pyogrio
  }

  /** The choice looks only at the lower-cased name, so names differing in letter case get
      the same reader. */
  lemma {:induction false} ReaderIgnoresCase(filename: string)
    ensures ReaderFor(Lower(filename)) == ReaderFor(filename)
  {
    LowerIdempotent(filename);
  }

  /** "{stem}.KMZ" is read by fiona. */
  lemma {:induction false} KmzReadByFiona(stem: string)
    ensures ReaderFor(stem + ".KMZ") == Fiona
  {
    LowerConcat(stem, ".KMZ");
    LowerEach(".KMZ");
    EndsWithConcat(Lower(stem), ".kmz");
  }

  /** "{stem}.shp" is read by pyogrio. */
  lemma {:induction false} ShpReadByPyogrio(stem: string)
    ensures ReaderFor(stem + ".shp") == Pyogrio
  {
    LowerConcat(stem, ".shp");
    LowerEach(".shp");
    var name := Lower(stem) + ".shp";
    EndsWithConcat(Lower(stem), ".shp");
    assert name[|name| - 4..][1] == 's';
  }

  /** `to_crs(4686)`: the transformation of the coordinates is left to the library; the
      result is tagged with the target CRS and keeps every row with its geometry type and
      part count. */
  function ToCrs(c: FeatureCollection, target: Crs): (r: FeatureCollection)
    ensures r.crs == Some(target)
    ensures |r.features| == |c.features|
    ensures forall i :: 0 <= i < |c.features| ==> r.features[i] == c.features[i]
  {
    FeatureCollection(c.features, Some(target))
  }
}
