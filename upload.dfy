/** The decisions of the upload endpoint (`upload_geofile`) that do not touch the store:
    whether the uploads form a Shapefile bundle, which companion extensions are missing,
    the stored name of every upload, the canonical filename reported back, and the HTTP
    status each outcome ends in. The writes themselves are in module Lifecycle. */
module Upload {
  import opened Options
  import opened Text

  type Bytes = seq<bv8>

  /** One uploaded file part: the client's filename and the bytes it carries. */
  datatype UploadFile = UploadFile(filename: string, content: Bytes)

  /** The companion extensions a Shapefile bundle must bring. */
  const RequiredExts: set<string> := {".shp", ".shx", ".prj"}

  /** The bundle's primary member: a name ending in ".shp" in any letter case. */
  predicate IsShpName(filename: string)
  {
    EndsWith(Lower(filename), ".shp")
  }

  /** The index of the first element from `from` on that satisfies `p`, as `next(...)`
      over a generator finds it. */
  function FirstIndex<T>(xs: seq<T>, p: T -> bool, from: nat): (r: Option<nat>)
    requires from <= |xs|
    ensures r.None? <==> forall i :: from <= i < |xs| ==> !p(xs[i])
    ensures r.Some? ==> from <= r.value < |xs| && p(xs[r.value])
    ensures r.Some? ==> forall i :: from <= i < r.value ==> !p(xs[i])
    decreases |xs| - from
  {
    if from == |xs| then None
    else if p(xs[from]) then Some(from)
    else FirstIndex(xs, p, from + 1)
  }

  function FirstShp(files: seq<UploadFile>): Option<nat>
  {
    FirstIndex(files, (f: UploadFile) => IsShpName(f.filename), 0)
  }

  /** How the uploads are stored: each under its own name, or as a bundle sharing the stem
      of the first ".shp" member. */
  datatype Layout = Single | Bundle(base: string)

  function LayoutOf(files: seq<UploadFile>): Layout
  {
    match FirstShp(files)
    case None => Single
    case Some(i) => Bundle(Stem(files[i].filename))
  }

  /** The uploads form a bundle exactly when some name, lower-cased, ends in ".shp"; the
      bundle's base name is the stem of the first such name. */
  lemma {:induction false} BundleIff(files: seq<UploadFile>)
    ensures LayoutOf(files).Bundle? <==> exists i :: 0 <= i < |files| && IsShpName(files[i].filename)
    ensures LayoutOf(files).Bundle? ==>
      exists i :: 0 <= i < |files| && IsShpName(files[i].filename)
        && LayoutOf(files).base == Stem(files[i].filename)
        && forall j :: 0 <= j < i ==> !IsShpName(files[j].filename)
  {
    var p := (f: UploadFile) => IsShpName(f.filename);
    var r := FirstIndex(files, p, 0);
    if r.Some? {
      var i := r.value;
      assert p(files[i]);
      assert forall j :: 0 <= j < i ==> !p(files[j]);
    } else {
      assert forall i :: 0 <= i < |files| ==> !p(files[i]);
    }
  }

  /** The lower-cased pathlib suffixes of all uploaded names. */
  function UploadedExts(files: seq<UploadFile>): set<string>
  {
    set f | f in files :: Lower(Suffix(f.filename))
  }

  lemma {:induction false} UploadedExtsOfOne(f: UploadFile)
    ensures UploadedExts([f]) == {Lower(Suffix(f.filename))}
  {
    assert forall g :: g in [f] <==> g == f;
  }

  function MissingExts(files: seq<UploadFile>): set<string>
  {
    RequiredExts - UploadedExts(files)
  }

  /** An extension is reported missing exactly when it is required and no upload's suffix,
      lower-cased, is that extension. */
  lemma {:induction false} MissingExactly(files: seq<UploadFile>, ext: string)
    ensures ext in MissingExts(files) <==>
      ext in RequiredExts && forall i :: 0 <= i < |files| ==> Lower(Suffix(files[i].filename)) != ext
  {
    if ext in RequiredExts && ext !in MissingExts(files) {
      var f :| f in files && Lower(Suffix(f.filename)) == ext;
      var i :| 0 <= i < |files| && files[i] == f;
    }
  }

  /** Extra members (".dbf", ".cpg", ...) never change what is missing: only the required
      extensions are ever reported. */
  lemma {:induction false} ExtrasAccepted(files: seq<UploadFile>, extra: UploadFile)
    requires Lower(Suffix(extra.filename)) !in RequiredExts
    ensures MissingExts(files + [extra]) == MissingExts(files)
    ensures MissingExts([extra] + files) == MissingExts(files)
  {
    assert UploadedExts(files + [extra]) == UploadedExts(files) + {Lower(Suffix(extra.filename))};
    assert UploadedExts([extra] + files) == UploadedExts(files) + {Lower(Suffix(extra.filename))};
  }

  /** The first ".shp" member of a bundle supplies the ".shp" extension itself, unless its
      file name is just ".shp" (pathlib gives such a name no suffix). */
  lemma {:induction false} ShpMemberCounts(files: seq<UploadFile>)
    requires LayoutOf(files).Bundle?
    requires |Basename(files[FirstShp(files).value].filename)| > 4
    ensures ".shp" !in MissingExts(files)
  {
    var f := files[FirstShp(files).value];
    assert "shp"[0] == 's';
    SuffixOfDottedEnding(f.filename, ".shp");
    assert Lower(Suffix(f.filename)) in UploadedExts(files);
  }

  /** `{file_id}_{name}`: every stored input carries the request identifier as a prefix. */
  function Prefixed(id: string, name: string): string
  {
    id + "_" + name
  }

  function StoredName(id: string, layout: Layout, f: UploadFile): string
  {
    match layout
    case Single => Prefixed(id, f.filename)
    case Bundle(base) => Prefixed(id, base + Suffix(f.filename))
  }

  /** The names the save loop writes, one per upload, in upload order. The ensures only
      unfolds the definition; their shape is `StoredNamesShape` and `CanonicalStoredIff`. */
  function StoredNames(id: string, files: seq<UploadFile>): (r: seq<string>)
    ensures |r| == |files|
    ensures forall i :: 0 <= i < |files| ==> r[i] == StoredName(id, LayoutOf(files), files[i])
  {
    var layout := LayoutOf(files);
    seq(|files|, i requires 0 <= i < |files| => StoredName(id, layout, files[i]))
  }

  /** Stored names share the request's prefix; a bundle member keeps the original letter
      case of its suffix after the shared base name, and the first ".shp" member is stored
      under its own file name. */
  lemma {:induction false} StoredNamesShape(id: string, files: seq<UploadFile>, i: nat)
    requires i < |files|
    ensures StoredNames(id, files)[i][..|id| + 1] == id + "_"
    ensures LayoutOf(files).Single? ==> StoredNames(id, files)[i] == Prefixed(id, files[i].filename)
    ensures LayoutOf(files).Bundle? ==>
      StoredNames(id, files)[i] == Prefixed(id, LayoutOf(files).base + Suffix(files[i].filename))
    ensures LayoutOf(files).Bundle? && i == FirstShp(files).value ==>
      StoredNames(id, files)[i] == Prefixed(id, Basename(files[i].filename))
  {
    var layout := LayoutOf(files);
    var rest := if layout.Single? then files[i].filename else layout.base + Suffix(files[i].filename);
    assert StoredNames(id, files)[i] == Prefixed(id, rest);
    PrefixedStartsWithId(id, rest);
    if layout.Bundle? && i == FirstShp(files).value {
      StemSuffixSplit(files[i].filename);
    }
  }

  lemma {:induction false} PrefixedStartsWithId(id: string, name: string)
    ensures Prefixed(id, name)[..|id| + 1] == id + "_"
  {
    assert (id + "_" + name)[..|id| + 1] == id + "_";
  }

  /** The filename the response reports: `{base}.shp` for a bundle, else the first upload's
      name; an empty upload list has none (indexing it raises). */
  function CanonicalFilename(files: seq<UploadFile>): Option<string>
  {
    match LayoutOf(files)
    case Bundle(base) => Some(base + ".shp")
    case Single => if |files| == 0 then None else Some(files[0].filename)
  }

  /** `{id}_{canonical}`, the input that processing and preview open, is among the stored
      names exactly when the upload is not a bundle or some member's suffix is ".shp" in
      lower case; an upload named "X.SHP" is stored as "{id}_X.SHP" but reported as "X.shp". */
  lemma {:induction false} CanonicalStoredIff(id: string, files: seq<UploadFile>)
    requires |files| > 0
    ensures Prefixed(id, CanonicalFilename(files).value) in StoredNames(id, files) <==>
      LayoutOf(files).Single? || exists i :: 0 <= i < |files| && Suffix(files[i].filename) == ".shp"
  {
    var names := StoredNames(id, files);
    var layout := LayoutOf(files);
    if layout.Single? {
      assert names[0] == Prefixed(id, files[0].filename);
    } else {
      var target := Prefixed(id, layout.base + ".shp");
      forall i | 0 <= i < |files|
        ensures names[i] == target <==> Suffix(files[i].filename) == ".shp"
      {
        BundleNameIs(id, layout.base, Suffix(files[i].filename), ".shp");
      }
    }
  }

  /** Within one bundle, two stored names agree exactly when the suffixes do. */
  lemma {:induction false} BundleNameIs(id: string, base: string, x: string, y: string)
    ensures Prefixed(id, base + x) == Prefixed(id, base + y) <==> x == y
  {
    if Prefixed(id, base + x) == Prefixed(id, base + y) {
      CancelPrefix(id + "_", base + x, base + y);
      CancelPrefix(base, x, y);
    }
  }

  lemma {:induction false} CancelPrefix(p: string, x: string, y: string)
    requires p + x == p + y
    ensures x == y
  {
    assert x == (p + x)[|p|..];
    assert y == (p + y)[|p|..];
  }

  /** The worked case: "{base}.SHP", "{base}.shx", "{base}.prj" form a complete bundle, the
      response names "{base}.shp", and no stored name is "{id}_{base}.shp". */
  lemma {:induction false} UpperCaseShpNotStored(id: string, base: string, c1: Bytes, c2: Bytes, c3: Bytes)
    requires base != [] && '/' !in base
    ensures var files := [UploadFile(base + ".SHP", c1), UploadFile(base + ".shx", c2), UploadFile(base + ".prj", c3)];
      && LayoutOf(files) == Bundle(base)
      && MissingExts(files) == {}
      && CanonicalFilename(files) == Some(base + ".shp")
      && Prefixed(id, base + ".shp") !in StoredNames(id, files)
  {
    var files := [UploadFile(base + ".SHP", c1), UploadFile(base + ".shx", c2), UploadFile(base + ".prj", c3)];
    UpperCaseBundleComplete(files, base);
    UpperCaseStoredNames(id, files, base);
    NotAmongThree(Prefixed(id, base + ".shp"), StoredNames(id, files));
  }

  lemma {:induction false} NotAmongThree(t: string, names: seq<string>)
    requires |names| == 3 && names[0] != t && names[1] != t && names[2] != t
    ensures t !in names
  {
  }

  lemma {:induction false} UpperCaseBundleComplete(files: seq<UploadFile>, base: string)
    requires base != [] && '/' !in base
    requires |files| == 3 && files[0].filename == base + ".SHP"
    requires files[1].filename == base + ".shx" && files[2].filename == base + ".prj"
    ensures LayoutOf(files) == Bundle(base) && MissingExts(files) == {}
  {
    ExtensionLiterals();
    DottedMember(base, ".SHP");
    DottedMember(base, ".shx");
    DottedMember(base, ".prj");
    LowerConcat(base, ".SHP");
    assert IsShpName(files[0].filename);
    assert FirstShp(files) == Some(0);
    assert Lower(Suffix(files[0].filename)) == ".shp";
    assert Lower(Suffix(files[1].filename)) == ".shx";
    assert Lower(Suffix(files[2].filename)) == ".prj";
    assert RequiredExts <= UploadedExts(files) by {
      assert files[0] in files && files[1] in files && files[2] in files;
    }
  }

  lemma {:induction false} UpperCaseStoredNames(id: string, files: seq<UploadFile>, base: string)
    requires base != [] && '/' !in base
    requires |files| == 3 && files[0].filename == base + ".SHP"
    requires files[1].filename == base + ".shx" && files[2].filename == base + ".prj"
    requires LayoutOf(files) == Bundle(base)
    ensures |StoredNames(id, files)| == 3
    ensures StoredNames(id, files)[0] != Prefixed(id, base + ".shp")
    ensures StoredNames(id, files)[1] != Prefixed(id, base + ".shp")
    ensures StoredNames(id, files)[2] != Prefixed(id, base + ".shp")
  {
    ExtensionLiterals();
    DottedMember(base, ".SHP");
    DottedMember(base, ".shx");
    DottedMember(base, ".prj");
    assert ".SHP"[1] != ".shp"[1] && ".shx"[3] != ".shp"[3] && ".prj"[1] != ".shp"[1];
    BundleNameIs(id, base, ".SHP", ".shp");
    BundleNameIs(id, base, ".shx", ".shp");
    BundleNameIs(id, base, ".prj", ".shp");
  }

  /** `base` followed by a four-character extension: its stem is `base`, its suffix the
      extension, and lower-casing it lower-cases the extension. */
  lemma {:induction false} DottedMember(base: string, ext: string)
    requires base != [] && '/' !in base
    requires DotLed(ext) && '/' !in ext
    ensures Suffix(base + ext) == ext && Stem(base + ext) == base
  {
    var s := base + ext;
    assert '/' !in s;
    assert s[|s| - |ext|..] == ext;
    NameEndsWithDottedTail(s, ext);
    StemSuffixSplit(s);
    assert Stem(s) + ext == base + ext;
    CancelSuffix(Stem(s), base, ext);
  }

  lemma {:induction false} CancelSuffix(x: string, y: string, t: string)
    requires x + t == y + t
    ensures x == y
  {
    assert x == (x + t)[..|x|];
    assert y == (y + t)[..|y|];
  }

  lemma {:induction false} ExtensionLiterals()
    ensures Lower(".SHP") == ".shp" && Lower(".shp") == ".shp"
    ensures Lower(".shx") == ".shx" && Lower(".prj") == ".prj"
    ensures DotLed(".SHP") && DotLed(".shx") && DotLed(".prj")
    ensures '/' !in ".SHP" && '/' !in ".shx" && '/' !in ".prj"
  {
    LowerEach(".SHP");
    LowerEach(".shp");
    LowerEach(".shx");
    LowerEach(".prj");
  }

  /** What the client receives from the upload endpoint. */
  datatype UploadOutcome =
    | Stored(fileId: string, filename: string, uploadedFiles: seq<string>)
    | MissingCompanions(missing: set<string>)
    | SaveFailed

  /** The status code as the handler is written: the 400 for missing companions is raised
      inside the `try`, and the `except` handler then reads `saved_files`, which is not yet
      bound, so the request ends in an unhandled error (500, the missing list lost). */
  function UploadStatusAsWritten(o: UploadOutcome): nat
  {
    match o
    case Stored(_, _, _) => 200
    case MissingCompanions(_) => 500
    case SaveFailed => 500
  }

  /** The status code the handler evidently means: 400 naming the missing extensions. */
  function UploadStatus(o: UploadOutcome): nat
  {
    match o
    case Stored(_, _, _) => 200
    case MissingCompanions(_) => 400
    case SaveFailed => 500
  }
}
