/** The artifact store under the temporary directory and the three endpoints that change or
    inspect it: upload (save loop and rollback), processing (output directory, Shapefile
    output, ZIP archive) and download, plus the cleanup that empties the store. Names in the
    store are relative to the temporary directory. Filesystem failures the code does not
    cause itself are parameters: one `Fault` per uploaded file, and the reader and writer
    results as functions. */
module Lifecycle {
  import opened Options
  import opened Text
  import opened Upload
  import opened Geometry
  import opened Reading

  /** One top-level entry: a file, a directory of files, or a ZIP archive of named members. */
  datatype Entry =
    | File(content: Bytes)
    | Dir(children: map<string, Bytes>)
    | Archive(members: map<string, Bytes>)

  type Store = map<string, Entry>

  /** Directory children and archive members are plain file names. */
  predicate FlatEntry(e: Entry)
  {
    match e
    case File(_) => true
    case Dir(children) => forall n :: n in children ==> '/' !in n
    case Archive(members) => forall n :: n in members ==> '/' !in n
  }

  predicate StoreFlat(m: Store)
  {
    forall n :: n in m ==> FlatEntry(m[n])
  }

  predicate IsDir(m: Store, n: string)
  {
    n in m && m[n].Dir?
  }

  // ---------------------------------------------------------------------------------------
  // Upload: the save loop and the rollback
  // ---------------------------------------------------------------------------------------

  /** What can go wrong while saving one upload: creating the file, or reading the part
      after the file was created. */
  datatype Fault = Sound | OpenFails | ReadFails

  /** The fault of upload `i`; uploads beyond the list given are sound. */
  function FaultAt(faults: seq<Fault>, i: nat): Fault
  {
    if i < |faults| then faults[i] else Sound
  }

  /** `open(path, "wb")` succeeds unless it fails by itself or the name is a directory. */
  predicate Opens(m: Store, name: string, fault: Fault)
  {
    fault != OpenFails && !IsDir(m, name)
  }

  /** Every upload from `from` on can be opened and read. */
  predicate Writable(m: Store, names: seq<string>, faults: seq<Fault>, from: nat)
  {
    forall j :: from <= j < |names| ==> FaultAt(faults, j) == Sound && !IsDir(m, names[j])
  }

  /** No upload from `from` on is stored under `n`. */
  predicate Unnamed(names: seq<string>, from: nat, n: string)
  {
    forall k :: from <= k < |names| ==> names[k] != n
  }

  /** The state the save loop leaves: the store, `saved_files`, and whether it ran to the end. */
  datatype SaveRun = SaveRun(store: Store, saved: seq<string>, complete: bool)

  /** The save loop from upload `i` on: create the file (empty), read the part, write it,
      record its name; the first failure stops the loop. */
  function SaveLoop(m: Store, names: seq<string>, files: seq<UploadFile>, faults: seq<Fault>,
                    i: nat, saved: seq<string>): (r: SaveRun)
    requires |names| == |files| && i <= |files|
    ensures |saved| <= |r.saved| <= |saved| + |files| - i
    decreases |files| - i
  {
    if i == |files| then SaveRun(m, saved, true)
    else
      var fault := FaultAt(faults, i);
      if !Opens(m, names[i], fault) then SaveRun(m, saved, false)
      else if fault == ReadFails then SaveRun(m[names[i] := File([])], saved, false)
      else SaveLoop(m[names[i] := File(files[i].content)], names, files, faults, i + 1, saved + [names[i]])
  }

  /** The number of uploads the save loop recorded. */
  function SavedCount(r: SaveRun, saved: seq<string>): int
  {
    |r.saved| - |saved|
  }

  /** The loop records the stored names in upload order, one per upload it got through, and
      it runs to the end exactly when it recorded all of them. */
  lemma {:induction false} SaveLoopRecords(m: Store, names: seq<string>, files: seq<UploadFile>,
                                           faults: seq<Fault>, i: nat, saved: seq<string>)
    requires |names| == |files| && i <= |files|
    ensures var r := SaveLoop(m, names, files, faults, i, saved);
      && 0 <= SavedCount(r, saved) <= |files| - i
      && r.saved == saved + names[i..i + SavedCount(r, saved)]
      && (r.complete <==> SavedCount(r, saved) == |files| - i)
    decreases |files| - i
  {
    if i < |files| {
      var fault := FaultAt(faults, i);
      if Opens(m, names[i], fault) && fault != ReadFails {
        var m' := m[names[i] := File(files[i].content)];
        SaveLoopRecords(m', names, files, faults, i + 1, saved + [names[i]]);
        var r := SaveLoop(m', names, files, faults, i + 1, saved + [names[i]]);
        var c := SavedCount(r, saved);
        assert names[i..i + c] == [names[i]] + names[i + 1..i + c];
      }
    }
  }

  /** Writing files never turns a name into a directory or a directory into something else. */
  lemma {:induction false} WriteKeepsDirs(m: Store, name: string, c: Bytes)
    requires !IsDir(m, name)
    ensures forall x :: IsDir(m[name := File(c)], x) <==> IsDir(m, x)
  {
  }

  /** The loop runs to the end exactly when every upload can be opened and read. */
  lemma {:induction false} SaveLoopCompleteIff(m: Store, names: seq<string>, files: seq<UploadFile>,
                                               faults: seq<Fault>, i: nat, saved: seq<string>)
    requires |names| == |files| && i <= |files|
    ensures SaveLoop(m, names, files, faults, i, saved).complete <==> Writable(m, names, faults, i)
    decreases |files| - i
  {
    if i < |files| {
      var fault := FaultAt(faults, i);
      if Opens(m, names[i], fault) && fault != ReadFails {
        var m' := m[names[i] := File(files[i].content)];
        SaveLoopCompleteIff(m', names, files, faults, i + 1, saved + [names[i]]);
        WriteKeepsDirs(m, names[i], files[i].content);
        assert Writable(m', names, faults, i + 1) <==> Writable(m, names, faults, i + 1);
      }
    }
  }

  /** The loop only adds or overwrites entries named by the uploads still to come: nothing is
      removed, and every other entry keeps its content. When it stops early, the entries it
      created are named by the uploads it reached, the one it stopped at included. */
  lemma {:induction false} SaveLoopFrame(m: Store, names: seq<string>, files: seq<UploadFile>,
                                         faults: seq<Fault>, i: nat, saved: seq<string>)
    requires |names| == |files| && i <= |files|
    ensures var r := SaveLoop(m, names, files, faults, i, saved);
      && m.Keys <= r.store.Keys
      && (forall n :: n in m && n !in names[i..] ==> r.store[n] == m[n])
      && (forall n :: n in r.store && n !in m ==> n in names[i..])
      && (var k := i + SavedCount(r, saved);
          !r.complete && k < |files| ==> forall n :: n in r.store && n !in m ==> n in names[i..k + 1])
    decreases |files| - i
  {
    if i < |files| {
      var fault := FaultAt(faults, i);
      assert names[i..] == [names[i]] + names[i + 1..];
      if Opens(m, names[i], fault) && fault != ReadFails {
        var m' := m[names[i] := File(files[i].content)];
        SaveLoopFrame(m', names, files, faults, i + 1, saved + [names[i]]);
        var r := SaveLoop(m', names, files, faults, i + 1, saved + [names[i]]);
        var k := i + SavedCount(r, saved);
        if !r.complete && k < |files| {
          assert names[i..k + 1] == [names[i]] + names[i + 1..k + 1];
        }
      } else if Opens(m, names[i], fault) {
        assert names[i..i + 1] == [names[i]];
      }
    }
  }

  /** An entry no remaining upload names keeps its content. */
  lemma {:induction false} SaveLoopKeeps(m: Store, names: seq<string>, files: seq<UploadFile>,
                                         faults: seq<Fault>, i: nat, saved: seq<string>, n: string)
    requires |names| == |files| && i <= |files|
    requires n in m && Unnamed(names, i, n)
    ensures var r := SaveLoop(m, names, files, faults, i, saved);
      n in r.store && r.store[n] == m[n]
    decreases |files| - i
  {
    if i < |files| {
      var fault := FaultAt(faults, i);
      if Opens(m, names[i], fault) && fault != ReadFails {
        SaveLoopKeeps(m[names[i] := File(files[i].content)], names, files, faults, i + 1, saved + [names[i]], n);
      }
    }
  }

  /** Where an incomplete loop stopped: every earlier upload was sound, the upload at the stop
      was not, and when it was the read that failed, the file that `open` created is there,
      empty. */
  lemma {:induction false} SaveLoopStop(m: Store, names: seq<string>, files: seq<UploadFile>,
                                        faults: seq<Fault>, i: nat, saved: seq<string>)
    requires |names| == |files| && i <= |files|
    ensures var r := SaveLoop(m, names, files, faults, i, saved);
      var k := i + SavedCount(r, saved);
      && (forall j :: i <= j < k && j < |files| ==> FaultAt(faults, j) == Sound && !IsDir(m, names[j]))
      && (!r.complete ==> k < |files| && (FaultAt(faults, k) != Sound || IsDir(m, names[k])))
      && (!r.complete && FaultAt(faults, k) == ReadFails && !IsDir(m, names[k]) ==>
            names[k] in r.store && r.store[names[k]] == File([]))
    decreases |files| - i
  {
    SaveLoopRecords(m, names, files, faults, i, saved);
    if i < |files| {
      var fault := FaultAt(faults, i);
      if Opens(m, names[i], fault) && fault != ReadFails {
        var m' := m[names[i] := File(files[i].content)];
        SaveLoopStop(m', names, files, faults, i + 1, saved + [names[i]]);
        WriteKeepsDirs(m, names[i], files[i].content);
      }
    }
  }

  /** After a complete loop, the last upload stored under each name supplies its content. */
  lemma {:induction false} SaveLoopContents(m: Store, names: seq<string>, files: seq<UploadFile>,
                                            faults: seq<Fault>, i: nat, saved: seq<string>)
    requires |names| == |files| && i <= |files|
    ensures var r := SaveLoop(m, names, files, faults, i, saved);
      r.complete ==>
        forall j :: i <= j < |files| && Unnamed(names, j + 1, names[j]) ==>
          names[j] in r.store && r.store[names[j]] == File(files[j].content)
    decreases |files| - i
  {
    if i < |files| {
      var fault := FaultAt(faults, i);
      if Opens(m, names[i], fault) && fault != ReadFails {
        var m' := m[names[i] := File(files[i].content)];
        var r := SaveLoop(m', names, files, faults, i + 1, saved + [names[i]]);
        SaveLoopContents(m', names, files, faults, i + 1, saved + [names[i]]);
        if r.complete && Unnamed(names, i + 1, names[i]) {
          SaveLoopKeeps(m', names, files, faults, i + 1, saved + [names[i]], names[i]);
        }
      }
    }
  }

  /** The store with the given names unlinked (`missing_ok=True`: absent names are skipped). */
  function Without(m: Store, names: seq<string>): Store
  {
    m - (set n | n in names)
  }

  /** The store and the response of one upload request. */
  datatype UploadResult = UploadResult(store: Store, outcome: UploadOutcome)

  function UploadOf(m: Store, id: string, files: seq<UploadFile>, faults: seq<Fault>): UploadResult
  {
    if LayoutOf(files).Bundle? && MissingExts(files) != {} then
      UploadResult(m, MissingCompanions(MissingExts(files)))
    else
      var run := SaveLoop(m, StoredNames(id, files), files, faults, 0, []);
      if !run.complete then UploadResult(Without(run.store, run.saved), SaveFailed)
      else if |files| == 0 then UploadResult(run.store, SaveFailed)
      else UploadResult(run.store, Stored(id, CanonicalFilename(files).value, run.saved))
  }

  /** An incomplete bundle is refused before anything is written. */
  lemma {:induction false} MissingCompanionsWriteNothing(m: Store, id: string, files: seq<UploadFile>, faults: seq<Fault>)
    requires LayoutOf(files).Bundle? && MissingExts(files) != {}
    ensures UploadOf(m, id, files, faults) == UploadResult(m, MissingCompanions(MissingExts(files)))
  {
  }

  /** An upload succeeds exactly when the list is not empty, a bundle is complete, and every
      upload can be opened and read. */
  lemma {:induction false} UploadSucceedsIff(m: Store, id: string, files: seq<UploadFile>, faults: seq<Fault>)
    ensures UploadOf(m, id, files, faults).outcome.Stored? <==>
      && |files| > 0
      && !(LayoutOf(files).Bundle? && MissingExts(files) != {})
      && Writable(m, StoredNames(id, files), faults, 0)
  {
    SaveLoopCompleteIff(m, StoredNames(id, files), files, faults, 0, []);
  }

  /** A successful upload reports the request id, the canonical filename and one stored name
      per upload in upload order; each stored name holds the content of the last upload
      stored under it, and every other entry is as before. */
  lemma {:induction false} UploadStoresAll(m: Store, id: string, files: seq<UploadFile>, faults: seq<Fault>)
    requires UploadOf(m, id, files, faults).outcome.Stored?
    ensures var r := UploadOf(m, id, files, faults);
      var names := StoredNames(id, files);
      && r.outcome == Stored(id, CanonicalFilename(files).value, names)
      && (forall j :: 0 <= j < |files| && Unnamed(names, j + 1, names[j]) ==>
            names[j] in r.store && r.store[names[j]] == File(files[j].content))
      && (forall n :: n in m && n !in names ==> n in r.store && r.store[n] == m[n])
      && (forall n :: n in r.store ==> n in m || n in names)
  {
    var names := StoredNames(id, files);
    var run := SaveLoop(m, names, files, faults, 0, []);
    assert UploadOf(m, id, files, faults) == UploadResult(run.store, Stored(id, CanonicalFilename(files).value, run.saved));
    CompleteRun(m, names, files, faults);
  }

  /** A complete save loop, from the start. */
  lemma {:induction false} CompleteRun(m: Store, names: seq<string>, files: seq<UploadFile>, faults: seq<Fault>)
    requires |names| == |files| && SaveLoop(m, names, files, faults, 0, []).complete
    ensures var r := SaveLoop(m, names, files, faults, 0, []);
      && r.saved == names
      && (forall j :: 0 <= j < |files| && Unnamed(names, j + 1, names[j]) ==>
            names[j] in r.store && r.store[names[j]] == File(files[j].content))
      && (forall n :: n in m && n !in names ==> n in r.store && r.store[n] == m[n])
      && (forall n :: n in r.store ==> n in m || n in names)
  {
    SaveLoopRecords(m, names, files, faults, 0, []);
    assert names[0..|files|] == names;
    SaveLoopContents(m, names, files, faults, 0, []);
    FrameFromStart(m, names, files, faults);
  }

  /** The frame of the save loop, from the start. */
  lemma {:induction false} FrameFromStart(m: Store, names: seq<string>, files: seq<UploadFile>, faults: seq<Fault>)
    requires |names| == |files|
    ensures var r := SaveLoop(m, names, files, faults, 0, []);
      && m.Keys <= r.store.Keys
      && (forall n :: n in m && n !in names ==> r.store[n] == m[n])
      && (forall n :: n in r.store ==> n in m || n in names)
  {
    SaveLoopFrame(m, names, files, faults, 0, []);
    assert names[0..] == names;
  }

  /** A failed save loop unlinks exactly the names it had recorded: the first `k` stored
      names are gone, no entry that existed before and is not among them is removed, and
      entries not named by any upload keep their content. */
  lemma {:induction false} RollbackRemovesSaved(m: Store, id: string, files: seq<UploadFile>, faults: seq<Fault>)
    requires !(LayoutOf(files).Bundle? && MissingExts(files) != {})
    requires !SaveLoop(m, StoredNames(id, files), files, faults, 0, []).complete
    ensures var r := UploadOf(m, id, files, faults);
      var names := StoredNames(id, files);
      var k := |SaveLoop(m, names, files, faults, 0, []).saved|;
      && r.outcome == SaveFailed
      && k < |files|
      && (forall j :: 0 <= j < k ==> names[j] !in r.store)
      && (forall n :: n in m && n !in names[..k] ==> n in r.store)
      && (forall n :: n in m && n !in names ==> r.store[n] == m[n])
      && (forall n :: n in r.store && n !in m ==> n == names[k])
  {
    var names := StoredNames(id, files);
    SaveLoopRecords(m, names, files, faults, 0, []);
    FrameFromStart(m, names, files, faults);
    FailedRunLeftovers(m, names, files, faults);
    var run := SaveLoop(m, names, files, faults, 0, []);
    assert run.saved == names[..|run.saved|];
  }

  /** After a failed loop, the only entry not present before and not recorded is the one
      the loop stopped at. */
  lemma {:induction false} FailedRunLeftovers(m: Store, names: seq<string>, files: seq<UploadFile>, faults: seq<Fault>)
    requires |names| == |files| && !SaveLoop(m, names, files, faults, 0, []).complete
    ensures var r := SaveLoop(m, names, files, faults, 0, []);
      var k := |r.saved|;
      && k < |files|
      && r.saved == names[..k]
      && forall n :: n in r.store && n !in m && n !in r.saved ==> n == names[k]
  {
    SaveLoopRecords(m, names, files, faults, 0, []);
    SaveLoopFrame(m, names, files, faults, 0, []);
    var r := SaveLoop(m, names, files, faults, 0, []);
    var k := |r.saved|;
    assert r.saved == names[0..k];
    assert names[0..k + 1] == names[..k] + [names[k]];
  }

  /** `open` runs before the name is recorded: when the first fault is a failed read of a
      name not stored earlier in the same request, that file is left behind, empty. */
  lemma {:induction false} ReadFailureLeavesEmptyFile(m: Store, id: string, files: seq<UploadFile>,
                                                      faults: seq<Fault>, k: nat)
    requires !(LayoutOf(files).Bundle? && MissingExts(files) != {})
    requires k < |files| && Writable(m, StoredNames(id, files)[..k], faults, 0)
    requires FaultAt(faults, k) == ReadFails && !IsDir(m, StoredNames(id, files)[k])
    requires StoredNames(id, files)[k] !in StoredNames(id, files)[..k]
    ensures var r := UploadOf(m, id, files, faults);
      && r.outcome == SaveFailed
      && StoredNames(id, files)[k] in r.store
      && r.store[StoredNames(id, files)[k]] == File([])
  {
    var names := StoredNames(id, files);
    ReadFailureRun(m, names, files, faults, k);
  }

  lemma {:induction false} ReadFailureRun(m: Store, names: seq<string>, files: seq<UploadFile>,
                                          faults: seq<Fault>, k: nat)
    requires |names| == |files| && k < |files| && Writable(m, names[..k], faults, 0)
    requires FaultAt(faults, k) == ReadFails && !IsDir(m, names[k])
    requires names[k] !in names[..k]
    ensures var r := SaveLoop(m, names, files, faults, 0, []);
      && !r.complete && r.saved == names[..k]
      && names[k] in Without(r.store, r.saved)
      && Without(r.store, r.saved)[names[k]] == File([])
  {
    SaveLoopRecords(m, names, files, faults, 0, []);
    SaveLoopStop(m, names, files, faults, 0, []);
    var run := SaveLoop(m, names, files, faults, 0, []);
    assert forall j :: 0 <= j < k ==> names[..k][j] == names[j];
    assert !run.complete && SavedCount(run, []) == k;
    assert run.saved == names[..k];
  }

  /** As written, a lone "{base}.shp" (no ".shx", no ".prj") is answered 500: the
      missing-companion error is lost and nothing is written. */
  lemma {:induction false} LoneShpAnswered500AsWritten(m: Store, id: string, faults: seq<Fault>, base: string, c: Bytes)
    requires base != [] && '/' !in base
    ensures var files := [UploadFile(base + ".shp", c)];
      var r := UploadOf(m, id, files, faults);
      && MissingExts(files) == {".shx", ".prj"}
      && r.store == m
      && UploadStatusAsWritten(r.outcome) == 500
  {
    LoneShpMissing(base, c);
  }

  /** With the 400 raised outside the rollback handler, the same request is answered 400
      naming exactly the missing extensions, and nothing is written. */
  lemma {:induction false} LoneShpAnswered400(m: Store, id: string, faults: seq<Fault>, base: string, c: Bytes)
    requires base != [] && '/' !in base
    ensures var files := [UploadFile(base + ".shp", c)];
      var r := UploadOf(m, id, files, faults);
      && r == UploadResult(m, MissingCompanions({".shx", ".prj"}))
      && UploadStatus(r.outcome) == 400
  {
    LoneShpMissing(base, c);
  }

  lemma {:induction false} LoneShpMissing(base: string, c: Bytes)
    requires base != [] && '/' !in base
    ensures var files := [UploadFile(base + ".shp", c)];
      LayoutOf(files) == Bundle(base) && MissingExts(files) == {".shx", ".prj"}
  {
    LoneShpIsBundle(base, c);
    LoneShpExts(base, c);
    OnlyShpSupplied();
  }

  lemma {:induction false} LoneShpExts(base: string, c: Bytes)
    requires base != [] && '/' !in base
    ensures UploadedExts([UploadFile(base + ".shp", c)]) == {".shp"}
  {
    DottedMember(base, ".shp");
    ExtensionLiterals();
    UploadedExtsOfOne(UploadFile(base + ".shp", c));
  }

  lemma {:induction false} OnlyShpSupplied()
    ensures RequiredExts - {".shp"} == {".shx", ".prj"}
  {
    assert ".shx"[3] != ".shp"[3] && ".prj"[1] != ".shp"[1];
  }

  lemma {:induction false} LoneShpIsBundle(base: string, c: Bytes)
    requires base != [] && '/' !in base
    ensures LayoutOf([UploadFile(base + ".shp", c)]) == Bundle(base)
  {
    var files := [UploadFile(base + ".shp", c)];
    LowerConcat(base, ".shp");
    ExtensionLiterals();
    EndsWithConcat(Lower(base), ".shp");
    assert IsShpName(files[0].filename);
    assert FirstShp(files) == Some(0);
    DottedMember(base, ".shp");
  }

  // ---------------------------------------------------------------------------------------
  // Processing: output directory, Shapefile output, archive
  // ---------------------------------------------------------------------------------------

  /** The files an ESRI Shapefile writer can produce. */
  datatype ShapefilePart = Shp | Shx | Dbf | Prj | Cpg

  function Ext(p: ShapefilePart): string
  {
    match p
    case Shp => ".shp"
    case Shx => ".shx"
    case Dbf => ".dbf"
    case Prj => ".prj"
    case Cpg => ".cpg"
  }

  /** The output is always written as "Procesado.shp" and its companions. */
  function PartName(p: ShapefilePart): (n: string)
    ensures |n| == 13 && n[..9] == "Procesado" && '/' !in n
  {
    "Procesado" + Ext(p)
  }

  /** The extensions are distinct, so every output part has its own file name. */
  lemma {:induction false} PartNameInjective(p: ShapefilePart, q: ShapefilePart)
    ensures PartName(p) == PartName(q) <==> p == q
  {
    if PartName(p) == PartName(q) {
      assert PartName(p)[9..] == Ext(p) && PartName(q)[9..] == Ext(q);
      assert Ext(p)[1..] == Ext(q)[1..];
      assert Ext(p)[1] == Ext(q)[1] && Ext(p)[2] == Ext(q)[2];
    }
  }

  /** The files the writer leaves in the output directory, by name. */
  function OutputFiles(parts: map<ShapefilePart, Bytes>): (r: map<string, Bytes>)
    ensures forall p :: p in parts ==> PartName(p) in r && r[PartName(p)] == parts[p]
    ensures forall n :: n in r ==> '/' !in n
  {
    forall p, q | p in parts && q in parts && PartName(p) == PartName(q) ensures parts[p] == parts[q] {
      PartNameInjective(p, q);
    }
    map p | p in parts :: PartName(p) := parts[p]
  }

  /** The writer's parts are the only files it leaves: no other name appears. */
  lemma {:induction false} OutputFilesOnly(parts: map<ShapefilePart, Bytes>)
    ensures OutputFiles(parts).Keys == set p | p in parts :: PartName(p)
  {
  }

  /** The errors the processing endpoint can end in, in the order it can meet them. */
  datatype ProcessError =
    | DirBlocked                       // `{id}` exists and is not a directory
    | InputMissing                     // `{id}_{filename}` is absent or a directory
    | Unreadable                       // the reader rejects the file
    | MissingGeometry                  // a row has no geometry
    | MultiPartGeometry(kind: GeomType)
    | NaiveCrs                         // no CRS to transform from
    | WriteFailed                      // the Shapefile writer fails
    | ZipBlocked                       // `{id}.zip` is a directory

  datatype ProcessOutcome =
    | Archived(zipPath: string, crsStart: Crs, crsEnd: Crs)
    | ProcessFailed(error: ProcessError)

  /** The response of a download request. */
  datatype DownloadOutcome =
    | NotFound                         // 404: `{id}.zip` does not exist
    | Served(entry: Entry)             // the file response with that entry's bytes
    | NotRegularFile                   // `{id}.zip` is a directory: the file response fails

  /** The status of the download response: the framework's file response refuses a
      directory and the request ends in a 500. */
  function DownloadStatus(o: DownloadOutcome): nat
  {
    match o
    case NotFound => 404
    case Served(_) => 200
    case NotRegularFile => 500
  }

  /** The temporary directory the store lives in, as the response names it. */
  const TempDir: string := "backend/temp_files"

  function ZipName(id: string): string
  {
    id + ".zip"
  }

  /** `mkdir(exist_ok=True)`: an existing directory is kept as it is. */
  function WithDir(m: Store, id: string): Store
  {
    if id in m then m else m[id := Dir(map[])]
  }

  datatype ProcessResult = ProcessResult(store: Store, outcome: ProcessOutcome)

  /** The processing endpoint on a store, for given reader and writer results. */
  function ProcessOf(m: Store, id: string, filename: string,
                     read: (Engine, Entry) -> Option<FeatureCollection>,
                     write: FeatureCollection -> Option<map<ShapefilePart, Bytes>>): ProcessResult
  {
    if id in m && !m[id].Dir? then ProcessResult(m, ProcessFailed(DirBlocked))
    else
      var m1 := WithDir(m, id);
      var input := Prefixed(id, filename);
      if input !in m1 || m1[input].Dir? then ProcessResult(m1, ProcessFailed(InputMissing))
      else match read(ReaderFor(filename), m1[input])
        case None => ProcessResult(m1, ProcessFailed(Unreadable))
        case Some(gdf) =>
          match Scan(gdf.features, 0)
          case GeometryMissing(_) => ProcessResult(m1, ProcessFailed(MissingGeometry))
          case MultiPartFound(_, kind) => ProcessResult(m1, ProcessFailed(MultiPartGeometry(kind)))
          case Accepted =>
            if gdf.crs.None? then ProcessResult(m1, ProcessFailed(NaiveCrs))
            else
              var projected := ToCrs(gdf, TargetCrs);
              match write(projected)
              case None => ProcessResult(m1, ProcessFailed(WriteFailed))
              case Some(parts) =>
                var children := m1[id].children + OutputFiles(parts);
                var m2 := m1[id := Dir(children)];
                if IsDir(m2, ZipName(id)) then ProcessResult(m2, ProcessFailed(ZipBlocked))
                else ProcessResult(m2[ZipName(id) := Archive(children)],
                                   Archived(TempDir + "/" + ZipName(id), gdf.crs.value, projected.crs.value))
  }

  /** A collection the geometry check rejects stops processing after the output directory
      is created and before anything is written into it or archived. */
  lemma {:induction false} RejectedBeforeOutput(m: Store, id: string, filename: string,
                                                read: (Engine, Entry) -> Option<FeatureCollection>,
                                                write: FeatureCollection -> Option<map<ShapefilePart, Bytes>>)
    requires ProcessOf(m, id, filename, read, write).outcome.ProcessFailed?
    requires ProcessOf(m, id, filename, read, write).outcome.error in {MissingGeometry}
          || ProcessOf(m, id, filename, read, write).outcome.error.MultiPartGeometry?
    ensures var r := ProcessOf(m, id, filename, read, write);
      && r.store == WithDir(m, id)
      && IsDir(r.store, id)
      && (ZipName(id) in r.store <==> ZipName(id) in m)
  {
  }

  /** No failed processing request creates, removes or changes the archive. */
  lemma {:induction false} FailureLeavesArchive(m: Store, id: string, filename: string,
                                                read: (Engine, Entry) -> Option<FeatureCollection>,
                                                write: FeatureCollection -> Option<map<ShapefilePart, Bytes>>)
    requires ProcessOf(m, id, filename, read, write).outcome.ProcessFailed?
    ensures var r := ProcessOf(m, id, filename, read, write);
      && (ZipName(id) in r.store <==> ZipName(id) in m)
      && (ZipName(id) in m ==> r.store[ZipName(id)] == m[ZipName(id)])
  {
    ZipNameIsNotDir(id);
  }

  lemma {:induction false} ZipNameIsNotDir(id: string)
    ensures ZipName(id) != id
  {
    assert |ZipName(id)| == |id| + 4;
  }

  /** A successful run writes the output parts into `{id}/`, archives exactly that
      directory's files under their plain names at `{id}.zip`, reports the original CRS and
      EPSG:4686, and touches no other entry. */
  lemma {:induction false} ProcessArchivesOutput(m: Store, id: string, filename: string,
                                                 read: (Engine, Entry) -> Option<FeatureCollection>,
                                                 write: FeatureCollection -> Option<map<ShapefilePart, Bytes>>)
    requires StoreFlat(m)
    requires ProcessOf(m, id, filename, read, write).outcome.Archived?
    ensures var r := ProcessOf(m, id, filename, read, write);
      var gdf := read(ReaderFor(filename), WithDir(m, id)[Prefixed(id, filename)]).value;
      var parts := write(ToCrs(gdf, TargetCrs)).value;
      && StoreFlat(r.store)
      && IsDir(r.store, id)
      && (forall p :: p in parts ==> PartName(p) in r.store[id].children
                                      && r.store[id].children[PartName(p)] == parts[p])
      && ZipName(id) in r.store
      && r.store[ZipName(id)] == Archive(r.store[id].children)
      && (forall n :: n in r.store[ZipName(id)].members ==> '/' !in n)
      && r.outcome == Archived(TempDir + "/" + ZipName(id), gdf.crs.value, TargetCrs)
      && Scan(gdf.features, 0).Accepted?
      && r.store[id] == Dir((if id in m then m[id].children else map[]) + OutputFiles(parts))
      && r.store.Keys == m.Keys + {id, ZipName(id)}
      && (forall n :: n in m && n != id && n != ZipName(id) ==> n in r.store && r.store[n] == m[n])
  {
    ZipNameIsNotDir(id);
    var gdf := read(ReaderFor(filename), WithDir(m, id)[Prefixed(id, filename)]).value;
    var parts := write(ToCrs(gdf, TargetCrs)).value;
    var children := (if id in m then m[id].children else map[]) + OutputFiles(parts);
    ArchivedStore(m, id, filename, read, write);
    assert FlatEntry(Dir(children));
    StoreAfterArchive(m, id, children);
  }

  /** Running the processing again on the store a successful run left, with the same
      reader and writer, answers the same and changes nothing: the input is untouched, the
      parts overwrite themselves in `{id}/`, and `{id}.zip` is rewritten with the same files. */
  lemma {:induction false} ProcessIdempotent(m: Store, id: string, filename: string,
                                             read: (Engine, Entry) -> Option<FeatureCollection>,
                                             write: FeatureCollection -> Option<map<ShapefilePart, Bytes>>)
    requires ProcessOf(m, id, filename, read, write).outcome.Archived?
    ensures var r := ProcessOf(m, id, filename, read, write);
      ProcessOf(r.store, id, filename, read, write) == r
  {
    var m1 := WithDir(m, id);
    ArchivedInput(m, id, filename, read, write);
    var gdf := read(ReaderFor(filename), m1[Prefixed(id, filename)]).value;
    var parts := write(ToCrs(gdf, TargetCrs)).value;
    var children := (if id in m then m[id].children else map[]) + OutputFiles(parts);
    ArchivedStore(m, id, filename, read, write);
    ArchiveKeepsInput(m1, id, filename, children);
    OverlayTwice(if id in m then m[id].children else map[], OutputFiles(parts));
    RerunUnchanged(m1[id := Dir(children)][ZipName(id) := Archive(children)],
                   id, filename, read, write, gdf, parts, children);
  }

  /** Writing `{id}/` and `{id}.zip` leaves the input `{id}_{filename}` as it was: it is
      longer than `{id}`, and has '_' where `{id}.zip` has '.'. */
  lemma {:induction false} ArchiveKeepsInput(m1: Store, id: string, filename: string,
                                             children: map<string, Bytes>)
    requires Prefixed(id, filename) in m1
    ensures var s := m1[id := Dir(children)][ZipName(id) := Archive(children)];
      && Prefixed(id, filename) in s && s[Prefixed(id, filename)] == m1[Prefixed(id, filename)]
      && s[id] == Dir(children) && s[ZipName(id)] == Archive(children)
  {
    ZipNameIsNotDir(id);
    var input := Prefixed(id, filename);
    assert input[|id|] != ZipName(id)[|id|];
  }

  /** Overlaying the same files a second time changes nothing. */
  lemma {:induction false} OverlayTwice(a: map<string, Bytes>, b: map<string, Bytes>)
    ensures (a + b) + b == a + b
  {
  }

  /** A successful run found its input as a file. */
  lemma {:induction false} ArchivedInput(m: Store, id: string, filename: string,
                                         read: (Engine, Entry) -> Option<FeatureCollection>,
                                         write: FeatureCollection -> Option<map<ShapefilePart, Bytes>>)
    requires ProcessOf(m, id, filename, read, write).outcome.Archived?
    ensures Prefixed(id, filename) in WithDir(m, id) && !WithDir(m, id)[Prefixed(id, filename)].Dir?
  {
  }

  /** A store that already holds `{id}/` with the written parts and `{id}.zip` of the same
      files is left as it is by a run whose reader and writer give the same parts. */
  lemma {:induction false} RerunUnchanged(s: Store, id: string, filename: string,
                                          read: (Engine, Entry) -> Option<FeatureCollection>,
                                          write: FeatureCollection -> Option<map<ShapefilePart, Bytes>>,
                                          gdf: FeatureCollection, parts: map<ShapefilePart, Bytes>,
                                          children: map<string, Bytes>)
    requires id in s && s[id] == Dir(children)
    requires ZipName(id) in s && s[ZipName(id)] == Archive(children)
    requires Prefixed(id, filename) in s && !s[Prefixed(id, filename)].Dir?
    requires read(ReaderFor(filename), s[Prefixed(id, filename)]) == Some(gdf)
    requires Scan(gdf.features, 0).Accepted? && gdf.crs.Some?
    requires write(ToCrs(gdf, TargetCrs)) == Some(parts)
    requires children + OutputFiles(parts) == children
    ensures ProcessOf(s, id, filename, read, write)
         == ProcessResult(s, Archived(TempDir + "/" + ZipName(id), gdf.crs.value, TargetCrs))
  {
    assert WithDir(s, id) == s;
    assert s[id := Dir(children)] == s;
    assert s[ZipName(id) := Archive(children)] == s;
  }

  /** Writing `{id}/` and `{id}.zip` adds at most those two names and keeps the store flat. */
  lemma {:induction false} StoreAfterArchive(m: Store, id: string, children: map<string, Bytes>)
    requires StoreFlat(m) && FlatEntry(Dir(children))
    ensures var s := WithDir(m, id)[id := Dir(children)][ZipName(id) := Archive(children)];
      && StoreFlat(s)
      && s.Keys == m.Keys + {id, ZipName(id)}
      && (forall n :: n in m && n != id && n != ZipName(id) ==> s[n] == m[n])
  {
  }

  /** The store a successful run leaves, written out. */
  lemma {:induction false} ArchivedStore(m: Store, id: string, filename: string,
                                         read: (Engine, Entry) -> Option<FeatureCollection>,
                                         write: FeatureCollection -> Option<map<ShapefilePart, Bytes>>)
    requires ProcessOf(m, id, filename, read, write).outcome.Archived?
    ensures var gdf := read(ReaderFor(filename), WithDir(m, id)[Prefixed(id, filename)]).value;
      var parts := write(ToCrs(gdf, TargetCrs)).value;
      var children := (if id in m then m[id].children else map[]) + OutputFiles(parts);
      && (id in m ==> m[id].Dir?)
      && Scan(gdf.features, 0).Accepted?
      && gdf.crs.Some?
      && ProcessOf(m, id, filename, read, write) ==
           ProcessResult(WithDir(m, id)[id := Dir(children)][ZipName(id) := Archive(children)],
                         Archived(TempDir + "/" + ZipName(id), gdf.crs.value, TargetCrs))
  {
  }

  /** The status of the processing response, as written: the 400 raised for a multi-part
      geometry is caught by the handler's own `except Exception` and re-raised as a 500. */
  function ProcessStatusAsWritten(o: ProcessOutcome): nat
  {
    match o
    case Archived(_, _, _) => 200
    case ProcessFailed(_) => 500
  }

  /** The status the validation evidently intends: 400 for a multi-part geometry. */
  function ProcessStatus(o: ProcessOutcome): nat
  {
    match o
    case Archived(_, _, _) => 200
    case ProcessFailed(MultiPartGeometry(_)) => 400
    case ProcessFailed(_) => 500
  }

  /** The input whose reader yields one MultiPolygon row with two parts, for a fresh request. */
  predicate TwoPartInput(m: Store, id: string, filename: string,
                         read: (Engine, Entry) -> Option<FeatureCollection>)
  {
    && id !in m
    && Prefixed(id, filename) in m && !m[Prefixed(id, filename)].Dir?
    && read(ReaderFor(filename), m[Prefixed(id, filename)]).Some?
    && read(ReaderFor(filename), m[Prefixed(id, filename)]).value.features
         == [Feature(Some(Shape(MultiPolygon, 2)))]
  }

  /** As written, the two-part MultiPolygon is answered 500. */
  lemma {:induction false} TwoPartAnswered500AsWritten(m: Store, id: string, filename: string,
                                                       read: (Engine, Entry) -> Option<FeatureCollection>,
                                                       write: FeatureCollection -> Option<map<ShapefilePart, Bytes>>)
    requires TwoPartInput(m, id, filename, read)
    ensures var r := ProcessOf(m, id, filename, read, write);
      && r.outcome == ProcessFailed(MultiPartGeometry(MultiPolygon))
      && ProcessStatusAsWritten(r.outcome) == 500
  {
    TwoPartRejected(m, id, filename, read);
  }

  /** As intended, the same request is answered 400 naming MultiPolygon, with only the empty
      output directory created. */
  lemma {:induction false} TwoPartAnswered400(m: Store, id: string, filename: string,
                                              read: (Engine, Entry) -> Option<FeatureCollection>,
                                              write: FeatureCollection -> Option<map<ShapefilePart, Bytes>>)
    requires TwoPartInput(m, id, filename, read)
    ensures var r := ProcessOf(m, id, filename, read, write);
      && r == ProcessResult(m[id := Dir(map[])], ProcessFailed(MultiPartGeometry(MultiPolygon)))
      && ProcessStatus(r.outcome) == 400
  {
    TwoPartRejected(m, id, filename, read);
  }

  lemma {:induction false} TwoPartRejected(m: Store, id: string, filename: string,
                                           read: (Engine, Entry) -> Option<FeatureCollection>)
    requires TwoPartInput(m, id, filename, read)
    ensures var input := Prefixed(id, filename);
      && input != id
      && WithDir(m, id)[input] == m[input]
      && Scan(read(ReaderFor(filename), m[input]).value.features, 0) == MultiPartFound(0, MultiPolygon)
  {
    assert |Prefixed(id, filename)| > |id|;
    TwoPartMultiPolygonRejected();
  }

  // ---------------------------------------------------------------------------------------
  // The store
  // ---------------------------------------------------------------------------------------

  /** The temporary directory, shared by all requests. */
  class ArtifactStore {
    var entries: Store

    predicate Valid()
      reads this
    {
      StoreFlat(entries)
    }

    constructor(initial: Store)
      requires StoreFlat(initial)
      ensures Valid() && entries == initial
    {
      entries := initial;
    }

    /** `upload_geofile` with request id `id`. */
    method Upload(id: string, files: seq<UploadFile>, faults: seq<Fault>) returns (r: UploadOutcome)
      requires Valid()
      modifies this
      ensures Valid()
      ensures entries == UploadOf(old(entries), id, files, faults).store
      ensures r == UploadOf(old(entries), id, files, faults).outcome
    {
      var layout := LayoutOf(files);
      if layout.Bundle? {
        var missing := MissingExts(files);
        if missing != {} {
          return MissingCompanions(missing);
        }
      }
      ghost var names := StoredNames(id, files);
      ghost var m0 := entries;
      var saved: seq<string> := [];
      var i := 0;
      while i < |files|
        invariant i <= |files|
        invariant Valid()
        invariant SaveLoop(entries, names, files, faults, i, saved) == SaveLoop(m0, names, files, faults, 0, [])
      {
        var name := StoredName(id, layout, files[i]);
        var fault := FaultAt(faults, i);
        ghost var before := entries;
        assert name == names[i];
        if !Opens(entries, name, fault) {
          Rollback(saved);
          return SaveFailed;
        }
        entries := entries[name := File([])];
        if fault == ReadFails {
          Rollback(saved);
          return SaveFailed;
        }
        entries := entries[name := File(files[i].content)];
        assert entries == before[names[i] := File(files[i].content)];
        saved := saved + [name];
        i := i + 1;
      }
      if |files| == 0 {
        return SaveFailed;
      }
      var filename := if layout.Bundle? then layout.base + ".shp" else files[0].filename;
      return Stored(id, filename, saved);
    }

    /** The `except` handler of the upload: unlink every recorded name, skipping absent ones. */
    method Rollback(saved: seq<string>)
      requires Valid()
      modifies this
      ensures Valid()
      ensures entries == Without(old(entries), saved)
    {
      var j := 0;
      while j < |saved|
        invariant j <= |saved|
        invariant Valid()
        invariant entries == Without(old(entries), saved[..j])
      {
        assert saved[..j + 1] == saved[..j] + [saved[j]];
        entries := entries - {saved[j]};
        j := j + 1;
      }
      assert saved[..j] == saved;
    }

    /** `process_file` for request `id` and the filename the upload reported. */
    method Process(id: string, filename: string,
                   read: (Engine, Entry) -> Option<FeatureCollection>,
                   write: FeatureCollection -> Option<map<ShapefilePart, Bytes>>)
      returns (r: ProcessOutcome)
      requires Valid()
      modifies this
      ensures Valid()
      ensures entries == ProcessOf(old(entries), id, filename, read, write).store
      ensures r == ProcessOf(old(entries), id, filename, read, write).outcome
    {
      var input := Prefixed(id, filename);
      if id in entries && !entries[id].Dir? {
        return ProcessFailed(DirBlocked);
      }
      if id !in entries {
        entries := entries[id := Dir(map[])];
      }
      var engine := ReaderFor(filename);
      if input !in entries || entries[input].Dir? {
        return ProcessFailed(InputMissing);
      }
      var gdf := read(engine, entries[input]);
      if gdf.None? {
        return ProcessFailed(Unreadable);
      }
      var verdict := ValidateGeometries(gdf.value.features);
      match verdict {
        case GeometryMissing(_) => return ProcessFailed(MissingGeometry);
        case MultiPartFound(_, kind) => return ProcessFailed(MultiPartGeometry(kind));
        case Accepted =>
      }
      if gdf.value.crs.None? {
        return ProcessFailed(NaiveCrs);
      }
      var crsStart := gdf.value.crs.value;
      var projected := ToCrs(gdf.value, TargetCrs);
      var parts := write(projected);
      if parts.None? {
        return ProcessFailed(WriteFailed);
      }
      var children := entries[id].children + OutputFiles(parts.value);
      entries := entries[id := Dir(children)];
      var zipName := ZipName(id);
      if zipName in entries && entries[zipName].Dir? {
        return ProcessFailed(ZipBlocked);
      }
      var members := ArchiveDirectory(id, children);
      entries := entries[zipName := Archive(members)];
      return Archived(TempDir + "/" + zipName, crsStart, projected.crs.value);
    }

    /** `download_file`: not found exactly when `{id}.zip` is absent. An existing entry
        that is a directory passes the existence check but is refused by the file
        response; any other entry is served. */
    method Download(id: string) returns (r: DownloadOutcome)
      ensures r.NotFound? <==> ZipName(id) !in entries
      ensures r.NotRegularFile? <==> ZipName(id) in entries && entries[ZipName(id)].Dir?
      ensures r.Served? ==> r.entry == entries[ZipName(id)] && !r.entry.Dir?
    {
      var zipName := ZipName(id);
      if zipName !in entries {
        return NotFound;
      }
      if entries[zipName].Dir? {
        return NotRegularFile;
      }
      return Served(entries[zipName]);
    }

    /** `cleanup_temp_files`: every top-level file is unlinked and every directory removed
        with its contents, whichever request made it. */
    method Cleanup()
      modifies this
      ensures Valid()
      ensures entries == map[]
      ensures forall id :: ZipName(id) !in entries
    {
      while entries.Keys != {}
        decreases entries.Keys
      {
        var item :| item in entries;
        entries := entries - {item};
      }
    }
  }

  /** The archive loop: each file directly inside `dir` becomes a member named by its file
      name alone, so the archive's members are exactly the directory's files. */
  method ArchiveDirectory(dir: string, children: map<string, Bytes>) returns (members: map<string, Bytes>)
    requires forall n :: n in children ==> '/' !in n
    ensures members == children
  {
    members := map[];
    var pending := children.Keys;
    while pending != {}
      invariant pending <= children.Keys
      invariant members.Keys == children.Keys - pending
      invariant forall n :: n in members ==> members[n] == children[n]
      decreases pending
    {
      var n :| n in pending;
      var arcname := Basename(dir + "/" + n);
      BasenameOfChild(dir, n);
      members := members[arcname := children[n]];
      pending := pending - {n};
    }
  }
}
