# Geospatial upload, validation and packaging service — verified model

The service accepts vector files over HTTP, checks them, reprojects them to
EPSG:4686 (MAGNA-SIRGAS), writes the result as an ESRI Shapefile and packs it into a ZIP
archive that the client downloads. Everything is stored in one shared temporary
directory. This project models the core of that pipeline in `backend/main.py`, with the
temporary directory as an abstract artifact store. The store is a map from top-level
names to files, directories of files, and ZIP archives of named members.

Modules:

- `Options`: the optional value.
- `Text`: ASCII lower-casing, `str.endswith`, and the `name`, `suffix` and `stem` of a
  POSIX `pathlib` path.
- `Upload`: the pure decisions of the upload endpoint. These are bundle detection
  (a name ending in `.shp` in any letter case), the missing companion extensions, the
  stored name of every upload and the canonical filename.
- `Geometry`: the fail-fast multi-part check. `Scan` specifies it and the
  `ValidateGeometries` loop implements it.
- `Reading`: the choice between the fiona and pyogrio readers, and the reprojection
  tag.
- `Lifecycle`: the class `ArtifactStore`, whose methods update the store.
  - `Upload`: the save loop, then the rollback.
  - `Process`: output directory, Shapefile output, archive.
  - `Download`.
  - `Cleanup`.

  Each state-changing method is proved against a specification function: `UploadOf`
  for `Upload` and `ProcessOf` for `Process`. The lemmas about those functions carry the
  promised properties.

Several things the code does not control become parameters:

- the request id, which the code draws with `uuid4`;
- a per-upload `Fault`, saying whether creating the file fails or reading the part fails
  after the file was created;
- the vector reader, as a function from engine and stored entry to an optional feature
  collection;
- the Shapefile writer, as a function from the reprojected collection to the optional set
  of written parts.

Both error paths that raise `HTTPException` with status 400 (backend/main.py:71-74 for an
incomplete bundle, backend/main.py:141 for a multi-part geometry) are answered with 500
as the code stands (see Findings). The model follows the code. It states the intended 400
in a separate, corrected status function. Cleanup (backend/main.py:34-38) deletes every
top-level entry of the shared directory, whichever request made it.

## Model

| member | source | states |
|---|---|---|
| Text.Lower | backend/main.py:50 | `str.lower` on ASCII letters; ensures the length is kept, and `LowerIdempotent` states its meaning |
| Text.Basename | backend/main.py:162-163 | pathlib's `name`: ensures the result has no '/', is no longer than the path, and is the path itself when it has no '/' |
| Text.Suffix | backend/main.py:66 | pathlib's `suffix`; the body is the definition, and `StemSuffixSplit` states its meaning |
| Text.Stem | backend/main.py:62 | pathlib's `stem`; the body is the definition, and `StemSuffixSplit` states its meaning |
| Text.LowerIdempotent | backend/main.py:50 | lower-casing a lower-cased name changes nothing, so the case-insensitive tests only look at `lower()` |
| Text.StemSuffixSplit | backend/main.py:62-66 | stem followed by suffix is the file name; a suffix is empty or one leading dot followed by dot-free text; neither part contains '/' |
| Text.SuffixOfDottedEnding | backend/main.py:50-66 | a name whose lower-cased text ends in ".ext" has pathlib suffix ".ext" in lower case, unless the file name is the extension alone |
| Text.BasenameOfChild | backend/main.py:162-163 | the `name` of `dir/child` is `child`, so an archive entry named by a file's name is flat |
| Upload.FirstIndex | backend/main.py:50 | `next` over the generator: no index when no element matches, otherwise the first matching index |
| Upload.LayoutOf | backend/main.py:50-62 | the body is the definition (single names, or a bundle named by the stem of the first ".shp" member); `BundleIff` states its meaning |
| Upload.BundleIff | backend/main.py:50-62 | the upload is a bundle iff some name, lower-cased, ends in ".shp"; its base is the stem of the first such name |
| Upload.UploadedExts | backend/main.py:66 | the body is the definition (the set of lower-cased suffixes); `UploadedExtsOfOne` and `MissingExactly` state its meaning |
| Upload.MissingExts | backend/main.py:65-69 | the body is the definition (required minus uploaded); `MissingExactly` and `ExtrasAccepted` state its meaning |
| Upload.MissingExactly | backend/main.py:65-69 | an extension is reported missing iff it is one of .shp/.shx/.prj and no upload's lower-cased suffix equals it |
| Upload.ExtrasAccepted | backend/main.py:65-69 | adding an upload with any other extension (".dbf", ".cpg", ...) never changes the missing set |
| Upload.ShpMemberCounts | backend/main.py:50-69 | the bundle's first ".shp" member supplies ".shp" itself unless its file name is only ".shp" |
| Upload.UploadedExtsOfOne | backend/main.py:66 | a single upload supplies exactly its own lower-cased suffix |
| Upload.StoredNames | backend/main.py:80-89 | one name per upload in upload order; its ensures only unfolds the definition, and `StoredNamesShape` states its shape |
| Upload.StoredNamesShape | backend/main.py:79-87 | every stored name starts with `{id}_`; it is `{id}_{filename}` outside a bundle, `{id}_{base}{suffix}` with the suffix in its original case in a bundle, and the first ".shp" member keeps its own file name |
| Upload.CanonicalFilename | backend/main.py:101 | the body is the definition (`{base}.shp` for a bundle, else the first upload's name, none for an empty list); `CanonicalStoredIff` states its meaning |
| Upload.CanonicalStoredIff | backend/main.py:84-101 | `{id}_{canonical}`, the name processing opens, is among the stored names iff the upload is not a bundle or some member's suffix is ".shp" in lower case |
| Upload.UpperCaseShpNotStored | backend/main.py:50-101 | "B.SHP", "B.shx", "B.prj" form a complete bundle reported as "B.shp", and no stored name is `{id}_B.shp` |
| Upload.UploadStatusAsWritten | backend/main.py:71-109 | the body is the definition: 200 when stored, 500 for missing companions and for a failed save, as the handler ends |
| Upload.UploadStatus | backend/main.py:71-109 | the body is the definition: 200 when stored, 400 for missing companions, 500 for a failed save |
| Geometry.Rejected | backend/main.py:137-140 | the body is the definition (the type name is a multi name and there is more than one part); `RejectedIff` states its meaning |
| Geometry.RejectedIff | backend/main.py:137-140 | comparing type names rejects exactly MultiPoint, MultiLineString and MultiPolygon with more than one part |
| Geometry.Scan | backend/main.py:135-141 | accepted iff no row stops the check; otherwise the verdict names the first stopping row, its type for a multi-part geometry, and every earlier row passes |
| Geometry.ValidateGeometries | backend/main.py:135-141 | the row loop with early exit returns the verdict of `Scan` over all rows |
| Geometry.FailFast | backend/main.py:135-141 | once a row stops the check, appending any rows leaves the verdict unchanged |
| Geometry.TwoPartMultiPolygonRejected | backend/main.py:138-141 | one two-part MultiPolygon row is rejected at row 0 and the verdict names "MultiPolygon" |
| Reading.ReaderFor | backend/main.py:129-132 | fiona iff the lower-cased name ends in ".kml" or ".kmz", pyogrio otherwise |
| Reading.ReaderIgnoresCase | backend/main.py:129 | lower-casing the name first does not change the reader |
| Reading.KmzReadByFiona | backend/main.py:129-130 | any "{stem}.KMZ" is read with fiona |
| Reading.ShpReadByPyogrio | backend/main.py:129-132 | any "{stem}.shp" is read with pyogrio |
| Reading.ToCrs | backend/main.py:146-148 | the reprojected collection is tagged with the target CRS and keeps every row |
| Lifecycle.SaveLoop | backend/main.py:79-94 | the save loop records at most one name per remaining upload |
| Lifecycle.SaveLoopRecords | backend/main.py:79-94 | the recorded names are the stored names of a prefix of the uploads, in order; the loop completes iff it recorded all |
| Lifecycle.SaveLoopCompleteIff | backend/main.py:89-94 | the loop completes iff every upload can be opened (no fault, not a directory) and read |
| Lifecycle.SaveLoopFrame | backend/main.py:89-94 | the loop removes nothing and changes or creates only entries named by uploads still to come; when it stops early, the entries it created are named by the uploads up to and including the one it stopped at |
| Lifecycle.SaveLoopKeeps | backend/main.py:89-94 | an entry no remaining upload is stored under keeps its content |
| Lifecycle.SaveLoopStop | backend/main.py:91-94 | uploads before the stop were sound, the one at the stop was not, and a failed read leaves that file created and empty |
| Lifecycle.SaveLoopContents | backend/main.py:91-94 | after a complete loop each stored name holds the content of the last upload stored under it |
| Lifecycle.CompleteRun | backend/main.py:79-94 | a complete loop records every stored name, stores each last upload's content and leaves unrelated entries alone |
| Lifecycle.ReadFailureRun | backend/main.py:91-94 | a read failing at upload k, after k sound uploads, stops the loop with k names recorded |
| Lifecycle.Without | backend/main.py:105-108 | the body is the definition (every recorded name unlinked, absent ones skipped); `RollbackRemovesSaved` states its effect |
| Lifecycle.UploadOf | backend/main.py:46-109 | the body is the definition of `upload_geofile` on a store; `MissingCompanionsWriteNothing`, `UploadSucceedsIff`, `UploadStoresAll` and `RollbackRemovesSaved` state its meaning |
| Lifecycle.MissingCompanionsWriteNothing | backend/main.py:69-79 | an incomplete bundle is refused with its missing set and the store unchanged |
| Lifecycle.UploadSucceedsIff | backend/main.py:60-103 | an upload succeeds iff the list is non-empty, a bundle is complete, and every upload can be opened and read |
| Lifecycle.UploadStoresAll | backend/main.py:79-103 | success reports the id, the canonical filename and one stored name per upload in order, stores the contents, and leaves other entries unchanged |
| Lifecycle.FailedRunLeftovers | backend/main.py:89-94 | after a failed loop the recorded names are the first k stored names, and the only entry that is new and not recorded is the k-th stored name |
| Lifecycle.RollbackRemovesSaved | backend/main.py:105-108 | after a failed save the recorded names (a prefix of the stored names) are gone, nothing else that existed is removed, unrelated entries keep their content, and the only new entry left behind is the file of the upload the loop stopped at |
| Lifecycle.ReadFailureLeavesEmptyFile | backend/main.py:91-94 | a failed `read` leaves its freshly opened file behind, empty, because the name is recorded only after the write |
| Lifecycle.LoneShpAnswered500AsWritten | backend/main.py:70-74 | as written, a lone "{base}.shp" misses {".shx", ".prj"}, writes nothing, and is answered 500 |
| Lifecycle.LoneShpAnswered400 | backend/main.py:70-74 | as intended, the same request is answered 400 with exactly {".shx", ".prj"} and nothing written |
| Lifecycle.PartName | backend/main.py:151 | every output file is "Procesado" followed by its extension, with no '/' |
| Lifecycle.PartNameInjective | backend/main.py:151 | distinct output parts have distinct file names |
| Lifecycle.OutputFiles | backend/main.py:151-157 | every part the writer produces appears under its own name with its bytes, and no name has a '/' |
| Lifecycle.OutputFilesOnly | backend/main.py:151-157 | the output files are exactly the written parts' names, no other |
| Lifecycle.WithDir | backend/main.py:125-126 | the body is the definition (`mkdir(exist_ok=True)`: an existing entry is kept, else an empty directory is made) |
| Lifecycle.ProcessOf | backend/main.py:112-173 | the body is the definition of `process_file` on a store; `RejectedBeforeOutput`, `FailureLeavesArchive`, `ProcessArchivesOutput`, `ProcessIdempotent` and `TwoPartRejected` state its meaning |
| Lifecycle.RejectedBeforeOutput | backend/main.py:125-141 | a rejected collection stops processing after `{id}/` exists and before any output or archive is written |
| Lifecycle.FailureLeavesArchive | backend/main.py:123-173 | no failed processing request creates, removes or changes `{id}.zip` |
| Lifecycle.ProcessArchivesOutput | backend/main.py:124-170 | success makes `{id}/` its old files (none if new) overlaid with the written parts and nothing more, archives exactly that directory with flat names at `{id}.zip`, reports the source CRS and EPSG:4686, adds no top-level name besides `{id}` and `{id}.zip`, and leaves every other entry as it was |
| Lifecycle.ArchivedStore | backend/main.py:124-170 | a successful run passed every guard in order and leaves exactly the store with `{id}/` and `{id}.zip` written |
| Lifecycle.StoreAfterArchive | backend/main.py:125-163 | writing `{id}/` and `{id}.zip` adds at most those two names, keeps every other entry and keeps the store flat |
| Lifecycle.ProcessIdempotent | backend/main.py:123-170 | after a successful run, running the processing again on the resulting store with the same reader and writer gives the same response and leaves the store exactly as it was |
| Lifecycle.ArchivedInput | backend/main.py:124-132 | a successful run found `{id}_{filename}` as a file |
| Lifecycle.RerunUnchanged | backend/main.py:125-163 | a store that already holds `{id}/` with the parts and `{id}.zip` of the same files is not changed by a run that writes those parts again |
| Lifecycle.ProcessStatusAsWritten | backend/main.py:141-173 | the body is the definition: 200 when archived, 500 for every failure, the multi-part 400 included, as the handler ends |
| Lifecycle.ProcessStatus | backend/main.py:141-173 | the body is the definition: 200 when archived, 400 for a multi-part geometry, 500 for other failures |
| Lifecycle.TwoPartAnswered500AsWritten | backend/main.py:141-173 | as written, one two-part MultiPolygon row is answered 500 |
| Lifecycle.TwoPartAnswered400 | backend/main.py:141 | as intended, that request is answered 400 naming MultiPolygon, with only the empty `{id}/` created |
| Lifecycle.ArchiveDirectory | backend/main.py:160-163 | the archive loop makes the members exactly the directory's files, each under its plain name |
| Lifecycle.ArtifactStore.constructor | backend/main.py:21-22 | a store whose directory children and archive members have plain names; top-level names are not constrained |
| Lifecycle.ArtifactStore.Upload | backend/main.py:46-109 | the new store and the response are those of `UploadOf`, and the store stays flat |
| Lifecycle.ArtifactStore.Rollback | backend/main.py:105-108 | every recorded name is unlinked, absent ones skipped |
| Lifecycle.ArtifactStore.Process | backend/main.py:112-173 | the new store and the response are those of `ProcessOf`, and the store stays flat |
| Lifecycle.ArtifactStore.Download | backend/main.py:175-184 | not found exactly when `{id}.zip` is absent; a directory of that name fails in the file response; any other entry is served |
| Lifecycle.DownloadStatus | backend/main.py:177-184 | the body is the definition: 404 when not found, 200 when served, 500 when the file response refuses a directory |
| Lifecycle.ArtifactStore.Cleanup | backend/main.py:27-38 | every top-level entry is deleted, whatever request made it; afterwards no download succeeds |

## Left out

- Reading vector files, the coordinate transformation, CRS names and the response
  message (backend/main.py:129-132, 143-148, 165-170) belong to geopandas, fiona, pyogrio
  and pyproj. The reader and the writer are function parameters, and a CRS is an EPSG
  code or an opaque text.
- Reading.ToCrs: coordinates are not modelled, so reprojection only re-tags the
  collection. Type tags and part counts, all the geometry check reads, are kept.
- Datetime-column coercion before writing (backend/main.py:152-155) is a pandas dtype
  conversion that does not affect names or the store.
- The preview endpoint (backend/main.py:186-241) is folium rendering with floating-point
  centroids. Its reader choice is `Reading.ReaderFor`.
- The 20-second delay and the background scheduling of cleanup (backend/main.py:29, 182)
  are timing and concurrency.
- Lifecycle.ArtifactStore.Download: it does not run the cleanup it schedules. Cleanup is
  the separate, atomic `Cleanup` method.
- The fiona driver switches, routing, static mounts, the root page and the temporary HTML
  file (backend/main.py:18-25, 40-43, 116-121, 235-238) are framework plumbing.
- The request id drawn with `uuid4` (backend/main.py:53) is a parameter. Its uniqueness
  is not modelled.
- Text.Lower: lowers ASCII letters only. Python's `str.lower` also lowers other Unicode
  letters.
- Letter case of stored names: the store matches names exactly, as a case-sensitive
  file system does. On a case-insensitive file system, opening `{id}_X.shp` finds
  `{id}_X.SHP`, where the model reports `InputMissing`.
- Lifecycle.ProcessOf: the reader parameter sees only the entry `{id}_{filename}`. A
  Shapefile read also opens the companions `{id}_{base}.shx`, `.prj` and `.dbf` from
  the store, so nothing links the companions an upload stored to a successful read.
- Names containing '/' or "..": the store is one flat level of names. Failures that such
  paths cause in `open` are part of the `OpenFails` fault.
- Text.Basename: takes the text after the last '/'. pathlib also drops a trailing '/' and
  "." components ("a/b/" has name "b", where the model gives ""). Such names are outside
  the flat store above.
- A writer that fails part-way: the model leaves the output directory as it was, where
  the real writer may leave some parts behind.
- Lifecycle.FailureLeavesArchive: the model has no fault for `zipf.write`
  (backend/main.py:161-163). It assumes writing archive members never fails once
  `{id}.zip` is open. The real code would then leave a created or truncated, partial
  archive and answer 500.
- Lifecycle.SaveLoop: the model has no fault for `buffer.write` (backend/main.py:93). It
  assumes writing a part never fails once its file is open and the part is read. A
  partly written file is not modelled.
- Archive order and compression: the archive is a map from member name to bytes, so the
  `iterdir` order is not modelled. Directories hold only files, so subdirectories of
  `{id}/` are not modelled.
- Entries that are neither files nor directories (broken links, sockets) are not
  modelled, so cleanup never meets one.
- The browser front end (frontend/script.js) is a DOM and `fetch` UI with no logic of
  its own.

## Findings

| source | as written | input that shows it | evidently intended | confidence | as-written member | corrected member |
|---|---|---|---|---|---|---|
| backend/main.py:70-74 | the 400 for missing companions is raised inside the `try`; the `except` at line 105 reads `saved_files`, first bound at line 79, so the request ends in an unhandled error (500) and the missing list is lost | a lone "roads.shp" upload | 400 naming ".shx" and ".prj", nothing written | high; not executed | Lifecycle.LoneShpAnswered500AsWritten | Lifecycle.LoneShpAnswered400 |
| backend/main.py:141 | the 400 for a multi-part geometry is caught by the handler's own `except Exception` (lines 172-173) and re-raised as 500 | an input whose only row is a MultiPolygon of two parts | 400 naming MultiPolygon | high; not executed | Lifecycle.TwoPartAnswered500AsWritten | Lifecycle.TwoPartAnswered400 |
