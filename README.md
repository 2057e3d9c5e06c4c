# BuildCache, modelled in Dafny

This project models the content-addressed build cache of Pants
(`src/python/twitter/pants/base/build_cache.py`). A cache key pairs an id with
the SHA-1 fingerprint of a set of source files. The fingerprint is taken over
a fixed stream: for every file, its name relative to the walked path and then
its contents. The key also names an entry directory `<root>/0/<id>`.
`update` fills the entry with copies of build artifacts and writes a marker
file `<id>.hash` that holds the fingerprint. `needs_update` compares that
marker with the key. `invalidate` removes the entry and its marker.
`use_cached_files` hands every cached file to a copy function.

Layout:

- `results.dfy`: module `Results`. The errors the cache lets escape, plus `Result` and `Option`.
- `paths.dfy`: module `Paths`.
  - Absolute normalised paths as sequences of names, and their rendering as Python strings.
  - Python's string order, with the proof that rendering is injective (so sorting paths by their strings is a total order).
  - `basename`, the `relpath` of `os.path` on normalised paths, and the `'..'` prefix test.
- `path_sort.dfy`: module `PathSort`. `sorted()` on paths: an insertion sort, and sorting a finite set by its least elements.
- `filesystem.dfy`: module `FileSystem`.
  - A file system is a map from file paths to bytes plus a set of directories.
  - Each library call the cache makes is a function from one state to the next, or to the error it raises: `open`, `os.unlink`, `os.makedirs`, `shutil.copy`, `shutil.copytree` and `safe_rmtree`.
- `filesystem.dfy`: module `FileSystemFacts`. Each of those calls keeps the file system a well-formed tree.
- `fingerprint.dfy`: module `Fingerprint`. `_walk_paths` and `_sources_hash` as pure functions:
  - the walk, as a sequence of (relative, absolute) pairs;
  - the bytes fed to SHA-1;
  - `to_bytes` (UTF-8) and `strip()`.
- `fingerprint_facts.dfy`: module `FingerprintFacts`. What the walk yields and what the stream holds.
- `source_scope.dfy`: module `SourceScopes`. `SourceScope`, `for_selector`, `valid` and the three predefined scopes.
- `staging.dfy`: module `Staging`.
  - The marker path.
  - The artifact placement of `update` and its loop, as functions of the file system.
  - The proof that an update stays inside its entry and marker.
- `build_cache.dfy`: module `BuildCacheModel`.
  - `CacheKey`.
  - The class `BuildCache`, which holds the file system as a field that its methods update.
  - `key_for`, `key_for_target`, `needs_update` and `_read_sha` as functions of that state.
  - `invalidate`, `update`, `use_cached_files`, `_walk_paths` and `_sources_hash` as methods.
  - `Update`, `CopyArtifacts`, `CopyArtifact`, `WalkPaths`, `WalkDirectory`, `JoinDirectories`, `JoinFiles`, `SourcesHash` and `UseCachedFiles` are proved equal to specification functions in `Staging` or `Fingerprint`. `Update` also carries the properties proved about its function.
  - `Invalidate` and the constructor state their new state directly, in terms of `RemoveTree`, `Unlink` and `MakeDirs`.
- `staging_contents.dfy`: module `StagingContents`. What a successful update leaves inside the entry:
  - nothing but copies of the artifacts' files;
  - every file of every artifact at its place, when no two destinations overlap;
  - a second identical update changes nothing.
  It also shows that an artifact outside `artifact_root` makes update fail with the old marker intact.
- `findings.dfy`, with two modules (see Findings):
  - `RootedMarkers`: where `_sha_file` puts the marker when the root is relative.
  - `MarkerCollision`: the marker of id `x` is the entry of id `x.hash`.

How the source's inputs appear in the model:

- SHA-1 is the class's constant `sha1: Bytes -> HexDigest`, an unknown function of the fed bytes. The stream is streaming, so the digest depends on the concatenation of the chunks, not on where they split.
- The order of `os.listdir` is a parameter `listing: Path -> seq<string>`.
- `target.expand_files` is data on the target (`Expansion`).
- `fingerprint_extra`, a callback that updates the hash, is the bytes it feeds, appended after the file stream.
- `copy_fn` is not called. `UseCachedFiles` returns the sequence of calls it would receive.
- Paths are absolute and normalised. The marker path is `filename + ".hash"`, which is what `_sha_file` computes for an absolute root.

## Model

| member | source | states |
|---|---|---|
| SourceScopes.ForSelector | src/python/twitter/pants/base/build_cache.py:37-42 | the scope built from a selector selects, for every target, exactly what the selector returns or raises |
| SourceScopes.ExpandFiles | src/python/twitter/pants/base/build_cache.py:54-59 | expand_files succeeds iff the target has it, raising AttributeError otherwise; recursive chooses the dependency closure, non-recursive the target's own files |
| SourceScopes.PredefinedScopes | src/python/twitter/pants/base/build_cache.py:48-59 | NO_SOURCES selects the empty sequence; TARGET_SOURCES and TRANSITIVE_SOURCES fail exactly when valid() is false, with AttributeError; none of the three raises key_for_target's ValueError |
| Paths.RenderInjective | src/python/twitter/pants/base/build_cache.py:165 | two well-formed paths with the same string are the same path, so sorting by the string orders paths without ties |
| Paths.PathLeAntisymmetric | src/python/twitter/pants/base/build_cache.py:165 | the string order restricted to well-formed paths is antisymmetric |
| Paths.RelPathOfDescendant | src/python/twitter/pants/base/build_cache.py:170 | relpath of a path below the start is the rest of the path after the start |
| Paths.RelPathDotDot | src/python/twitter/pants/base/build_cache.py:136-137 | relpath(artifact, root) starts with '..' iff the artifact is not below the root, or its first name below the root itself begins with '..' |
| Paths.RelPathAccepted | src/python/twitter/pants/base/build_cache.py:136-139 | a relpath that passes the '..' assertion places the artifact below the root, and the relpath is the rest of the artifact's path |
| PathSort.SortPaths | src/python/twitter/pants/base/build_cache.py:92 | sorted() returns the paths in ascending string order as a permutation of its input |
| PathSort.SortedUnique | src/python/twitter/pants/base/build_cache.py:92 | two sorted permutations of the same well-formed paths are equal |
| PathSort.SortPathsPermutationInvariant | src/python/twitter/pants/base/build_cache.py:165 | sorting two arrangements of the same paths gives the same sequence |
| PathSort.SortSet | src/python/twitter/pants/base/build_cache.py:167 | the directories os.walk visits, sorted: ascending, without repetition, exactly the given set |
| FileSystem.ReadFile | src/python/twitter/pants/base/build_cache.py:179-181 | open(p).read() succeeds iff p is a plain file reachable through directories, yielding its contents; a file in the way gives ENOTDIR, a directory EISDIR, an absent p ENOENT |
| FileSystem.WriteFile | src/python/twitter/pants/base/build_cache.py:191-193 | open(p, 'w').write succeeds iff p's parent is a directory and p is not one, and then only p changes, to the data; a file in the way gives ENOTDIR, a directory EISDIR, a missing parent ENOENT |
| FileSystem.Unlink | src/python/twitter/pants/base/build_cache.py:110 | os.unlink succeeds iff p is a plain file and then removes exactly p; a directory gives EISDIR and an absent p ENOENT |
| FileSystem.RemoveTree | src/python/twitter/pants/base/build_cache.py:107 | safe_rmtree removes exactly the files and directories at or below t and keeps every other file's contents |
| FileSystem.MakeDirs | src/python/twitter/pants/base/build_cache.py:142 | os.makedirs succeeds iff d is absent and no file is in its way, and then adds d with all its ancestors; a file in the way gives ENOTDIR, an existing d EEXIST |
| FileSystem.CopyFile | src/python/twitter/pants/base/build_cache.py:146 | shutil.copy, on success, writes the source's contents at dst, or at dst/basename when dst is a directory, and changes nothing else |
| FileSystem.CopyTree | src/python/twitter/pants/base/build_cache.py:144 | shutil.copytree succeeds iff dst is absent and no file is in its way, and then adds a copy of every file and directory under src at dst |
| FileSystemFacts.RemoveTreeValid | src/python/twitter/pants/base/build_cache.py:132 | removing a tree keeps the file system a well-formed tree |
| FileSystemFacts.MakeDirsValid | src/python/twitter/pants/base/build_cache.py:142 | creating directories keeps the file system a well-formed tree |
| FileSystemFacts.CopyFileValid | src/python/twitter/pants/base/build_cache.py:146 | copying a file keeps the file system a well-formed tree |
| FileSystemFacts.CopyTreeValid | src/python/twitter/pants/base/build_cache.py:144 | copying a tree keeps the file system a well-formed tree |
| Fingerprint.DirsUnder | src/python/twitter/pants/base/build_cache.py:167 | os.walk(p) visits exactly the directories at or below p |
| Fingerprint.WalkedDirs | src/python/twitter/pants/base/build_cache.py:167 | the directories of sorted(os.walk(p)): sorted, without repetition, exactly p and the directories below it |
| Fingerprint.FilesIn | src/python/twitter/pants/base/build_cache.py:167-168 | the filenames os.walk reports for a directory are exactly its listed names that are plain files |
| FingerprintFacts.FilesInKeepsOrder | src/python/twitter/pants/base/build_cache.py:167-168 | the reported filenames keep listing order: the names of a concatenated listing are those of each part, in turn; a single name is reported iff it is a plain file of the directory |
| Fingerprint.DirEntries | src/python/twitter/pants/base/build_cache.py:168-170 | each reported file yields its path relative to the walked path and its absolute path, one pair per name in order |
| Fingerprint.Chunks | src/python/twitter/pants/base/build_cache.py:178-181 | a successful read of the walk gives two chunks per file, and a failure is one the open call raises |
| Fingerprint.SourcesFed | src/python/twitter/pants/base/build_cache.py:174-183 | the bytes _sources_hash feeds, or the error of a file that cannot be opened |
| FingerprintFacts.WalkOfDirectory | src/python/twitter/pants/base/build_cache.py:166-170 | walking a directory yields every file below it exactly once, each named so that directory + relative == absolute |
| FingerprintFacts.WalkOfNonDirectory | src/python/twitter/pants/base/build_cache.py:171-172 | a path that is not a directory yields itself under its base name |
| FingerprintFacts.WalkSingleton | src/python/twitter/pants/base/build_cache.py:165-172 | walking a one-element list is walking that path |
| FingerprintFacts.WalkPermutationInvariant | src/python/twitter/pants/base/build_cache.py:165 | permuting the input paths changes neither the walk nor the fed stream |
| FingerprintFacts.SourcesOfFiles | src/python/twitter/pants/base/build_cache.py:176-183 | for plain files the stream is, in sorted order, each file's base name followed by its contents |
| FingerprintFacts.SingleFileFed | src/python/twitter/pants/base/build_cache.py:178-181 | a single readable file feeds its last name's bytes and then its contents |
| FingerprintFacts.NameContentBoundaryIsAmbiguous | src/python/twitter/pants/base/build_cache.py:180-181 | a file named a holding x+c and a file named a+x holding c feed the same stream, so they get the same digest |
| FingerprintFacts.AmbiguousTreesExist | src/python/twitter/pants/base/build_cache.py:180-181 | such a pair of different, well-formed trees exists for any names a, a+x and contents c |
| FingerprintFacts.ChunksErrorPersists | src/python/twitter/pants/base/build_cache.py:179 | once a file cannot be opened, the files after it do not change the error |
| Staging.MarkerPath | src/python/twitter/pants/base/build_cache.py:188-189 | the marker's string is the entry's string with ".hash" appended; it sits in the entry's parent directory |
| Staging.MarkerBesideEntry | src/python/twitter/pants/base/build_cache.py:188-189 | the marker of a well-formed entry is well formed and is neither inside the entry nor an ancestor of it |
| Staging.ArtifactRelPath | src/python/twitter/pants/base/build_cache.py:134-138 | without artifact_root the relative path is the base name; with one it starts with '..' exactly in the rejected cases, and otherwise it is the artifact's path below the root |
| Staging.DestDir | src/python/twitter/pants/base/build_cache.py:139-140 | the directory update makes is the destination's parent, always inside the entry |
| Staging.EnsureDir | src/python/twitter/pants/base/build_cache.py:141-142 | makedirs unless the directory exists: succeeds iff the directory exists or no file is in its way; the files stay, only prefixes of the directory are added, and the directory exists afterwards |
| Staging.StageAllFailurePersists | src/python/twitter/pants/base/build_cache.py:133-146 | the first failing artifact ends the loop; later artifacts change neither the state nor the error |
| Staging.StageArtifactInvariant | src/python/twitter/pants/base/build_cache.py:134-146 | placing one artifact keeps the tree well formed and changes nothing outside the entry except creating the entry's ancestors |
| Staging.StageAllInvariant | src/python/twitter/pants/base/build_cache.py:133-146 | the whole artifact loop keeps the tree well formed and stays inside the entry, whether or not it fails |
| Staging.RemoveTreeConfined | src/python/twitter/pants/base/build_cache.py:132 | removing the entry changes nothing outside it |
| Staging.MakeDirsConfined | src/python/twitter/pants/base/build_cache.py:142 | making a directory inside the entry changes nothing outside it except adding the entry's ancestors |
| Staging.CopyFileConfined | src/python/twitter/pants/base/build_cache.py:146 | copying a file into the entry changes nothing outside it |
| Staging.CopyTreeConfined | src/python/twitter/pants/base/build_cache.py:144 | copying a tree into the entry changes nothing outside it except adding the entry's ancestors |
| Staging.WriteThenRead | src/python/twitter/pants/base/build_cache.py:191-198 | a file that was written reads back as the data written |
| Staging.UpdateOutcomeFacts | src/python/twitter/pants/base/build_cache.py:132-147 | an update keeps the tree well formed; outside the entry only the marker may change, and only when the update succeeds; on success the marker holds the hash |
| Staging.FailedUpdateKeepsMarker | src/python/twitter/pants/base/build_cache.py:132-147 | after a failed update the marker reads as before, so an old marker survives the removal of its entry |
| BuildCacheModel.StripOfDigest | src/python/twitter/pants/base/build_cache.py:198 | strip() leaves a hex digest's bytes unchanged |
| BuildCacheModel.RemoveTreeOfInvalidated | src/python/twitter/pants/base/build_cache.py:107 | safe_rmtree of an entry that is already gone changes nothing |
| BuildCacheModel.BuildCache.PrepareRoot | src/python/twitter/pants/base/build_cache.py:68-73 | makedirs(root/0) is accepted iff no file is in its way; an existing root is kept as it is, a missing one is created with its ancestors, and any other error is ENOTDIR |
| BuildCacheModel.BuildCache.constructor | src/python/twitter/pants/base/build_cache.py:67-73 | the cache root is base/0, it exists afterwards, and the state is what makedirs left |
| BuildCacheModel.BuildCache.KeyFor | src/python/twitter/pants/base/build_cache.py:75-77 | key_for keeps the sources as given, names the entry root/id, and takes the digest of the fed stream; a source that cannot be read raises its error |
| BuildCacheModel.BuildCache.KeyForOrderBlind | src/python/twitter/pants/base/build_cache.py:75-77 | two arrangements of the same sources give keys with the same digest and entry |
| BuildCacheModel.BuildCache.KeyForTarget | src/python/twitter/pants/base/build_cache.py:86-96 | with no usable scope and no extra fingerprint it raises ValueError; a key holds the selected sources sorted (a permutation of the selection), names root/target.id, and digests the file stream followed by the extra bytes; otherwise a key is returned whenever the selection and the read of its sorted sources succeed, and any other error is the selector's or the first unreadable source's |
| BuildCacheModel.BuildCache.KeyForTargetRejectsExactly | src/python/twitter/pants/base/build_cache.py:86-88 | ValueError is raised iff there is neither a scope valid for the target nor an extra fingerprint |
| BuildCacheModel.BuildCache.InvalidScopeStillSelected | src/python/twitter/pants/base/build_cache.py:86-92 | with an extra fingerprint, a target lacking expand_files still reaches TARGET_SOURCES' selector and gets AttributeError |
| BuildCacheModel.BuildCache.KeyForTargetOrderBlind | src/python/twitter/pants/base/build_cache.py:92-96 | selections that differ only in order give the same key |
| BuildCacheModel.BuildCache.ReadMarker | src/python/twitter/pants/base/build_cache.py:195-201 | _read_sha gives the stripped marker contents iff the marker is readable; a missing marker gives None; every other read error, such as EISDIR or ENOTDIR, is raised, and only those are |
| BuildCacheModel.BuildCache.NeedsUpdate | src/python/twitter/pants/base/build_cache.py:112-119 | needs_update raises iff reading the marker raises, and is false iff the stripped marker equals the key's hash |
| BuildCacheModel.BuildCache.MarkerHoldsHash | src/python/twitter/pants/base/build_cache.py:118-119 | a marker holding a hex digest makes needs_update false for that key |
| BuildCacheModel.BuildCache.Invalidate | src/python/twitter/pants/base/build_cache.py:102-110 | invalidate removes the entry and then the marker, failing with EISDIR only if the marker is a directory; afterwards nothing of the entry remains and needs_update is not false; after an earlier invalidate it does nothing; outside the entry only the marker changes |
| BuildCacheModel.BuildCache.Update | src/python/twitter/pants/base/build_cache.py:121-147 | update's new state is its specification; outside the entry only the marker changes; on success the marker reads back as the key's hash and needs_update is false; on failure the marker reads as it did; on success with artifacts outside the entry, the entry holds only copies of the artifacts' files, and with non-overlapping destinations every artifact file at its place; an artifact outside artifact_root makes it fail |
| BuildCacheModel.BuildCache.CopyArtifacts | src/python/twitter/pants/base/build_cache.py:133-146 | the artifact loop leaves the state and failure of its specification, stopping at the first failure |
| BuildCacheModel.BuildCache.CopyArtifact | src/python/twitter/pants/base/build_cache.py:134-146 | one artifact: the '..' assertion, the makedirs of a missing parent, then copytree for a directory and copy otherwise |
| BuildCacheModel.BuildCache.WalkPaths | src/python/twitter/pants/base/build_cache.py:159-172 | the pairs _walk_paths yields are the walk: paths in sorted order, directories expanded |
| BuildCacheModel.BuildCache.WalkDirectory | src/python/twitter/pants/base/build_cache.py:166-170 | the pairs the os.walk loop yields for a directory: directories in sorted order, files in listing order |
| BuildCacheModel.BuildCache.JoinDirectories | src/python/twitter/pants/base/build_cache.py:167-170 | the loop over the walked directories yields, in their order, the pairs of each one's files |
| BuildCacheModel.BuildCache.JoinFiles | src/python/twitter/pants/base/build_cache.py:168-170 | the pairs for one directory's filenames: relative and absolute path of each |
| BuildCacheModel.BuildCache.SourcesHash | src/python/twitter/pants/base/build_cache.py:174-183 | the bytes the loop feeds to SHA-1 are the specified stream, or the error of the first unreadable file |
| BuildCacheModel.BuildCache.UseCachedFiles | src/python/twitter/pants/base/build_cache.py:149-157 | copy_fn receives the walk of the entry in order; for an entry directory it receives every cached file exactly once, as (absolute, relative to the entry); for anything else the entry under its base name |
| BuildCacheModel.BuildCache.CallsOf | src/python/twitter/pants/base/build_cache.py:156-157 | the loop makes one copy_fn(absolute, relative) call per walked pair, in order |
| BuildCacheModel.BuildCache.UseCachedFilesFacts | src/python/twitter/pants/base/build_cache.py:156-157 | the calls of a walk of the entry reach each file below it once, named relative to the entry |
| RootedMarkers.AbsoluteRootMarkerAgrees | src/python/twitter/pants/base/build_cache.py:188-189 | with an absolute root, _sha_file as written gives the marker beside the entry |
| RootedMarkers.RelativeAsWritten | src/python/twitter/pants/base/build_cache.py:188-189 | with a relative root, _sha_file as written names root/0/root/0/id.hash |
| RootedMarkers.RelativeRootDoublesMarker | src/python/twitter/pants/base/build_cache.py:188-189 | with a relative root, the marker of _sha_file as written is not the one beside the entry |
| RootedMarkers.RelativeRootExample | src/python/twitter/pants/base/build_cache.py:188-189 | with the root "cache" the marker of "t" is cache/0/cache/0/t.hash instead of cache/0/t.hash |
| RootedMarkers.RelativeRootMarkerUnusable | src/python/twitter/pants/base/build_cache.py:189-193 | without a directory for the doubled root, writing the marker fails and reading it finds nothing |
| RootedMarkers.IntendedMarkerBesideEntry | src/python/twitter/pants/base/build_cache.py:188-189 | the corrected marker, for a relative or an absolute root, is MarkerPath of the entry: beside it, neither inside it nor an ancestor of it |
| Staging.OtherEntryUntouched | src/python/twitter/pants/base/build_cache.py:102-147 | an update or invalidation of root/a leaves the entry and marker of root/b unchanged, provided neither id is the other's with ".hash" appended |
| StagingContents.UpdateLeavesOnlyCopies | src/python/twitter/pants/base/build_cache.py:132-147 | after a successful update every file at or below the entry is a copy of a file at or below one of the artifacts, with the contents it had before the update |
| StagingContents.UpdateDeliversArtifacts | src/python/twitter/pants/base/build_cache.py:132-147 | when no two destinations overlap, a successful update places every file of every artifact at its place under join(entry, rel), with its contents |
| StagingContents.UpdateRejectsOutsideRoot | src/python/twitter/pants/base/build_cache.py:136-138 | an artifact not below artifact_root makes update fail, and the marker reads as it did |
| StagingContents.UpdateTwiceIsOnce | src/python/twitter/pants/base/build_cache.py:132-147 | update is idempotent: after a successful update, the same update again succeeds and leaves the identical file system |
| StagingContents.UpdateContents | src/python/twitter/pants/base/build_cache.py:132-147 | the three contents properties together, as the method update states them |
| MarkerCollision.SuffixedUpdateClobbersMarker | src/python/twitter/pants/base/build_cache.py:188-189 | updating the id x.hash with one artifact leaves a directory at the marker of x, so reading that marker raises EISDIR |
| MarkerCollision.PlainIdsIsolated | src/python/twitter/pants/base/build_cache.py:102-147 | for distinct ids that do not end in ".hash", updating or invalidating one leaves the other's entry and marker unchanged |

## Left out

- Relative roots: the model's paths are absolute. `BuildCacheModel` uses the marker `filename + ".hash"`, which is what the code computes for an absolute root. `RootedMarkers` models the relative case separately.
- Names that are not normalised: `..` and `.` components, empty names, repeated slashes and trailing slashes are not represented. An id containing `/` gives a filename that is not well formed, and `Update` requires a well-formed entry.
- BuildCacheModel.BuildCache.constructor: the error path of `os.makedirs` (ENOTDIR) is `PrepareRoot`'s `Err`. The constructor itself requires `PrepareRoot` to succeed, because a constructor cannot return an error.
- BuildCacheModel.BuildCache.Update: requires a well-formed, non-root entry and well-formed artifacts. `build_artifacts=None` is the empty sequence.
- BuildCacheModel.BuildCache.KeyForTargetRejectsExactly: requires that a user-supplied selector never raises the ValueError itself. Otherwise the "only if" direction does not hold.
- BuildCacheModel.BuildCache.NeedsUpdate: compares the marker's bytes with the key's hash encoded to bytes, which is the Python 2 `str` comparison. Under Python 3 `_read_sha` returns `bytes`, which never equals a `str`.
- `copy_fn` of `use_cached_files` is not called. Its effects and errors are outside the model; the method returns the calls instead.
- `fingerprint_extra` is modelled as the bytes it feeds to the hash, fed after the file stream and before `hexdigest`.
- SHA-1 (FIPS 180-4) is not computed. It is an unknown function from the fed bytes to a 40-digit lower-case hex string.
- `Compatibility.to_bytes` is UTF-8 encoding of the name's characters.
- `os.listdir` order is an input. Symbolic links, permissions and `shutil.copymode` are not modelled.
- `shutil.copytree` into its own subtree and the collected errors of `shutil.copytree` are not modelled. The copy is taken of the tree as it stood before the call.
- `safe_rmtree` comes from `twitter.common.dirutil`, which is not part of this model. It is modelled as removing every path at or below its argument, with no error.
- The `_key` helper (build_cache.py:185-186) is unused by the cache and is not modelled.
- The assertion that `_walk_paths` is not given a string (build_cache.py:164) is outside the model: a sequence of paths can never be a string.
- `python -O`, which strips the `..` assertion of `update`, is not modelled. The assertion is always checked.
- Concurrent use of one cache root is not modelled; the code takes no locks.
- `target.expand_files` belongs to the target classes, which are not part of this model. Its two results are data on the target.
- StagingContents.UpdateLeavesOnlyCopies: assumes the artifacts lie neither inside the entry nor above it. An artifact inside the entry is removed by `safe_rmtree` before it is copied.
- StagingContents.UpdateTwiceIsOnce: assumes the artifacts lie apart from the entry and from its marker. The first update changes the entry and the marker, so a second one would copy different data.
- StagingContents.UpdateDeliversArtifacts: assumes independent destinations: none is the entry itself and none lies at or below another. Otherwise a later copy may land inside an earlier artifact's directory: for a directory artifact `a/x` followed by a plain file `b/x`, `shutil.copy` writes `b/x` to `entry/x/x`, not to `entry/x`. `UpdateLeavesOnlyCopies` covers such updates too.
- FileSystem.RemoveTree: also removes a plain file at its argument. `safe_rmtree` is not part of this model, and it may leave such a file in place.

## Findings

| source | as written | input that shows it | evidently intended | confidence | as-written member | corrected member |
|---|---|---|---|---|---|---|
| src/python/twitter/pants/base/build_cache.py:188-189 | `_sha_file` joins the cache root in front of `cache_key.filename`, which already begins with the root; os.path.join drops the first part only when the second is absolute | `BuildCache("cache")` and a key with id `t`: the entry is `cache/0/t`, the marker `cache/0/cache/0/t.hash`; `update` copies the artifacts, then fails to open the marker (ENOENT), and `needs_update` stays true | the marker `cache_key.filename + '.hash'`, beside the entry | not executed; medium (the result follows from os.path.join's documented behaviour) | RootedMarkers.RelativeRootDoublesMarker | Staging.MarkerPath |
| src/python/twitter/pants/base/build_cache.py:188-189 | the marker of an entry is its filename with `.hash` appended, in the same directory as the entries, and nothing stops an id from ending in `.hash` | ids `x` and `x.hash`: `update` of `x.hash` creates the directory `root/0/x.hash`, the marker path of `x`; `needs_update(x)` then gets EISDIR, and `invalidate(x)` or `update(x)` fails to unlink or write it | markers kept apart from entries, so two distinct ids never share a path | not executed; low (it needs an id ending in `.hash`) | MarkerCollision.SuffixedUpdateClobbersMarker | MarkerCollision.PlainIdsIsolated |
