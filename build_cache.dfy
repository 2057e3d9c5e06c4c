/** BuildCache: keys built from SHA-1 fingerprints of source files, entries
    holding copies of build artifacts, and markers recording the fingerprint
    an entry was built from. */
module BuildCacheModel {
  import opened Paths
  import opened PathSort
  import opened Results
  import opened FileSystem
  import opened FileSystemFacts
  import opened Fingerprint
  import opened FingerprintFacts
  import opened SourceScopes
  import opened Staging
  import opened StagingContents

  /** BuildCache.VERSION, as the name of the directory under the root. */
  const Version: string := "0"

  /** What hexdigest() returns: 40 lower-case hexadecimal digits. */
  predicate IsHexDigest(s: string) {
    |s| == 40 && forall i :: 0 <= i < |s| ==> IsHexChar(s[i])
  }

  predicate IsHexChar(c: char) {
    '0' <= c <= '9' || 'a' <= c <= 'f'
  }

  type HexDigest = s: string | IsHexDigest(s) witness "0000000000000000000000000000000000000000"

  /** CacheKey(sources, hash, filename). */
  datatype CacheKey = CacheKey(sources: seq<Path>, hash: string, filename: Path)

  /** A digest read back through strip() is the digest. */
  lemma StripOfDigest(h: HexDigest)
    ensures Strip(ToBytes(h)) == ToBytes(h)
  {
    assert forall i :: 0 <= i < |h| ==> 48 <= (h[i] as int) < 0x80 by {
      forall i | 0 <= i < |h| ensures 48 <= (h[i] as int) < 0x80 {
        assert IsHexChar(h[i]);
      }
    }
    ToBytesAscii(h);
    var b := ToBytes(h);
    assert !IsSpace(b[0]) && !IsSpace(b[|b| - 1]);
    StripUntrimmed(b);
  }

  /** No path below the entry, and no marker. */
  ghost predicate Invalidated(fs: Fs, entry: Path) {
    && (forall p :: p in fs.files ==> !(entry <= p))
    && (forall p :: p in fs.dirs ==> !(entry <= p))
    && !Exists(fs, MarkerPath(entry))
  }

  lemma RemoveTreeOfInvalidated(fs: Fs, entry: Path)
    requires Invalidated(fs, entry)
    ensures RemoveTree(fs, entry) == fs
  {
    var r := RemoveTree(fs, entry);
    assert r.files == fs.files;
    assert r.dirs == fs.dirs;
  }

  class BuildCache {
    /** The absolute directory root/VERSION all entries live in. */
    const root: Path
    /** SHA-1 of a byte stream, as its hexdigest. */
    const sha1: Bytes -> HexDigest
    /** The file system the cache reads and writes. */
    var fs: Fs

    ghost predicate Valid()
      reads this
    {
      FileSystem.Valid(fs) && WellFormed(root) && root != []
    }

    /** The file system after BuildCache(base)'s makedirs(base/VERSION): an
        existing path there is accepted (EEXIST), any other error is raised. */
    static function PrepareRoot(base: Path, fs0: Fs): (r: Result<Fs>)
      ensures r.Ok? <==> !BlockedByFile(fs0, base + [Version])
      ensures r.Ok? && Exists(fs0, base + [Version]) ==> r.value == fs0
      ensures r.Ok? && !Exists(fs0, base + [Version]) ==> r.value == fs0.(dirs := fs0.dirs + Prefixes(base + [Version]))
      ensures r.Err? ==> r.error == NotADirectory(base + [Version])
    {
      match MakeDirs(fs0, base + [Version])
      case Ok(fs1) => Ok(fs1)
      case Err(e) => if e.AlreadyExists? then Ok(fs0) else Err(e)
    }

    /** BuildCache(base), when its makedirs does not raise. */
    constructor (base: Path, sha1: Bytes -> HexDigest, fs0: Fs)
      requires FileSystem.Valid(fs0) && WellFormed(base)
      requires PrepareRoot(base, fs0).Ok?
      ensures Valid() && root == base + [Version] && this.sha1 == sha1
      ensures fs == PrepareRoot(base, fs0).value && Exists(fs, root)
    {
      var r := base + [Version];
      root := r;
      this.sha1 := sha1;
      if Exists(fs0, r) {
        fs := fs0;
      } else {
        MakeDirsValid(fs0, r);
        assert r[..|r|] == r;
        fs := MakeDirs(fs0, r).value;
      }
    }

    /** key_for(id, sources): the sources as given, the digest of what they
        feed, and the entry root/id. */
    function KeyFor(id: string, sources: seq<Path>, listing: Listing): (r: Result<CacheKey>)
      reads this
      requires Valid()
      ensures r.Ok? <==> SourcesFed(fs, listing, sources).Ok?
      ensures r.Err? ==> r.error == SourcesFed(fs, listing, sources).error
      ensures r.Ok? ==> r.value.sources == sources && r.value.filename == root + [id]
                        && r.value.hash == sha1(SourcesFed(fs, listing, sources).value)
    {
      match SourcesFed(fs, listing, sources)
      case Err(e) => Err(e)
      case Ok(fed) => Ok(CacheKey(sources, sha1(fed), root + [id]))
    }

    /** Two orders of the same sources give keys with the same digest and entry. */
    lemma KeyForOrderBlind(id: string, s: seq<Path>, t: seq<Path>, listing: Listing)
      requires Valid() && AllWellFormed(s) && multiset(s) == multiset(t)
      ensures KeyFor(id, s, listing).Ok? <==> KeyFor(id, t, listing).Ok?
      ensures KeyFor(id, s, listing).Ok? ==>
        KeyFor(id, s, listing).value.hash == KeyFor(id, t, listing).value.hash &&
        KeyFor(id, s, listing).value.filename == KeyFor(id, t, listing).value.filename
    {
      WalkPermutationInvariant(fs, listing, s, t);
    }

    /** The check at the head of key_for_target: no usable scope and no extra
        fingerprint. */
    static predicate Unkeyable(target: Target, scope: Option<SourceScope>, extra: Option<Bytes>) {
      (scope.None? || !IsValidFor(scope.value, target)) && extra.None?
    }

    /** key_for_target(target, sources, fingerprint_extra): the selected
        sources sorted, their stream followed by the extra bytes, the entry
        root/target.id. A missing scope means NO_SOURCES; a scope invalid for
        the target is still used when extra bytes are given. */
    function KeyForTarget(target: Target, scope: Option<SourceScope>, extra: Option<Bytes>, listing: Listing): (r: Result<CacheKey>)
      reads this
      requires Valid()
      ensures Unkeyable(target, scope, extra) ==> r == Err(InvalidKeyRequest)
      ensures var sc := if scope.Some? then scope.value else NoSources;
        r.Ok? ==> && !Unkeyable(target, scope, extra)
                  && Select(sc, target).Ok?
                  && Sorted(r.value.sources)
                  && multiset(r.value.sources) == multiset(Select(sc, target).value)
                  && r.value.filename == root + [target.id]
                  && SourcesFed(fs, listing, r.value.sources).Ok?
                  && r.value.hash == sha1(SourcesFed(fs, listing, r.value.sources).value +
                                          (if extra.Some? then extra.value else []))
      ensures var sc := if scope.Some? then scope.value else NoSources;
        (!Unkeyable(target, scope, extra) && Select(sc, target).Ok? &&
         SourcesFed(fs, listing, SortPaths(Select(sc, target).value)).Ok?) ==> r.Ok?
      ensures var sc := if scope.Some? then scope.value else NoSources;
        !Unkeyable(target, scope, extra) && r.Err? ==>
          if Select(sc, target).Err? then r.error == Select(sc, target).error
          else r.error == SourcesFed(fs, listing, SortPaths(Select(sc, target).value)).error
    {
      if Unkeyable(target, scope, extra) then Err(InvalidKeyRequest)
      else
        var sc := if scope.Some? then scope.value else NoSources;
        match Select(sc, target)
        case Err(e) => Err(e)
        case Ok(selected) =>
          var srcs := SortPaths(selected);
          match SourcesFed(fs, listing, srcs)
          case Err(e) => Err(e)
          case Ok(fed) => Ok(CacheKey(srcs, sha1(fed + (if extra.Some? then extra.value else [])), root + [target.id]))
    }

    /** key_for_target raises its ValueError exactly when there is neither a
        usable scope nor an extra fingerprint (given a selector that never
        raises that error itself, as the predefined ones do not). */
    lemma KeyForTargetRejectsExactly(target: Target, scope: Option<SourceScope>, extra: Option<Bytes>, listing: Listing)
      requires Valid()
      requires scope.Some? ==> NeverRejects(scope.value)
      ensures KeyForTarget(target, scope, extra, listing) == Err(InvalidKeyRequest) <==> Unkeyable(target, scope, extra)
    {
      if !Unkeyable(target, scope, extra) {
        var sc := if scope.Some? then scope.value else NoSources;
        PredefinedScopes(target);
        assert Select(sc, target) != Err(InvalidKeyRequest);
      }
    }

    /** With extra bytes, a target lacking expand_files still reaches
        TARGET_SOURCES' selector, which raises AttributeError. */
    lemma InvalidScopeStillSelected(target: Target, extra: Bytes, listing: Listing)
      requires Valid() && target.expandFiles.None?
      ensures KeyForTarget(target, Some(TargetSources), Some(extra), listing) == Err(MissingExpandFiles)
    {
      PredefinedScopes(target);
    }

    /** Keys for the same target from different arrangements of its sources
        are equal. */
    lemma KeyForTargetOrderBlind(target: Target, s1: seq<Path>, s2: seq<Path>, extra: Option<Bytes>, listing: Listing)
      requires Valid() && AllWellFormed(s1) && multiset(s1) == multiset(s2)
      ensures var k1 := KeyForTarget(target, Some(ForSelector(_ => Ok(s1))), extra, listing);
              var k2 := KeyForTarget(target, Some(ForSelector(_ => Ok(s2))), extra, listing);
        k1.Ok? ==> k1 == k2
    {
      SortPathsPermutationInvariant(s1, s2);
    }

    /** _read_sha(key): the stripped contents of the marker, None when it does
        not exist; any other error is raised. */
    function ReadMarker(key: CacheKey): (r: Result<Option<Bytes>>)
      reads this
      ensures var m := MarkerPath(key.filename);
        && (r.Ok? && r.value.Some? <==> ReadFile(fs, m).Ok?)
        && (r.Ok? && r.value.Some? ==> r.value.value == Strip(fs.files[m]))
        && (!BlockedByFile(fs, m) && !Exists(fs, m) ==> r == Ok(None))
        && (r.Err? ==> r == Err(ReadFile(fs, m).error) && !r.error.NotFound?)
        && (ReadFile(fs, m).Err? && !ReadFile(fs, m).error.NotFound? ==> r == Err(ReadFile(fs, m).error))
    {
      match ReadFile(fs, MarkerPath(key.filename))
      case Ok(data) => Ok(Some(Strip(data)))
      case Err(e) => if e.NotFound? then Ok(None) else Err(e)
    }

    /** needs_update(key): the marker is missing or does not hold the key's hash. */
    function NeedsUpdate(key: CacheKey): (r: Result<bool>)
      reads this
      ensures r.Err? <==> ReadMarker(key).Err?
      ensures r == Ok(false) <==> ReadMarker(key) == Ok(Some(ToBytes(key.hash)))
    {
      match ReadMarker(key)
      case Err(e) => Err(e)
      case Ok(cached) => Ok(cached != Some(ToBytes(key.hash)))
    }

    /** invalidate(key): remove the entry, then the marker if something is there. */
    method Invalidate(key: CacheKey) returns (r: Result<()>)
      requires Valid() && key.filename != []
      modifies this
      ensures Valid()
      ensures var removed := RemoveTree(old(fs), key.filename);
              var m := MarkerPath(key.filename);
        && (m in removed.dirs ==> r == Err(IsADirectory(m)) && fs == removed)
        && (m !in removed.dirs ==> r == Ok(()) && fs == removed.(files := removed.files - {m}))
      ensures r.Ok? ==> Invalidated(fs, key.filename) && NeedsUpdate(key) != Ok(false)
      ensures Invalidated(old(fs), key.filename) ==> r == Ok(()) && fs == old(fs)
      ensures UpdateFrame(old(fs), fs, key.filename, false)
    {
      var e := key.filename;
      var m := MarkerPath(e);
      RemoveTreeValid(fs, e);
      if Invalidated(fs, e) { RemoveTreeOfInvalidated(fs, e); }
      fs := RemoveTree(fs, e);
      if Exists(fs, m) {
        var u := Unlink(fs, m);
        if u.Err? {
          return Err(u.error);
        }
        UnlinkValid(fs, m);
        fs := u.value;
      }
      r := Ok(());
    }

    /** update(key, artifacts, artifact_root). */
    method Update(key: CacheKey, artifacts: seq<Path>, artifactRoot: Option<Path>) returns (r: Result<()>)
      requires Valid() && WellFormed(key.filename) && key.filename != []
      requires forall i :: 0 <= i < |artifacts| ==> WellFormed(artifacts[i])
      modifies this
      ensures Valid()
      ensures var u := UpdateOutcome(old(fs), key.filename, key.hash, artifacts, artifactRoot);
        fs == u.fs && (r.Ok? <==> u.failure.None?) && (r.Err? ==> r.error == u.failure.value)
      ensures UpdateFrame(old(fs), fs, key.filename, r.Err?)
      ensures r.Ok? ==> ReadMarker(key) == Ok(Some(Strip(ToBytes(key.hash))))
      ensures r.Ok? && IsHexDigest(key.hash) ==> NeedsUpdate(key) == Ok(false)
      ensures r.Err? ==> ReadMarker(key) == old(ReadMarker(key))
      ensures r.Ok? && OutsideEntry(key.filename, artifacts) ==>
        OnlyCopies(old(fs), fs, key.filename, artifacts, artifactRoot)
      ensures r.Ok? && OutsideEntry(key.filename, artifacts) && Independent(key.filename, artifacts, artifactRoot) ==>
        AllDelivered(old(fs), fs, key.filename, artifacts, artifactRoot)
      ensures (exists i :: 0 <= i < |artifacts| && artifactRoot.Some? && !(artifactRoot.value <= artifacts[i])) ==> r.Err?
    {
      ghost var fs0 := fs;
      fs := RemoveTree(fs, key.filename);
      var failure := CopyArtifacts(key.filename, artifacts, artifactRoot);
      if failure.Some? {
        r := Err(failure.value);
      } else {
        var written := WriteFile(fs, MarkerPath(key.filename), ToBytes(key.hash));
        if written.Err? {
          r := Err(written.error);
        } else {
          fs := written.value;
          r := Ok(());
        }
      }
      assert fs == UpdateOutcome(fs0, key.filename, key.hash, artifacts, artifactRoot).fs;
      UpdateOutcomeFacts(fs0, key.filename, key.hash, artifacts, artifactRoot);
      if r.Ok? { MarkerHoldsHash(key); } else { FailedUpdateKeepsMarker(fs0, fs, key.filename); }
      UpdateContents(fs0, key.filename, key.hash, artifacts, artifactRoot);
    }

    /** A marker holding the key's hash makes the entry current. */
    lemma MarkerHoldsHash(key: CacheKey)
      requires ReadFile(fs, MarkerPath(key.filename)) == Ok(ToBytes(key.hash))
      ensures ReadMarker(key) == Ok(Some(Strip(ToBytes(key.hash))))
      ensures IsHexDigest(key.hash) ==> NeedsUpdate(key) == Ok(false)
    {
      var bytes := ToBytes(key.hash);
      assert ReadMarker(key) == Ok(Some(Strip(bytes)));
      if IsHexDigest(key.hash) {
        StripOfDigest(key.hash);
        assert ReadMarker(key) == Ok(Some(bytes));
      }
    }

    /** update's loop over the artifacts; the first failure ends it. */
    method CopyArtifacts(entry: Path, artifacts: seq<Path>, artifactRoot: Option<Path>) returns (failure: Option<Error>)
      modifies this
      ensures StageAll(old(fs), entry, artifacts, artifactRoot) == Stage(fs, failure)
    {
      ghost var start := fs;
      var i := 0;
      while i < |artifacts|
        invariant 0 <= i <= |artifacts|
        invariant StageAll(start, entry, artifacts[..i], artifactRoot) == Stage(fs, None)
      {
        ghost var before := fs;
        failure := CopyArtifact(entry, artifacts[i], artifactRoot);
        StageAllNext(start, entry, artifacts, artifactRoot, i, before, Stage(fs, failure));
        if failure.Some? {
          return;
        }
        i := i + 1;
      }
      assert artifacts[..i] == artifacts;
      failure := None;
    }

    /** One turn of update's loop. */
    method CopyArtifact(entry: Path, artifact: Path, artifactRoot: Option<Path>) returns (failure: Option<Error>)
      modifies this
      ensures StageArtifact(old(fs), entry, artifact, artifactRoot) == Stage(fs, failure)
    {
      var relPath := ArtifactRelPath(artifact, artifactRoot);
      if StartsWithDotDot(relPath) {
        return Some(TraversalViolation);
      }
      var artifactDest := entry + relPath;
      var dirName := DestDir(entry, relPath);
      if !Exists(fs, dirName) {
        var made := MakeDirs(fs, dirName);
        if made.Err? {
          return Some(made.error);
        }
        fs := made.value;
      }
      var copied := if artifact in fs.dirs then CopyTree(fs, artifact, artifactDest) else CopyFile(fs, artifact, artifactDest);
      if copied.Err? {
        return Some(copied.error);
      }
      fs := copied.value;
      failure := None;
    }

    /** _walk_paths(paths): for each path in sorted order, a directory gives
        the files of every directory below it, directories in sorted order and
        files in listing order, named relative to the path; anything else
        gives itself under its base name. */
    method WalkPaths(paths: seq<Path>, listing: Listing) returns (entries: seq<Entry>)
      requires Valid()
      ensures entries == Walk(fs, listing, paths)
    {
      var sorted := SortPaths(paths);
      entries := [];
      var i := 0;
      while i < |sorted|
        invariant 0 <= i <= |sorted|
        invariant entries == WalkList(fs, listing, sorted[..i])
      {
        var path := sorted[i];
        WalkListStep(fs, listing, sorted, i);
        if path in fs.dirs {
          var below := WalkDirectory(path, listing);
          entries := entries + below;
        } else {
          entries := entries + [Entry(BaseName(path), path)];
        }
        i := i + 1;
      }
      assert sorted[..i] == sorted;
    }

    /** The os.walk(path) part of _walk_paths. */
    method WalkDirectory(path: Path, listing: Listing) returns (entries: seq<Entry>)
      requires Valid() && path in fs.dirs
      ensures entries == WalkOne(fs, listing, path)
    {
      entries := JoinDirectories(fs, listing, path, WalkedDirs(fs, path));
    }

    /** The loop over the directories of the walk, in the given order. */
    static method JoinDirectories(fs: Fs, listing: Listing, path: Path, dirs: seq<Path>) returns (entries: seq<Entry>)
      requires forall k :: 0 <= k < |dirs| ==> path <= dirs[k]
      ensures entries == DirsEntries(fs, listing, path, dirs)
    {
      entries := [];
      var j := 0;
      while j < |dirs|
        invariant 0 <= j <= |dirs|
        invariant entries == DirsEntries(fs, listing, path, dirs[..j])
      {
        var dirName := dirs[j];
        DirsEntriesStep(fs, listing, path, dirs, j);
        var files := JoinFiles(path, dirName, FilesIn(fs, dirName, listing(dirName)));
        entries := entries + files;
        j := j + 1;
      }
      assert dirs[..j] == dirs;
    }

    /** The pairs for the filenames os.walk reports in one directory. */
    static method JoinFiles(path: Path, dirName: Path, filenames: seq<string>) returns (entries: seq<Entry>)
      requires path <= dirName
      ensures entries == DirEntries(path, dirName, filenames)
    {
      entries := [];
      var k := 0;
      while k < |filenames|
        invariant 0 <= k <= |filenames|
        invariant entries == DirEntries(path, dirName, filenames[..k])
      {
        var filename := dirName + [filenames[k]];
        DirEntriesStep(path, dirName, filenames, k);
        entries := entries + [Entry(RelPath(filename, path), filename)];
        k := k + 1;
      }
      assert filenames[..k] == filenames;
    }

    /** _sources_hash(paths): the bytes fed to SHA-1, or the error of the
        first file that cannot be read. */
    method SourcesHash(paths: seq<Path>, listing: Listing) returns (r: Result<Bytes>)
      requires Valid()
      ensures r == SourcesFed(fs, listing, paths)
    {
      var entries := WalkPaths(paths, listing);
      ghost var chunks: seq<Bytes> := [];
      var fed: Bytes := [];
      var i := 0;
      while i < |entries|
        invariant 0 <= i <= |entries|
        invariant Chunks(fs, entries[..i]) == Ok(chunks) && fed == Flatten(chunks)
      {
        var data := ReadFile(fs, entries[i].abs);
        if data.Err? {
          ChunksErrStep(fs, entries, i, chunks);
          return Err(data.error);
        }
        var name := ToBytes(JoinNames(entries[i].rel));
        ChunksOkStep(fs, entries, i, chunks);
        FlattenPairAppend(chunks, name, data.value);
        chunks := chunks + [name, data.value];
        fed := fed + name + data.value;
        i := i + 1;
      }
      assert entries[..i] == entries;
      r := Ok(fed);
    }

    /** use_cached_files(key, copy_fn): the calls copy_fn(absolute, relative)
        receives, in walk order. For an entry directory every cached file is
        handed over once, named relative to the entry. */
    method UseCachedFiles(key: CacheKey, listing: Listing) returns (calls: seq<(Path, Path)>)
      requires Valid()
      ensures var w := Walk(fs, listing, [key.filename]);
        |calls| == |w| && forall i :: 0 <= i < |calls| ==> calls[i] == (w[i].abs, w[i].rel)
      ensures key.filename in fs.dirs && ListingExact(fs, listing) ==> EachFileOnce(fs.files, key.filename, calls)
      ensures key.filename !in fs.dirs ==> calls == [(key.filename, BaseName(key.filename))]
    {
      var entries := WalkPaths([key.filename], listing);
      calls := CallsOf(entries);
      UseCachedFilesFacts(key.filename, listing, entries, calls);
    }

    /** The loop of use_cached_files: one copy_fn(absolute, relative) call per walked pair. */
    static method CallsOf(entries: seq<Entry>) returns (calls: seq<(Path, Path)>)
      ensures |calls| == |entries| && forall k :: 0 <= k < |calls| ==> calls[k] == (entries[k].abs, entries[k].rel)
    {
      calls := [];
      var i := 0;
      while i < |entries|
        invariant 0 <= i <= |entries|
        invariant |calls| == i && forall k :: 0 <= k < i ==> calls[k] == (entries[k].abs, entries[k].rel)
      {
        calls := calls + [(entries[i].abs, entries[i].rel)];
        i := i + 1;
      }
    }

    lemma UseCachedFilesFacts(e: Path, listing: Listing, entries: seq<Entry>, calls: seq<(Path, Path)>)
      requires Valid() && entries == Walk(fs, listing, [e])
      requires |calls| == |entries| && forall k :: 0 <= k < |calls| ==> calls[k] == (entries[k].abs, entries[k].rel)
      ensures e in fs.dirs && ListingExact(fs, listing) ==> EachFileOnce(fs.files, e, calls)
      ensures e !in fs.dirs ==> calls == [(e, BaseName(e))]
    {
      if e in fs.dirs && ListingExact(fs, listing) {
        WalkSingleton(fs, listing, e);
        WalkOfDirectory(fs, listing, e);
        CallsOfDirectory(fs.files, e, entries, calls);
      }
      if e !in fs.dirs {
        WalkOfNonDirectory(fs, listing, e);
      }
    }
  }

  /** Every file below e is handed over exactly once, as (absolute, relative to e). */
  predicate EachFileOnce(files: map<Path, Bytes>, e: Path, calls: seq<(Path, Path)>) {
    && (forall i :: 0 <= i < |calls| ==> calls[i].0 in files && e + calls[i].1 == calls[i].0)
    && (forall f :: f in files && e <= f ==> exists i :: 0 <= i < |calls| && calls[i].0 == f)
    && (forall i, j :: 0 <= i < j < |calls| ==> calls[i].0 != calls[j].0)
  }

  /** The calls of a walk that yields each file below e once. */
  lemma CallsOfDirectory(files: map<Path, Bytes>, e: Path, w: seq<Entry>, calls: seq<(Path, Path)>)
    requires |calls| == |w| && forall k :: 0 <= k < |calls| ==> calls[k] == (w[k].abs, w[k].rel)
    requires forall x :: x in w ==> x.abs in files && e <= x.abs && e + x.rel == x.abs
    requires forall f :: f in files && e <= f ==> f in AbsPaths(w)
    requires NoDuplicates(AbsPaths(w))
    ensures EachFileOnce(files, e, calls)
  {
    forall i | 0 <= i < |calls| ensures calls[i].0 in files && e + calls[i].1 == calls[i].0 {
      assert w[i] in w;
    }
    forall f | f in files && e <= f ensures exists i :: 0 <= i < |calls| && calls[i].0 == f {
      var i :| 0 <= i < |w| && AbsPaths(w)[i] == f;
      assert calls[i].0 == f;
    }
    forall i, j | 0 <= i < j < |calls| ensures calls[i].0 != calls[j].0 {
      assert AbsPaths(w)[i] != AbsPaths(w)[j];
    }
  }
}
