/** The cache entry on disk and what BuildCache.update does to it: the entry
    is a directory named by the key, its marker is a file beside it whose
    name is the entry's with ".hash" appended, and an update empties the
    entry, copies the artifacts into it one by one and writes the marker last. */
module Staging {
  import opened Paths
  import opened Results
  import opened FileSystem
  import opened FileSystemFacts
  import opened Fingerprint

  // ---------------------------------------------------------------------------
  // The marker
  // ---------------------------------------------------------------------------

  lemma {:induction false} RenderTailSnoc(p: Path, n: string)
    ensures RenderTail(p + [n]) == RenderTail(p) + "/" + n
    decreases |p|
  {
    if p != [] {
      assert (p + [n])[1..] == p[1..] + [n];
      RenderTailSnoc(p[1..], n);
    } else {
      assert p + [n] == [n];
      assert [n][1..] == [];
    }
  }

  /** _sha_file(key) for an absolute entry path: the path whose string is the
      entry's string with ".hash" appended. */
  function MarkerPath(entry: Path): (m: Path)
    ensures Render(m) == Render(entry) + ".hash"
    ensures entry != [] ==> |m| == |entry| && Parent(m) == Parent(entry)
  {
    if entry == [] then
      assert RenderTail([".hash"]) == "/" + ".hash" + RenderTail([]);
      [".hash"]
    else
      var m := Parent(entry) + [entry[|entry| - 1] + ".hash"];
      RenderTailSnoc(Parent(entry), entry[|entry| - 1]);
      RenderTailSnoc(Parent(entry), entry[|entry| - 1] + ".hash");
      assert Parent(entry) + [entry[|entry| - 1]] == entry;
      assert Parent(m) == Parent(entry);
      m
  }

  /** Appending ".hash" to a path renames its last component. */
  lemma MarkerOfSnoc(p: Path, n: string)
    ensures MarkerPath(p + [n]) == p + [n + ".hash"]
  {
    assert Parent(p + [n]) == p;
  }

  /** The marker of a normalised entry is a normalised path that is neither
      the entry, nor inside it, nor one of its ancestors. */
  lemma MarkerBesideEntry(entry: Path)
    requires WellFormed(entry) && entry != []
    ensures WellFormed(MarkerPath(entry))
    ensures !(entry <= MarkerPath(entry)) && !(MarkerPath(entry) <= entry)
  {
    var m := MarkerPath(entry);
    var last := entry[|entry| - 1];
    assert m[|m| - 1] == last + ".hash";
    assert ValidName(last + ".hash") by {
      assert forall i :: 0 <= i < |last + ".hash"| ==> (last + ".hash")[i] != '/' by {
        assert '/' !in last;
      }
    }
    assert m[|m| - 1] != entry[|entry| - 1] by { assert |last + ".hash"| > |last|; }
  }

  // ---------------------------------------------------------------------------
  // Copying one artifact
  // ---------------------------------------------------------------------------

  /** The artifact's name inside the entry: its base name, or its path
      relative to artifact_root. */
  function ArtifactRelPath(artifact: Path, artifactRoot: Option<Path>): (rel: Path)
    ensures artifactRoot.None? ==> rel == BaseName(artifact)
    ensures artifactRoot.Some? ==>
      (StartsWithDotDot(rel) <==> (!(artifactRoot.value <= artifact) ||
         (|artifactRoot.value| < |artifact| && NameStartsWithDotDot(artifact[|artifactRoot.value|]))))
    ensures artifactRoot.Some? && !StartsWithDotDot(rel) ==>
      artifactRoot.value <= artifact && rel == artifact[|artifactRoot.value|..]
  {
    match artifactRoot
    case None => BaseName(artifact)
    case Some(r) =>
      var rel := RelPath(artifact, r);
      RelPathDotDot(artifact, r);
      if StartsWithDotDot(rel) then rel else RelPathAccepted(artifact, r); rel
  }

  /** os.path.dirname(os.path.join(entry, rel)); an empty rel (the base name of
      "/", or a relpath of ".") leaves a trailing separator, whose dirname is
      the entry itself. */
  function DestDir(entry: Path, rel: Path): (d: Path)
    ensures entry <= d
    ensures rel != [] ==> d == Parent(entry + rel)
    ensures rel == [] ==> d == entry
  {
    if rel == [] then entry else entry + rel[..|rel| - 1]
  }

  /** A state of the entry while it is being filled, and the error that
      stopped the filling, if any. */
  datatype Stage = Stage(fs: Fs, failure: Option<Error>)

  /** update's "makedirs(dir) unless dir exists": files stay, and the only
      new directories are prefixes of dir. */
  function EnsureDir(fs: Fs, dir: Path): (r: Result<Fs>)
    ensures r.Ok? <==> Exists(fs, dir) || !BlockedByFile(fs, dir)
    ensures r.Ok? ==> r.value.files == fs.files && fs.dirs <= r.value.dirs && r.value.dirs <= fs.dirs + Prefixes(dir)
    ensures r.Ok? ==> Exists(r.value, dir)
  {
    if Exists(fs, dir) then Ok(fs) else assert dir[..|dir|] == dir; MakeDirs(fs, dir)
  }

  /** copytree for a directory, copy for anything else. */
  function CopyInto(fs: Fs, artifact: Path, dest: Path): Result<Fs> {
    if artifact in fs.dirs then CopyTree(fs, artifact, dest) else CopyFile(fs, artifact, dest)
  }

  /** One turn of update's loop: reject a name starting with "..", create
      the destination's directory when it does not exist, then copytree a
      directory or copy anything else. */
  function StageArtifact(fs: Fs, entry: Path, artifact: Path, artifactRoot: Option<Path>): Stage {
    var rel := ArtifactRelPath(artifact, artifactRoot);
    if StartsWithDotDot(rel) then Stage(fs, Some(TraversalViolation))
    else
      match EnsureDir(fs, DestDir(entry, rel))
      case Err(e) => Stage(fs, Some(e))
      case Ok(fs1) =>
        match CopyInto(fs1, artifact, entry + rel)
        case Err(e) => Stage(fs1, Some(e))
        case Ok(fs2) => Stage(fs2, None)
  }

  /** A turn that succeeds passed the ".." check, had its directory and copied. */
  lemma StageArtifactSucceeded(fs: Fs, entry: Path, artifact: Path, artifactRoot: Option<Path>)
    requires StageArtifact(fs, entry, artifact, artifactRoot).failure.None?
    ensures var rel := ArtifactRelPath(artifact, artifactRoot);
      && !StartsWithDotDot(rel)
      && EnsureDir(fs, DestDir(entry, rel)).Ok?
      && CopyInto(EnsureDir(fs, DestDir(entry, rel)).value, artifact, entry + rel).Ok?
      && StageArtifact(fs, entry, artifact, artifactRoot).fs == CopyInto(EnsureDir(fs, DestDir(entry, rel)).value, artifact, entry + rel).value
  {
  }

  /** The artifacts in order; the first failure stops the loop. */
  function StageAll(fs: Fs, entry: Path, artifacts: seq<Path>, artifactRoot: Option<Path>): Stage
    decreases |artifacts|
  {
    if artifacts == [] then Stage(fs, None)
    else
      var s := StageAll(fs, entry, artifacts[..|artifacts| - 1], artifactRoot);
      if s.failure.Some? then s else StageArtifact(s.fs, entry, artifacts[|artifacts| - 1], artifactRoot)
  }

  /** update(key, artifacts, artifact_root): remove the entry, copy the
      artifacts, then write the key's hash to the marker. */
  function UpdateOutcome(fs: Fs, entry: Path, hash: string, artifacts: seq<Path>, artifactRoot: Option<Path>): Stage {
    var s := StageAll(RemoveTree(fs, entry), entry, artifacts, artifactRoot);
    if s.failure.Some? then s
    else
      match WriteFile(s.fs, MarkerPath(entry), ToBytes(hash))
      case Err(e) => Stage(s.fs, Some(e))
      case Ok(fs1) => Stage(fs1, None)
  }

  lemma StageAllStep(fs: Fs, entry: Path, artifacts: seq<Path>, artifactRoot: Option<Path>, i: nat)
    requires i < |artifacts|
    ensures var s := StageAll(fs, entry, artifacts[..i], artifactRoot);
      StageAll(fs, entry, artifacts[..i + 1], artifactRoot) ==
        if s.failure.Some? then s else StageArtifact(s.fs, entry, artifacts[i], artifactRoot)
  {
    assert artifacts[..i + 1][..i] == artifacts[..i];
  }

  /** The loop's step: a turn that fails ends the whole loop, one that
      succeeds extends the prefix done. */
  lemma StageAllNext(fs: Fs, entry: Path, artifacts: seq<Path>, artifactRoot: Option<Path>, i: nat, before: Fs, turn: Stage)
    requires i < |artifacts| && StageAll(fs, entry, artifacts[..i], artifactRoot) == Stage(before, None)
    requires turn == StageArtifact(before, entry, artifacts[i], artifactRoot)
    ensures turn.failure.Some? ==> StageAll(fs, entry, artifacts, artifactRoot) == turn
    ensures turn.failure.None? ==> StageAll(fs, entry, artifacts[..i + 1], artifactRoot) == turn
  {
    StageAllStep(fs, entry, artifacts, artifactRoot, i);
    if turn.failure.Some? {
      StageAllFailurePersists(fs, entry, artifacts, artifactRoot, i + 1);
    }
  }

  /** After a failure the remaining artifacts are not looked at. */
  lemma {:induction false} StageAllFailurePersists(fs: Fs, entry: Path, artifacts: seq<Path>, artifactRoot: Option<Path>, k: nat)
    requires k <= |artifacts| && StageAll(fs, entry, artifacts[..k], artifactRoot).failure.Some?
    ensures StageAll(fs, entry, artifacts, artifactRoot) == StageAll(fs, entry, artifacts[..k], artifactRoot)
    decreases |artifacts| - k
  {
    if k < |artifacts| {
      StageAllStep(fs, entry, artifacts, artifactRoot, k);
      StageAllFailurePersists(fs, entry, artifacts, artifactRoot, k + 1);
    } else {
      assert artifacts[..k] == artifacts;
    }
  }

  // ---------------------------------------------------------------------------
  // Nothing outside the entry changes
  // ---------------------------------------------------------------------------

  /** p is a file in after exactly when it is in before, with the same contents. */
  predicate FileUnchanged(before: Fs, after: Fs, p: Path) {
    (p in after.files <==> p in before.files) && (p in before.files ==> after.files[p] == before.files[p])
  }

  /** Outside the entry e every file is as it was, no directory is removed,
      and the only new directories are ancestors of e. */
  ghost predicate Confined(before: Fs, after: Fs, e: Path) {
    && (forall p :: !(e <= p) ==> FileUnchanged(before, after, p))
    && (forall p :: !(e <= p) && p in before.dirs ==> p in after.dirs)
    && (forall p :: !(e <= p) && p in after.dirs ==> p in before.dirs || p <= e)
  }

  lemma ConfinedTrans(a: Fs, b: Fs, c: Fs, e: Path)
    requires Confined(a, b, e) && Confined(b, c, e)
    ensures Confined(a, c, e)
  {
    forall p | !(e <= p) ensures FileUnchanged(a, c, p) {
      assert FileUnchanged(a, b, p) && FileUnchanged(b, c, p);
    }
  }

  /** Two prefixes of one path are prefixes of each other. */
  lemma PrefixesComparable(q: Path, e: Path, d: Path)
    requires q <= d && e <= d
    ensures e <= q || q <= e
  {
    if |e| <= |q| { assert q[..|e|] == d[..|e|] == e; } else { assert e[..|q|] == d[..|q|] == q; }
  }

  lemma RemoveTreeConfined(fs: Fs, e: Path)
    ensures Confined(fs, RemoveTree(fs, e), e)
  {
    var r := RemoveTree(fs, e);
    forall p | !(e <= p) ensures FileUnchanged(fs, r, p) { }
  }

  lemma MakeDirsConfined(fs: Fs, d: Path, e: Path)
    requires e <= d && MakeDirs(fs, d).Ok?
    ensures Confined(fs, MakeDirs(fs, d).value, e)
  {
    var r := MakeDirs(fs, d).value;
    forall p | !(e <= p) ensures FileUnchanged(fs, r, p) { }
    forall p | !(e <= p) && p in r.dirs ensures p in fs.dirs || p <= e {
      if p !in fs.dirs { PrefixesComparable(p, e, d); }
    }
  }

  lemma CopyFileConfined(fs: Fs, src: Path, dst: Path, e: Path)
    requires e <= dst && CopyFile(fs, src, dst).Ok?
    ensures Confined(fs, CopyFile(fs, src, dst).value, e)
  {
    var r := CopyFile(fs, src, dst).value;
    var t := CopyTarget(fs, src, dst);
    assert e <= t;
    forall p | !(e <= p) ensures FileUnchanged(fs, r, p) {
      assert p != t;
    }
  }

  lemma CopyTreeConfined(fs: Fs, src: Path, dst: Path, e: Path)
    requires e <= dst && CopyTree(fs, src, dst).Ok?
    ensures Confined(fs, CopyTree(fs, src, dst).value, e)
  {
    var r := CopyTree(fs, src, dst).value;
    var copied := CopiedFiles(fs, src, dst);
    forall p | !(e <= p) ensures FileUnchanged(fs, r, p) { }
    forall p | !(e <= p) && p in r.dirs ensures p in fs.dirs || p <= e {
      if p in Prefixes(dst) {
        PrefixesComparable(p, e, dst);
      }
    }
  }

  /** A name that passes the ".." check is a normalised relative path. */
  lemma ArtifactRelPathWellFormed(artifact: Path, artifactRoot: Option<Path>)
    requires WellFormed(artifact)
    requires !StartsWithDotDot(ArtifactRelPath(artifact, artifactRoot))
    ensures WellFormed(ArtifactRelPath(artifact, artifactRoot))
  {
  }

  /** When copytree succeeds, the destination's directory is a directory. */
  lemma CopyTreeParent(fs1: Fs, entry: Path, rel: Path)
    requires Exists(fs1, DestDir(entry, rel))
    requires !BlockedByFile(fs1, entry + rel) && !Exists(fs1, entry + rel)
    ensures rel != [] && Parent(entry + rel) in fs1.dirs
  {
    var dest := entry + rel;
    assert rel == [] ==> dest == entry;
    assert dest[..|dest| - 1] !in fs1.files;
  }

  /** One turn keeps the tree well formed and stays inside the entry. */
  lemma StageArtifactInvariant(fs: Fs, entry: Path, artifact: Path, artifactRoot: Option<Path>)
    requires Valid(fs) && WellFormed(entry) && entry != [] && WellFormed(artifact)
    ensures Valid(StageArtifact(fs, entry, artifact, artifactRoot).fs)
    ensures Confined(fs, StageArtifact(fs, entry, artifact, artifactRoot).fs, entry)
  {
    var rel := ArtifactRelPath(artifact, artifactRoot);
    if !StartsWithDotDot(rel) {
      ArtifactRelPathWellFormed(artifact, artifactRoot);
      var dest := entry + rel;
      var dir := DestDir(entry, rel);
      assert WellFormed(dest) && WellFormed(dir);
      var made := EnsureDir(fs, dir);
      if made.Ok? {
        var fs1 := made.value;
        if !Exists(fs, dir) {
          MakeDirsValid(fs, dir);
          MakeDirsConfined(fs, dir, entry);
        }
        if artifact in fs1.dirs {
          if CopyTree(fs1, artifact, dest).Ok? {
            CopyTreeParent(fs1, entry, rel);
            CopyTreeValid(fs1, artifact, dest);
            CopyTreeConfined(fs1, artifact, dest, entry);
            ConfinedTrans(fs, fs1, CopyTree(fs1, artifact, dest).value, entry);
          }
        } else {
          if CopyFile(fs1, artifact, dest).Ok? {
            CopyFileValid(fs1, artifact, dest);
            CopyFileConfined(fs1, artifact, dest, entry);
            ConfinedTrans(fs, fs1, CopyFile(fs1, artifact, dest).value, entry);
          }
        }
      }
    }
  }

  lemma {:induction false} StageAllInvariant(fs: Fs, entry: Path, artifacts: seq<Path>, artifactRoot: Option<Path>)
    requires Valid(fs) && WellFormed(entry) && entry != []
    requires forall i :: 0 <= i < |artifacts| ==> WellFormed(artifacts[i])
    ensures Valid(StageAll(fs, entry, artifacts, artifactRoot).fs)
    ensures Confined(fs, StageAll(fs, entry, artifacts, artifactRoot).fs, entry)
    decreases |artifacts|
  {
    if artifacts == [] {
      forall p | !(entry <= p) ensures FileUnchanged(fs, fs, p) { }
    } else {
      var init := artifacts[..|artifacts| - 1];
      StageAllInvariant(fs, entry, init, artifactRoot);
      var s := StageAll(fs, entry, init, artifactRoot);
      if s.failure.None? {
        StageArtifactInvariant(s.fs, entry, artifacts[|artifacts| - 1], artifactRoot);
        ConfinedTrans(fs, s.fs, StageArtifact(s.fs, entry, artifacts[|artifacts| - 1], artifactRoot).fs, entry);
      }
    }
  }

  // ---------------------------------------------------------------------------
  // What an update leaves behind
  // ---------------------------------------------------------------------------

  /** The marker just written reads back as written. */
  lemma WriteThenRead(fs: Fs, p: Path, data: Bytes)
    requires WriteFile(fs, p, data).Ok?
    ensures ReadFile(WriteFile(fs, p, data).value, p) == Ok(data)
  {
    var r := WriteFile(fs, p, data).value;
    forall k | 0 <= k < |p| ensures p[..k] !in r.files {
      assert p[..k] != p;
    }
  }

  /** What an update leaves outside the entry: the files other than the
      marker as they were, the directories there kept, new ones only among
      the entry's ancestors; and the marker as it was when the update failed. */
  ghost predicate UpdateFrame(before: Fs, after: Fs, entry: Path, failed: bool) {
    && (forall p :: !(entry <= p) && p != MarkerPath(entry) ==> FileUnchanged(before, after, p))
    && (forall p :: !(entry <= p) && p in before.dirs ==> p in after.dirs)
    && (forall p :: !(entry <= p) && p in after.dirs ==> p in before.dirs || p <= entry)
    && (failed ==> FileUnchanged(before, after, MarkerPath(entry)))
  }

  /** An update keeps the tree well formed and within its frame; when it
      succeeds, the marker reads back as the hash. */
  lemma UpdateOutcomeFacts(fs: Fs, entry: Path, hash: string, artifacts: seq<Path>, artifactRoot: Option<Path>)
    requires Valid(fs) && WellFormed(entry) && entry != []
    requires forall i :: 0 <= i < |artifacts| ==> WellFormed(artifacts[i])
    ensures var u := UpdateOutcome(fs, entry, hash, artifacts, artifactRoot);
      && Valid(u.fs)
      && UpdateFrame(fs, u.fs, entry, u.failure.Some?)
      && (u.failure.None? ==> ReadFile(u.fs, MarkerPath(entry)) == Ok(ToBytes(hash)))
  {
    var m := MarkerPath(entry);
    MarkerBesideEntry(entry);
    var removed := RemoveTree(fs, entry);
    RemoveTreeValid(fs, entry);
    RemoveTreeConfined(fs, entry);
    StageAllInvariant(removed, entry, artifacts, artifactRoot);
    var s := StageAll(removed, entry, artifacts, artifactRoot);
    ConfinedTrans(fs, removed, s.fs, entry);
    assert FileUnchanged(fs, s.fs, m);
    if s.failure.None? {
      var w := WriteFile(s.fs, m, ToBytes(hash));
      if w.Ok? {
        WriteFileValid(s.fs, m, ToBytes(hash));
        WriteThenRead(s.fs, m, ToBytes(hash));
        var u := w.value;
        forall p | !(entry <= p) && p != m ensures FileUnchanged(fs, u, p) {
          assert FileUnchanged(fs, s.fs, p);
        }
      }
    }
  }

  /** A failed update leaves the marker reading as it did: an old marker
      survives the removal of its entry and still answers for it. */
  lemma FailedUpdateKeepsMarker(before: Fs, after: Fs, entry: Path)
    requires WellFormed(entry) && entry != []
    requires UpdateFrame(before, after, entry, true)
    ensures ReadFile(after, MarkerPath(entry)) == ReadFile(before, MarkerPath(entry))
  {
    var m := MarkerPath(entry);
    MarkerBesideEntry(entry);
    forall k | 0 <= k < |m| ensures m[..k] in after.files <==> m[..k] in before.files {
      assert m[..k] == entry[..k];
      assert FileUnchanged(before, after, m[..k]);
    }
    assert BlockedByFile(after, m) == BlockedByFile(before, m);
    assert m in after.dirs <==> m in before.dirs;
  }

  /** An update or invalidation of the entry root/a leaves the entry and the
      marker of every other id b as they were, unless one of a and b is the
      other with ".hash" appended. */
  lemma OtherEntryUntouched(before: Fs, after: Fs, root: Path, a: string, b: string, failed: bool)
    requires UpdateFrame(before, after, root + [a], failed)
    requires b != a && b != a + ".hash" && a != b + ".hash"
    ensures forall p :: root + [b] <= p ==> FileUnchanged(before, after, p) && (p in after.dirs <==> p in before.dirs)
    ensures FileUnchanged(before, after, MarkerPath(root + [b]))
    ensures MarkerPath(root + [b]) in after.dirs <==> MarkerPath(root + [b]) in before.dirs
    ensures ReadFile(after, MarkerPath(root + [b])) == ReadFile(before, MarkerPath(root + [b]))
  {
    var ea, eb := root + [a], root + [b];
    MarkerOfSnoc(root, a);
    MarkerOfSnoc(root, b);
    var ma, mb := root + [a + ".hash"], root + [b + ".hash"];
    forall p | eb <= p ensures FileUnchanged(before, after, p) && (p in after.dirs <==> p in before.dirs) {
      assert p[..|eb|] == eb;
      assert p[..|ea|] != ea;
      assert p != ma by { assert p[|root|] == b; }
      assert !(p <= ea) by { assert |p| >= |ea|; }
    }
    assert (b + ".hash")[..|b|] == b && (a + ".hash")[..|a|] == a;
    assert mb != ma && !(ea <= mb) && !(mb <= ea);
    forall k | 0 <= k < |mb| ensures mb[..k] in after.files <==> mb[..k] in before.files {
      assert mb[..k] == root[..k];
      assert FileUnchanged(before, after, mb[..k]);
    }
    assert BlockedByFile(after, mb) == BlockedByFile(before, mb);
  }
}
