/** Where _sha_file puts an entry's marker when the cache root is given as a
    relative path. The filename of a key already starts with the cache root,
    and _sha_file joins the root in front of it once more; os.path.join hides
    this for an absolute root (an absolute second argument wins) but not for a
    relative one. */
module RootedMarkers {
  import opened Paths
  import opened Results
  import opened FileSystem
  import Staging

  /** A path string as Python holds it: absolute, or relative to the working directory. */
  datatype RawPath = RawPath(absolute: bool, names: seq<string>)

  /** os.path.join on normalised paths: an absolute second argument replaces the first. */
  function Join(a: RawPath, b: RawPath): RawPath {
    if b.absolute then b else RawPath(a.absolute, a.names + b.names)
  }

  /** The file a path string names when the working directory is cwd. */
  function Resolve(cwd: Path, p: RawPath): Path {
    if p.absolute then p.names else cwd + p.names
  }

  /** The string p with ".hash" appended. */
  function WithHashSuffix(p: RawPath): RawPath {
    RawPath(p.absolute, Staging.MarkerPath(p.names))
  }

  /** The root BuildCache(base) keeps: join(base, VERSION). */
  function CacheRoot(base: RawPath): RawPath {
    Join(base, RawPath(false, ["0"]))
  }

  /** _key_for's filename: join(root, id). */
  function EntryFile(base: RawPath, id: string): RawPath {
    Join(CacheRoot(base), RawPath(false, [id]))
  }

  /** _sha_file as written: join(root, filename) + '.hash'. */
  function ShaFileAsWritten(base: RawPath, id: string): RawPath {
    WithHashSuffix(Join(CacheRoot(base), EntryFile(base, id)))
  }

  /** _sha_file as intended: filename + '.hash', the marker beside the entry. */
  function ShaFileIntended(base: RawPath, id: string): RawPath {
    WithHashSuffix(EntryFile(base, id))
  }

  /** With an absolute root the written code lands on the intended marker,
      which is Staging.MarkerPath of the entry, the path the rest of the model uses. */
  lemma AbsoluteRootMarkerAgrees(cwd: Path, base: RawPath, id: string)
    requires base.absolute
    ensures ShaFileAsWritten(base, id) == ShaFileIntended(base, id)
    ensures Resolve(cwd, ShaFileAsWritten(base, id)) == Staging.MarkerPath(Resolve(cwd, EntryFile(base, id)))
  {
  }

  /** The path _sha_file names for a relative root, resolved. */
  lemma RelativeAsWritten(cwd: Path, base: RawPath, id: string)
    requires !base.absolute
    ensures Resolve(cwd, ShaFileAsWritten(base, id)) == cwd + base.names + ["0"] + base.names + ["0", id + ".hash"]
  {
    var dir := base.names + ["0"] + base.names + ["0"];
    assert Join(CacheRoot(base), EntryFile(base, id)).names == dir + [id];
    Staging.MarkerOfSnoc(dir, id);
  }

  /** With a relative root, the marker is read and written under a second copy
      of the root inside the cache, and not beside the entry. */
  lemma RelativeRootDoublesMarker(cwd: Path, base: RawPath, id: string)
    requires !base.absolute
    ensures Resolve(cwd, ShaFileAsWritten(base, id)) == cwd + base.names + ["0"] + base.names + ["0", id + ".hash"]
    ensures Resolve(cwd, ShaFileAsWritten(base, id)) != Staging.MarkerPath(Resolve(cwd, EntryFile(base, id)))
  {
    RelativeAsWritten(cwd, base, id);
    var entry := cwd + base.names + ["0", id];
    assert Resolve(cwd, EntryFile(base, id)) == entry;
    var m := Staging.MarkerPath(entry);
    assert |m| == |entry|;
    assert |m| < |Resolve(cwd, ShaFileAsWritten(base, id))|;
  }

  /** On a concrete relative root: BuildCache("cache") puts the marker of
      "t" at cache/0/cache/0/t.hash rather than at cache/0/t.hash. */
  lemma RelativeRootExample()
    ensures Resolve([], ShaFileAsWritten(RawPath(false, ["cache"]), "t")) == ["cache", "0", "cache", "0", "t" + ".hash"]
    ensures Resolve([], ShaFileIntended(RawPath(false, ["cache"]), "t")) == ["cache", "0", "t" + ".hash"]
  {
    RelativeRootDoublesMarker([], RawPath(false, ["cache"]), "t");
    assert EntryFile(RawPath(false, ["cache"]), "t").names == ["cache", "0"] + ["t"];
    Staging.MarkerOfSnoc(["cache", "0"], "t");
  }

  /** Unless the cache happens to hold a directory for the doubled root, the
      marker write of update fails (after the artifacts are copied) and the
      marker read finds nothing, so needs_update keeps answering true. */
  lemma RelativeRootMarkerUnusable(fs: Fs, cwd: Path, base: RawPath, id: string, hash: Bytes)
    requires Valid(fs) && !base.absolute
    requires cwd + base.names + ["0"] + base.names + ["0"] !in fs.dirs
    ensures WriteFile(fs, Resolve(cwd, ShaFileAsWritten(base, id)), hash).Err?
    ensures ReadFile(fs, Resolve(cwd, ShaFileAsWritten(base, id))).Err?
  {
    RelativeRootDoublesMarker(cwd, base, id);
    var m := Resolve(cwd, ShaFileAsWritten(base, id));
    var dir := cwd + base.names + ["0"] + base.names + ["0"];
    assert m == dir + [id + ".hash"];
    assert m[..|m| - 1] == dir;
    assert Parent(m) == dir;
  }

  /** The corrected marker is the one the model uses, and it lies beside its
      entry: neither inside it nor an ancestor of it. */
  lemma IntendedMarkerBesideEntry(cwd: Path, base: RawPath, id: string)
    requires WellFormed(Resolve(cwd, EntryFile(base, id)))
    ensures Resolve(cwd, ShaFileIntended(base, id)) == Staging.MarkerPath(Resolve(cwd, EntryFile(base, id)))
    ensures WellFormed(Resolve(cwd, ShaFileIntended(base, id)))
    ensures var e := Resolve(cwd, EntryFile(base, id)); var m := Resolve(cwd, ShaFileIntended(base, id));
      !(e <= m) && !(m <= e)
  {
    var entry := Resolve(cwd, EntryFile(base, id));
    if !base.absolute {
      var names := base.names + ["0", id];
      assert EntryFile(base, id).names == names;
      assert Staging.MarkerPath(cwd + names) == cwd + Staging.MarkerPath(names) by {
        assert Parent(cwd + names) == cwd + Parent(names);
      }
    }
    Staging.MarkerBesideEntry(entry);
  }
}

/** Where the marker of one id is the entry of another: the marker of id x,
    root/x.hash, is the entry directory of the id x + ".hash". */
module MarkerCollision {
  import opened Paths
  import opened Results
  import opened FileSystem
  import opened FileSystemFacts
  import opened Fingerprint
  import opened Staging
  import opened StagingContents

  /** A turn whose destination's directory is the entry leaves the entry a directory. */
  lemma TurnMakesEntry(base: Fs, e: Path, artifact: Path)
    requires e !in base.files && DestDir(e, ArtifactRelPath(artifact, None)) == e
    requires StageArtifact(base, e, artifact, None).failure.None?
    ensures e in StageArtifact(base, e, artifact, None).fs.dirs
  {
    var fs1, dir := TurnParts(base, e, artifact, None);
    assert e in fs1.dirs;
    var dest := Dest(e, artifact, None);
    if artifact in fs1.dirs { CopyTreeFrame(fs1, artifact, dest); } else { CopyFileFrame(fs1, artifact, dest); }
  }

  /** In a valid tree a directory is read as a directory. */
  lemma ReadDirectory(fs: Fs, d: Path)
    requires Valid(fs) && d in fs.dirs
    ensures ReadFile(fs, d) == Err(IsADirectory(d))
  {
    assert forall k :: 0 <= k < |d| ==> d[..k] in fs.dirs;
  }

  /** Updating the id x + ".hash" with one artifact leaves a directory at the
      marker of id x, so reading that marker, as needs_update(x) does, raises
      EISDIR. */
  lemma SuffixedUpdateClobbersMarker(fs: Fs, root: Path, x: string, hash: string, artifact: Path)
    requires Valid(fs) && WellFormed(root + [x + ".hash"]) && WellFormed(artifact)
    requires UpdateOutcome(fs, root + [x + ".hash"], hash, [artifact], None).failure.None?
    ensures var m := MarkerPath(root + [x]);
      ReadFile(UpdateOutcome(fs, root + [x + ".hash"], hash, [artifact], None).fs, m) == Err(IsADirectory(m))
  {
    var e := root + [x + ".hash"];
    MarkerOfSnoc(root, x);
    var u := UpdateOutcome(fs, e, hash, [artifact], None);
    UpdateOutcomeFacts(fs, e, hash, [artifact], None);
    var base := RemoveTree(fs, e);
    assert [artifact][..0] == [];
    var s := StageArtifact(base, e, artifact, None);
    assert StageAll(base, e, [artifact], None) == s;
    assert DestDir(e, ArtifactRelPath(artifact, None)) == e;
    TurnMakesEntry(base, e, artifact);
    assert u.fs.dirs == s.fs.dirs;
    ReadDirectory(u.fs, e);
  }

  /** An id ending in ".hash", whose entry can be another id's marker. */
  predicate HashSuffixed(id: string) {
    |id| >= 5 && id[|id| - 5..] == ".hash"
  }

  /** Isolation as intended, for ids that do not end in ".hash": an update or
      invalidation of root/a leaves the entry and the marker of any other id
      as they were. */
  lemma PlainIdsIsolated(before: Fs, after: Fs, root: Path, a: string, b: string, failed: bool)
    requires UpdateFrame(before, after, root + [a], failed)
    requires a != b && !HashSuffixed(a) && !HashSuffixed(b)
    ensures forall p :: root + [b] <= p ==> FileUnchanged(before, after, p) && (p in after.dirs <==> p in before.dirs)
    ensures ReadFile(after, MarkerPath(root + [b])) == ReadFile(before, MarkerPath(root + [b]))
  {
    assert (a + ".hash")[|a + ".hash"| - 5..] == ".hash";
    assert (b + ".hash")[|b + ".hash"| - 5..] == ".hash";
    OtherEntryUntouched(before, after, root, a, b, failed);
  }
}
