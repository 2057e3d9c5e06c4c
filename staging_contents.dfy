/** What a finished update leaves inside the entry: nothing but copies of the
    artifacts, every file of every artifact at its place when no two
    destinations overlap, and a second identical update that changes nothing. */
module StagingContents {
  import opened Paths
  import opened Results
  import opened FileSystem
  import opened FileSystemFacts
  import opened Fingerprint
  import opened Staging

  /** Neither path lies at or below the other. */
  predicate Apart(p: Path, q: Path) {
    !(p <= q) && !(q <= p)
  }

  /** os.path.join(entry, rel): where update copies the artifact to. */
  function Dest(entry: Path, artifact: Path, artifactRoot: Option<Path>): (d: Path)
    ensures entry <= d
  {
    entry + ArtifactRelPath(artifact, artifactRoot)
  }

  /** The artifacts lie neither inside the entry nor above it. */
  predicate OutsideEntry(entry: Path, artifacts: seq<Path>) {
    forall i :: 0 <= i < |artifacts| ==> Apart(artifacts[i], entry)
  }

  // ---------------------------------------------------------------------------
  // Only copies of the artifacts
  // ---------------------------------------------------------------------------

  /** f, holding data, is the copy of the file p at or below the artifact:
      at p's place under the artifact's destination or, for a plain file
      copied into a directory already there, under its base name inside it. */
  ghost predicate CopiedFrom(fs: Fs, entry: Path, artifact: Path, artifactRoot: Option<Path>, f: Path, data: Bytes, p: Path) {
    && p in fs.files && artifact <= p && fs.files[p] == data
    && (f == Rebase(p, artifact, Dest(entry, artifact, artifactRoot)) ||
        (p == artifact && f == Dest(entry, artifact, artifactRoot) + BaseName(artifact)))
  }

  ghost predicate CopyOf(fs: Fs, entry: Path, artifact: Path, artifactRoot: Option<Path>, f: Path, data: Bytes) {
    exists p :: CopiedFrom(fs, entry, artifact, artifactRoot, f, data, p)
  }

  /** Every file at or below the entry is a copy of a file of some artifact in fs. */
  ghost predicate OnlyCopies(fs: Fs, after: Fs, entry: Path, artifacts: seq<Path>, artifactRoot: Option<Path>) {
    forall f :: f in after.files && entry <= f ==>
      exists i :: 0 <= i < |artifacts| && CopyOf(fs, entry, artifacts[i], artifactRoot, f, after.files[f])
  }

  /** A successful turn taken apart: its makedirs leaves fs1, which differs
      from cur only by some prefixes of dir, and its copy from fs1 to the
      destination leaves the turn's result. */
  lemma TurnParts(cur: Fs, entry: Path, artifact: Path, artifactRoot: Option<Path>) returns (fs1: Fs, dir: Path)
    requires StageArtifact(cur, entry, artifact, artifactRoot).failure.None?
    ensures dir == DestDir(entry, ArtifactRelPath(artifact, artifactRoot)) && fs1 == EnsureDir(cur, dir).value
    ensures dir <= Dest(entry, artifact, artifactRoot)
    ensures Dest(entry, artifact, artifactRoot) != entry ==> |dir| < |Dest(entry, artifact, artifactRoot)|
    ensures fs1.files == cur.files && cur.dirs <= fs1.dirs && fs1.dirs <= cur.dirs + Prefixes(dir)
    ensures CopyInto(fs1, artifact, Dest(entry, artifact, artifactRoot)) == Ok(StageArtifact(cur, entry, artifact, artifactRoot).fs)
  {
    StageArtifactSucceeded(cur, entry, artifact, artifactRoot);
    var rel := ArtifactRelPath(artifact, artifactRoot);
    dir := DestDir(entry, rel);
    fs1 := EnsureDir(cur, dir).value;
  }

  /** A turn writes only copies of the artifact's files. */
  lemma StepCopies(cur: Fs, fs1: Fs, next: Fs, entry: Path, artifact: Path, artifactRoot: Option<Path>)
    requires fs1.files == cur.files
    requires CopyInto(fs1, artifact, Dest(entry, artifact, artifactRoot)) == Ok(next)
    ensures forall f :: f in next.files ==>
      (f in cur.files && next.files[f] == cur.files[f]) || CopyOf(cur, entry, artifact, artifactRoot, f, next.files[f])
  {
    var dest := Dest(entry, artifact, artifactRoot);
    if artifact in fs1.dirs {
      var copied := CopiedFiles(fs1, artifact, dest);
      assert next.files == fs1.files + copied;
      forall f | f in next.files && f in copied
        ensures CopyOf(cur, entry, artifact, artifactRoot, f, next.files[f])
      {
        var p :| p in fs1.files && artifact <= p && f == Rebase(p, artifact, dest);
        assert CopiedFrom(cur, entry, artifact, artifactRoot, f, next.files[f], p);
      }
    } else {
      var t := CopyTarget(fs1, artifact, dest);
      assert next.files == fs1.files[t := fs1.files[artifact]];
      assert Rebase(artifact, artifact, dest) == dest;
      assert CopiedFrom(cur, entry, artifact, artifactRoot, t, next.files[t], artifact);
    }
  }

  /** A copy of a file outside the entry is a copy of that file as it was
      before the entry was touched. */
  lemma CopyOfTransfer(fs: Fs, cur: Fs, entry: Path, artifact: Path, artifactRoot: Option<Path>, f: Path, data: Bytes)
    requires Confined(fs, cur, entry) && Apart(artifact, entry)
    requires CopyOf(cur, entry, artifact, artifactRoot, f, data)
    ensures CopyOf(fs, entry, artifact, artifactRoot, f, data)
  {
    var p :| CopiedFrom(cur, entry, artifact, artifactRoot, f, data, p);
    if entry <= p { PrefixesComparable(artifact, entry, p); }
    assert FileUnchanged(fs, cur, p);
    assert CopiedFrom(fs, entry, artifact, artifactRoot, f, data, p);
  }

  /** One more turn keeps every file at or below the entry a copy. */
  lemma CopiesStep(fs: Fs, cur: Fs, next: Fs, entry: Path, artifacts: seq<Path>, artifactRoot: Option<Path>)
    requires artifacts != [] && OutsideEntry(entry, artifacts)
    requires Confined(fs, cur, entry)
    requires OnlyCopies(fs, cur, entry, artifacts[..|artifacts| - 1], artifactRoot)
    requires StageArtifact(cur, entry, artifacts[|artifacts| - 1], artifactRoot) == Stage(next, None)
    ensures OnlyCopies(fs, next, entry, artifacts, artifactRoot)
  {
    var n := |artifacts| - 1;
    var init := artifacts[..n];
    var fs1, dir := TurnParts(cur, entry, artifacts[n], artifactRoot);
    StepCopies(cur, fs1, next, entry, artifacts[n], artifactRoot);
    forall f | f in next.files && entry <= f
      ensures exists i :: 0 <= i < |artifacts| && CopyOf(fs, entry, artifacts[i], artifactRoot, f, next.files[f])
    {
      if f in cur.files && next.files[f] == cur.files[f] {
        var i :| 0 <= i < |init| && CopyOf(fs, entry, init[i], artifactRoot, f, cur.files[f]);
        assert artifacts[i] == init[i];
      } else {
        CopyOfTransfer(fs, cur, entry, artifacts[n], artifactRoot, f, next.files[f]);
      }
    }
  }

  lemma {:induction false} StageAllCopies(fs: Fs, base: Fs, entry: Path, artifacts: seq<Path>, artifactRoot: Option<Path>)
    requires Valid(base) && WellFormed(entry) && entry != []
    requires forall i :: 0 <= i < |artifacts| ==> WellFormed(artifacts[i])
    requires OutsideEntry(entry, artifacts)
    requires Confined(fs, base, entry) && forall f :: f in base.files ==> !(entry <= f)
    requires StageAll(base, entry, artifacts, artifactRoot).failure.None?
    ensures OnlyCopies(fs, StageAll(base, entry, artifacts, artifactRoot).fs, entry, artifacts, artifactRoot)
    decreases |artifacts|
  {
    if artifacts != [] {
      var n := |artifacts| - 1;
      var init := artifacts[..n];
      var s0 := StageAll(base, entry, init, artifactRoot);
      assert s0.failure.None?;
      StageAllCopies(fs, base, entry, init, artifactRoot);
      StageAllInvariant(base, entry, init, artifactRoot);
      ConfinedTrans(fs, base, s0.fs, entry);
      CopiesStep(fs, s0.fs, StageAll(base, entry, artifacts, artifactRoot).fs, entry, artifacts, artifactRoot);
    }
  }

  /** A successful update taken apart: the loop succeeded on the emptied
      entry and the marker write then succeeded. */
  lemma UpdateParts(fs: Fs, entry: Path, hash: string, artifacts: seq<Path>, artifactRoot: Option<Path>)
    requires UpdateOutcome(fs, entry, hash, artifacts, artifactRoot).failure.None?
    ensures var s := StageAll(RemoveTree(fs, entry), entry, artifacts, artifactRoot);
      s.failure.None? && WriteFile(s.fs, MarkerPath(entry), ToBytes(hash)) == Ok(UpdateOutcome(fs, entry, hash, artifacts, artifactRoot).fs)
  {
  }

  /** The marker write changes nothing at or below the entry. */
  lemma MarkerWriteBesideEntry(s: Fs, u: Fs, entry: Path, data: Bytes)
    requires WellFormed(entry) && entry != [] && WriteFile(s, MarkerPath(entry), data) == Ok(u)
    ensures forall q :: entry <= q ==> FileUnchanged(s, u, q)
    ensures u.dirs == s.dirs
  {
    MarkerBesideEntry(entry);
  }

  /** update empties the entry first: after a successful update, every file
      at or below it is a copy of a file of one of the artifacts, holding
      that file's contents from before the update. */
  lemma UpdateLeavesOnlyCopies(fs: Fs, entry: Path, hash: string, artifacts: seq<Path>, artifactRoot: Option<Path>)
    requires Valid(fs) && WellFormed(entry) && entry != []
    requires forall i :: 0 <= i < |artifacts| ==> WellFormed(artifacts[i])
    requires OutsideEntry(entry, artifacts)
    ensures var u := UpdateOutcome(fs, entry, hash, artifacts, artifactRoot);
      u.failure.None? ==> OnlyCopies(fs, u.fs, entry, artifacts, artifactRoot)
  {
    var base := RemoveTree(fs, entry);
    var u := UpdateOutcome(fs, entry, hash, artifacts, artifactRoot);
    if u.failure.None? {
      UpdateParts(fs, entry, hash, artifacts, artifactRoot);
      RemoveTreeValid(fs, entry);
      RemoveTreeConfined(fs, entry);
      var s := StageAll(base, entry, artifacts, artifactRoot).fs;
      StageAllCopies(fs, base, entry, artifacts, artifactRoot);
      MarkerWriteBesideEntry(s, u.fs, entry, ToBytes(hash));
      forall f | f in u.fs.files && entry <= f
        ensures exists i :: 0 <= i < |artifacts| && CopyOf(fs, entry, artifacts[i], artifactRoot, f, u.fs.files[f])
      {
        assert FileUnchanged(s, u.fs, f);
      }
    }
  }

  // ---------------------------------------------------------------------------
  // Every artifact delivered
  // ---------------------------------------------------------------------------

  /** Every file at or below the artifact in fs is in after, at its place
      under the artifact's destination, with its contents. */
  ghost predicate Delivered(fs: Fs, after: Fs, entry: Path, artifact: Path, artifactRoot: Option<Path>) {
    forall p :: p in fs.files && artifact <= p ==>
      Rebase(p, artifact, Dest(entry, artifact, artifactRoot)) in after.files &&
      after.files[Rebase(p, artifact, Dest(entry, artifact, artifactRoot))] == fs.files[p]
  }

  ghost predicate AllDelivered(fs: Fs, after: Fs, entry: Path, artifacts: seq<Path>, artifactRoot: Option<Path>) {
    forall i :: 0 <= i < |artifacts| ==> Delivered(fs, after, entry, artifacts[i], artifactRoot)
  }

  /** No destination is the entry itself, and none lies at or below another. */
  ghost predicate Independent(entry: Path, artifacts: seq<Path>, artifactRoot: Option<Path>) {
    && (forall i :: 0 <= i < |artifacts| ==> Dest(entry, artifacts[i], artifactRoot) != entry)
    && (forall i, j :: 0 <= i < |artifacts| && 0 <= j < |artifacts| && i != j ==>
          !(Dest(entry, artifacts[i], artifactRoot) <= Dest(entry, artifacts[j], artifactRoot)))
  }

  /** Each directory strictly inside the entry lies at, above or below the
      destination of one of the artifacts. */
  ghost predicate DirsNearDests(cur: Fs, entry: Path, artifacts: seq<Path>, artifactRoot: Option<Path>) {
    forall d :: d in cur.dirs && entry <= d && d != entry ==>
      exists j :: 0 <= j < |artifacts| && NearDest(d, entry, artifacts[j], artifactRoot)
  }

  /** d lies at, above or below the artifact's destination. */
  predicate NearDest(d: Path, entry: Path, artifact: Path, artifactRoot: Option<Path>) {
    d <= Dest(entry, artifact, artifactRoot) || Dest(entry, artifact, artifactRoot) <= d
  }

  lemma PrefixTrans(a: Path, b: Path, c: Path)
    requires a <= b && b <= c
    ensures a <= c
  {
    assert c[..|a|] == b[..|a|];
  }

  /** copytree changes files only below its destination, keeps every
      directory, and adds directories only at, above or below it. */
  lemma CopyTreeFrame(fs1: Fs, artifact: Path, dest: Path)
    requires CopyTree(fs1, artifact, dest).Ok?
    ensures var next := CopyTree(fs1, artifact, dest).value;
      && (forall q :: !(dest <= q) ==> FileUnchanged(fs1, next, q))
      && (forall d :: d in next.dirs ==> d in fs1.dirs || d <= dest || dest <= d)
      && fs1.dirs <= next.dirs
  {
    forall q | q in CopiedFiles(fs1, artifact, dest) ensures dest <= q {
      var p :| p in fs1.files && artifact <= p && q == Rebase(p, artifact, dest);
    }
    forall d | d in CopiedDirs(fs1, artifact, dest) ensures dest <= d {
      var p :| p in fs1.dirs && artifact <= p && d == Rebase(p, artifact, dest);
    }
  }

  /** copy changes one file, at or below its destination. */
  lemma CopyFileFrame(fs1: Fs, artifact: Path, dest: Path)
    requires CopyFile(fs1, artifact, dest).Ok?
    ensures var next := CopyFile(fs1, artifact, dest).value;
      && (forall q :: !(dest <= q) ==> FileUnchanged(fs1, next, q))
      && next.dirs == fs1.dirs
  {
    var t := CopyTarget(fs1, artifact, dest);
    assert dest <= t;
  }

  /** The directories a turn's makedirs adds lie above the destination. */
  lemma MadeFrame(cur: Fs, fs1: Fs, dest: Path, dir: Path)
    requires fs1.dirs <= cur.dirs + Prefixes(dir) && dir <= dest
    ensures forall d :: d in fs1.dirs ==> d in cur.dirs || d <= dest
  {
    forall d | d in fs1.dirs ensures d in cur.dirs || d <= dest {
      if d !in cur.dirs { PrefixTrans(d, dir, dest); }
    }
  }

  /** after differs from before only in files at or below dest, keeps every
      directory, and adds directories only at, above or below dest. */
  ghost predicate FramedBy(before: Fs, after: Fs, dest: Path) {
    && (forall q :: !(dest <= q) ==> FileUnchanged(before, after, q))
    && (forall d :: d in after.dirs ==> d in before.dirs || d <= dest || dest <= d)
    && before.dirs <= after.dirs
  }

  /** copytree or copy to dest is framed by dest. */
  lemma CopyIntoFrame(fs1: Fs, artifact: Path, dest: Path, next: Fs)
    requires CopyInto(fs1, artifact, dest) == Ok(next)
    ensures FramedBy(fs1, next, dest)
  {
    if artifact in fs1.dirs { CopyTreeFrame(fs1, artifact, dest); } else { CopyFileFrame(fs1, artifact, dest); }
  }

  /** A turn changes files only at or below the destination, keeps every
      directory, and adds directories only at, above or below the destination. */
  lemma StepFrame(cur: Fs, fs1: Fs, next: Fs, dest: Path, dir: Path)
    requires fs1.files == cur.files && cur.dirs <= fs1.dirs && fs1.dirs <= cur.dirs + Prefixes(dir)
    requires dir <= dest && FramedBy(fs1, next, dest)
    ensures FramedBy(cur, next, dest)
  {
    MadeFrame(cur, fs1, dest, dir);
    forall q | !(dest <= q) ensures FileUnchanged(cur, next, q) {
      assert FileUnchanged(fs1, next, q);
    }
  }

  /** An artifact copied earlier stays delivered through a turn whose
      destination is apart from its own. */
  lemma DeliveredKept(fs: Fs, cur: Fs, next: Fs, entry: Path, artifact: Path, artifactRoot: Option<Path>, dest: Path)
    requires Delivered(fs, cur, entry, artifact, artifactRoot)
    requires forall q :: !(dest <= q) ==> FileUnchanged(cur, next, q)
    requires Apart(dest, Dest(entry, artifact, artifactRoot))
    ensures Delivered(fs, next, entry, artifact, artifactRoot)
  {
    var own := Dest(entry, artifact, artifactRoot);
    forall p | p in fs.files && artifact <= p
      ensures Rebase(p, artifact, own) in next.files && next.files[Rebase(p, artifact, own)] == fs.files[p]
    {
      var q := Rebase(p, artifact, own);
      if dest <= q { PrefixesComparable(own, dest, q); }
      assert FileUnchanged(cur, next, q);
    }
  }

  /** The turn of an artifact outside the entry, whose destination is no
      directory yet, delivers it. */
  lemma StepDelivers(fs: Fs, cur: Fs, fs1: Fs, next: Fs, entry: Path, artifact: Path, artifactRoot: Option<Path>, dir: Path)
    requires Valid(fs) && Confined(fs, cur, entry) && Apart(artifact, entry)
    requires Dest(entry, artifact, artifactRoot) !in cur.dirs
    requires fs1.files == cur.files && fs1.dirs <= cur.dirs + Prefixes(dir)
    requires |dir| < |Dest(entry, artifact, artifactRoot)|
    requires CopyInto(fs1, artifact, Dest(entry, artifact, artifactRoot)) == Ok(next)
    ensures Delivered(fs, next, entry, artifact, artifactRoot)
  {
    var dest := Dest(entry, artifact, artifactRoot);
    forall p | artifact <= p ensures FileUnchanged(fs, fs1, p) {
      if entry <= p { PrefixesComparable(artifact, entry, p); }
      assert FileUnchanged(fs, cur, p);
    }
    if artifact in fs1.dirs {
      var copied := CopiedFiles(fs1, artifact, dest);
      assert next.files == fs1.files + copied;
      forall p | p in fs.files && artifact <= p
        ensures Rebase(p, artifact, dest) in next.files && next.files[Rebase(p, artifact, dest)] == fs.files[p]
      {
        assert FileUnchanged(fs, fs1, p);
      }
    } else {
      assert artifact in fs1.files;
      assert FileUnchanged(fs, fs1, artifact);
      assert forall q :: q in Prefixes(dir) ==> |q| <= |dir|;
      assert dest !in fs1.dirs;
      assert next.files == fs1.files[dest := fs1.files[artifact]];
      forall p | p in fs.files && artifact <= p
        ensures Rebase(p, artifact, dest) in next.files && next.files[Rebase(p, artifact, dest)] == fs.files[p]
      {
        SinglePathBelowFile(fs, artifact, p);
        assert Rebase(artifact, artifact, dest) == dest;
      }
    }
  }

  /** Below a plain file of a valid tree there is only the file itself. */
  lemma SinglePathBelowFile(fs: Fs, f: Path, p: Path)
    requires Valid(fs) && f in fs.files && p in fs.files && f <= p
    ensures p == f
  {
    assert p[..|f|] == f;
  }

  lemma IndependentInit(entry: Path, artifacts: seq<Path>, artifactRoot: Option<Path>, n: nat)
    requires n <= |artifacts| && Independent(entry, artifacts, artifactRoot)
    ensures Independent(entry, artifacts[..n], artifactRoot)
  {
    var init := artifacts[..n];
    forall i, j | 0 <= i < |init| && 0 <= j < |init| && i != j
      ensures !(Dest(entry, init[i], artifactRoot) <= Dest(entry, init[j], artifactRoot))
    {
      assert init[i] == artifacts[i] && init[j] == artifacts[j];
    }
  }

  /** The destination of the next artifact is no directory yet. */
  lemma NextDestFree(cur: Fs, entry: Path, artifacts: seq<Path>, artifactRoot: Option<Path>)
    requires artifacts != [] && Independent(entry, artifacts, artifactRoot)
    requires DirsNearDests(cur, entry, artifacts[..|artifacts| - 1], artifactRoot)
    ensures Dest(entry, artifacts[|artifacts| - 1], artifactRoot) !in cur.dirs
  {
    var n := |artifacts| - 1;
    var init := artifacts[..n];
    var dest := Dest(entry, artifacts[n], artifactRoot);
    forall j | 0 <= j < |init| ensures !NearDest(dest, entry, init[j], artifactRoot) {
      assert init[j] == artifacts[j];
    }
  }

  lemma DirsNearDestsStep(cur: Fs, next: Fs, entry: Path, artifacts: seq<Path>, artifactRoot: Option<Path>)
    requires artifacts != []
    requires DirsNearDests(cur, entry, artifacts[..|artifacts| - 1], artifactRoot)
    requires var dest := Dest(entry, artifacts[|artifacts| - 1], artifactRoot);
      forall d :: d in next.dirs ==> d in cur.dirs || d <= dest || dest <= d
    ensures DirsNearDests(next, entry, artifacts, artifactRoot)
  {
    var n := |artifacts| - 1;
    var init := artifacts[..n];
    forall d | d in next.dirs && entry <= d && d != entry
      ensures exists j :: 0 <= j < |artifacts| && NearDest(d, entry, artifacts[j], artifactRoot)
    {
      if d in cur.dirs {
        var j :| 0 <= j < |init| && NearDest(d, entry, init[j], artifactRoot);
        assert init[j] == artifacts[j];
        assert NearDest(d, entry, artifacts[j], artifactRoot);
      } else {
        assert NearDest(d, entry, artifacts[n], artifactRoot);
      }
    }
  }

  /** One more turn, framed by its own destination and delivering its own
      artifact, keeps the earlier ones delivered. */
  lemma DeliversStep(fs: Fs, cur: Fs, next: Fs, entry: Path, artifacts: seq<Path>, artifactRoot: Option<Path>)
    requires artifacts != [] && Independent(entry, artifacts, artifactRoot)
    requires DirsNearDests(cur, entry, artifacts[..|artifacts| - 1], artifactRoot)
    requires AllDelivered(fs, cur, entry, artifacts[..|artifacts| - 1], artifactRoot)
    requires Delivered(fs, next, entry, artifacts[|artifacts| - 1], artifactRoot)
    requires FramedBy(cur, next, Dest(entry, artifacts[|artifacts| - 1], artifactRoot))
    ensures DirsNearDests(next, entry, artifacts, artifactRoot)
    ensures AllDelivered(fs, next, entry, artifacts, artifactRoot)
  {
    var n := |artifacts| - 1;
    var init := artifacts[..n];
    var dest := Dest(entry, artifacts[n], artifactRoot);
    forall i | 0 <= i < |artifacts| ensures Delivered(fs, next, entry, artifacts[i], artifactRoot) {
      if i < n {
        assert artifacts[i] == init[i];
        DeliveredKept(fs, cur, next, entry, artifacts[i], artifactRoot, dest);
      }
    }
    DirsNearDestsStep(cur, next, entry, artifacts, artifactRoot);
  }

  lemma {:induction false} StageAllDelivers(fs: Fs, base: Fs, entry: Path, artifacts: seq<Path>, artifactRoot: Option<Path>)
    requires Valid(fs) && Valid(base) && WellFormed(entry) && entry != []
    requires forall i :: 0 <= i < |artifacts| ==> WellFormed(artifacts[i])
    requires OutsideEntry(entry, artifacts) && Independent(entry, artifacts, artifactRoot)
    requires Confined(fs, base, entry) && forall d :: d in base.dirs ==> !(entry <= d)
    requires StageAll(base, entry, artifacts, artifactRoot).failure.None?
    ensures DirsNearDests(StageAll(base, entry, artifacts, artifactRoot).fs, entry, artifacts, artifactRoot)
    ensures AllDelivered(fs, StageAll(base, entry, artifacts, artifactRoot).fs, entry, artifacts, artifactRoot)
    decreases |artifacts|
  {
    if artifacts != [] {
      var n := |artifacts| - 1;
      var init := artifacts[..n];
      var s0 := StageAll(base, entry, init, artifactRoot);
      var s := StageAll(base, entry, artifacts, artifactRoot).fs;
      var dest := Dest(entry, artifacts[n], artifactRoot);
      assert s0.failure.None?;
      IndependentInit(entry, artifacts, artifactRoot, n);
      OutsideEntryInit(entry, artifacts, n);
      StageAllDelivers(fs, base, entry, init, artifactRoot);
      StageAllInvariant(base, entry, init, artifactRoot);
      ConfinedTrans(fs, base, s0.fs, entry);
      NextDestFree(s0.fs, entry, artifacts, artifactRoot);
      var fs1, dir := TurnParts(s0.fs, entry, artifacts[n], artifactRoot);
      StepDelivers(fs, s0.fs, fs1, s, entry, artifacts[n], artifactRoot, dir);
      CopyIntoFrame(fs1, artifacts[n], dest, s);
      StepFrame(s0.fs, fs1, s, dest, dir);
      DeliversStep(fs, s0.fs, s, entry, artifacts, artifactRoot);
    }
  }

  lemma OutsideEntryInit(entry: Path, artifacts: seq<Path>, n: nat)
    requires n <= |artifacts| && OutsideEntry(entry, artifacts)
    ensures OutsideEntry(entry, artifacts[..n])
  {
    assert forall i :: 0 <= i < n ==> artifacts[..n][i] == artifacts[i];
  }

  /** Files at or below the entry that stay put keep every artifact delivered. */
  lemma AllDeliveredKept(fs: Fs, s: Fs, u: Fs, entry: Path, artifacts: seq<Path>, artifactRoot: Option<Path>)
    requires AllDelivered(fs, s, entry, artifacts, artifactRoot)
    requires forall q :: entry <= q ==> FileUnchanged(s, u, q)
    ensures AllDelivered(fs, u, entry, artifacts, artifactRoot)
  {
    forall i | 0 <= i < |artifacts| ensures Delivered(fs, u, entry, artifacts[i], artifactRoot) {
      var a := artifacts[i];
      var own := Dest(entry, a, artifactRoot);
      forall p | p in fs.files && a <= p
        ensures Rebase(p, a, own) in u.files && u.files[Rebase(p, a, own)] == fs.files[p]
      {
        var q := Rebase(p, a, own);
        PrefixTrans(entry, own, q);
        assert FileUnchanged(s, u, q);
      }
    }
  }

  /** When no two artifacts' destinations overlap, a successful update puts
      every file of every artifact at its place inside the entry, with the
      contents it had before: a plain-file artifact at join(entry, rel), a
      directory artifact's files at the same places under join(entry, rel). */
  lemma UpdateDeliversArtifacts(fs: Fs, entry: Path, hash: string, artifacts: seq<Path>, artifactRoot: Option<Path>)
    requires Valid(fs) && WellFormed(entry) && entry != []
    requires forall i :: 0 <= i < |artifacts| ==> WellFormed(artifacts[i])
    requires OutsideEntry(entry, artifacts) && Independent(entry, artifacts, artifactRoot)
    ensures var u := UpdateOutcome(fs, entry, hash, artifacts, artifactRoot);
      u.failure.None? ==> AllDelivered(fs, u.fs, entry, artifacts, artifactRoot)
  {
    var base := RemoveTree(fs, entry);
    var u := UpdateOutcome(fs, entry, hash, artifacts, artifactRoot);
    if u.failure.None? {
      UpdateParts(fs, entry, hash, artifacts, artifactRoot);
      RemoveTreeValid(fs, entry);
      RemoveTreeConfined(fs, entry);
      var s := StageAll(base, entry, artifacts, artifactRoot).fs;
      StageAllDelivers(fs, base, entry, artifacts, artifactRoot);
      MarkerWriteBesideEntry(s, u.fs, entry, ToBytes(hash));
      AllDeliveredKept(fs, s, u.fs, entry, artifacts, artifactRoot);
    }
  }

  // ---------------------------------------------------------------------------
  // Names outside artifact_root
  // ---------------------------------------------------------------------------

  /** The loop stops at an artifact whose name starts with "..", if not earlier. */
  lemma StageAllRejects(base: Fs, entry: Path, artifacts: seq<Path>, artifactRoot: Option<Path>, i: nat)
    requires i < |artifacts| && StartsWithDotDot(ArtifactRelPath(artifacts[i], artifactRoot))
    ensures StageAll(base, entry, artifacts, artifactRoot).failure.Some?
  {
    StageAllStep(base, entry, artifacts, artifactRoot, i);
    StageAllFailurePersists(base, entry, artifacts, artifactRoot, i + 1);
  }

  /** An artifact outside artifact_root makes update raise, and the marker
      reads as it did before. */
  lemma UpdateRejectsOutsideRoot(fs: Fs, entry: Path, hash: string, artifacts: seq<Path>, artifactRoot: Option<Path>, i: nat)
    requires Valid(fs) && WellFormed(entry) && entry != []
    requires forall k :: 0 <= k < |artifacts| ==> WellFormed(artifacts[k])
    requires i < |artifacts| && artifactRoot.Some? && !(artifactRoot.value <= artifacts[i])
    ensures var u := UpdateOutcome(fs, entry, hash, artifacts, artifactRoot);
      u.failure.Some? && ReadFile(u.fs, MarkerPath(entry)) == ReadFile(fs, MarkerPath(entry))
  {
    StageAllRejects(RemoveTree(fs, entry), entry, artifacts, artifactRoot, i);
    UpdateOutcomeFacts(fs, entry, hash, artifacts, artifactRoot);
    FailedUpdateKeepsMarker(fs, UpdateOutcome(fs, entry, hash, artifacts, artifactRoot).fs, entry);
  }

  // ---------------------------------------------------------------------------
  // Doing it twice
  // ---------------------------------------------------------------------------

  /** c2 is c1 but for the file at the marker and some extra directories,
      all of them among extra. */
  ghost predicate Alike(c1: Fs, c2: Fs, entry: Path, extra: set<Path>) {
    && (forall p :: p != MarkerPath(entry) ==> FileUnchanged(c1, c2, p))
    && c1.dirs <= c2.dirs
    && c2.dirs - c1.dirs <= extra
  }

  /** Every path in extra is a proper ancestor of the entry. */
  predicate AboveEntry(extra: set<Path>, entry: Path) {
    forall p :: p in extra ==> p <= entry && p != entry
  }

  lemma BelowNotAbove(q: Path, entry: Path)
    requires entry <= q
    ensures !(q <= entry && q != entry)
  {
    if q <= entry { assert q == entry[..|q|]; }
  }

  /** At and below the entry, alike states look the same. */
  lemma AlikeBelowEntry(c1: Fs, c2: Fs, entry: Path, extra: set<Path>, q: Path)
    requires Alike(c1, c2, entry, extra) && AboveEntry(extra, entry)
    requires WellFormed(entry) && entry != [] && entry <= q
    ensures FileUnchanged(c1, c2, q) && (q in c1.dirs <==> q in c2.dirs)
    ensures Exists(c1, q) <==> Exists(c2, q)
    ensures BlockedByFile(c1, q) <==> BlockedByFile(c2, q)
  {
    var m := MarkerPath(entry);
    MarkerBesideEntry(entry);
    assert q != m by { assert q[..|entry|] == entry; }
    BelowNotAbove(q, entry);
    assert q in c2.dirs - c1.dirs ==> q in extra;
    forall k | 0 <= k < |q| ensures q[..k] in c1.files <==> q[..k] in c2.files {
      assert k != |entry| || q[..k] == entry;
      assert FileUnchanged(c1, c2, q[..k]);
    }
  }

  /** At and below an artifact apart from the entry and its marker, alike
      states look the same. */
  lemma AlikeAtArtifact(c1: Fs, c2: Fs, entry: Path, extra: set<Path>, a: Path)
    requires Alike(c1, c2, entry, extra) && AboveEntry(extra, entry)
    requires Apart(a, entry) && Apart(a, MarkerPath(entry))
    ensures forall p :: a <= p ==> FileUnchanged(c1, c2, p) && (p in c1.dirs <==> p in c2.dirs)
    ensures BlockedByFile(c1, a) <==> BlockedByFile(c2, a)
  {
    var m := MarkerPath(entry);
    forall p | a <= p ensures FileUnchanged(c1, c2, p) && (p in c1.dirs <==> p in c2.dirs) {
      assert p != m;
      if p in extra { PrefixTrans(a, p, entry); }
    }
    forall k | 0 <= k < |a| ensures a[..k] in c1.files <==> a[..k] in c2.files {
      assert a[..k] != m;
      assert FileUnchanged(c1, c2, a[..k]);
    }
  }

  lemma CopiedAlike(c1: Fs, c2: Fs, a: Path, dst: Path)
    requires forall p :: a <= p ==> FileUnchanged(c1, c2, p) && (p in c1.dirs <==> p in c2.dirs)
    ensures CopiedFiles(c1, a, dst) == CopiedFiles(c2, a, dst)
    ensures CopiedDirs(c1, a, dst) == CopiedDirs(c2, a, dst)
  {
    var m1, m2 := CopiedFiles(c1, a, dst), CopiedFiles(c2, a, dst);
    forall q | q in m1 ensures q in m2 && m2[q] == m1[q] {
      var p :| p in c1.files && a <= p && q == Rebase(p, a, dst);
      assert FileUnchanged(c1, c2, p);
    }
    forall q | q in m2 ensures q in m1 {
      var p :| p in c2.files && a <= p && q == Rebase(p, a, dst);
      assert FileUnchanged(c1, c2, p);
    }
    var d1, d2 := CopiedDirs(c1, a, dst), CopiedDirs(c2, a, dst);
    forall q | q in d1 ensures q in d2 {
      var p :| p in c1.dirs && a <= p && q == Rebase(p, a, dst);
    }
    forall q | q in d2 ensures q in d1 {
      var p :| p in c2.dirs && a <= p && q == Rebase(p, a, dst);
    }
  }

  /** copytree of an artifact from two alike states. */
  lemma CopyTreeAlike(f1: Fs, f2: Fs, entry: Path, extra: set<Path>, a: Path, dest: Path)
    requires Alike(f1, f2, entry, extra) && AboveEntry(extra, entry)
    requires WellFormed(entry) && entry != [] && entry <= dest
    requires Apart(a, entry) && Apart(a, MarkerPath(entry))
    requires CopyTree(f1, a, dest).Ok?
    ensures CopyTree(f2, a, dest).Ok? && Alike(CopyTree(f1, a, dest).value, CopyTree(f2, a, dest).value, entry, extra)
  {
    AlikeAtArtifact(f1, f2, entry, extra, a);
    AlikeBelowEntry(f1, f2, entry, extra, dest);
    CopiedAlike(f1, f2, a, dest);
    var r1, r2 := CopyTree(f1, a, dest).value, CopyTree(f2, a, dest).value;
    forall p | p != MarkerPath(entry) ensures FileUnchanged(r1, r2, p) {
      assert FileUnchanged(f1, f2, p);
    }
  }

  /** copy of an artifact from two alike states. */
  lemma CopyFileAlike(f1: Fs, f2: Fs, entry: Path, extra: set<Path>, a: Path, dest: Path)
    requires Alike(f1, f2, entry, extra) && AboveEntry(extra, entry)
    requires WellFormed(entry) && entry != [] && entry <= dest
    requires Apart(a, entry) && Apart(a, MarkerPath(entry))
    requires CopyFile(f1, a, dest).Ok?
    ensures CopyFile(f2, a, dest).Ok? && Alike(CopyFile(f1, a, dest).value, CopyFile(f2, a, dest).value, entry, extra)
  {
    AlikeAtArtifact(f1, f2, entry, extra, a);
    AlikeBelowEntry(f1, f2, entry, extra, dest);
    assert a <= a;
    var t := CopyTarget(f1, a, dest);
    assert t == CopyTarget(f2, a, dest);
    PrefixTrans(entry, dest, t);
    AlikeBelowEntry(f1, f2, entry, extra, t);
    assert a != t;
    assert ReadFile(f1, a) == ReadFile(f2, a);
    var data := f1.files[a];
    assert CopyFile(f1, a, dest) == WriteFile(f1, t, data);
    assert CopyFile(f2, a, dest) == WriteFile(f2, t, data);
    var r1, r2 := f1.(files := f1.files[t := data]), f2.(files := f2.files[t := data]);
    assert WriteFile(f2, t, data) == Ok(r2);
    forall p | p != MarkerPath(entry) ensures FileUnchanged(r1, r2, p) {
      assert FileUnchanged(f1, f2, p);
    }
  }

  /** A turn that succeeds on one of two alike states succeeds on the other,
      and leaves them alike. */
  lemma StepAlike(c1: Fs, c2: Fs, entry: Path, extra: set<Path>, a: Path, artifactRoot: Option<Path>)
    requires Alike(c1, c2, entry, extra) && AboveEntry(extra, entry)
    requires WellFormed(entry) && entry != []
    requires Apart(a, entry) && Apart(a, MarkerPath(entry))
    requires StageArtifact(c1, entry, a, artifactRoot).failure.None?
    ensures StageArtifact(c2, entry, a, artifactRoot).failure.None?
    ensures Alike(StageArtifact(c1, entry, a, artifactRoot).fs, StageArtifact(c2, entry, a, artifactRoot).fs, entry, extra)
  {
    var rel := ArtifactRelPath(a, artifactRoot);
    var dest := entry + rel;
    var dir := DestDir(entry, rel);
    AlikeBelowEntry(c1, c2, entry, extra, dir);
    var f1 := EnsureDir(c1, dir).value;
    var f2 := EnsureDir(c2, dir).value;
    assert f1.files == c1.files && f2.files == c2.files;
    forall p | p != MarkerPath(entry) ensures FileUnchanged(f1, f2, p) {
      assert FileUnchanged(c1, c2, p);
    }
    assert a in f1.dirs <==> a in f2.dirs by { AlikeAtArtifact(c1, c2, entry, extra, a); }
    if a in f1.dirs { CopyTreeAlike(f1, f2, entry, extra, a, dest); } else { CopyFileAlike(f1, f2, entry, extra, a, dest); }
  }

  lemma {:induction false} StageAllAlike(c1: Fs, c2: Fs, entry: Path, extra: set<Path>, artifacts: seq<Path>, artifactRoot: Option<Path>)
    requires Alike(c1, c2, entry, extra) && AboveEntry(extra, entry)
    requires WellFormed(entry) && entry != []
    requires forall i :: 0 <= i < |artifacts| ==> Apart(artifacts[i], entry) && Apart(artifacts[i], MarkerPath(entry))
    requires StageAll(c1, entry, artifacts, artifactRoot).failure.None?
    ensures StageAll(c2, entry, artifacts, artifactRoot).failure.None?
    ensures Alike(StageAll(c1, entry, artifacts, artifactRoot).fs, StageAll(c2, entry, artifacts, artifactRoot).fs, entry, extra)
    decreases |artifacts|
  {
    if artifacts != [] {
      var n := |artifacts| - 1;
      var init := artifacts[..n];
      assert StageAll(c1, entry, init, artifactRoot).failure.None?;
      StageAllAlike(c1, c2, entry, extra, init, artifactRoot);
      StepAlike(StageAll(c1, entry, init, artifactRoot).fs, StageAll(c2, entry, init, artifactRoot).fs, entry, extra, artifacts[n], artifactRoot);
    }
  }

  /** Before the second of two identical updates, the state with its entry
      removed is the first one's, but for the marker and some ancestors of
      the entry that the first update created. */
  lemma BasesAlike(fs: Fs, u: Fs, entry: Path)
    requires UpdateFrame(fs, u, entry, false)
    ensures var extra := set p | p in u.dirs && p <= entry && p != entry;
      Alike(RemoveTree(fs, entry), RemoveTree(u, entry), entry, extra) && AboveEntry(extra, entry)
  {
    var b1, b2 := RemoveTree(fs, entry), RemoveTree(u, entry);
    forall p | p != MarkerPath(entry) ensures FileUnchanged(b1, b2, p) {
      if !(entry <= p) { assert FileUnchanged(fs, u, p); }
    }
  }

  /** The marker write ending two alike loops gives one and the same state. */
  lemma FinalWriteAlike(s1: Fs, s2: Fs, entry: Path, extra: set<Path>, data: Bytes)
    requires Alike(s1, s2, entry, extra) && extra <= s1.dirs
    requires WriteFile(s1, MarkerPath(entry), data).Ok?
    ensures WriteFile(s2, MarkerPath(entry), data) == WriteFile(s1, MarkerPath(entry), data)
  {
    var m := MarkerPath(entry);
    assert s2.dirs == s1.dirs;
    forall k | 0 <= k < |m| ensures m[..k] in s1.files <==> m[..k] in s2.files {
      assert FileUnchanged(s1, s2, m[..k]);
    }
    var w1, w2 := s1.files[m := data], s2.files[m := data];
    forall p ensures (p in w1 <==> p in w2) && (p in w1 ==> w1[p] == w2[p]) {
      if p != m { assert FileUnchanged(s1, s2, p); }
    }
    assert w1 == w2;
  }

  /** update is idempotent: once it has succeeded, the same update again
      succeeds and leaves the file system exactly as it was. It needs the
      artifacts to lie outside the entry and apart from its marker. */
  lemma UpdateTwiceIsOnce(fs: Fs, entry: Path, hash: string, artifacts: seq<Path>, artifactRoot: Option<Path>)
    requires Valid(fs) && WellFormed(entry) && entry != []
    requires forall i :: 0 <= i < |artifacts| ==> WellFormed(artifacts[i])
    requires forall i :: 0 <= i < |artifacts| ==> Apart(artifacts[i], entry) && Apart(artifacts[i], MarkerPath(entry))
    ensures var u := UpdateOutcome(fs, entry, hash, artifacts, artifactRoot);
      u.failure.None? ==> UpdateOutcome(u.fs, entry, hash, artifacts, artifactRoot) == u
  {
    var u := UpdateOutcome(fs, entry, hash, artifacts, artifactRoot);
    if u.failure.None? {
      UpdateOutcomeFacts(fs, entry, hash, artifacts, artifactRoot);
      var m := MarkerPath(entry);
      MarkerBesideEntry(entry);
      var b1, b2 := RemoveTree(fs, entry), RemoveTree(u.fs, entry);
      var extra := set p | p in u.fs.dirs && p <= entry && p != entry;
      BasesAlike(fs, u.fs, entry);
      StageAllAlike(b1, b2, entry, extra, artifacts, artifactRoot);
      var s1 := StageAll(b1, entry, artifacts, artifactRoot).fs;
      var s2 := StageAll(b2, entry, artifacts, artifactRoot).fs;
      assert u.fs == WriteFile(s1, m, ToBytes(hash)).value;
      FinalWriteAlike(s1, s2, entry, extra, ToBytes(hash));
    }
  }

  // ---------------------------------------------------------------------------
  // Together
  // ---------------------------------------------------------------------------

  /** What update leaves in the entry, as the method update states it. */
  lemma UpdateContents(fs: Fs, entry: Path, hash: string, artifacts: seq<Path>, artifactRoot: Option<Path>)
    requires Valid(fs) && WellFormed(entry) && entry != []
    requires forall i :: 0 <= i < |artifacts| ==> WellFormed(artifacts[i])
    ensures var u := UpdateOutcome(fs, entry, hash, artifacts, artifactRoot);
      && (u.failure.None? && OutsideEntry(entry, artifacts) ==> OnlyCopies(fs, u.fs, entry, artifacts, artifactRoot))
      && (u.failure.None? && OutsideEntry(entry, artifacts) && Independent(entry, artifacts, artifactRoot) ==>
            AllDelivered(fs, u.fs, entry, artifacts, artifactRoot))
      && ((exists i :: 0 <= i < |artifacts| && artifactRoot.Some? && !(artifactRoot.value <= artifacts[i])) ==> u.failure.Some?)
  {
    if OutsideEntry(entry, artifacts) {
      UpdateLeavesOnlyCopies(fs, entry, hash, artifacts, artifactRoot);
      if Independent(entry, artifacts, artifactRoot) {
        UpdateDeliversArtifacts(fs, entry, hash, artifacts, artifactRoot);
      }
    }
    if i :| 0 <= i < |artifacts| && artifactRoot.Some? && !(artifactRoot.value <= artifacts[i]) {
      UpdateRejectsOutsideRoot(fs, entry, hash, artifacts, artifactRoot, i);
    }
  }
}
