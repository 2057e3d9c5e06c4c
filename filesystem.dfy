/** The file system the cache works on: a map from file paths to contents and
    a set of directories, with the library calls the cache makes (open, os.unlink,
    os.makedirs, shutil.copy, shutil.copytree, safe_rmtree) as functions from one
    state to the next. A call that fails returns the error it raises and leaves
    the state alone. */
module FileSystem {
  import opened Paths
  import opened Results

  newtype byte = x: int | 0 <= x < 256

  type Bytes = seq<byte>

  datatype Fs = Fs(files: map<Path, Bytes>, dirs: set<Path>)

  /** A tree: the root is a directory, every proper prefix of a file or a
      directory is a directory, nothing is both, all paths are normalised. */
  predicate Valid(fs: Fs) {
    && [] in fs.dirs
    && (forall p :: p in fs.files ==> p !in fs.dirs && WellFormed(p))
    && (forall p :: p in fs.dirs ==> WellFormed(p))
    && (forall p, k :: p in fs.files && 0 <= k < |p| ==> p[..k] in fs.dirs)
    && (forall p, k :: p in fs.dirs && 0 <= k < |p| ==> p[..k] in fs.dirs)
  }

  /** Some proper prefix of p is a plain file, so the system reports ENOTDIR. */
  predicate BlockedByFile(fs: Fs, p: Path) {
    exists k :: 0 <= k < |p| && p[..k] in fs.files
  }

  /** os.path.exists */
  predicate Exists(fs: Fs, p: Path) {
    p in fs.files || p in fs.dirs
  }

  /** Every prefix of d, d included: what os.makedirs(d) leaves behind. */
  function Prefixes(d: Path): (r: set<Path>)
    ensures forall k :: 0 <= k <= |d| ==> d[..k] in r
    ensures forall p :: p in r ==> p <= d
  {
    set k | 0 <= k <= |d| :: d[..k]
  }

  /** open(p, 'rb').read() */
  function ReadFile(fs: Fs, p: Path): (r: Result<Bytes>)
    ensures r.Ok? <==> p in fs.files && !BlockedByFile(fs, p) && p !in fs.dirs
    ensures r.Ok? ==> r.value == fs.files[p]
    ensures BlockedByFile(fs, p) ==> r == Err(NotADirectory(p))
    ensures !BlockedByFile(fs, p) && p in fs.dirs ==> r == Err(IsADirectory(p))
    ensures r.Err? && !BlockedByFile(fs, p) && !Exists(fs, p) ==> r.error == NotFound(p)
  {
    if BlockedByFile(fs, p) then Err(NotADirectory(p))
    else if p in fs.dirs then Err(IsADirectory(p))
    else if p in fs.files then Ok(fs.files[p])
    else Err(NotFound(p))
  }

  /** open(p, 'w').write(data): creates or truncates p inside an existing directory. */
  function WriteFile(fs: Fs, p: Path, data: Bytes): (r: Result<Fs>)
    ensures r.Ok? <==> !BlockedByFile(fs, p) && p !in fs.dirs && p != [] && Parent(p) in fs.dirs
    ensures r.Ok? ==> r.value == fs.(files := fs.files[p := data])
    ensures BlockedByFile(fs, p) ==> r == Err(NotADirectory(p))
    ensures !BlockedByFile(fs, p) && (p in fs.dirs || p == []) ==> r == Err(IsADirectory(p))
    ensures r.Err? && !BlockedByFile(fs, p) && p !in fs.dirs && p != [] ==> r == Err(NotFound(p))
  {
    if BlockedByFile(fs, p) then Err(NotADirectory(p))
    else if p in fs.dirs || p == [] then Err(IsADirectory(p))
    else if Parent(p) !in fs.dirs then Err(NotFound(p))
    else Ok(fs.(files := fs.files[p := data]))
  }

  /** os.unlink(p) */
  function Unlink(fs: Fs, p: Path): (r: Result<Fs>)
    ensures r.Ok? <==> p in fs.files && p !in fs.dirs
    ensures r.Ok? ==> r.value == fs.(files := fs.files - {p})
    ensures p in fs.dirs ==> r == Err(IsADirectory(p))
    ensures !Exists(fs, p) ==> r == Err(NotFound(p))
  {
    if p in fs.dirs then Err(IsADirectory(p))
    else if p in fs.files then Ok(fs.(files := fs.files - {p}))
    else Err(NotFound(p))
  }

  /** safe_rmtree(t): every file and directory at or below t is gone; a
      missing t is not an error. */
  function RemoveTree(fs: Fs, t: Path): (r: Fs)
    ensures forall p :: p in r.files <==> p in fs.files && !(t <= p)
    ensures forall p :: p in r.files ==> r.files[p] == fs.files[p]
    ensures forall p :: p in r.dirs <==> p in fs.dirs && !(t <= p)
  {
    Fs(map p | p in fs.files && !(t <= p) :: fs.files[p], set p | p in fs.dirs && !(t <= p))
  }

  /** os.makedirs(d): creates d and its missing ancestors; it raises EEXIST
      when d exists and ENOTDIR when a plain file is in the way. */
  function MakeDirs(fs: Fs, d: Path): (r: Result<Fs>)
    ensures r.Ok? <==> !BlockedByFile(fs, d) && !Exists(fs, d)
    ensures r.Ok? ==> r.value == fs.(dirs := fs.dirs + Prefixes(d))
    ensures BlockedByFile(fs, d) ==> r == Err(NotADirectory(d))
    ensures !BlockedByFile(fs, d) && Exists(fs, d) ==> r == Err(AlreadyExists(d))
  {
    if BlockedByFile(fs, d) then Err(NotADirectory(d))
    else if Exists(fs, d) then Err(AlreadyExists(d))
    else Ok(fs.(dirs := fs.dirs + Prefixes(d)))
  }

  /** The destination shutil.copy writes to: into dst, or into the directory dst
      under the source's base name. */
  function CopyTarget(fs: Fs, src: Path, dst: Path): Path {
    if dst in fs.dirs then dst + BaseName(src) else dst
  }

  /** shutil.copy(src, dst) of a plain file. */
  function CopyFile(fs: Fs, src: Path, dst: Path): (r: Result<Fs>)
    ensures r.Ok? ==> src in fs.files && r.value == fs.(files := fs.files[CopyTarget(fs, src, dst) := fs.files[src]])
  {
    var d := CopyTarget(fs, src, dst);
    if src == d && Exists(fs, src) then Err(SameFile(src))
    else
      match ReadFile(fs, src)
      case Err(e) => Err(e)
      case Ok(data) => WriteFile(fs, d, data)
  }

  /** The path that p, lying under src, has in a copy of src at dst. */
  function Rebase(p: Path, src: Path, dst: Path): Path
    requires src <= p
  {
    dst + p[|src|..]
  }

  lemma RebaseInjective(p: Path, q: Path, src: Path, dst: Path)
    requires src <= p && src <= q
    requires Rebase(p, src, dst) == Rebase(q, src, dst)
    ensures p == q
  {
    assert p[|src|..] == Rebase(p, src, dst)[|dst|..] == q[|src|..];
    assert p == src + p[|src|..] && q == src + q[|src|..];
  }

  /** The files under src, moved to dst. */
  function CopiedFiles(fs: Fs, src: Path, dst: Path): (m: map<Path, Bytes>)
    ensures forall p :: p in fs.files && src <= p ==> Rebase(p, src, dst) in m && m[Rebase(p, src, dst)] == fs.files[p]
    ensures forall q :: q in m ==> exists p :: p in fs.files && src <= p && q == Rebase(p, src, dst)
  {
    forall p, q | p in fs.files && src <= p && q in fs.files && src <= q && Rebase(p, src, dst) == Rebase(q, src, dst)
      ensures p == q
    {
      RebaseInjective(p, q, src, dst);
    }
    map p | p in fs.files && src <= p :: Rebase(p, src, dst) := fs.files[p]
  }

  /** The directories under src, moved to dst. */
  function CopiedDirs(fs: Fs, src: Path, dst: Path): (s: set<Path>)
    ensures forall p :: p in fs.dirs && src <= p ==> Rebase(p, src, dst) in s
    ensures forall q :: q in s ==> exists p :: p in fs.dirs && src <= p && q == Rebase(p, src, dst)
  {
    set p | p in fs.dirs && src <= p :: Rebase(p, src, dst)
  }

  /** shutil.copytree(src, dst) of a directory: dst must not exist yet; the
      tree under src is copied as it stood before the call. */
  function CopyTree(fs: Fs, src: Path, dst: Path): (r: Result<Fs>)
    ensures r.Ok? <==> !BlockedByFile(fs, dst) && !Exists(fs, dst)
    ensures r.Ok? ==> r.value == Fs(fs.files + CopiedFiles(fs, src, dst), fs.dirs + Prefixes(dst) + CopiedDirs(fs, src, dst))
  {
    if BlockedByFile(fs, dst) then Err(NotADirectory(dst))
    else if Exists(fs, dst) then Err(AlreadyExists(dst))
    else Ok(Fs(fs.files + CopiedFiles(fs, src, dst), fs.dirs + Prefixes(dst) + CopiedDirs(fs, src, dst)))
  }
}

module FileSystemFacts {
  import opened Paths
  import opened Results
  import opened FileSystem

  lemma RemoveTreeValid(fs: Fs, t: Path)
    requires Valid(fs) && t != []
    ensures Valid(RemoveTree(fs, t))
  {
    var r := RemoveTree(fs, t);
    assert [] in r.dirs;
    assert forall p, k :: p in r.files && 0 <= k < |p| ==> p[..k] in r.dirs;
    assert forall p, k :: p in r.dirs && 0 <= k < |p| ==> p[..k] in r.dirs;
  }

  lemma PrefixOfPrefix(d: Path, p: Path, k: nat)
    requires p <= d && k <= |p|
    ensures p[..k] == d[..k]
  {
  }

  /** A file at or above d blocks d or is d. */
  lemma PrefixFileBlocks(fs: Fs, d: Path, p: Path)
    requires p in fs.files
    ensures p <= d ==> BlockedByFile(fs, d) || Exists(fs, d)
  {
    if p <= d {
      if |p| < |d| { assert d[..|p|] == p; } else { assert p == d; }
    }
  }

  /** Whatever lies below dst makes dst exist. */
  lemma AncestorExists(fs: Fs, dst: Path, p: Path)
    requires Valid(fs) && (p in fs.files || p in fs.dirs)
    ensures dst <= p ==> Exists(fs, dst)
  {
    if dst <= p {
      if |dst| < |p| { assert p[..|dst|] == dst; } else { assert p == dst; }
    }
  }

  lemma MakeDirsValid(fs: Fs, d: Path)
    requires Valid(fs) && WellFormed(d) && MakeDirs(fs, d).Ok?
    ensures Valid(MakeDirs(fs, d).value)
  {
    var r := MakeDirs(fs, d).value;
    forall p | p in fs.files ensures p <= d ==> BlockedByFile(fs, d) || Exists(fs, d) {
      PrefixFileBlocks(fs, d, p);
    }
    forall p | p in r.dirs ensures WellFormed(p) {
      if p in Prefixes(d) {
        var k :| 0 <= k <= |d| && p == d[..k];
      }
    }
    forall p, k | p in r.dirs && 0 <= k < |p| ensures p[..k] in r.dirs {
      if p in Prefixes(d) {
        var j :| 0 <= j <= |d| && p == d[..j];
        assert p[..k] == d[..k];
      }
    }
  }

  lemma WriteFileValid(fs: Fs, p: Path, data: Bytes)
    requires Valid(fs) && WellFormed(p) && WriteFile(fs, p, data).Ok?
    ensures Valid(WriteFile(fs, p, data).value)
  {
    var r := WriteFile(fs, p, data).value;
    forall k | 0 <= k < |p| ensures p[..k] in r.dirs {
      assert Parent(p)[..k] == p[..k];
    }
  }

  lemma UnlinkValid(fs: Fs, p: Path)
    requires Valid(fs) && Unlink(fs, p).Ok?
    ensures Valid(Unlink(fs, p).value)
  {
  }

  lemma CopyFileValid(fs: Fs, src: Path, dst: Path)
    requires Valid(fs) && WellFormed(src) && WellFormed(dst) && CopyFile(fs, src, dst).Ok?
    ensures Valid(CopyFile(fs, src, dst).value)
  {
    var d := CopyTarget(fs, src, dst);
    var data := fs.files[src];
    assert CopyFile(fs, src, dst) == WriteFile(fs, d, data);
    WriteFileValid(fs, d, data);
  }

  /** Nothing lies at or below a path that does not exist. */
  lemma NothingBelowMissing(fs: Fs, dst: Path)
    requires Valid(fs) && !Exists(fs, dst)
    ensures forall p :: p in fs.files ==> !(dst <= p)
    ensures forall p :: p in fs.dirs ==> !(dst <= p)
  {
    forall p | p in fs.files || p in fs.dirs ensures dst <= p ==> Exists(fs, dst) {
      AncestorExists(fs, dst, p);
    }
  }

  lemma RebaseWellFormed(p: Path, src: Path, dst: Path)
    requires src <= p && WellFormed(p) && WellFormed(dst)
    ensures WellFormed(Rebase(p, src, dst))
  {
    var q := Rebase(p, src, dst);
    forall i | 0 <= i < |q| ensures ValidName(q[i]) {
      if i >= |dst| { assert q[i] == p[|src| + i - |dst|]; }
    }
  }

  /** A prefix of a rebased path is dst's prefix or a rebased prefix. */
  lemma RebasePrefix(p: Path, src: Path, dst: Path, k: nat)
    requires src <= p && |dst| < k < |dst| + |p| - |src|
    ensures src <= p[..|src| + k - |dst|]
    ensures Rebase(p, src, dst)[..k] == Rebase(p[..|src| + k - |dst|], src, dst)
  {
  }

  lemma CopyTreeClosed(fs: Fs, src: Path, dst: Path, q: Path, k: nat)
    requires Valid(fs) && dst != [] && Parent(dst) in fs.dirs
    requires CopyTree(fs, src, dst).Ok?
    requires q in CopiedFiles(fs, src, dst) || q in CopiedDirs(fs, src, dst) || q in Prefixes(dst)
    requires k < |q|
    ensures q[..k] in CopyTree(fs, src, dst).value.dirs
  {
    var r := CopyTree(fs, src, dst).value;
    var p: Path;
    if q in Prefixes(dst) {
      var j :| 0 <= j <= |dst| && q == dst[..j];
      assert q[..k] == dst[..k];
      return;
    } else if q in CopiedFiles(fs, src, dst) {
      p :| p in fs.files && src <= p && q == Rebase(p, src, dst);
    } else {
      p :| p in fs.dirs && src <= p && q == Rebase(p, src, dst);
    }
    if k <= |dst| {
      assert q[..k] == dst[..k];
    } else {
      RebasePrefix(p, src, dst, k);
      assert p[..|src| + k - |dst|] in fs.dirs;
    }
  }

  /** The prefixes of a path whose parent is a directory are directories, but for the path itself. */
  lemma PrefixesOfNewPath(fs: Fs, dst: Path)
    requires Valid(fs) && dst != [] && Parent(dst) in fs.dirs
    ensures forall q :: q in Prefixes(dst) ==> q == dst || q in fs.dirs
  {
    forall q | q in Prefixes(dst) ensures q == dst || q in fs.dirs {
      var k :| 0 <= k <= |dst| && q == dst[..k];
      if k < |dst| { assert q == Parent(dst)[..k]; }
    }
  }

  /** A copied file lies strictly below dst and is no copied directory. */
  lemma CopiedFileIsNew(fs: Fs, src: Path, dst: Path, p: Path)
    requires Valid(fs) && src in fs.dirs && p in fs.files && src <= p
    ensures |Rebase(p, src, dst)| > |dst| && dst <= Rebase(p, src, dst)
    ensures forall p' :: p' in fs.dirs && src <= p' ==> Rebase(p', src, dst) != Rebase(p, src, dst)
  {
    forall p' | p' in fs.dirs && src <= p' ensures Rebase(p', src, dst) != Rebase(p, src, dst) {
      if Rebase(p', src, dst) == Rebase(p, src, dst) { RebaseInjective(p', p, src, dst); }
    }
  }

  lemma CopyTreeDisjoint(fs: Fs, src: Path, dst: Path)
    requires Valid(fs) && src in fs.dirs && dst != [] && Parent(dst) in fs.dirs
    requires CopyTree(fs, src, dst).Ok?
    ensures forall q :: q in CopyTree(fs, src, dst).value.files ==> q !in CopyTree(fs, src, dst).value.dirs
  {
    var nf, nd := CopiedFiles(fs, src, dst), CopiedDirs(fs, src, dst);
    NothingBelowMissing(fs, dst);
    PrefixesOfNewPath(fs, dst);
    forall q | q in nf ensures q !in fs.dirs && q !in Prefixes(dst) && q !in nd {
      var p :| p in fs.files && src <= p && q == Rebase(p, src, dst);
      CopiedFileIsNew(fs, src, dst, p);
    }
    forall q | q in fs.files ensures q !in nd && q !in Prefixes(dst) {
      assert !(dst <= q);
    }
  }

  lemma CopyTreeWellFormed(fs: Fs, src: Path, dst: Path)
    requires Valid(fs) && WellFormed(dst) && CopyTree(fs, src, dst).Ok?
    ensures forall q :: q in CopyTree(fs, src, dst).value.files ==> WellFormed(q)
    ensures forall q :: q in CopyTree(fs, src, dst).value.dirs ==> WellFormed(q)
  {
    var r := CopyTree(fs, src, dst).value;
    var nf, nd := CopiedFiles(fs, src, dst), CopiedDirs(fs, src, dst);
    forall q | q in nf ensures WellFormed(q) {
      var p :| p in fs.files && src <= p && q == Rebase(p, src, dst);
      RebaseWellFormed(p, src, dst);
    }
    forall q | q in nd ensures WellFormed(q) {
      var p :| p in fs.dirs && src <= p && q == Rebase(p, src, dst);
      RebaseWellFormed(p, src, dst);
    }
    forall q | q in Prefixes(dst) ensures WellFormed(q) {
      var k :| 0 <= k <= |dst| && q == dst[..k];
    }
  }

  lemma CopyTreeValid(fs: Fs, src: Path, dst: Path)
    requires Valid(fs) && src in fs.dirs && WellFormed(dst) && dst != [] && Parent(dst) in fs.dirs
    requires CopyTree(fs, src, dst).Ok?
    ensures Valid(CopyTree(fs, src, dst).value)
  {
    var r := CopyTree(fs, src, dst).value;
    CopyTreeDisjoint(fs, src, dst);
    CopyTreeWellFormed(fs, src, dst);
    forall q, k | q in r.files && 0 <= k < |q| ensures q[..k] in r.dirs {
      if q in CopiedFiles(fs, src, dst) { CopyTreeClosed(fs, src, dst, q, k); }
    }
    forall q, k | q in r.dirs && 0 <= k < |q| ensures q[..k] in r.dirs {
      if q !in fs.dirs { CopyTreeClosed(fs, src, dst, q, k); }
    }
  }
}
