/** What the walk and the fingerprint stream guarantee. */
module FingerprintFacts {
  import opened Paths
  import opened PathSort
  import opened FileSystem
  import opened Results
  import opened Fingerprint

  /** The listing names every file of a directory exactly once. */
  ghost predicate ListingExact(fs: Fs, listing: Listing) {
    && (forall f :: f in fs.files && f != [] ==> f[|f| - 1] in listing(Parent(f)))
    && (forall d :: NoDuplicateNames(listing(d)))
  }

  predicate NoDuplicateNames(names: seq<string>) {
    forall i, j :: 0 <= i < j < |names| ==> names[i] != names[j]
  }

  /** FilesIn filters in listing order: the names of a concatenation are the
      names of each part, one after the other, and a single name is kept
      exactly when it is a file of the directory. */
  lemma {:induction false} FilesInKeepsOrder(fs: Fs, d: Path, a: seq<string>, b: seq<string>)
    ensures FilesIn(fs, d, a + b) == FilesIn(fs, d, a) + FilesIn(fs, d, b)
    ensures |b| == 1 ==> FilesIn(fs, d, b) == (if d + b in fs.files then b else [])
    decreases |b|
  {
    if b == [] {
      assert a + b == a;
    } else {
      var n := b[|b| - 1];
      var b' := b[..|b| - 1];
      assert (a + b)[..|a + b| - 1] == a + b';
      assert (a + b)[|a + b| - 1] == n;
      FilesInKeepsOrder(fs, d, a, b');
      if |b| == 1 {
        assert b' == [] && b == [n] && d + b == d + [n];
      }
    }
  }

  lemma {:induction false} FilesInNoDuplicates(fs: Fs, d: Path, names: seq<string>)
    requires NoDuplicateNames(names)
    ensures NoDuplicateNames(FilesIn(fs, d, names))
  {
    if names != [] {
      var init := names[..|names| - 1];
      var n := names[|names| - 1];
      FilesInNoDuplicates(fs, d, init);
      assert n !in init;
    }
  }

  /** The absolute paths of a walk. */
  function AbsPaths(entries: seq<Entry>): (r: seq<Path>)
    ensures |r| == |entries| && forall i :: 0 <= i < |r| ==> r[i] == entries[i].abs
  {
    seq(|entries|, i requires 0 <= i < |entries| => entries[i].abs)
  }

  /** The pairs of one directory's files are files directly in it, named
      relative to root. */
  lemma DirEntriesSound(fs: Fs, root: Path, d: Path, names: seq<string>)
    requires root <= d
    requires forall n :: n in names ==> d + [n] in fs.files
    ensures var b := DirEntries(root, d, names);
      forall i :: 0 <= i < |b| ==> b[i].abs in fs.files && b[i].abs != [] && Parent(b[i].abs) == d
                                   && root + b[i].rel == b[i].abs
  {
    var b := DirEntries(root, d, names);
    forall i | 0 <= i < |b| ensures b[i].abs in fs.files && b[i].abs != [] && Parent(b[i].abs) == d
                                 && root + b[i].rel == b[i].abs {
      assert names[i] in names;
      assert Parent(d + [names[i]]) == d;
      assert root + (d[|root|..] + [names[i]]) == d + [names[i]];
    }
  }

  /** Walking the directories ds (below root) yields only files whose parent
      is among ds, each named relative to root. */
  lemma {:induction false} DirsEntriesSound(fs: Fs, listing: Listing, root: Path, ds: seq<Path>)
    requires forall i :: 0 <= i < |ds| ==> root <= ds[i]
    ensures forall e :: e in DirsEntries(fs, listing, root, ds) ==>
      e.abs in fs.files && e.abs != [] && Parent(e.abs) in ds && root + e.rel == e.abs
  {
    if ds != [] {
      var init, d := ds[..|ds| - 1], ds[|ds| - 1];
      DirsEntriesSound(fs, listing, root, init);
      var names := FilesIn(fs, d, listing(d));
      DirEntriesSound(fs, root, d, names);
      var w0 := DirsEntries(fs, listing, root, init);
      var b := DirEntries(root, d, names);
      var w := DirsEntries(fs, listing, root, ds);
      assert w == w0 + b;
      forall e | e in w ensures e.abs in fs.files && e.abs != [] && Parent(e.abs) in ds && root + e.rel == e.abs {
        if e in w0 {
          assert Parent(e.abs) in init;
        } else {
          assert e in b;
        }
      }
    }
  }

  /** ... and every file whose parent is among ds and lists it. */
  lemma {:induction false} DirsEntriesComplete(fs: Fs, listing: Listing, root: Path, ds: seq<Path>, f: Path)
    requires forall i :: 0 <= i < |ds| ==> root <= ds[i]
    requires f in fs.files && f != [] && Parent(f) in ds && f[|f| - 1] in listing(Parent(f))
    ensures f in AbsPaths(DirsEntries(fs, listing, root, ds))
  {
    var init, d := ds[..|ds| - 1], ds[|ds| - 1];
    var w0 := DirsEntries(fs, listing, root, init);
    var names := FilesIn(fs, d, listing(d));
    var w := DirsEntries(fs, listing, root, ds);
    assert w == w0 + DirEntries(root, d, names);
    if Parent(f) == d {
      var n := f[|f| - 1];
      assert f == d + [n];
      assert n in names;
      var k :| 0 <= k < |names| && names[k] == n;
      assert w[|w0| + k].abs == f;
    } else {
      assert Parent(f) in init;
      DirsEntriesComplete(fs, listing, root, init, f);
      var k :| 0 <= k < |w0| && w0[k].abs == f;
      assert w[k].abs == f;
    }
  }

  /** ... and none twice. */
  lemma {:induction false} DirsEntriesNoDuplicates(fs: Fs, listing: Listing, root: Path, ds: seq<Path>)
    requires forall i :: 0 <= i < |ds| ==> root <= ds[i]
    requires NoDuplicates(ds)
    requires forall d :: NoDuplicateNames(listing(d))
    ensures NoDuplicates(AbsPaths(DirsEntries(fs, listing, root, ds)))
  {
    if ds != [] {
      var init, d := ds[..|ds| - 1], ds[|ds| - 1];
      DirsEntriesNoDuplicates(fs, listing, root, init);
      DirsEntriesSound(fs, listing, root, init);
      var w0 := DirsEntries(fs, listing, root, init);
      var names := FilesIn(fs, d, listing(d));
      FilesInNoDuplicates(fs, d, listing(d));
      var w := DirsEntries(fs, listing, root, ds);
      assert w == w0 + DirEntries(root, d, names);
      assert d !in init;
      forall i, j | 0 <= i < j < |w| ensures w[i].abs != w[j].abs {
        if i >= |w0| {
          assert names[i - |w0|] != names[j - |w0|];
          assert w[i].abs[|d|] == names[i - |w0|];
          assert w[j].abs[|d|] == names[j - |w0|];
        } else if j >= |w0| {
          assert w[i] == w0[i] && w0[i] in w0;
          assert w[j].abs == d + [names[j - |w0|]];
        } else {
          assert w[i] == w0[i] && w[j] == w0[j];
        }
      }
    }
  }

  /** use_cached_files of an entry directory: every file below it is handed
      over exactly once, named relative to the entry. */
  lemma WalkOfDirectory(fs: Fs, listing: Listing, p: Path)
    requires Valid(fs) && ListingExact(fs, listing) && p in fs.dirs
    ensures forall e :: e in WalkOne(fs, listing, p) ==> e.abs in fs.files && p <= e.abs && p + e.rel == e.abs
    ensures forall f :: f in fs.files && p <= f ==> f in AbsPaths(WalkOne(fs, listing, p))
    ensures NoDuplicates(AbsPaths(WalkOne(fs, listing, p)))
  {
    var ds := WalkedDirs(fs, p);
    assert WalkOne(fs, listing, p) == DirsEntries(fs, listing, p, ds);
    DirsEntriesSound(fs, listing, p, ds);
    DirsEntriesNoDuplicates(fs, listing, p, ds);
    forall f | f in fs.files && p <= f ensures f in AbsPaths(WalkOne(fs, listing, p)) {
      FileBelowDirectory(fs, listing, p, f);
      DirsEntriesComplete(fs, listing, p, ds, f);
    }
  }

  lemma FileBelowDirectory(fs: Fs, listing: Listing, p: Path, f: Path)
    requires Valid(fs) && ListingExact(fs, listing) && p in fs.dirs && f in fs.files && p <= f
    ensures f != [] && Parent(f) in DirsUnder(fs, p) && f[|f| - 1] in listing(Parent(f))
  {
    assert f != p;
    assert f[..|f| - 1] in fs.dirs;
  }

  /** Walking one path is walking that path. */
  lemma WalkSingleton(fs: Fs, listing: Listing, p: Path)
    requires DirsWellFormed(fs)
    ensures Walk(fs, listing, [p]) == WalkOne(fs, listing, p)
  {
    assert [p][1..] == [] && [p][..0] == [];
    assert SortPaths([p]) == [p];
    assert WalkList(fs, listing, [p]) == WalkList(fs, listing, []) + WalkOne(fs, listing, p);
  }

  /** A path that is not a directory is yielded once, under its base name. */
  lemma WalkOfNonDirectory(fs: Fs, listing: Listing, p: Path)
    requires DirsWellFormed(fs) && p !in fs.dirs
    ensures Walk(fs, listing, [p]) == [Entry(BaseName(p), p)]
  {
    assert [p][1..] == [] && [p][..0] == [];
    assert SortPaths([p]) == [p];
    assert WalkList(fs, listing, [p]) == WalkList(fs, listing, []) + WalkOne(fs, listing, p);
  }

  /** Permuting the paths changes neither the walk nor the bytes fed to SHA-1. */
  lemma WalkPermutationInvariant(fs: Fs, listing: Listing, ps: seq<Path>, qs: seq<Path>)
    requires DirsWellFormed(fs) && AllWellFormed(ps) && multiset(ps) == multiset(qs)
    ensures Walk(fs, listing, ps) == Walk(fs, listing, qs)
    ensures SourcesFed(fs, listing, ps) == SourcesFed(fs, listing, qs)
  {
    SortPathsPermutationInvariant(ps, qs);
  }

  /** The stream of a walk of plain files: name then contents, file by file. */
  function FileChunks(fs: Fs, ps: seq<Path>): seq<Bytes>
    requires forall i :: 0 <= i < |ps| ==> ps[i] in fs.files
  {
    if ps == [] then []
    else FileChunks(fs, ps[..|ps| - 1]) + [ToBytes(JoinNames(BaseName(ps[|ps| - 1]))), fs.files[ps[|ps| - 1]]]
  }

  /** Plain files, given in any order, contribute in sorted order their base
      name followed by their whole contents. */
  lemma {:induction false} ChunksOfFiles(fs: Fs, listing: Listing, ps: seq<Path>)
    requires Valid(fs) && forall i :: 0 <= i < |ps| ==> ps[i] in fs.files
    ensures Chunks(fs, WalkList(fs, listing, ps)) == Ok(FileChunks(fs, ps))
  {
    if ps != [] {
      var init, p := ps[..|ps| - 1], ps[|ps| - 1];
      ChunksOfFiles(fs, listing, init);
      var w0 := WalkList(fs, listing, init);
      assert WalkOne(fs, listing, p) == [Entry(BaseName(p), p)];
      var w := w0 + [Entry(BaseName(p), p)];
      assert w[..|w| - 1] == w0;
      assert !BlockedByFile(fs, p) by {
        forall k | 0 <= k < |p| ensures p[..k] !in fs.files { assert p[..k] in fs.dirs; }
      }
    }
  }

  lemma SourcesOfFiles(fs: Fs, listing: Listing, ps: seq<Path>)
    requires Valid(fs) && forall i :: 0 <= i < |ps| ==> ps[i] in fs.files
    ensures var sorted := SortPaths(ps);
      && (forall i :: 0 <= i < |sorted| ==> sorted[i] in fs.files)
      && SourcesFed(fs, listing, ps) == Ok(Flatten(FileChunks(fs, sorted)))
  {
    var sorted := SortPaths(ps);
    forall i | 0 <= i < |sorted| ensures sorted[i] in fs.files {
      assert sorted[i] in multiset(ps);
    }
    ChunksOfFiles(fs, listing, sorted);
  }

  lemma {:induction false} FlattenAppend(a: seq<Bytes>, b: seq<Bytes>)
    ensures Flatten(a + b) == Flatten(a) + Flatten(b)
    decreases |b|
  {
    if b == [] {
      assert a + b == a;
    } else {
      var init, last := b[..|b| - 1], b[|b| - 1];
      assert (a + b)[..|a + b| - 1] == a + init;
      assert (a + b)[|a + b| - 1] == last;
      FlattenAppend(a, init);
      assert Flatten(a + b) == (Flatten(a) + Flatten(init)) + last;
      assert Flatten(b) == Flatten(init) + last;
    }
  }

  /** One directory s holding one file a. */
  function OneFileTree(s: string, a: string, data: Bytes): Fs {
    Fs(map[[s, a] := data], {[], [s]})
  }

  lemma OneFileTreeValid(s: string, a: string, data: Bytes)
    requires ValidName(s) && ValidName(a)
    ensures Valid(OneFileTree(s, a, data))
  {
    var fs := OneFileTree(s, a, data);
    forall p, k | p in fs.files && 0 <= k < |p| ensures p[..k] in fs.dirs {
      assert p == [s, a];
      assert [s, a][..0] == [] && [s, a][..1] == [s];
    }
    forall p, k | p in fs.dirs && 0 <= k < |p| ensures p[..k] in fs.dirs {
      assert p == [s];
      assert [s][..0] == [];
    }
  }

  lemma SortSingleton(p: Path)
    ensures SortPaths([p]) == [p]
  {
    assert [p][1..] == [];
  }

  lemma FileChunksSingleton(fs: Fs, p: Path)
    requires p in fs.files
    ensures FileChunks(fs, [p]) == [ToBytes(JoinNames(BaseName(p))), fs.files[p]]
  {
    assert [p][..0] == [];
  }

  lemma FlattenPair(a: Bytes, b: Bytes)
    ensures Flatten([a, b]) == a + b
  {
    assert [a, b][..1] == [a] && [a][..0] == [];
    assert Flatten([a]) == Flatten([]) + a;
    assert Flatten([a, b]) == Flatten([a]) + b;
  }

  /** A single readable file feeds its base name, then its contents. */
  lemma SingleFileFed(fs: Fs, listing: Listing, p: Path)
    requires DirsWellFormed(fs) && p != [] && ReadFile(fs, p).Ok?
    ensures SourcesFed(fs, listing, [p]) == Ok(ToBytes(p[|p| - 1]) + fs.files[p])
  {
    WalkOfNonDirectory(fs, listing, p);
    var es := [Entry([p[|p| - 1]], p)];
    assert es[..0] == [];
    assert Chunks(fs, es[..0]) == Ok([]);
    assert JoinNames([p[|p| - 1]]) == p[|p| - 1];
    assert ReadFile(fs, es[0].abs) == Ok(fs.files[p]);
    var pair := [ToBytes(JoinNames(es[0].rel)), fs.files[p]];
    assert [] + pair == pair;
    assert Chunks(fs, es) == Ok(pair);
    assert Chunks(fs, es) == Ok([ToBytes(p[|p| - 1]), fs.files[p]]);
    FlattenPair(ToBytes(p[|p| - 1]), fs.files[p]);
  }

  lemma {:induction false} ToBytesAppend(a: string, x: string)
    ensures ToBytes(a + x) == ToBytes(a) + ToBytes(x)
    decreases |x|
  {
    if x == [] {
      assert a + x == a;
    } else {
      var init := x[..|x| - 1];
      assert (a + x)[..|a + x| - 1] == a + init;
      assert (a + x)[|a + x| - 1] == x[|x| - 1];
      ToBytesAppend(a, init);
    }
  }

  /** The stream has no separators between a name and the contents that
      follow it: a file a holding the encoding of x followed by c, and a file
      a + x holding c, feed SHA-1 the same bytes, so their keys carry the
      same digest (for instance "a" holding "bc" and "ab" holding "c"). */
  lemma NameContentBoundaryIsAmbiguous(listing: Listing, fs1: Fs, p1: Path, fs2: Fs, p2: Path, x: string, c: Bytes)
    requires DirsWellFormed(fs1) && DirsWellFormed(fs2) && p1 != [] && p2 != []
    requires ReadFile(fs1, p1).Ok? && ReadFile(fs2, p2).Ok?
    requires p2[|p2| - 1] == p1[|p1| - 1] + x
    requires fs1.files[p1] == ToBytes(x) + c && fs2.files[p2] == c
    ensures SourcesFed(fs1, listing, [p1]).Ok?
    ensures SourcesFed(fs1, listing, [p1]) == SourcesFed(fs2, listing, [p2])
  {
    var n1, n2 := p1[|p1| - 1], p2[|p2| - 1];
    SingleFileFed(fs1, listing, p1);
    SingleFileFed(fs2, listing, p2);
    SameStream(n1, x, c);
  }

  /** A name followed by the encoding of x and c is the name extended by x, followed by c. */
  lemma SameStream(n: string, x: string, c: Bytes)
    ensures ToBytes(n) + (ToBytes(x) + c) == ToBytes(n + x) + c
  {
    ToBytesAppend(n, x);
  }

  /** Two such trees exist, with different files. */
  lemma AmbiguousTreesExist(s: string, a: string, x: string, c: Bytes)
    requires ValidName(s) && ValidName(a) && ValidName(a + x) && x != []
    ensures var fs1 := OneFileTree(s, a, ToBytes(x) + c);
            var fs2 := OneFileTree(s, a + x, c);
      && Valid(fs1) && Valid(fs2) && fs1.files.Keys != fs2.files.Keys
      && [s, a] in fs1.files && fs1.files[[s, a]] == ToBytes(x) + c
      && [s, a + x] in fs2.files && fs2.files[[s, a + x]] == c
  {
    OneFileTreeValid(s, a, ToBytes(x) + c);
    OneFileTreeValid(s, a + x, c);
    assert |a| < |a + x|;
    assert [s, a] !in OneFileTree(s, a + x, c).files;
  }

  /** Once a file cannot be read, the rest of the walk does not matter. */
  lemma {:induction false} ChunksErrorPersists(fs: Fs, s: seq<Entry>, t: seq<Entry>)
    requires Chunks(fs, s).Err?
    ensures Chunks(fs, s + t) == Chunks(fs, s)
    decreases |t|
  {
    if t == [] {
      assert s + t == s;
    } else {
      assert (s + t)[..|s + t| - 1] == s + t[..|t| - 1];
      ChunksErrorPersists(fs, s, t[..|t| - 1]);
    }
  }

  /** One more readable entry: its encoded name and contents are appended. */
  lemma ChunksOkStep(fs: Fs, es: seq<Entry>, i: nat, c: seq<Bytes>)
    requires i < |es| && Chunks(fs, es[..i]) == Ok(c) && ReadFile(fs, es[i].abs).Ok?
    ensures Chunks(fs, es[..i + 1]) == Ok(c + [ToBytes(JoinNames(es[i].rel)), ReadFile(fs, es[i].abs).value])
  {
    assert es[..i + 1][..i] == es[..i];
  }

  /** An unreadable entry makes the whole walk fail with its error. */
  lemma ChunksErrStep(fs: Fs, es: seq<Entry>, i: nat, c: seq<Bytes>)
    requires i < |es| && Chunks(fs, es[..i]) == Ok(c) && ReadFile(fs, es[i].abs).Err?
    ensures Chunks(fs, es) == Err(ReadFile(fs, es[i].abs).error)
  {
    assert es[..i + 1][..i] == es[..i];
    ChunksErrorPersists(fs, es[..i + 1], es[i + 1..]);
    assert es[..i + 1] + es[i + 1..] == es;
  }

  lemma FlattenPairAppend(c: seq<Bytes>, a: Bytes, b: Bytes)
    ensures Flatten(c + [a, b]) == Flatten(c) + a + b
  {
    FlattenAppend(c, [a, b]);
    FlattenPair(a, b);
  }

  /** Names of ASCII characters encode one byte per character. */
  lemma {:induction false} ToBytesAscii(s: string)
    requires forall i :: 0 <= i < |s| ==> (s[i] as int) < 0x80
    ensures |ToBytes(s)| == |s|
    ensures forall i :: 0 <= i < |s| ==> ToBytes(s)[i] == s[i] as int as byte
    decreases |s|
  {
    if s != [] {
      ToBytesAscii(s[..|s| - 1]);
    }
  }

  /** strip() leaves alone a string with no whitespace at either end. */
  lemma StripUntrimmed(s: Bytes)
    requires s == [] || (!IsSpace(s[0]) && !IsSpace(s[|s| - 1]))
    ensures Strip(s) == s
  {
  }

  lemma WalkListStep(fs: Fs, listing: Listing, ps: seq<Path>, i: nat)
    requires DirsWellFormed(fs) && i < |ps|
    ensures WalkList(fs, listing, ps[..i + 1]) == WalkList(fs, listing, ps[..i]) + WalkOne(fs, listing, ps[i])
  {
    assert ps[..i + 1][..i] == ps[..i];
  }

  lemma DirsEntriesStep(fs: Fs, listing: Listing, root: Path, ds: seq<Path>, j: nat)
    requires j < |ds| && forall k :: 0 <= k < |ds| ==> root <= ds[k]
    ensures DirsEntries(fs, listing, root, ds[..j + 1]) ==
      DirsEntries(fs, listing, root, ds[..j]) + DirEntries(root, ds[j], FilesIn(fs, ds[j], listing(ds[j])))
  {
    assert ds[..j + 1][..j] == ds[..j];
  }

  lemma DirEntriesStep(root: Path, d: Path, names: seq<string>, k: nat)
    requires root <= d && k < |names|
    ensures DirEntries(root, d, names[..k + 1]) ==
      DirEntries(root, d, names[..k]) + [Entry(RelPath(d + [names[k]], root), d + [names[k]])]
  {
    RelPathOfDescendant(d + [names[k]], root);
    assert (d + [names[k]])[|root|..] == d[|root|..] + [names[k]];
  }
}

