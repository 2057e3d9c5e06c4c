/** What BuildCache._walk_paths yields and the exact bytes BuildCache._sources_hash
    feeds to SHA-1. SHA-1 is streaming: a sequence of update() calls hashes the
    concatenation of their arguments, so the digest is a function of that
    concatenation. */
module Fingerprint {
  import opened Paths
  import opened PathSort
  import opened FileSystem
  import opened Results

  /** os.listdir: the names in a directory in the order the system lists them. */
  type Listing = Path -> seq<string>

  /** One pair yielded by _walk_paths: the name relative to the walked path, and
      the absolute path of the file. */
  datatype Entry = Entry(rel: Path, abs: Path)

  predicate DirsWellFormed(fs: Fs) {
    forall d :: d in fs.dirs ==> WellFormed(d)
  }

  /** The directories os.walk(p) visits: p and every directory below it. */
  function DirsUnder(fs: Fs, p: Path): (r: set<Path>)
    ensures forall d :: d in r <==> d in fs.dirs && p <= d
  {
    set d | d in fs.dirs && p <= d
  }

  /** The filenames os.walk reports for directory d: the listed names that
      are files, in listing order. */
  function FilesIn(fs: Fs, d: Path, names: seq<string>): (r: seq<string>)
    ensures forall n :: n in r <==> n in names && d + [n] in fs.files
  {
    if names == [] then []
    else
      var n := names[|names| - 1];
      assert names == names[..|names| - 1] + [n];
      FilesIn(fs, d, names[..|names| - 1]) + (if d + [n] in fs.files then [n] else [])
  }

  /** The pairs yielded for the files of one directory d met while walking
      root: join(d, name), relative to root. */
  function DirEntries(root: Path, d: Path, names: seq<string>): (r: seq<Entry>)
    requires root <= d
    ensures |r| == |names|
    ensures forall i :: 0 <= i < |r| ==> r[i] == Entry(d[|root|..] + [names[i]], d + [names[i]])
  {
    seq(|names|, i requires 0 <= i < |names| => Entry(d[|root|..] + [names[i]], d + [names[i]]))
  }

  /** The pairs for a sequence of directories, in that order. */
  function DirsEntries(fs: Fs, listing: Listing, root: Path, ds: seq<Path>): seq<Entry>
    requires forall i :: 0 <= i < |ds| ==> root <= ds[i]
  {
    if ds == [] then []
    else
      var d := ds[|ds| - 1];
      DirsEntries(fs, listing, root, ds[..|ds| - 1]) + DirEntries(root, d, FilesIn(fs, d, listing(d)))
  }

  /** The directories of sorted(os.walk(p)): p and every directory below it,
      in sorted order. */
  function WalkedDirs(fs: Fs, p: Path): (ds: seq<Path>)
    requires DirsWellFormed(fs)
    ensures Sorted(ds) && NoDuplicates(ds)
    ensures forall d :: d in ds <==> d in fs.dirs && p <= d
    ensures forall i :: 0 <= i < |ds| ==> p <= ds[i]
  {
    var ds := SortSet(DirsUnder(fs, p));
    assert forall i :: 0 <= i < |ds| ==> ds[i] in DirsUnder(fs, p);
    ds
  }

  /** What one path contributes: a directory gives its files, directory by
      directory in sorted order, each named relative to the path; anything
      else gives itself under its base name. */
  function WalkOne(fs: Fs, listing: Listing, p: Path): seq<Entry>
    requires DirsWellFormed(fs)
  {
    if p in fs.dirs then
      DirsEntries(fs, listing, p, WalkedDirs(fs, p))
    else [Entry(BaseName(p), p)]
  }

  /** The pairs for a sequence of paths, in that order. */
  function WalkList(fs: Fs, listing: Listing, ps: seq<Path>): seq<Entry>
    requires DirsWellFormed(fs)
  {
    if ps == [] then []
    else WalkList(fs, listing, ps[..|ps| - 1]) + WalkOne(fs, listing, ps[|ps| - 1])
  }

  /** _walk_paths(paths): the paths are walked in sorted order. */
  function Walk(fs: Fs, listing: Listing, paths: seq<Path>): seq<Entry>
    requires DirsWellFormed(fs)
  {
    WalkList(fs, listing, SortPaths(paths))
  }

  // ---------------------------------------------------------------------------
  // Encoding of names, whitespace
  // ---------------------------------------------------------------------------

  /** Compatibility.to_bytes: the UTF-8 encoding of a name. */
  function EncodeChar(c: char): (r: Bytes)
    ensures 1 <= |r| <= 4
    ensures (c as int) < 0x80 ==> r == [c as int as byte]
  {
    var n := c as int;
    if n < 0x80 then [n as byte]
    else if n < 0x800 then [(0xC0 + n / 0x40) as byte, (0x80 + n % 0x40) as byte]
    else if n < 0x10000 then
      [(0xE0 + n / 0x1000) as byte, (0x80 + n / 0x40 % 0x40) as byte, (0x80 + n % 0x40) as byte]
    else
      [(0xF0 + n / 0x40000) as byte, (0x80 + n / 0x1000 % 0x40) as byte,
       (0x80 + n / 0x40 % 0x40) as byte, (0x80 + n % 0x40) as byte]
  }

  function ToBytes(s: string): Bytes {
    if s == [] then [] else ToBytes(s[..|s| - 1]) + EncodeChar(s[|s| - 1])
  }

  /** The characters str.strip() removes: space, \t, \n, \v, \f, \r. */
  predicate IsSpace(b: byte) {
    b == 32 || (9 <= b <= 13)
  }

  function StripLeft(s: Bytes): (r: Bytes)
    ensures |r| <= |s| && r == s[|s| - |r|..]
  {
    if s != [] && IsSpace(s[0]) then StripLeft(s[1..]) else s
  }

  function StripRight(s: Bytes): (r: Bytes)
    ensures r <= s
  {
    if s != [] && IsSpace(s[|s| - 1]) then StripRight(s[..|s| - 1]) else s
  }

  /** bytes.strip() */
  function Strip(s: Bytes): Bytes {
    StripRight(StripLeft(s))
  }

  // ---------------------------------------------------------------------------
  // The stream fed to SHA-1
  // ---------------------------------------------------------------------------

  /** For each pair, the encoded relative name and then the file's contents;
      the first file that cannot be opened aborts with its error. */
  function Chunks(fs: Fs, entries: seq<Entry>): (r: Result<seq<Bytes>>)
    ensures r.Ok? ==> |r.value| == 2 * |entries|
    ensures r.Err? ==> r.error.NotFound? || r.error.NotADirectory? || r.error.IsADirectory?
  {
    if entries == [] then Ok([])
    else
      var e := entries[|entries| - 1];
      match Chunks(fs, entries[..|entries| - 1])
      case Err(err) => Err(err)
      case Ok(c) =>
        match ReadFile(fs, e.abs)
        case Err(err) => Err(err)
        case Ok(data) => Ok(c + [ToBytes(JoinNames(e.rel)), data])
  }

  /** The concatenation of a chunk sequence: what a streaming hash sees. */
  function Flatten(chunks: seq<Bytes>): Bytes {
    if chunks == [] then [] else Flatten(chunks[..|chunks| - 1]) + chunks[|chunks| - 1]
  }

  /** The bytes _sources_hash(paths) feeds to SHA-1. */
  function SourcesFed(fs: Fs, listing: Listing, paths: seq<Path>): (r: Result<Bytes>)
    requires DirsWellFormed(fs)
    ensures r.Err? ==> r.error.NotFound? || r.error.NotADirectory? || r.error.IsADirectory?
  {
    match Chunks(fs, Walk(fs, listing, paths))
    case Err(err) => Err(err)
    case Ok(c) => Ok(Flatten(c))
  }
}
