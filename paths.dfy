/** Absolute, normalised POSIX paths as lists of components, with the parts of
    os.path the cache relies on: basename, relpath and the string order that
    Python's sorted() puts paths in. */
module Paths {

  /** The components below "/": [] is "/", ["a", "b"] is "/a/b". */
  type Path = seq<string>

  /** A component of a normalised path: not empty, no separator, not "." or "..". */
  predicate ValidName(n: string) {
    |n| > 0 && '/' !in n && n != "." && n != ".."
  }

  predicate WellFormed(p: Path) {
    forall i :: 0 <= i < |p| ==> ValidName(p[i])
  }

  // ---------------------------------------------------------------------------
  // Rendering and the order of path strings
  // ---------------------------------------------------------------------------

  /** "/a/b" for ["a", "b"]; the empty string for []. */
  function RenderTail(p: Path): string {
    if p == [] then "" else "/" + p[0] + RenderTail(p[1..])
  }

  /** The path as Python holds it: "/" for the root, "/a/b" otherwise. */
  function Render(p: Path): string {
    if p == [] then "/" else RenderTail(p)
  }

  /** A relative path joined with "/": "a/b" for ["a", "b"]. */
  function JoinNames(rel: Path): string {
    if rel == [] then "" else if |rel| == 1 then rel[0] else rel[0] + "/" + JoinNames(rel[1..])
  }

  /** Python's comparison of two str values: lexicographic on characters. */
  predicate StrLe(a: string, b: string)
    decreases |a|
  {
    a == [] || (b != [] && (a[0] < b[0] || (a[0] == b[0] && StrLe(a[1..], b[1..]))))
  }

  /** The order sorted() puts paths in: the order of their strings. */
  predicate PathLe(p: Path, q: Path) {
    StrLe(Render(p), Render(q))
  }

  lemma {:induction false} StrLeTotal(a: string, b: string)
    ensures StrLe(a, b) || StrLe(b, a)
    decreases |a|
  {
    if a != [] && b != [] && a[0] == b[0] {
      StrLeTotal(a[1..], b[1..]);
    }
  }

  lemma {:induction false} StrLeTrans(a: string, b: string, c: string)
    requires StrLe(a, b) && StrLe(b, c)
    ensures StrLe(a, c)
    decreases |a|
  {
    if a != [] && b != [] && c != [] && a[0] == b[0] && b[0] == c[0] {
      StrLeTrans(a[1..], b[1..], c[1..]);
    }
  }

  lemma {:induction false} StrLeAntisymmetric(a: string, b: string)
    requires StrLe(a, b) && StrLe(b, a)
    ensures a == b
    decreases |a|
  {
    if a != [] && b != [] {
      StrLeAntisymmetric(a[1..], b[1..]);
      assert a == [a[0]] + a[1..] && b == [b[0]] + b[1..];
    }
  }

  lemma RenderTailStartsWithSlash(p: Path)
    ensures p != [] ==> |RenderTail(p)| > 0 && RenderTail(p)[0] == '/'
  {
  }

  /** In "/" + a + rest, with no separator in a and rest empty or starting
      with one, the component a ends at the next separator. */
  lemma SlashAfterName(a: string, rest: string)
    requires rest == [] || rest[0] == '/'
    ensures |"/" + a + rest| == 1 + |a| || ("/" + a + rest)[1 + |a|] == '/'
  {
  }

  /** Distinct normalised paths have distinct strings, so sorting them by
      their strings is deterministic. */
  lemma {:induction false} RenderTailInjective(p: Path, q: Path)
    requires WellFormed(p) && WellFormed(q)
    requires RenderTail(p) == RenderTail(q)
    ensures p == q
  {
    RenderTailStartsWithSlash(p);
    RenderTailStartsWithSlash(q);
    if p != [] && q != [] {
      var s := RenderTail(p);
      var a, b := p[0], q[0];
      var ra, rb := RenderTail(p[1..]), RenderTail(q[1..]);
      RenderTailStartsWithSlash(p[1..]);
      RenderTailStartsWithSlash(q[1..]);
      assert ValidName(a) && ValidName(b);
      assert s == "/" + a + ra && s == "/" + b + rb;
      assert |a| == |b| by {
        if |a| < |b| {
          SlashAfterName(a, ra);
        } else if |b| < |a| {
          SlashAfterName(b, rb);
        }
      }
      assert a == s[1..1 + |a|] == b;
      assert ra == s[1 + |a|..] == rb;
      assert WellFormed(p[1..]) && WellFormed(q[1..]);
      RenderTailInjective(p[1..], q[1..]);
      assert p == [a] + p[1..] && q == [b] + q[1..];
    }
  }

  lemma RenderInjective(p: Path, q: Path)
    requires WellFormed(p) && WellFormed(q)
    requires Render(p) == Render(q)
    ensures p == q
  {
    RenderTailStartsWithSlash(p);
    RenderTailStartsWithSlash(q);
    if p != [] && q != [] {
      RenderTailInjective(p, q);
    }
  }

  lemma PathLeTotal(p: Path, q: Path)
    ensures PathLe(p, q) || PathLe(q, p)
  {
    StrLeTotal(Render(p), Render(q));
  }

  lemma PathLeTrans(p: Path, q: Path, r: Path)
    requires PathLe(p, q) && PathLe(q, r)
    ensures PathLe(p, r)
  {
    StrLeTrans(Render(p), Render(q), Render(r));
  }

  /** On normalised paths the order is antisymmetric: its only ties are equal paths. */
  lemma PathLeAntisymmetric(p: Path, q: Path)
    requires WellFormed(p) && WellFormed(q)
    requires PathLe(p, q) && PathLe(q, p)
    ensures p == q
  {
    StrLeAntisymmetric(Render(p), Render(q));
    RenderInjective(p, q);
  }

  // ---------------------------------------------------------------------------
  // os.path operations
  // ---------------------------------------------------------------------------

  /** os.path.dirname of a non-root path. */
  function Parent(p: Path): Path
    requires p != []
  {
    p[..|p| - 1]
  }

  /** os.path.basename as a relative path: one component, or none for "/"
      (whose basename is the empty string). */
  function BaseName(p: Path): (r: Path)
    ensures |r| <= 1 && (p != [] ==> r == [p[|p| - 1]])
  {
    if p == [] then [] else [p[|p| - 1]]
  }

  /** The length of the longest common prefix of two component lists
      (os.path.commonprefix on split paths). */
  function CommonPrefixLength(a: Path, b: Path): (n: nat)
    ensures n <= |a| && n <= |b| && a[..n] == b[..n]
    ensures n < |a| && n < |b| ==> a[n] != b[n]
  {
    if a == [] || b == [] || a[0] != b[0] then 0
    else
      var n := 1 + CommonPrefixLength(a[1..], b[1..]);
      assert a[..n] == [a[0]] + a[1..][..n - 1];
      assert b[..n] == [b[0]] + b[1..][..n - 1];
      n
  }

  function Ups(k: nat): (r: Path)
    ensures |r| == k && forall i :: 0 <= i < k ==> r[i] == ".."
  {
    seq(k, _ => "..")
  }

  /** os.path.relpath(path, start): climb from start to the common prefix with
      "..", then descend to path. The empty result stands for ".". */
  function RelPath(path: Path, start: Path): Path {
    var c := CommonPrefixLength(path, start);
    Ups(|start| - c) + path[c..]
  }

  /** rel_path.startswith('..') on the joined relative path: true exactly when
      its first component begins with two dots. */
  predicate StartsWithDotDot(rel: Path) {
    |rel| > 0 && |rel[0]| >= 2 && rel[0][..2] == ".."
  }

  predicate NameStartsWithDotDot(n: string) {
    |n| >= 2 && n[..2] == ".."
  }

  /** relpath inside the start directory is the rest of the path. */
  lemma RelPathOfDescendant(path: Path, start: Path)
    requires start <= path
    ensures RelPath(path, start) == path[|start|..]
  {
  }

  /** The ".." check rejects exactly the artifacts outside artifact_root, and
      also those inside whose first component merely begins with "..". */
  lemma RelPathDotDot(path: Path, start: Path)
    ensures StartsWithDotDot(RelPath(path, start)) <==>
      (!(start <= path) || (|start| < |path| && NameStartsWithDotDot(path[|start|])))
  {
    var c := CommonPrefixLength(path, start);
    if start <= path {
      RelPathOfDescendant(path, start);
      if |start| < |path| {
        assert RelPath(path, start)[0] == path[|start|];
      }
    } else {
      assert RelPath(path, start)[0] == "..";
    }
  }

  /** The ".." check passes only for a path below start, and then the
      destination inside the entry is the artifact's path below start. */
  lemma RelPathAccepted(path: Path, start: Path)
    requires !StartsWithDotDot(RelPath(path, start))
    ensures start <= path && RelPath(path, start) == path[|start|..]
  {
    RelPathDotDot(path, start);
    RelPathOfDescendant(path, start);
  }
}
