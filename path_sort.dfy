/** sorted() over paths: of a list (which may repeat a path), and of the set of
    directories os.walk visits. */
module PathSort {
  import opened Paths

  predicate Sorted(s: seq<Path>) {
    forall i, j :: 0 <= i < j < |s| ==> PathLe(s[i], s[j])
  }

  predicate AllWellFormed(s: seq<Path>) {
    forall i :: 0 <= i < |s| ==> WellFormed(s[i])
  }

  predicate NoDuplicates(s: seq<Path>) {
    forall i, j :: 0 <= i < j < |s| ==> s[i] != s[j]
  }

  /** A path no greater than any element of a sorted list may be put in front of it. */
  lemma SortedCons(x: Path, s: seq<Path>)
    requires Sorted(s) && forall p :: p in s ==> PathLe(x, p)
    ensures Sorted([x] + s)
  {
    var r := [x] + s;
    forall i, j | 0 <= i < j < |r| ensures PathLe(r[i], r[j]) {
      assert r[j] == s[j - 1] && s[j - 1] in s;
      if i > 0 { assert r[i] == s[i - 1]; }
    }
  }

  /** The head of a sorted list is no greater than anything after it. */
  lemma HeadBoundsRest(s: seq<Path>)
    requires Sorted(s) && s != []
    ensures forall p :: p in s[1..] ==> PathLe(s[0], p)
  {
    forall p | p in s[1..] ensures PathLe(s[0], p) {
      var k :| 0 <= k < |s[1..]| && s[1..][k] == p;
      assert s[k + 1] == p;
    }
  }

  /** x may go in front of a sorted list whose head it does not exceed. */
  lemma InsertFront(x: Path, s: seq<Path>)
    requires Sorted(s) && s != [] && PathLe(x, s[0])
    ensures Sorted([x] + s)
  {
    var r := [x] + s;
    forall i, j | 0 <= i < j < |r| ensures PathLe(r[i], r[j]) {
      assert r[j] == s[j - 1];
      if i > 0 {
        assert r[i] == s[i - 1];
      } else if j > 1 {
        PathLeTrans(x, s[0], s[j - 1]);
      }
    }
  }

  /** A head smaller than x stays in front of x inserted into the rest. */
  lemma InsertBehind(x: Path, s: seq<Path>, t: seq<Path>)
    requires Sorted(s) && s != [] && !PathLe(x, s[0])
    requires Sorted(t) && multiset(t) == multiset(s[1..]) + multiset{x}
    ensures Sorted([s[0]] + t)
  {
    PathLeTotal(x, s[0]);
    HeadBoundsRest(s);
    forall p | p in t ensures PathLe(s[0], p) {
      assert p in multiset(t);
      if p != x {
        assert p in multiset(s[1..]);
      }
    }
    SortedCons(s[0], t);
  }

  /** Putting the head back in front restores the elements of s. */
  lemma ConsElements(s: seq<Path>, t: seq<Path>, x: Path)
    requires s != [] && multiset(t) == multiset(s[1..]) + multiset{x}
    ensures multiset([s[0]] + t) == multiset(s) + multiset{x}
  {
    assert s == [s[0]] + s[1..];
    assert multiset(s) == multiset{s[0]} + multiset(s[1..]);
    assert multiset([s[0]] + t) == multiset{s[0]} + multiset(t);
  }

  /** Places x before the first element it does not exceed. */
  function Insert(x: Path, s: seq<Path>): (r: seq<Path>)
    requires Sorted(s)
    ensures Sorted(r) && multiset(r) == multiset(s) + multiset{x}
  {
    if s == [] then [x]
    else if PathLe(x, s[0]) then
      InsertFront(x, s);
      assert multiset([x] + s) == multiset{x} + multiset(s);
      [x] + s
    else
      assert Sorted(s[1..]) by {
        forall i, j | 0 <= i < j < |s[1..]| ensures PathLe(s[1..][i], s[1..][j]) { assert s[1..][i] == s[i + 1]; }
      }
      var t := Insert(x, s[1..]);
      InsertBehind(x, s, t);
      ConsElements(s, t, x);
      [s[0]] + t
  }

  /** sorted(paths): the paths in ascending order of their strings. */
  function SortPaths(s: seq<Path>): (r: seq<Path>)
    ensures Sorted(r) && multiset(r) == multiset(s)
  {
    if s == [] then []
    else
      assert s == [s[0]] + s[1..];
      Insert(s[0], SortPaths(s[1..]))
  }

  /** Two sorted arrangements of the same normalised paths start alike. */
  lemma SortedHeads(a: seq<Path>, b: seq<Path>)
    requires Sorted(a) && Sorted(b) && AllWellFormed(a)
    requires multiset(a) == multiset(b) && a != []
    ensures b != [] && a[0] == b[0]
  {
    assert a[0] in multiset(b);
    assert b != [] && b[0] in multiset(a);
    var i :| 0 <= i < |b| && b[i] == a[0];
    var j :| 0 <= j < |a| && a[j] == b[0];
    PathLeTotal(a[0], a[0]);
    assert PathLe(b[0], a[0]) by { if i > 0 { } }
    assert PathLe(a[0], b[0]) by { if j > 0 { } }
    PathLeAntisymmetric(a[0], b[0]);
  }

  /** Removing a common head keeps the multisets equal. */
  lemma TailsAlike(a: seq<Path>, b: seq<Path>)
    requires a != [] && b != [] && a[0] == b[0] && multiset(a) == multiset(b)
    ensures multiset(a[1..]) == multiset(b[1..])
  {
    assert a == [a[0]] + a[1..] && b == [b[0]] + b[1..];
    assert multiset(a) == multiset{a[0]} + multiset(a[1..]);
    assert multiset(b) == multiset{b[0]} + multiset(b[1..]);
    assert multiset(a[1..]) == multiset(a) - multiset{a[0]};
    assert multiset(b[1..]) == multiset(b) - multiset{b[0]};
  }

  /** A sorted list of normalised paths is determined by its multiset of
      elements: sorting is blind to the order of its input. */
  lemma {:induction false} SortedUnique(a: seq<Path>, b: seq<Path>)
    requires Sorted(a) && Sorted(b) && AllWellFormed(a)
    requires multiset(a) == multiset(b)
    ensures a == b
    decreases |a|
  {
    if a == [] {
      assert |b| == |multiset(b)| == 0;
    } else {
      SortedHeads(a, b);
      TailsAlike(a, b);
      var a', b' := a[1..], b[1..];
      assert Sorted(a') by {
        forall i, j | 0 <= i < j < |a'| ensures PathLe(a'[i], a'[j]) { assert a'[i] == a[i + 1] && a'[j] == a[j + 1]; }
      }
      assert Sorted(b') by {
        forall i, j | 0 <= i < j < |b'| ensures PathLe(b'[i], b'[j]) { assert b'[i] == b[i + 1] && b'[j] == b[j + 1]; }
      }
      assert AllWellFormed(a') by {
        forall i | 0 <= i < |a'| ensures WellFormed(a'[i]) { assert a'[i] == a[i + 1]; }
      }
      SortedUnique(a', b');
      assert a == [a[0]] + a' && b == [b[0]] + b';
    }
  }

  /** Sorting two arrangements of the same normalised paths gives one result. */
  lemma SortPathsPermutationInvariant(s: seq<Path>, t: seq<Path>)
    requires AllWellFormed(s) && multiset(s) == multiset(t)
    ensures SortPaths(s) == SortPaths(t)
  {
    var a, b := SortPaths(s), SortPaths(t);
    forall i | 0 <= i < |a| ensures WellFormed(a[i]) {
      assert a[i] in multiset(s);
    }
    SortedUnique(a, b);
  }

  predicate IsLeast(m: Path, s: set<Path>) {
    m in s && forall x :: x in s ==> PathLe(m, x)
  }

  /** A finite set of paths has a least element. */
  lemma {:induction false} LeastExists(s: set<Path>)
    requires s != {}
    ensures exists m :: IsLeast(m, s)
    decreases |s|
  {
    var y :| y in s;
    PathLeTotal(y, y);
    if s != {y} {
      LeastExists(s - {y});
      var m :| IsLeast(m, s - {y});
      PathLeTotal(m, y);
      if PathLe(m, y) {
        assert IsLeast(m, s);
      } else {
        forall x | x in s ensures PathLe(y, x) {
          if x != y { PathLeTrans(y, m, x); }
        }
        assert IsLeast(y, s);
      }
    } else {
      assert IsLeast(y, s);
    }
  }

  /** ... and among normalised paths only one. */
  lemma LeastUnique(m1: Path, m2: Path, s: set<Path>)
    requires forall p :: p in s ==> WellFormed(p)
    requires IsLeast(m1, s) && IsLeast(m2, s)
    ensures m1 == m2
  {
    PathLeAntisymmetric(m1, m2);
  }

  /** The least element of s put before the sorted rest of s. */
  lemma ConsLeast(m: Path, s: set<Path>, rest: seq<Path>)
    requires IsLeast(m, s)
    requires Sorted(rest) && NoDuplicates(rest) && |rest| == |s - {m}|
    requires forall p :: p in s - {m} <==> p in rest
    ensures Sorted([m] + rest) && NoDuplicates([m] + rest) && |[m] + rest| == |s|
    ensures forall p :: p in s <==> p in [m] + rest
  {
    SortedCons(m, rest);
    assert m !in rest;
    NoDuplicatesCons(m, rest);
    assert |s - {m}| == |s| - 1;
  }

  lemma NoDuplicatesCons(x: Path, s: seq<Path>)
    requires NoDuplicates(s) && x !in s
    ensures NoDuplicates([x] + s)
  {
    var r := [x] + s;
    forall i, j | 0 <= i < j < |r| ensures r[i] != r[j] {
      assert r[j] == s[j - 1] && s[j - 1] in s;
      if i > 0 { assert r[i] == s[i - 1]; }
    }
  }

  /** The elements of a set of normalised paths in ascending order. */
  function SortSet(s: set<Path>): (r: seq<Path>)
    requires forall p :: p in s ==> WellFormed(p)
    ensures Sorted(r) && NoDuplicates(r) && |r| == |s|
    ensures forall p :: p in s <==> p in r
    decreases |s|
  {
    if s == {} then []
    else
      LeastExists(s);
      assert forall m1, m2 :: IsLeast(m1, s) && IsLeast(m2, s) ==> m1 == m2 by {
        forall m1, m2 | IsLeast(m1, s) && IsLeast(m2, s) ensures m1 == m2 { LeastUnique(m1, m2, s); }
      }
      var m :| IsLeast(m, s);
      var rest := SortSet(s - {m});
      ConsLeast(m, s, rest);
      [m] + rest
  }
}
