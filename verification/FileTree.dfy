/** A directory tree as a finite map from paths to nodes, and the file system
    calls the importer makes on it. */
module FileTree {
  import opened Basics

  /** A path below the root of the tree, as its components. */
  type Path = seq<string>

  datatype Node = Dir | File(data: Bytes)

  type Tree = map<Path, Node>

  const EMPTY: Tree := map[[] := Dir]

  function Parent(p: Path): Path
    requires p != []
  {
    p[..|p| - 1]
  }

  predicate IsDir(t: Tree, p: Path) {
    p in t && t[p] == Dir
  }

  /** Every node but the root lies in a directory. */
  ghost predicate IsTree(t: Tree) {
    IsDir(t, []) && forall p :: p in t && p != [] ==> IsDir(t, Parent(p))
  }

  lemma {:induction false} AncestorsAreDirs(t: Tree, p: Path, q: Path)
    requires IsTree(t) && p in t && q < p
    ensures IsDir(t, q)
    decreases |p|
  {
    if q != Parent(p) {
      AncestorsAreDirs(t, Parent(p), q);
    }
  }

  /** `top` is `p` or above it. */
  predicate Under(p: Path, top: Path) {
    top <= p
  }

  lemma UnderParent(p: Path, q: Path)
    requires p != []
    ensures Under(p, q) <==> Under(Parent(p), q) || q == p
  {
  }

  // ----- Calls -----

  /** os.MkdirAll; None where a component is a file. */
  function MkdirAll(t: Tree, p: Path): Option<Tree> {
    if p in t then (if t[p] == Dir then Some(t) else None)
    else if p == [] then None
    else
      match MkdirAll(t, Parent(p))
      case None => None
      case Some(t1) => Some(t1[p := Dir])
  }

  ghost predicate NoFileAbove(t: Tree, p: Path) {
    forall q :: Under(p, q) && q in t ==> t[q] == Dir
  }

  /** `t'` is `t` with `p` and all above it as directories. */
  ghost predicate WithDirs(t: Tree, p: Path, t': Tree) {
    && (forall q :: q in t' <==> q in t || Under(p, q))
    && (forall q :: q in t' ==> t'[q] == if q in t then t[q] else Dir)
  }

  lemma {:induction false} MkdirAllExact(t: Tree, p: Path)
    requires IsTree(t)
    ensures MkdirAll(t, p).Some? <==> NoFileAbove(t, p)
    ensures MkdirAll(t, p).Some? ==> IsTree(MkdirAll(t, p).value) && WithDirs(t, p, MkdirAll(t, p).value)
    decreases |p|
  {
    if p in t {
      forall q | Under(p, q) && q != p ensures IsDir(t, q) {
        AncestorsAreDirs(t, p, q);
      }
    } else {
      MkdirAllExact(t, Parent(p));
      forall q ensures Under(p, q) <==> Under(Parent(p), q) || q == p {
        UnderParent(p, q);
      }
      if NoFileAbove(t, Parent(p)) {
        var t1 := MkdirAll(t, Parent(p)).value;
        assert Under(Parent(p), Parent(p)) && IsDir(t1, Parent(p));
      }
    }
  }

  /** os.RemoveAll */
  function RemoveAll(t: Tree, top: Path): Tree {
    map p | p in t && !Under(p, top) :: t[p]
  }

  // ----- Directory listings -----

  predicate Less(a: string, b: string) {
    if b == [] then false
    else if a == [] then true
    else if a[0] != b[0] then a[0] < b[0]
    else Less(a[1..], b[1..])
  }

  lemma {:induction false} LessIsTotal(a: string, b: string)
    ensures a == b || Less(a, b) || Less(b, a)
    ensures !(Less(a, b) && Less(b, a)) && !Less(a, a)
  {
    if a != [] && b != [] {
      LessIsTotal(a[1..], b[1..]);
      LessIsTotal(a[1..], a[1..]);
      assert a == [a[0]] + a[1..] && b == [b[0]] + b[1..];
    } else if a != [] {
      LessIsTotal(a[1..], a[1..]);
    }
  }

  lemma {:induction false} LessIsTransitive(a: string, b: string, c: string)
    requires Less(a, b) && Less(b, c)
    ensures Less(a, c)
  {
    if a != [] && a[0] == b[0] == c[0] {
      LessIsTransitive(a[1..], b[1..], c[1..]);
    }
  }

  /** Byte by byte, as Go compares strings: a beginning before what it begins, and
      otherwise by the first place where the two differ. */
  lemma {:induction false} LessIsByBytes(a: string, b: string)
    ensures Less(a, b) <==> a < b || exists k :: DiffersAt(a, b, k) && a[k] < b[k]
  {
    if a != [] && b != [] {
      if a[0] == b[0] {
        LessIsByBytes(a[1..], b[1..]);
        assert a < b <==> a[1..] < b[1..];
        forall k | 0 <= k ensures DiffersAt(a, b, k + 1) <==> DiffersAt(a[1..], b[1..], k) {
          DiffersLater(a, b, k);
        }
        if k :| DiffersAt(a, b, k) && a[k] < b[k] {
          assert DiffersAt(a[1..], b[1..], k - 1);
        }
        if k :| DiffersAt(a[1..], b[1..], k) && a[1..][k] < b[1..][k] {
          assert DiffersAt(a, b, k + 1);
        }
      } else {
        assert DiffersAt(a, b, 0);
        forall k | DiffersAt(a, b, k) ensures k == 0 {
          if k > 0 {
            SameStart(a, b, k);
          }
        }
      }
    }
  }

  lemma SameStart(a: string, b: string, k: nat)
    requires 0 < k <= |a| && k <= |b| && a[..k] == b[..k]
    ensures a[0] == b[0]
  {
    assert a[..k][0] == a[0] && b[..k][0] == b[0];
  }

  predicate DiffersAt(a: string, b: string, k: int) {
    0 <= k < |a| && k < |b| && a[..k] == b[..k] && a[k] != b[k]
  }

  lemma DiffersLater(a: string, b: string, k: nat)
    requires a != [] && b != [] && a[0] == b[0]
    ensures DiffersAt(a, b, k + 1) <==> DiffersAt(a[1..], b[1..], k)
  {
    if k + 1 < |a| && k + 1 < |b| {
      assert a[..k + 1] == [a[0]] + a[1..][..k] && b[..k + 1] == [b[0]] + b[1..][..k];
    }
  }

  predicate IsLeast(m: string, s: set<string>) {
    m in s && forall x :: x in s && x != m ==> Less(m, x)
  }

  lemma {:induction false} LeastExists(s: set<string>) returns (m: string)
    requires s != {}
    ensures IsLeast(m, s)
  {
    var x :| x in s;
    if s == {x} {
      m := x;
    } else {
      var n := LeastExists(s - {x});
      LessIsTotal(x, n);
      if Less(x, n) {
        m := x;
        forall y | y in s && y != x ensures Less(x, y) {
          if y != n {
            LessIsTransitive(x, n, y);
          }
        }
      } else {
        m := n;
      }
    }
  }

  ghost predicate IsSorted(names: seq<string>) {
    forall i, j :: 0 <= i < j < |names| ==> Less(names[i], names[j])
  }

  function Sorted(s: set<string>): (names: seq<string>)
    ensures forall n :: n in names <==> n in s
    ensures IsSorted(names)
  {
    if s == {} then []
    else
      LeastIsUnique(s);
      var m :| m in s && IsLeast(m, s);
      [m] + Sorted(s - {m})
  }

  lemma LeastIsUnique(s: set<string>)
    requires s != {}
    ensures exists m :: m in s && IsLeast(m, s)
    ensures forall m, n :: m in s && n in s && IsLeast(m, s) && IsLeast(n, s) ==> m == n
  {
    var least := LeastExists(s);
    forall m, n | m in s && n in s && IsLeast(m, s) && IsLeast(n, s) ensures m == n {
      LessIsTotal(m, n);
    }
  }

  function ChildNames(t: Tree, dir: Path): set<string> {
    set p | p in t && |p| == |dir| + 1 && dir <= p :: p[|dir|]
  }

  lemma ChildNamesExact(t: Tree, dir: Path, n: string)
    ensures n in ChildNames(t, dir) <==> dir + [n] in t
  {
    if n in ChildNames(t, dir) {
      var p :| p in t && |p| == |dir| + 1 && dir <= p && p[|dir|] == n;
      assert p == dir + [n];
    }
    if dir + [n] in t {
      assert (dir + [n])[|dir|] == n;
    }
  }

  /** os.ReadDir: the names in a directory, ascending. */
  function ReadDir(t: Tree, dir: Path): (names: seq<string>)
    ensures IsSorted(names) && forall n :: n in names <==> dir + [n] in t
  {
    var names := Sorted(ChildNames(t, dir));
    assert forall n :: n in names <==> dir + [n] in t by {
      forall n ensures n in names <==> dir + [n] in t {
        ChildNamesExact(t, dir, n);
      }
    }
    names
  }
}
