/** Finding, in an unpacked archive, the directory that holds the saves. */
module SaveRoot {
  import opened FileTree

  /** A child of `dir` is a save folder if it directly holds world.sav. */
  predicate IsSave(t: Tree, dir: Path, name: string) {
    IsDir(t, dir + [name]) && dir + [name] + ["world.sav"] in t
  }

  function Select(t: Tree, dir: Path, names: seq<string>): (saves: seq<string>)
    requires IsSorted(names)
    ensures IsSorted(saves) && forall n :: n in saves <==> n in names && IsSave(t, dir, n)
  {
    if names == [] then []
    else
      var rest := Select(t, dir, names[1..]);
      assert forall j :: 0 <= j < |rest| ==> Less(names[0], rest[j]) by {
        forall j | 0 <= j < |rest| ensures Less(names[0], rest[j]) {
          assert rest[j] in rest;
          var i :| 0 <= i < |names[1..]| && names[1..][i] == rest[j];
          assert Less(names[0], names[i + 1]);
        }
      }
      if IsSave(t, dir, names[0]) then [names[0]] + rest else rest
  }

  /** dfSaveDirsIn, in the order of the directory. */
  function SaveDirsIn(t: Tree, dir: Path): (saves: seq<string>)
    ensures IsSorted(saves)
    ensures forall n :: n in saves <==> IsDir(t, dir + [n]) && dir + [n] + ["world.sav"] in t
  {
    Select(t, dir, ReadDir(t, dir))
  }

  datatype Found = NoRoot | Root(dir: Path, saves: seq<string>)

  function FindSaveRoot(t: Tree, dir: Path, maxDepth: nat): Found
    decreases maxDepth, 0, 0
  {
    var saves := SaveDirsIn(t, dir);
    if saves != [] then Root(dir, saves)
    else if maxDepth == 0 then NoRoot
    else FindBelow(t, dir, ReadDir(t, dir), maxDepth - 1)
  }

  function FindBelow(t: Tree, dir: Path, names: seq<string>, depth: nat): Found
    decreases depth, 1, |names|
  {
    if names == [] then NoRoot
    else if !IsDir(t, dir + [names[0]]) then FindBelow(t, dir, names[1..], depth)
    else
      var found := FindSaveRoot(t, dir + [names[0]], depth);
      if found.Root? then found else FindBelow(t, dir, names[1..], depth)
  }

  // ----- What it finds -----

  /** Pre-order: a directory before what is below it, siblings by name. */
  ghost predicate Before(a: Path, b: Path) {
    a < b || exists k :: Forks(a, b, k)
  }

  ghost predicate Forks(a: Path, b: Path, k: int) {
    0 <= k < |a| && k < |b| && a[..k] == b[..k] && Less(a[k], b[k])
  }

  lemma BeforeIsStrict(a: Path, b: Path)
    requires Before(a, b)
    ensures !Before(b, a) && a != b
  {
    if a < b {
      forall k ensures !Forks(b, a, k) {
        if 0 <= k < |a| {
          LessIsTotal(a[k], a[k]);
        }
      }
    } else {
      var k :| Forks(a, b, k);
      LessIsTotal(a[k], b[k]);
      forall j ensures !Forks(b, a, j) {
        if 0 <= j < k {
          assert a[..k][j] == b[..k][j];
          LessIsTotal(a[j], a[j]);
        } else if k < j < |a| && j < |b| {
          assert a[..j][k] == a[k] && b[..j][k] == b[k];
        }
      }
    }
  }

  /** A directory at most `depth` levels below `top` that holds a save folder. */
  ghost predicate Candidate(t: Tree, top: Path, depth: nat, q: Path) {
    Under(q, top) && |q| <= |top| + depth && IsDir(t, q) && exists n :: IsSave(t, q, n)
  }

  /** The first candidate of all, with its save folders, or none if there is none. */
  ghost predicate IsFirst(t: Tree, top: Path, depth: nat, found: Found) {
    match found
    case NoRoot => forall q :: !Candidate(t, top, depth, q)
    case Root(dir, saves) =>
      && Candidate(t, top, depth, dir) && saves == SaveDirsIn(t, dir) && saves != []
      && forall q :: Candidate(t, top, depth, q) && q != dir ==> Before(dir, q)
  }

  /** The same among the directories below the children `names`. */
  ghost predicate IsFirstBelow(t: Tree, top: Path, names: seq<string>, depth: nat, found: Found) {
    match found
    case NoRoot => forall q :: Below(t, top, names, depth, q) ==> false
    case Root(dir, saves) =>
      && Below(t, top, names, depth, dir) && saves == SaveDirsIn(t, dir) && saves != []
      && forall q :: Below(t, top, names, depth, q) && q != dir ==> Before(dir, q)
  }

  ghost predicate Below(t: Tree, top: Path, names: seq<string>, depth: nat, q: Path) {
    Candidate(t, top, depth + 1, q) && |q| > |top| && q[|top|] in names
  }

  lemma ChildIsDir(t: Tree, top: Path, q: Path)
    requires IsTree(t) && IsDir(t, q) && Under(q, top) && |q| > |top|
    ensures IsDir(t, top + [q[|top|]])
  {
    var child := top + [q[|top|]];
    if child != q {
      AncestorsAreDirs(t, q, child);
    }
  }

  lemma TopIsFirst(t: Tree, dir: Path, depth: nat)
    requires IsDir(t, dir) && SaveDirsIn(t, dir) != []
    ensures IsFirst(t, dir, depth, Root(dir, SaveDirsIn(t, dir)))
  {
    var saves := SaveDirsIn(t, dir);
    assert saves[0] in saves;
    assert IsSave(t, dir, saves[0]);
  }

  lemma TopIsNone(t: Tree, dir: Path, depth: nat)
    requires SaveDirsIn(t, dir) == []
    ensures !Candidate(t, dir, depth, dir)
  {
  }

  lemma FirstBelowIsFirst(t: Tree, dir: Path, maxDepth: nat, depth: nat, found: Found)
    requires IsTree(t) && maxDepth == depth + 1 && !Candidate(t, dir, maxDepth, dir)
    requires IsFirstBelow(t, dir, ReadDir(t, dir), depth, found)
    ensures IsFirst(t, dir, maxDepth, found)
  {
    var names := ReadDir(t, dir);
    forall q | Candidate(t, dir, maxDepth, q) ensures Below(t, dir, names, depth, q) {
      assert |q| == |dir| ==> q == dir;
      ChildIsDir(t, dir, q);
    }
  }

  /** Sound, complete and first. */
  lemma {:induction false} FindsTheFirstSaveRoot(t: Tree, dir: Path, maxDepth: nat)
    requires IsTree(t) && IsDir(t, dir)
    ensures IsFirst(t, dir, maxDepth, FindSaveRoot(t, dir, maxDepth))
    decreases maxDepth, 0, 0
  {
    if SaveDirsIn(t, dir) != [] {
      TopIsFirst(t, dir, maxDepth);
    } else {
      TopIsNone(t, dir, maxDepth);
      if maxDepth > 0 {
        var depth := maxDepth - 1;
        FindsTheFirstBelow(t, dir, ReadDir(t, dir), depth);
        FirstBelowIsFirst(t, dir, maxDepth, depth, FindBelow(t, dir, ReadDir(t, dir), depth));
      } else {
        assert forall q :: Candidate(t, dir, 0, q) ==> q == dir;
      }
    }
  }

  lemma {:induction false} FindsTheFirstBelow(t: Tree, dir: Path, names: seq<string>, depth: nat)
    requires IsTree(t) && IsDir(t, dir) && IsSorted(names)
    ensures IsFirstBelow(t, dir, names, depth, FindBelow(t, dir, names, depth))
    decreases depth, 1, |names|
  {
    if names != [] {
      var child, rest := dir + [names[0]], names[1..];
      FindsTheFirstBelow(t, dir, rest, depth);
      if !IsDir(t, child) {
        forall q | Below(t, dir, names, depth, q) ensures Below(t, dir, rest, depth, q) {
          ChildIsDir(t, dir, q);
        }
      } else {
        FindsTheFirstSaveRoot(t, child, depth);
        FirstOfTwo(t, dir, names, depth);
      }
    }
  }

  lemma BelowSplits(t: Tree, dir: Path, names: seq<string>, depth: nat, q: Path)
    requires names != [] && Below(t, dir, names, depth, q)
    ensures Candidate(t, dir + [names[0]], depth, q) || Below(t, dir, names[1..], depth, q)
  {
  }

  lemma LaterChildIsLater(dir: Path, names: seq<string>, a: Path, b: Path)
    requires names != [] && IsSorted(names) && dir + [names[0]] <= a
    requires dir <= b && |b| > |dir| && b[|dir|] in names[1..]
    ensures Before(a, b)
  {
    var k := |dir|;
    var j :| 0 <= j < |names[1..]| && names[1..][j] == b[k];
    assert Less(names[0], names[j + 1]);
    assert Forks(a, b, k);
  }

  lemma FirstOfTwo(t: Tree, dir: Path, names: seq<string>, depth: nat)
    requires names != [] && IsSorted(names) && IsDir(t, dir + [names[0]])
    requires IsFirst(t, dir + [names[0]], depth, FindSaveRoot(t, dir + [names[0]], depth))
    requires IsFirstBelow(t, dir, names[1..], depth, FindBelow(t, dir, names[1..], depth))
    ensures IsFirstBelow(t, dir, names, depth, FindBelow(t, dir, names, depth))
  {
    hide SaveDirsIn, FindSaveRoot, Before;
    var found := FindSaveRoot(t, dir + [names[0]], depth);
    forall q | Below(t, dir, names, depth, q)
      ensures Candidate(t, dir + [names[0]], depth, q) || Below(t, dir, names[1..], depth, q)
      ensures found.Root? && q != found.dir ==> Before(found.dir, q)
    {
      BelowSplits(t, dir, names, depth, q);
      if found.Root? && Below(t, dir, names[1..], depth, q) {
        LaterChildIsLater(dir, names, found.dir, q);
      }
    }
    if found.Root? {
      assert Below(t, dir, names, depth, found.dir);
    }
  }
}
