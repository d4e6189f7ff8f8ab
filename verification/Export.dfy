/** The export: a user's data and config directories as a list of tar entries. */
module Export {
  import opened Basics
  import opened Paths
  import opened FileTree
  import opened Extraction
  import opened Extractors
  import opened SaveRoot

  function Subtree(t: Tree, p: Path): set<Path> {
    set q | q in t && Under(q, p)
  }

  lemma ChildIsSmaller(t: Tree, p: Path, name: string)
    requires p in t
    ensures |Subtree(t, p + [name])| < |Subtree(t, p)|
  {
    assert p in Subtree(t, p) && p !in Subtree(t, p + [name]);
    SubsetSize(Subtree(t, p + [name]), Subtree(t, p) - {p});
  }

  /** filepath.WalkDir: a directory, then its children by name. */
  function WalkDir(t: Tree, p: Path): seq<Path>
    decreases |Subtree(t, p)|, 1, 0
  {
    if p in t then [p] + WalkNames(t, p, ReadDir(t, p)) else []
  }

  function WalkNames(t: Tree, p: Path, names: seq<string>): seq<Path>
    requires p in t
    decreases |Subtree(t, p)|, 0, |names|
  {
    if names == [] then []
    else
      ChildIsSmaller(t, p, names[0]);
      WalkDir(t, p + [names[0]]) + WalkNames(t, p, names[1..])
  }

  const ROOTS: seq<string> := ["data", "config"]

  function TarOf(t: Tree, p: Path): TarEntry
    requires p in t
  {
    if t[p] == Dir then TarEntry(Join(p), TarDir, []) else TarEntry(Join(p), TarRegular, t[p].data)
  }

  function TarOfAll(t: Tree, ps: seq<Path>): seq<TarEntry>
    requires AreNodes(t, ps)
  {
    if ps == [] then [] else TarOfAll(t, ps[..|ps| - 1]) + [TarOf(t, ps[|ps| - 1])]
  }

  /** hasAnyContent */
  predicate HasContent(t: Tree) {
    exists i :: 0 <= i < |ROOTS| && IsDir(t, [ROOTS[i]]) && ReadDir(t, [ROOTS[i]]) != []
  }

  function ExportedPaths(t: Tree): seq<Path> {
    WalkDir(t, ["data"]) + WalkDir(t, ["config"])
  }

  lemma BelowADirectory(t: Tree, p: Path, q: Path)
    requires IsTree(t) && p in t
    ensures q in t && Under(q, p) <==> q == p || (q in t && Under(q, p) && |q| > |p| && q[|p|] in ReadDir(t, p))
  {
    hide IsTree, ReadDir;
    if q in t && Under(q, p) && q != p {
      var child := p + [q[|p|]];
      if child != q {
        AncestorsAreDirs(t, q, child);
      }
    }
  }

  lemma UnderAChild(p: Path, name: string, q: Path)
    ensures Under(q, p + [name]) <==> Under(q, p) && |q| > |p| && q[|p|] == name
  {
  }

  /** The walk visits exactly what is at or below its start. */
  lemma {:induction false} WalkVisitsAll(t: Tree, p: Path, q: Path)
    requires IsTree(t)
    ensures q in WalkDir(t, p) <==> p in t && q in t && Under(q, p)
    decreases |Subtree(t, p)|, 1, 0
  {
    if p in t {
      WalkVisitsNames(t, p, ReadDir(t, p), q);
      BelowADirectory(t, p, q);
    }
  }

  lemma {:induction false} WalkVisitsNames(t: Tree, p: Path, names: seq<string>, q: Path)
    requires IsTree(t) && p in t && forall i :: 0 <= i < |names| ==> p + [names[i]] in t
    ensures q in WalkNames(t, p, names) <==> q in t && Under(q, p) && |q| > |p| && q[|p|] in names
    decreases |Subtree(t, p)|, 0, |names|
  {
    if names != [] {
      ChildIsSmaller(t, p, names[0]);
      WalkVisitsAll(t, p + [names[0]], q);
      WalkVisitsNames(t, p, names[1..], q);
      UnderAChild(p, names[0], q);
    }
  }

  /** Ascending in pre-order, so nothing is visited twice. */
  ghost predicate InPreOrder(ps: seq<Path>) {
    forall i, j :: 0 <= i < j < |ps| ==> Before(ps[i], ps[j])
  }

  lemma {:induction false} WalkIsInPreOrder(t: Tree, p: Path)
    requires IsTree(t)
    ensures InPreOrder(WalkDir(t, p))
    decreases |Subtree(t, p)|, 1, 0
  {
    if p in t {
      var below := WalkNames(t, p, ReadDir(t, p));
      NamesAreInPreOrder(t, p, ReadDir(t, p));
      forall j | 0 <= j < |below| ensures Before(p, below[j]) {
        assert below[j] in below;
        WalkVisitsNames(t, p, ReadDir(t, p), below[j]);
      }
    }
  }

  lemma {:induction false} NamesAreInPreOrder(t: Tree, p: Path, names: seq<string>)
    requires IsTree(t) && p in t && IsSorted(names) && forall i :: 0 <= i < |names| ==> p + [names[i]] in t
    ensures InPreOrder(WalkNames(t, p, names))
    decreases |Subtree(t, p)|, 0, |names|
  {
    if names != [] {
      ChildIsSmaller(t, p, names[0]);
      WalkIsInPreOrder(t, p + [names[0]]);
      NamesAreInPreOrder(t, p, names[1..]);
      var first, rest := WalkDir(t, p + [names[0]]), WalkNames(t, p, names[1..]);
      forall i, j | 0 <= i < |first| && 0 <= j < |rest| ensures Before(first[i], rest[j]) {
        assert first[i] in first && rest[j] in rest;
        WalkVisitsAll(t, p + [names[0]], first[i]);
        WalkVisitsNames(t, p, names[1..], rest[j]);
        LaterChildIsLater(p, names, first[i], rest[j]);
      }
    }
  }

  /** A list of nodes below the root. */
  predicate AreNodes(t: Tree, ps: seq<Path>) {
    forall i :: 0 <= i < |ps| ==> ps[i] in t && ps[i] != []
  }

  lemma ExportedPathsAreNodes(t: Tree)
    requires IsTree(t)
    ensures AreNodes(t, ExportedPaths(t))
    ensures forall p :: p in ExportedPaths(t) <==> p != [] && p in Part(t)
  {
    forall p ensures p in ExportedPaths(t) <==> p != [] && p in Part(t) {
      ExportHasThePart(t, p);
    }
    forall i | 0 <= i < |ExportedPaths(t)| ensures ExportedPaths(t)[i] in t && ExportedPaths(t)[i] != [] {
      assert ExportedPaths(t)[i] in ExportedPaths(t);
    }
  }

  /** The entries of the archive, data first. */
  function Archive(t: Tree): seq<TarEntry>
    requires IsTree(t)
  {
    ExportedPathsAreNodes(t);
    TarOfAll(t, ExportedPaths(t))
  }

  lemma OneMoreTar(t: Tree, ps: seq<Path>, i: nat)
    requires AreNodes(t, ps) && i < |ps|
    ensures AreNodes(t, ps[..i]) && AreNodes(t, ps[..i + 1])
    ensures TarOfAll(t, ps[..i + 1]) == TarOfAll(t, ps[..i]) + [TarOf(t, ps[i])]
  {
    assert ps[..i + 1][..i] == ps[..i];
  }

  /** An entry of the archive for every node exported, in their order: its path with
      slashes, what it is, and in a file's what it holds. */
  lemma {:induction false} EntriesAreExact(t: Tree, ps: seq<Path>, i: nat)
    requires AreNodes(t, ps) && i < |ps|
    ensures |TarOfAll(t, ps)| == |ps|
    ensures var hdr := TarOfAll(t, ps)[i];
      && hdr.name == Join(ps[i])
      && hdr.flag == (if t[ps[i]] == Dir then TarDir else TarRegular)
      && hdr.data == (if t[ps[i]] == Dir then [] else t[ps[i]].data)
  {
    hide Join;
    var n := |ps| - 1;
    if i < n {
      EntriesAreExact(t, ps[..n], i);
    } else if n > 0 {
      EntriesAreExact(t, ps[..n], n - 1);
    } else {
      assert TarOfAll(t, ps[..n]) == [];
    }
  }

  predicate HasBelow(t: Tree, p: Path) {
    p in t && |p| >= 2 && (p[0] == "data" || p[0] == "config")
  }

  lemma ListedIsBelow(t: Tree, i: nat)
    requires i < |ROOTS| && ReadDir(t, [ROOTS[i]]) != []
    ensures exists p :: HasBelow(t, p)
  {
    var n := ReadDir(t, [ROOTS[i]])[0];
    assert n in ReadDir(t, [ROOTS[i]]);
    assert HasBelow(t, [ROOTS[i]] + [n]);
  }

  lemma BelowIsListed(t: Tree, p: Path, i: nat)
    requires IsTree(t) && p in t && |p| >= 2 && i < |ROOTS| && p[0] == ROOTS[i]
    ensures IsDir(t, [ROOTS[i]]) && ReadDir(t, [ROOTS[i]]) != []
  {
    hide IsTree, ReadDir;
    var top, child := [ROOTS[i]], [ROOTS[i]] + [p[1]];
    assert p[..1] == top && p[..2] == child;
    AncestorsAreDirs(t, p, p[..1]);
    if child != p {
      AncestorsAreDirs(t, p, p[..2]);
    }
    assert p[1] in ReadDir(t, top);
  }

  /** There is something to export if and only if some node lies below data or config. */
  lemma ContentIsExact(t: Tree)
    requires IsTree(t)
    ensures HasContent(t) <==> exists p :: p in t && |p| >= 2 && (p[0] == "data" || p[0] == "config")
  {
    hide IsTree, ReadDir, IsDir;
    if HasContent(t) {
      var i :| 0 <= i < |ROOTS| && IsDir(t, [ROOTS[i]]) && ReadDir(t, [ROOTS[i]]) != [];
      ListedIsBelow(t, i);
      var p :| HasBelow(t, p);
      assert p in t;
    }
    if p :| p in t && |p| >= 2 && (p[0] == "data" || p[0] == "config") {
      BelowIsListed(t, p, if p[0] == "data" then 0 else 1);
    }
  }

  /** streamSavesTarball; None is the 404 for a user with nothing to export. */
  method StreamSavesTarball(t: Tree) returns (archive: Option<seq<TarEntry>>)
    requires IsTree(t)
    ensures archive.Some? <==> HasContent(t)
    ensures archive.Some? ==> archive.value == Archive(t)
  {
    ExportedPathsAreNodes(t);
    if !HasContent(t) {
      return None;
    }
    var paths, entries: seq<TarEntry> := ExportedPaths(t), [];
    for i := 0 to |paths|
      invariant AreNodes(t, paths) && AreNodes(t, paths[..i])
      invariant entries == TarOfAll(t, paths[..i])
    {
      OneMoreTar(t, paths, i);
      entries := entries + [TarOf(t, paths[i])];
    }
    assert paths[..|paths|] == paths;
    archive := Some(entries);
  }

  // ----- Unpacking an export -----

  predicate IsExported(p: Path) {
    p == [] || p[0] == "data" || p[0] == "config"
  }

  /** What of a user's directory an export holds. */
  function Part(t: Tree): Tree {
    map p | p in t && IsExported(p) :: t[p]
  }

  lemma ExportHasThePart(t: Tree, p: Path)
    requires IsTree(t)
    ensures p in ExportedPaths(t) <==> p != [] && p in Part(t)
  {
    WalkVisitsAll(t, ["data"], p);
    WalkVisitsAll(t, ["config"], p);
    if p != [] {
      assert p[..1] == [p[0]];
      assert Under(p, ["data"]) <==> p[0] == "data";
      assert Under(p, ["config"]) <==> p[0] == "config";
      if |p| == 1 {
        assert p[..1] == p;
      } else if p in t {
        AncestorsAreDirs(t, p, p[..1]);
      }
    }
  }

  /** Names the importer keeps: no separators in them and no clutter. */
  predicate Portable(p: Path) {
    p != [] && (forall c :: c in p ==> IsName(c)) && p[0] != "__MACOSX" && !IsNoise(p[|p| - 1])
  }

  function ItemAt(t: Tree, p: Path): Item
    requires p in t && p != []
  {
    if t[p] == Dir then MakeDir(p) else Write(p, t[p].data)
  }

  lemma ExportedEntryIsKept(t: Tree, p: Path)
    requires p in t && Portable(p)
    ensures !IsHeader(TarOf(t, p).flag) && ItemOf(OfTar(TarOf(t, p))) == ItemAt(t, p)
  {
    hide Join, Split, ValidateEntryName, IsMetadata;
    NamesAreCanonical(p);
    MetadataByComponents(p);
    JoinOfNames(p);
  }

  /** A node is kept at the import, as what it is, if and only if its path is portable. */
  lemma KeptIffPortable(t: Tree, p: Path)
    requires p in t && p != []
    ensures ItemOf(OfTar(TarOf(t, p))) == ItemAt(t, p) <==> Portable(p)
  {
    hide Join, ValidateEntryName, IsMetadata, Components;
    if Portable(p) {
      ExportedEntryIsKept(t, p);
    } else if ItemOf(OfTar(TarOf(t, p))) == ItemAt(t, p) {
      ItemsByComponents(OfTar(TarOf(t, p)));
    }
  }

  function ItemsAt(t: Tree, ps: seq<Path>): seq<Item>
    requires AreNodes(t, ps)
  {
    if ps == [] then [] else ItemsAt(t, ps[..|ps| - 1]) + [ItemAt(t, ps[|ps| - 1])]
  }

  lemma OneMoreEntry(entries: seq<TarEntry>, hdr: TarEntry)
    ensures TarItems(entries + [hdr]) == TarItems(entries) + [TarItem(hdr)]
  {
    hide TarItem;
  }

  lemma {:induction false} ExportedItems(t: Tree, ps: seq<Path>)
    requires AreNodes(t, ps) && forall i :: 0 <= i < |ps| ==> Portable(ps[i])
    ensures TarItems(TarOfAll(t, ps)) == ItemsAt(t, ps)
  {
    if ps == [] {
      assert TarItems([]) == [];
    } else {
      hide TarItems, TarItem, ItemAt, Portable;
      var before, p := ps[..|ps| - 1], ps[|ps| - 1];
      ExportedItems(t, before);
      ExportedEntryIsKept(t, p);
      OneMoreEntry(TarOfAll(t, before), TarOf(t, p));
      hide ItemOf, OfTar, IsHeader, TarOf;
    }
  }

  /** Everything in `a` is in `b`, and the same. */
  ghost predicate Agrees(a: Tree, b: Tree) {
    forall q :: q in a ==> q in b && a[q] == b[q]
  }

  lemma DirAgrees(a: Tree, t: Tree, p: Path)
    requires IsTree(a) && IsTree(t) && Agrees(a, t) && IsDir(t, p)
    ensures MkdirAll(a, p).Some? && IsTree(MkdirAll(a, p).value) && Agrees(MkdirAll(a, p).value, t)
  {
    forall q | Under(p, q) ensures IsDir(t, q) {
      if q != p {
        AncestorsAreDirs(t, p, q);
      }
    }
    MkdirAllExact(a, p);
  }

  /** One more exported node fits a disk that agrees with the tree so far. */
  lemma NodeUnpacks(t: Tree, d: Disk, p: Path)
    requires IsTree(t) && p in t && p != [] && IsTree(d.tree) && Agrees(d.tree, t)
    requires d.bytes + (if t[p] == Dir then 0 else |t[p].data|) < CAP
    ensures var r := Extract(CAP, d, ItemAt(t, p));
      r.Extracted? && Agrees(r.disk.tree, t)
  {
    DirAgrees(d.tree, t, if t[p] == Dir then p else Parent(p));
  }

  lemma ItemsBefore(t: Tree, ps: seq<Path>)
    requires AreNodes(t, ps) && ps != []
    ensures var items, before := ItemsAt(t, ps), ItemsAt(t, ps[..|ps| - 1]);
      && items == before + [ItemAt(t, ps[|ps| - 1])] && items[..|items| - 1] == before
      && Total(items) == Total(before) + if t[ps[|ps| - 1]] == Dir then 0 else |t[ps[|ps| - 1]].data|
  {
    var items, before := ItemsAt(t, ps), ItemsAt(t, ps[..|ps| - 1]);
    assert items[..|items| - 1] == before;
  }

  lemma {:induction false} ExportUnpacks(t: Tree, ps: seq<Path>)
    requires IsTree(t) && AreNodes(t, ps)
    requires Total(ItemsAt(t, ps)) < CAP
    ensures ExtractAll(CAP, ItemsAt(t, ps)).Extracted?
    ensures Agrees(ExtractAll(CAP, ItemsAt(t, ps)).disk.tree, t)
  {
    if ps != [] {
      var before := ps[..|ps| - 1];
      ItemsBefore(t, ps);
      ExportUnpacks(t, before);
      ExtractionIsFaithful(CAP, ItemsAt(t, before));
      NodeUnpacks(t, ExtractAll(CAP, ItemsAt(t, before)).disk, ps[|ps| - 1]);
    }
  }

  lemma {:induction false} ItemsAreNamed(t: Tree, ps: seq<Path>, q: Path)
    requires AreNodes(t, ps)
    ensures Named(ItemsAt(t, ps), q) <==> exists i :: 0 <= i < |ps| && Under(ps[i], q)
  {
    if ps != [] {
      var before, last := ps[..|ps| - 1], ps[|ps| - 1];
      ItemsBefore(t, ps);
      ItemsAreNamed(t, before, q);
      assert forall i :: 0 <= i < |before| ==> before[i] == ps[i];
    }
  }

  lemma UnpackedIsThePart(t: Tree, ps: seq<Path>, tree: Tree, q: Path)
    requires AreNodes(t, ps) && (forall p :: p in ps <==> p != [] && p in Part(t))
    requires NodeIs(ItemsAt(t, ps), tree, q) && (q in tree ==> q in t) && [] in t
    ensures q in tree <==> q in Part(t)
  {
    ItemsAreNamed(t, ps, q);
    if q in tree && q != [] {
      var i :| 0 <= i < |ps| && Under(ps[i], q);
      assert ps[i] in ps && q[0] == ps[i][0];
    }
    if q in Part(t) && q != [] {
      var i :| 0 <= i < |ps| && ps[i] == q;
      assert Under(ps[i], q);
    }
  }

  /** Unpacking an export gives back the exported part of the tree. */
  lemma ExportUnpacksToThePart(t: Tree)
    requires IsTree(t) && forall p :: p in Part(t) && p != [] ==> Portable(p)
    requires Total(TarItems(Archive(t))) < CAP
    ensures var r := ExtractAll(CAP, TarItems(Archive(t)));
      r.Extracted? && r.disk.tree == Part(t)
  {
    hide ExportedPaths, ExtractAll, ItemsAt, TarItems, TarOfAll, Total, NodeIs, Portable;
    var ps := ExportedPaths(t);
    ExportedPathsAreNodes(t);
    assert forall i :: 0 <= i < |ps| ==> ps[i] in ps;
    ExportedItems(t, ps);
    ExportUnpacks(t, ps);
    ExtractionIsFaithful(CAP, ItemsAt(t, ps));
    var tree := ExtractAll(CAP, ItemsAt(t, ps)).disk.tree;
    forall q ensures q in tree <==> q in Part(t) {
      assert NodeIs(ItemsAt(t, ps), tree, q);
      UnpackedIsThePart(t, ps, tree, q);
    }
  }
}
