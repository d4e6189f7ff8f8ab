/** Exporting a user's saves and importing them into an empty save directory. */
module RoundTrip {
  import opened Basics
  import opened FileTree
  import opened Extraction
  import opened Extractors
  import opened Export
  import opened SaveRoot
  import opened Install

  const SAVE_DIR: Path := ["data", "save"]
  const SEARCH_DEPTH := 5

  // ----- What the search finds can be installed -----

  /** The folders found are distinct directories, so the install loop may start. */
  lemma FoundSavesCanBeInstalled(staged: Tree, root: Path, saves: Tree)
    ensures Progress(Site(staged, saves, []), root, SaveDirsIn(staged, root))
  {
    var names := SaveDirsIn(staged, root);
    forall i, j | 0 <= i < j < |names| ensures names[i] != names[j] {
      LessIsTotal(names[i], names[j]);
    }
    assert forall n :: n in names ==> IsSave(staged, root, n);
  }

  /** `root` is the first directory in pre-order that holds a save folder. */
  ghost predicate IsFirstSaveRoot(t: Tree, root: Path) {
    Candidate(t, [], 5, root) && forall q :: Candidate(t, [], 5, q) && q != root ==> Before(root, q)
  }

  lemma FirstSaveRootIsFound(t: Tree, root: Path)
    requires IsTree(t) && IsFirstSaveRoot(t, root)
    ensures FindSaveRoot(t, [], SEARCH_DEPTH) == Root(root, SaveDirsIn(t, root))
  {
    FindsTheFirstSaveRoot(t, [], SEARCH_DEPTH);
    var found := FindSaveRoot(t, [], SEARCH_DEPTH);
    if found.dir != root {
      BeforeIsStrict(root, found.dir);
    }
  }

  // ----- Slots are handed out in order -----

  /** The names saves get in an empty directory, `taken` region slots being gone. */
  function Renamed(names: seq<string>, taken: nat): seq<string> {
    if names == [] then []
    else if IsRegion(names[0]) then [RegionName(taken + 1)] + Renamed(names[1..], taken + 1)
    else [names[0]] + Renamed(names[1..], taken)
  }

  function Regions(names: seq<string>): nat {
    if names == [] then 0 else (if IsRegion(names[0]) then 1 else 0) + Regions(names[1..])
  }

  /** Exactly the first `taken` slots are occupied. */
  ghost predicate Packed(saves: Tree, taken: nat) {
    forall n: nat :: Used(saves, n) <==> 1 <= n <= taken
  }

  lemma PackedTakesNext(saves: Tree, taken: nat)
    requires Packed(saves, taken) && taken + 1 < SLOT_LIMIT
    ensures LowestFree(saves, 1) == Some(taken + 1)
  {
    LowestFreeIsLowest(saves, 1);
    var next := taken + 1;
    assert !Used(saves, next);
    var found := LowestFree(saves, 1);
    assert found.Some? ==> (Used(saves, found.value) <==> 1 <= found.value <= taken);
  }

  lemma UsedByName(saves: Tree, n: nat)
    ensures Used(saves, n) <==> exists name :: Occupies(saves, name, n)
  {
  }

  /** Where one save is installed, a slot is occupied if and only if it was
      before or is the target's. */
  lemma OccupiedAfter(s: Site, root: Path, name: string, n: nat)
    requires IsDir(s.staged, root + [name]) && InstallOne(s, root, name, AllOk).ok
    ensures var target := Target(s.saves, name).value;
      Used(InstallOne(s, root, name, AllOk).site.saves, n) <==>
        (exists q :: q != target && Occupies(s.saves, q, n)) || (IsRegion(target) && RegionNumber(target) == n)
  {
    var target, saves := Target(s.saves, name).value, InstallOne(s, root, name, AllOk).site.saves;
    UsedByName(saves, n);
    InstalledIsThere(s, root, name);
    forall q | q != target ensures Occupies(saves, q, n) <==> Occupies(s.saves, q, n) {
      assert [q][0] != [target][0];
      OnlyTheTargetChanges(s, root, name, AllOk, [q]);
    }
    assert IsRegion(target) && RegionNumber(target) == n ==> Occupies(saves, target, n);
  }

  lemma StepKeepsPacked(s: Site, root: Path, name: string, taken: nat)
    requires IsDir(s.staged, root + [name]) && Packed(s.saves, taken) && (IsRegion(name) ==> taken + 1 < SLOT_LIMIT)
    ensures var r := InstallOne(s, root, name, AllOk);
      && r.ok
      && r.site.installed == s.installed + [if IsRegion(name) then RegionName(taken + 1) else name]
      && Packed(r.site.saves, if IsRegion(name) then taken + 1 else taken)
  {
    if IsRegion(name) {
      PackedTakesNext(s.saves, taken);
      RegionNameReadsBack(taken + 1);
    }
    var target := Target(s.saves, name).value;
    forall n: nat ensures Used(InstallOne(s, root, name, AllOk).site.saves, n) <==>
      1 <= n <= if IsRegion(name) then taken + 1 else taken {
      OccupiedAfter(s, root, name, n);
      UsedByName(s.saves, n);
      assert Used(s.saves, n) <==> 1 <= n <= taken;
      if Occupies(s.saves, target, n) {
        TargetIsNew(s.saves, name, target);
      }
    }
  }

  /** With nothing in the way, every save is installed, and regions are renamed
      in the order of the directory. */
  lemma {:induction false} RegionsAreRenamedInOrder(s: Site, root: Path, names: seq<string>, ios: seq<Io>, taken: nat)
    requires |ios| == |names| && Progress(s, root, names) && Packed(s.saves, taken)
    requires (forall i :: 0 <= i < |ios| ==> ios[i] == AllOk) && taken + Regions(names) < SLOT_LIMIT
    ensures var r := InstallAll(s, root, names, ios);
      r.ok && r.site.installed == s.installed + Renamed(names, taken)
    decreases |names|
  {
    if names == [] {
      assert s.installed + [] == s.installed;
    } else {
      assert names[0] in names;
      var next := if IsRegion(names[0]) then taken + 1 else taken;
      var r := InstallOne(s, root, names[0], AllOk);
      StepKeepsPacked(s, root, names[0], taken);
      StepProgresses(s, root, names, AllOk);
      RegionsAreRenamedInOrder(r.site, root, names[1..], ios[1..], next);
      Associative(s.installed, [if IsRegion(names[0]) then RegionName(next) else names[0]], Renamed(names[1..], next));
    }
  }

  lemma PackedIsFull(saves: Tree, taken: nat)
    requires Packed(saves, taken) && taken + 1 >= 10000
    ensures LowestFree(saves, 1).None?
  {
    hide Used, LowestFree;
    LowestFreeIsLowest(saves, 1);
  }

  /** With nothing else in the way, every save is installed if and only if there is
      a slot below 10000 for every region. */
  lemma {:induction false} InstalledIffSlots(s: Site, root: Path, names: seq<string>, ios: seq<Io>, taken: nat)
    requires |ios| == |names| && Progress(s, root, names) && Packed(s.saves, taken) && taken < 10000
    requires forall i :: 0 <= i < |ios| ==> ios[i] == AllOk
    ensures InstallAll(s, root, names, ios).ok <==> taken + Regions(names) < 10000
    decreases |names|
  {
    if names != [] {
      hide IsRegion, InstallOne, Packed, Progress, RegionName;
      var next := if IsRegion(names[0]) then taken + 1 else taken;
      if next >= 10000 {
        PackedIsFull(s.saves, taken);
        NoSlotIsExact(s, root, names[0], ios[0]);
      } else {
        assert names[0] in names;
        FirstIsStaged(s, root, names);
        StepKeepsPacked(s, root, names[0], taken);
        StepProgresses(s, root, names, AllOk);
        InstalledIffSlots(InstallOne(s, root, names[0], AllOk).site, root, names[1..], ios[1..], next);
      }
    }
  }

  lemma FirstIsStaged(s: Site, root: Path, names: seq<string>)
    requires names != [] && Progress(s, root, names)
    ensures IsDir(s.staged, root + [names[0]])
  {
    assert names[0] in names;
  }

  lemma EmptyIsPacked()
    ensures Packed(EMPTY, 0)
  {
  }

  /** Nothing but the installed saves appears. */
  lemma {:induction false} NothingElseAppears(s: Site, root: Path, names: seq<string>, ios: seq<Io>, p: Path)
    requires |ios| == |names| && InstallAll(s, root, names, ios).ok
    requires p == [] || p[0] !in InstallAll(s, root, names, ios).site.installed
    ensures SameAt(s.saves, InstallAll(s, root, names, ios).site.saves, p)
    ensures s.installed <= InstallAll(s, root, names, ios).site.installed
    decreases |names|
  {
    if names != [] {
      var r := InstallOne(s, root, names[0], ios[0]);
      NothingElseAppears(r.site, root, names[1..], ios[1..], p);
      var target := Target(s.saves, names[0]).value;
      assert target in r.site.installed;
      OnlyTheTargetChanges(s, root, names[0], ios[0], p);
    }
  }

  // ----- Any import -----

  datatype Imported = NotExtracted(error: Error) | NoSaves | Ended(root: Path, names: seq<string>, result: Result)

  /** An import of these entries next to `saves`; `answers` is what the file system
      says to each install. */
  function Import(items: seq<Item>, saves: Tree, answers: nat -> Io): Imported {
    match ExtractAll(CAP, items)
    case Failed(error, _) => NotExtracted(error)
    case Extracted(d) =>
      match FindSaveRoot(d.tree, [], SEARCH_DEPTH)
      case NoRoot => NoSaves
      case Root(root, names) =>
        Ended(root, names, InstallAll(Site(d.tree, saves, []), root, names,
          seq(|names|, i requires 0 <= i => answers(i))))
  }

  /** The folders of `root` are in the archive, and it is the first to hold any. */
  ghost predicate FoundFirst(t: Tree, root: Path, names: seq<string>) {
    IsFirstSaveRoot(t, root) && names == SaveDirsIn(t, root) && names != []
  }

  /** Every region directory, with all that is in it, is in both trees the same. */
  ghost predicate RegionsStay(saves: Tree, saves': Tree) {
    forall q, p :: IsRegion(q) && IsDir(saves, [q]) && Under(p, [q]) ==> SameAt(saves, saves', p)
  }

  lemma SearchIsExact(t: Tree)
    requires IsTree(t)
    ensures match FindSaveRoot(t, [], SEARCH_DEPTH)
      case NoRoot => forall q :: !Candidate(t, [], 5, q)
      case Root(root, names) => FoundFirst(t, root, names)
  {
    hide FindSaveRoot, Candidate, SaveDirsIn;
    FindsTheFirstSaveRoot(t, [], SEARCH_DEPTH);
  }

  lemma InstallIsSafe(s: Site, root: Path, names: seq<string>, ios: seq<Io>)
    requires |ios| == |names| && Progress(s, root, names)
    ensures var r := InstallAll(s, root, names, ios);
      InstalledExactly(s, root, names, r) && RegionsStay(s.saves, r.site.saves)
  {
    hide InstallAll, InstalledExactly, Progress, SameAt, IsRegion;
    InstallIsExact(s, root, names, ios);
    forall q, p | IsRegion(q) && IsDir(s.saves, [q]) && Under(p, [q])
      ensures SameAt(s.saves, InstallAll(s, root, names, ios).site.saves, p)
    {
      RegionsAreUntouched(s, root, names, ios, q, p);
    }
  }

  /** Whatever the archive, the saves that are there and the answers of the file
      system: an archive is turned down for its entries or for holding no save
      folder, and otherwise the first of the folders of its first save root are
      installed, unchanged and apart, all of them on success, and every region
      directory that was there is as it was. */
  lemma ImportIsExact(items: seq<Item>, saves: Tree, answers: nat -> Io)
    ensures match Import(items, saves, answers)
      case NotExtracted(_) => !(Sound(items) && Fits(CAP, items))
      case NoSaves =>
        && Sound(items) && Fits(CAP, items)
        && exists t :: Faithful(items, t) && forall q :: !Candidate(t, [], 5, q)
      case Ended(root, names, r) =>
        && Sound(items) && Fits(CAP, items)
        && RegionsStay(saves, r.site.saves)
        && exists t ::
          Faithful(items, t) && FoundFirst(t, root, names) && InstalledExactly(Site(t, saves, []), root, names, r)
  {
    hide ExtractAll, FindSaveRoot, InstallAll, Sound, Fits, Faithful, Candidate, FoundFirst, InstalledExactly,
      RegionsStay, Progress;
    ExtractedExactly(CAP, items);
    if ExtractAll(CAP, items).Extracted? {
      ExtractionIsFaithful(CAP, items);
      var t := ExtractAll(CAP, items).disk.tree;
      FaithfulIsTree(items, t);
      SearchIsExact(t);
      match FindSaveRoot(t, [], SEARCH_DEPTH)
      case NoRoot =>
      case Root(root, names) =>
        FoundIsInstallable(t, root, names, saves);
        InstallIsSafe(Site(t, saves, []), root, names, seq(|names|, i requires 0 <= i => answers(i)));
    }
  }

  lemma FoundIsInstallable(t: Tree, root: Path, names: seq<string>, saves: Tree)
    requires FoundFirst(t, root, names)
    ensures Progress(Site(t, saves, []), root, names)
  {
    FoundSavesCanBeInstalled(t, root, saves);
  }

  // ----- The round trip -----

  /** What the round trip asks of a user's directory: names that survive an
      archive, less than the byte budget in all, data/save the first directory
      in pre-order to hold save folders, and a region slot for each region. */
  ghost predicate Exportable(user: Tree) {
    && IsTree(user)
    && (forall p :: p in Part(user) && p != [] ==> Portable(p))
    && Total(TarItems(Archive(user))) < CAP
    && IsFirstSaveRoot(Part(user), SAVE_DIR)
    && Regions(SaveDirsIn(user, SAVE_DIR)) < SLOT_LIMIT
  }

  lemma PartIsTree(t: Tree)
    requires IsTree(t)
    ensures IsTree(Part(t))
  {
  }

  lemma PartHasTheSaves(t: Tree)
    ensures SaveDirsIn(Part(t), SAVE_DIR) == SaveDirsIn(t, SAVE_DIR)
    ensures forall r :: SameAt(t, Part(t), SAVE_DIR + r)
  {
    forall r ensures SameAt(t, Part(t), SAVE_DIR + r) {
      assert (SAVE_DIR + r)[0] == "data";
    }
    assert ChildNames(t, SAVE_DIR) == ChildNames(Part(t), SAVE_DIR);
    SameSelection(t, Part(t), ReadDir(t, SAVE_DIR));
  }

  lemma {:induction false} SameSelection(a: Tree, b: Tree, names: seq<string>)
    requires IsSorted(names) && forall r :: SameAt(a, b, SAVE_DIR + r)
    ensures Select(a, SAVE_DIR, names) == Select(b, SAVE_DIR, names)
  {
    if names != [] {
      SameSelection(a, b, names[1..]);
      assert SameAt(a, b, SAVE_DIR + [names[0]]);
      assert SAVE_DIR + [names[0]] + ["world.sav"] == SAVE_DIR + [names[0], "world.sav"];
      assert SameAt(a, b, SAVE_DIR + [names[0], "world.sav"]);
    }
  }

  lemma SavesAreContent(user: Tree)
    requires IsTree(user) && IsDir(Part(user), SAVE_DIR)
    ensures HasContent(user)
  {
    assert Parent(SAVE_DIR) == ["data"] && ["data"] + ["save"] == SAVE_DIR;
    assert ROOTS[0] == "data" && "save" in ReadDir(user, ["data"]);
  }

  /** The archive of a user's directory, imported where there are no saves: the
      save folders are found and all installed, regions renumbered in directory
      order and other names kept, each byte for byte, and nothing else appears. */
  lemma ExportThenImport(user: Tree, ios: seq<Io>)
    requires Exportable(user) && |ios| == |SaveDirsIn(user, SAVE_DIR)| && forall i :: 0 <= i < |ios| ==> ios[i] == AllOk
    ensures HasContent(user)
    ensures var unpacked := ExtractAll(CAP, TarItems(Archive(user)));
      && unpacked.Extracted?
      && var names := SaveDirsIn(user, SAVE_DIR);
      && FindSaveRoot(unpacked.disk.tree, [], SEARCH_DEPTH) == Root(SAVE_DIR, names)
      && var r := InstallAll(Site(unpacked.disk.tree, EMPTY, []), SAVE_DIR, names, ios);
      && r.ok && r.site.installed == Renamed(names, 0) && |r.site.installed| == |names|
      && (forall i :: 0 <= i < |names| ==>
        SameSubtree(user, SAVE_DIR + [names[i]], r.site.saves, [r.site.installed[i]]))
      && (forall p :: p in r.site.saves ==> p == [] || p[0] in r.site.installed)
  {
    SavesAreContent(user);
    ExportUnpacksToThePart(user);
    PartIsTree(user);
    PartHasTheSaves(user);
    FirstSaveRootIsFound(Part(user), SAVE_DIR);
    ImportIntoEmpty(user, ios);
  }

  lemma ImportIntoEmpty(user: Tree, ios: seq<Io>)
    requires Exportable(user) && |ios| == |SaveDirsIn(user, SAVE_DIR)| && forall i :: 0 <= i < |ios| ==> ios[i] == AllOk
    ensures var names := SaveDirsIn(user, SAVE_DIR);
      var r := InstallAll(Site(Part(user), EMPTY, []), SAVE_DIR, names, ios);
      && r.ok && r.site.installed == Renamed(names, 0) && |r.site.installed| == |names|
      && (forall i :: 0 <= i < |names| ==>
        SameSubtree(user, SAVE_DIR + [names[i]], r.site.saves, [r.site.installed[i]]))
      && (forall p :: p in r.site.saves ==> p == [] || p[0] in r.site.installed)
  {
    hide SaveDirsIn, Part, InstallAll, Renamed, Progress, Packed, Regions, IsTree, IsFirstSaveRoot;
    var names, s := SaveDirsIn(user, SAVE_DIR), Site(Part(user), EMPTY, []);
    var r := InstallAll(s, SAVE_DIR, names, ios);
    PartHasTheSaves(user);
    FoundSavesCanBeInstalled(Part(user), SAVE_DIR, EMPTY);
    EmptyIsPacked();
    RegionsAreRenamedInOrder(s, SAVE_DIR, names, ios, 0);
    InstallIsExact(s, SAVE_DIR, names, ios);
    assert s.installed + Renamed(names, 0) == Renamed(names, 0);
    forall i | 0 <= i < |names| ensures SameSubtree(user, SAVE_DIR + [names[i]], r.site.saves, [r.site.installed[i]]) {
      SaveInPart(user, SAVE_DIR, names[i], r.site.saves, r.site.installed[i]);
    }
    forall p | p in r.site.saves ensures p == [] || p[0] in r.site.installed {
      if p != [] && p[0] !in r.site.installed {
        NothingElseAppears(s, SAVE_DIR, names, ios, p);
      }
    }
  }

  lemma SaveInPart(user: Tree, root: Path, name: string, saves: Tree, t: string)
    requires root == SAVE_DIR && IsInstalledAs(Part(user), root, name, saves, t)
    ensures SameSubtree(user, root + [name], saves, [t])
  {
    hide Part, SaveDirsIn, IsRegion;
    PartHasTheSaves(user);
    forall r ensures SameFrom(user, root + [name], saves, [t], r) {
      assert SameFrom(Part(user), root + [name], saves, [t], r);
      assert root + [name] + r == SAVE_DIR + ([name] + r);
    }
  }
}
