/** Unpacking an uploaded archive under one budget of bytes. */
module Extraction {
  import opened Basics
  import opened Paths
  import opened FileTree

  /** maxImportExtractBytes */
  const CAP := 0x4000_0000

  /** An archive entry, whichever format it came in. */
  datatype Entry = DirEntry(name: string) | FileEntry(name: string, data: Bytes) | OtherEntry(name: string)

  datatype Error = BadName(name: NameError) | Unsupported | OverBudget | Conflict

  type ProperPath = p: Path | p != [] witness [""]

  /** What an entry asks for once its name is validated. */
  datatype Item =
    | Refuse(name: NameError)
    | Skip
    | MakeDir(path: ProperPath)
    | Write(path: ProperPath, data: Bytes)
    | Special(path: ProperPath)

  function ItemOf(e: Entry): Item {
    match ValidateEntryName(e.name)
    case Invalid(error) => Refuse(error)
    case Valid(clean) =>
      if clean == "." || clean == "" || IsMetadata(clean) then Skip
      else
        match e
        case DirEntry(_) => MakeDir(Split(clean))
        case FileEntry(_, data) => Write(Split(clean), data)
        case OtherEntry(_) => Special(Split(clean))
  }

  predicate IsClutter(parts: seq<string>) {
    parts != [] && (parts[0] == "__MACOSX" || IsNoise(parts[|parts| - 1]))
  }

  /** What an entry asks for, by the components its name leads to: never a place
      outside the destination, and nothing for the destination itself or clutter. */
  lemma ItemsByComponents(e: Entry)
    ensures var item := ItemOf(e);
      match ValidateEntryName(e.name)
      case Invalid(error) => item == Refuse(error)
      case Valid(clean) =>
        var parts := Components(clean);
        && (forall c :: c in parts ==> IsName(c))
        && (if parts == [] || IsClutter(parts) then item == Skip
          else !item.Skip? && !item.Refuse? && item.path == parts)
  {
    hide Split, Clean, IsMetadata, Normalised;
    if ValidateEntryName(e.name).Valid? {
      var clean := ValidateEntryName(e.name).clean;
      AcceptedNamesAreCanonical(e.name);
      AcceptedIsJoined(e.name);
      if clean != "." {
        MetadataByComponents(Components(clean));
      }
    }
  }

  datatype Disk = Disk(tree: Tree, files: nat, bytes: nat)

  datatype Outcome = Extracted(disk: Disk) | Failed(error: Error, tree: Tree)

  /** A copy of at most one byte over what is left of the budget, taken back when it is over. */
  function WriteLimited(cap: nat, d: Disk, p: Path, data: Bytes): Outcome {
    var limit := cap - d.bytes;
    if limit <= 0 then Failed(OverBudget, d.tree)
    else if IsDir(d.tree, p) then Failed(Conflict, d.tree)
    else if |data| > limit then Failed(OverBudget, d.tree - {p})
    else Extracted(Disk(d.tree[p := File(data)], d.files + 1, d.bytes + |data|))
  }

  function Extract(cap: nat, d: Disk, item: Item): Outcome {
    match item
    case Refuse(error) => Failed(BadName(error), d.tree)
    case Skip => Extracted(d)
    case MakeDir(p) =>
      var made := MkdirAll(d.tree, p);
      if made.None? then Failed(Conflict, d.tree) else Extracted(d.(tree := made.value))
    case Special(_) => Failed(Unsupported, d.tree)
    case Write(p, data) =>
      var made := MkdirAll(d.tree, Parent(p));
      if made.None? then Failed(Conflict, d.tree) else WriteLimited(cap, d.(tree := made.value), p, data)
  }

  const BLANK := Disk(EMPTY, 0, 0)

  function ExtractAll(cap: nat, items: seq<Item>): Outcome {
    if items == [] then Extracted(BLANK)
    else
      match ExtractAll(cap, items[..|items| - 1])
      case Failed(error, tree) => Failed(error, tree)
      case Extracted(d) => Extract(cap, d, items[|items| - 1])
  }

  // ----- What is on disk -----

  function Total(items: seq<Item>): nat {
    if items == [] then 0
    else
      var item := items[|items| - 1];
      Total(items[..|items| - 1]) + if item.Write? then |item.data| else 0
  }

  function Count(items: seq<Item>): nat {
    if items == [] then 0 else Count(items[..|items| - 1]) + if items[|items| - 1].Write? then 1 else 0
  }

  /** What was written last to a path. */
  function LastData(items: seq<Item>, p: Path): Option<Bytes> {
    if items == [] then None
    else
      var item := items[|items| - 1];
      if item.Write? && item.path == p then Some(item.data) else LastData(items[..|items| - 1], p)
  }

  predicate Names(item: Item, p: Path) {
    (item.MakeDir? || item.Write?) && Under(item.path, p)
  }

  /** Some item is at the path or below it. */
  predicate Named(items: seq<Item>, p: Path) {
    items != [] && (Names(items[|items| - 1], p) || Named(items[..|items| - 1], p))
  }

  ghost predicate NodeIs(items: seq<Item>, t: Tree, p: Path) {
    && (p in t <==> p == [] || Named(items, p))
    && (p in t ==> t[p] == match LastData(items, p) { case None => Dir case Some(data) => File(data) })
  }

  /** The extracted tree is what the items say: directories for every path an
      item is at or below, and in every file the data that came last. */
  ghost predicate Faithful(items: seq<Item>, t: Tree) {
    IsTree(t) && forall p :: NodeIs(items, t, p)
  }

  lemma OneMore(items: seq<Item>, item: Item, p: Path)
    ensures Named(items + [item], p) <==> Names(item, p) || Named(items, p)
    ensures LastData(items + [item], p) == if item.Write? && item.path == p then Some(item.data) else LastData(items, p)
  {
    assert (items + [item])[..|items|] == items;
  }

  lemma {:induction false} WrittenIsNamed(items: seq<Item>, p: Path)
    requires LastData(items, p).Some?
    ensures Named(items, p)
  {
    var item := items[|items| - 1];
    if !(item.Write? && item.path == p) {
      WrittenIsNamed(items[..|items| - 1], p);
    }
  }

  lemma DirStep(items: seq<Item>, before: Tree, p: ProperPath)
    requires Faithful(items, before) && MkdirAll(before, p).Some?
    ensures Faithful(items + [MakeDir(p)], MkdirAll(before, p).value)
  {
    MkdirAllExact(before, p);
    var t := MkdirAll(before, p).value;
    forall q ensures NodeIs(items + [MakeDir(p)], t, q) {
      assert NodeIs(items, before, q);
      OneMore(items, MakeDir(p), q);
      if LastData(items, q).Some? {
        WrittenIsNamed(items, q);
      }
    }
  }

  lemma FileKeepsTree(t: Tree, p: ProperPath, data: Bytes)
    requires IsTree(t) && IsDir(t, Parent(p)) && !IsDir(t, p)
    ensures IsTree(t[p := File(data)])
  {
  }

  lemma FileStep(items: seq<Item>, before: Tree, p: ProperPath, data: Bytes)
    requires Faithful(items, before)
    requires MkdirAll(before, Parent(p)).Some? && !IsDir(MkdirAll(before, Parent(p)).value, p)
    ensures Faithful(items + [Write(p, data)], MkdirAll(before, Parent(p)).value[p := File(data)])
  {
    MkdirAllExact(before, Parent(p));
    var made := MkdirAll(before, Parent(p)).value;
    assert Under(Parent(p), Parent(p)) && IsDir(made, Parent(p));
    FileKeepsTree(made, p, data);
    var t := made[p := File(data)];
    forall q ensures NodeIs(items + [Write(p, data)], t, q) {
      assert NodeIs(items, before, q);
      OneMore(items, Write(p, data), q);
      UnderParent(p, q);
      if LastData(items, q).Some? {
        WrittenIsNamed(items, q);
      }
    }
  }

  /** Extraction gives exactly the tree its entries describe, and its counters
      count the accepted files and their bytes. */
  lemma {:induction false} ExtractionIsFaithful(cap: nat, items: seq<Item>)
    requires ExtractAll(cap, items).Extracted?
    ensures var d := ExtractAll(cap, items).disk;
      Faithful(items, d.tree) && d.files == Count(items) && d.bytes == Total(items) && d.bytes <= cap
  {
    if items != [] {
      var before, item := items[..|items| - 1], items[|items| - 1];
      ExtractionIsFaithful(cap, before);
      assert items == before + [item];
      var d := ExtractAll(cap, before).disk;
      match item
      case Skip =>
        forall q ensures NodeIs(items, d.tree, q) {
          assert NodeIs(before, d.tree, q);
          OneMore(before, Skip, q);
        }
      case MakeDir(p) => DirStep(before, d.tree, p);
      case Write(p, data) => FileStep(before, d.tree, p, data);
    }
  }

  // ----- The budget -----

  /** The size of the last file. */
  function LastSize(items: seq<Item>): nat {
    if items == [] then 0
    else if items[|items| - 1].Write? then |items[|items| - 1].data|
    else LastSize(items[..|items| - 1])
  }

  /** A budget that is used up exactly must be used up by the last file, for
      nothing may be written once it is gone, not even an empty file. */
  predicate Fits(cap: nat, items: seq<Item>) {
    Total(items) < cap || (Total(items) == cap && LastSize(items) > 0)
  }

  /** An archive that is otherwise fine is extracted if and only if it fits. */
  lemma {:induction false} BudgetIsExact(cap: nat, roomy: nat, items: seq<Item>)
    requires 0 < cap && Total(items) < roomy && ExtractAll(roomy, items).Extracted?
    ensures ExtractAll(cap, items).Extracted? <==> Fits(cap, items)
    ensures ExtractAll(cap, items).Extracted? ==> ExtractAll(cap, items) == ExtractAll(roomy, items)
    ensures ExtractAll(cap, items).Failed? ==> ExtractAll(cap, items).error == OverBudget
  {
    if items != [] {
      BudgetIsExact(cap, roomy, items[..|items| - 1]);
      ExtractionIsFaithful(roomy, items[..|items| - 1]);
    }
  }

  lemma {:induction false} BelowTheCapNeverOverBudget(cap: nat, items: seq<Item>)
    requires Total(items) < cap
    ensures ExtractAll(cap, items).Failed? ==> ExtractAll(cap, items).error != OverBudget
  {
    if items != [] {
      BelowTheCapNeverOverBudget(cap, items[..|items| - 1]);
      if ExtractAll(cap, items[..|items| - 1]).Extracted? {
        ExtractionIsFaithful(cap, items[..|items| - 1]);
      }
    }
  }

  // ----- Exactly which archives are taken -----

  /** A file is wanted where another entry needs a directory. */
  predicate Clash(a: Item, b: Item) {
    && a.Write?
    && ((b.MakeDir? && Under(b.path, a.path)) || (b.Write? && b.path != a.path && Under(b.path, a.path)))
  }

  predicate IsAllowed(item: Item) {
    !item.Refuse? && !item.Special?
  }

  /** No entry has a bad name or an unsupported type, and no two of them clash. */
  ghost predicate Sound(items: seq<Item>) {
    && (forall i :: 0 <= i < |items| ==> IsAllowed(items[i]))
    && forall i, j :: 0 <= i < |items| && 0 <= j < |items| ==> !Clash(items[i], items[j])
  }

  /** The item goes with all before it. */
  ghost predicate GoesWith(items: seq<Item>, item: Item) {
    IsAllowed(item) && forall i :: 0 <= i < |items| ==> !Clash(items[i], item) && !Clash(item, items[i])
  }

  lemma SoundStep(items: seq<Item>, item: Item)
    ensures Sound(items + [item]) <==> Sound(items) && GoesWith(items, item)
  {
    var all := items + [item];
    assert !Clash(item, item);
    if Sound(all) {
      assert forall i :: 0 <= i < |items| ==> all[i] == items[i];
      assert all[|items|] == item;
    }
  }

  lemma {:induction false} LastDataIsWritten(items: seq<Item>, p: Path)
    ensures LastData(items, p).Some? <==> exists i :: 0 <= i < |items| && items[i].Write? && items[i].path == p
  {
    if items != [] {
      var n := |items| - 1;
      LastDataIsWritten(items[..n], p);
      if i :| 0 <= i < |items| && items[i].Write? && items[i].path == p {
        assert i < n ==> items[..n][i] == items[i];
      }
    }
  }

  lemma {:induction false} NamedIsNamed(items: seq<Item>, p: Path)
    ensures Named(items, p) <==> exists i :: 0 <= i < |items| && Names(items[i], p)
  {
    if items != [] {
      var n := |items| - 1;
      NamedIsNamed(items[..n], p);
      if i :| 0 <= i < |items| && Names(items[i], p) {
        assert i < n ==> items[..n][i] == items[i];
      }
    }
  }

  /** On an extracted tree a file is where one was written. */
  lemma FileIsWritten(items: seq<Item>, t: Tree, q: Path)
    requires Faithful(items, t)
    ensures q in t && t[q] != Dir <==> exists i :: 0 <= i < |items| && items[i].Write? && items[i].path == q
  {
    hide Named, LastData;
    assert NodeIs(items, t, q);
    LastDataIsWritten(items, q);
    if LastData(items, q).Some? {
      WrittenIsNamed(items, q);
    }
  }

  /** A directory can be made unless a file was written at it or above. */
  lemma DirFits(items: seq<Item>, t: Tree, p: Path)
    requires Faithful(items, t)
    ensures MkdirAll(t, p).Some? <==> forall i :: 0 <= i < |items| && items[i].Write? ==> !Under(p, items[i].path)
  {
    hide MkdirAll, NodeIs;
    MkdirAllExact(t, p);
    forall i | 0 <= i < |items| && items[i].Write? && Under(p, items[i].path) ensures !NoFileAbove(t, p) {
      FileIsWritten(items, t, items[i].path);
    }
    if !NoFileAbove(t, p) {
      var q :| Under(p, q) && q in t && t[q] != Dir;
      FileIsWritten(items, t, q);
    }
  }

  lemma MakeDirFits(items: seq<Item>, t: Tree, p: ProperPath)
    requires Faithful(items, t)
    ensures MkdirAll(t, p).Some? <==> GoesWith(items, MakeDir(p))
  {
    hide MkdirAll, Faithful;
    DirFits(items, t, p);
    assert forall i :: 0 <= i < |items| ==>
      (Clash(items[i], MakeDir(p)) <==> items[i].Write? && Under(p, items[i].path));
  }

  /** No directory stands where a file is to be written, once those above it are made. */
  predicate FileFits(t: Tree, p: ProperPath) {
    MkdirAll(t, Parent(p)).Some? && !IsDir(MkdirAll(t, Parent(p)).value, p)
  }

  lemma MadeAbove(t: Tree, p: ProperPath)
    requires IsTree(t) && MkdirAll(t, Parent(p)).Some?
    ensures IsDir(MkdirAll(t, Parent(p)).value, p) <==> IsDir(t, p)
  {
    hide MkdirAll;
    MkdirAllExact(t, Parent(p));
  }

  /** A path is a directory if an item is at or below it and none wrote it. */
  lemma DirIsNamed(items: seq<Item>, t: Tree, p: ProperPath)
    requires Faithful(items, t)
    ensures IsDir(t, p) <==>
              (exists i :: 0 <= i < |items| && Names(items[i], p))
              && forall i :: 0 <= i < |items| && items[i].Write? ==> items[i].path != p
  {
    hide Named, LastData;
    assert NodeIs(items, t, p);
    NamedIsNamed(items, p);
    LastDataIsWritten(items, p);
  }

  lemma WriteFits(items: seq<Item>, t: Tree, p: ProperPath, data: Bytes)
    requires Faithful(items, t) && Sound(items)
    ensures FileFits(t, p) <==> GoesWith(items, Write(p, data))
  {
    hide MkdirAll, Faithful, IsTree;
    DirFits(items, t, Parent(p));
    DirIsNamed(items, t, p);
    if MkdirAll(t, Parent(p)).Some? {
      assert IsTree(t) by { FaithfulIsTree(items, t); }
      MadeAbove(t, p);
    }
    var item := Write(p, data);
    forall i | 0 <= i < |items| ensures Clash(items[i], item) <==> items[i].Write? && Under(Parent(p), items[i].path) {
      if items[i].Write? {
        UnderParent(p, items[i].path);
        ParentIsNotUnder(p, items[i].path);
      }
    }
    forall i | 0 <= i < |items| ensures Clash(item, items[i]) <==>
      Names(items[i], p) && !(items[i].Write? && items[i].path == p) {
    }
  }

  lemma FaithfulIsTree(items: seq<Item>, t: Tree)
    requires Faithful(items, t)
    ensures IsTree(t)
  {
  }

  lemma ParentIsNotUnder(p: ProperPath, q: Path)
    ensures Under(Parent(p), q) ==> q != p
  {
  }

  /** With enough budget, the next item is taken if and only if it goes with
      those before it. */
  lemma ItemFits(cap: nat, items: seq<Item>, d: Disk, item: Item)
    requires Faithful(items, d.tree) && Sound(items)
    requires d.bytes + (if item.Write? then |item.data| else 0) < cap
    ensures Extract(cap, d, item).Extracted? <==> GoesWith(items, item)
  {
    hide MkdirAll, Faithful, Sound;
    match item
    case Refuse(_) =>
    case Skip =>
    case MakeDir(p) => MakeDirFits(items, d.tree, p);
    case Special(_) =>
    case Write(p, data) => WriteFits(items, d.tree, p, data);
  }

  /** An archive within the budget is extracted if and only if it is sound. */
  lemma {:induction false} ExtractedIffSound(cap: nat, items: seq<Item>)
    requires Total(items) < cap
    ensures ExtractAll(cap, items).Extracted? <==> Sound(items)
  {
    hide Extract, Faithful, Sound, GoesWith;
    if items == [] {
      assert Sound(items) by { NothingIsSound(); }
    } else {
      var before, item := items[..|items| - 1], items[|items| - 1];
      assert items == before + [item];
      ExtractedIffSound(cap, before);
      SoundStep(before, item);
      if Sound(before) {
        ExtractionIsFaithful(cap, before);
        ItemFits(cap, before, ExtractAll(cap, before).disk, item);
      }
    }
  }

  lemma NothingIsSound()
    ensures Sound([])
  {
  }

  /** What a smaller budget lets through a larger one does. */
  lemma {:induction false} ExtractedWithMore(cap: nat, roomy: nat, items: seq<Item>)
    requires cap <= roomy && ExtractAll(cap, items).Extracted?
    ensures ExtractAll(roomy, items) == ExtractAll(cap, items)
  {
    if items != [] {
      ExtractedWithMore(cap, roomy, items[..|items| - 1]);
    }
  }

  /** An archive is extracted if and only if every name is good, every type
      supported, no two entries clash, and it fits the budget. */
  lemma ExtractedExactly(cap: nat, items: seq<Item>)
    requires 0 < cap
    ensures ExtractAll(cap, items).Extracted? <==> Sound(items) && Fits(cap, items)
  {
    hide ExtractAll, Sound, Fits;
    var roomy := Total(items) + cap + 1;
    ExtractedIffSound(roomy, items);
    if ExtractAll(cap, items).Extracted? {
      ExtractedWithMore(cap, roomy, items);
    }
    if ExtractAll(roomy, items).Extracted? {
      BudgetIsExact(cap, roomy, items);
    }
  }

  // ----- Bytes on disk -----

  function Size(n: Node): nat {
    if n.File? then |n.data| else 0
  }

  ghost function DiskBytes(t: Tree): nat {
    if t == map[] then 0 else var p :| p in t; Size(t[p]) + DiskBytes(t - {p})
  }

  lemma {:induction false} DiskBytesWithout(t: Tree, p: Path)
    requires p in t
    ensures DiskBytes(t) == Size(t[p]) + DiskBytes(t - {p})
  {
    var q :| q in t && DiskBytes(t) == Size(t[q]) + DiskBytes(t - {q});
    if q != p {
      DiskBytesWithout(t - {q}, p);
      DiskBytesWithout(t - {p}, q);
      assert t - {q} - {p} == t - {p} - {q};
    }
  }

  lemma DiskBytesWrite(t: Tree, p: Path, n: Node)
    ensures DiskBytes(t[p := n]) == Size(n) + DiskBytes(t - {p})
    ensures DiskBytes(t - {p}) <= DiskBytes(t)
  {
    DiskBytesWithout(t[p := n], p);
    assert t[p := n] - {p} == t - {p};
    if p in t {
      DiskBytesWithout(t, p);
    } else {
      assert t - {p} == t;
    }
  }

  /** The bytes on disk are those of the files, and no others. */
  lemma DiskBytesAreFileSizes(t: Tree, p: Path, data: Bytes)
    requires p !in t
    ensures DiskBytes(t[p := File(data)]) == DiskBytes(t) + |data|
    ensures DiskBytes(t[p := Dir]) == DiskBytes(t)
    ensures DiskBytes(map[]) == 0
  {
    DiskBytesWrite(t, p, File(data));
    DiskBytesWrite(t, p, Dir);
    assert t - {p} == t;
  }

  lemma {:induction false} MkdirAllAddsNoBytes(t: Tree, p: Path)
    ensures MkdirAll(t, p).Some? ==> DiskBytes(MkdirAll(t, p).value) == DiskBytes(t)
    decreases |p|
  {
    if p !in t && p != [] {
      MkdirAllAddsNoBytes(t, Parent(p));
      if MkdirAll(t, Parent(p)).Some? {
        var t1 := MkdirAll(t, Parent(p)).value;
        DiskBytesWrite(t1, p, Dir);
        MkdirAllKeepsOut(t, Parent(p), p);
        assert t1 - {p} == t1;
      }
    }
  }

  lemma {:induction false} MkdirAllKeepsOut(t: Tree, p: Path, q: Path)
    requires q !in t && |q| > |p| && MkdirAll(t, p).Some?
    ensures q !in MkdirAll(t, p).value
    decreases |p|
  {
    if p !in t && p != [] {
      MkdirAllKeepsOut(t, Parent(p), q);
    }
  }

  /** The disk never holds more than the bytes counted, whatever entries it takes. */
  lemma {:induction false} DiskIsWithinBudget(cap: nat, items: seq<Item>)
    ensures match ExtractAll(cap, items)
      case Extracted(d) => DiskBytes(d.tree) <= d.bytes <= cap
      case Failed(_, t) => DiskBytes(t) <= cap
  {
    if items == [] {
      DiskBytesWithout(EMPTY, []);
      assert EMPTY - {[]} == map[];
    } else {
      DiskIsWithinBudget(cap, items[..|items| - 1]);
      if ExtractAll(cap, items[..|items| - 1]).Extracted? {
        ItemKeepsBudget(cap, ExtractAll(cap, items[..|items| - 1]).disk, items[|items| - 1]);
      }
    }
  }

  lemma ItemKeepsBudget(cap: nat, d: Disk, item: Item)
    requires DiskBytes(d.tree) <= d.bytes <= cap
    ensures match Extract(cap, d, item)
      case Extracted(d') => DiskBytes(d'.tree) <= d'.bytes <= cap
      case Failed(_, t) => DiskBytes(t) <= cap
  {
    match item
    case MakeDir(p) => MkdirAllAddsNoBytes(d.tree, p);
    case Write(p, data) =>
      MkdirAllAddsNoBytes(d.tree, Parent(p));
      if MkdirAll(d.tree, Parent(p)).Some? {
        DiskBytesWrite(MkdirAll(d.tree, Parent(p)).value, p, File(data));
      }
    case _ =>
  }

  /** While a file is being copied the disk is at most one byte over the cap:
      `copied` is what the copy, cut one byte over the budget, has written so far. */
  lemma CopyIsAtMostOneOver(cap: nat, items: seq<Item>, p: ProperPath, data: Bytes, copied: nat)
    requires ExtractAll(cap, items).Extracted? && MkdirAll(ExtractAll(cap, items).disk.tree, Parent(p)).Some?
    requires copied <= |data| && copied <= cap - ExtractAll(cap, items).disk.bytes + 1
    ensures DiskBytes(MkdirAll(ExtractAll(cap, items).disk.tree, Parent(p)).value[p := File(data[..copied])]) <= cap + 1
  {
    DiskIsWithinBudget(cap, items);
    MkdirAllAddsNoBytes(ExtractAll(cap, items).disk.tree, Parent(p));
    DiskBytesWrite(MkdirAll(ExtractAll(cap, items).disk.tree, Parent(p)).value, p, File(data[..copied]));
  }

  /** The most the disk holds while an item is dealt with: a copy that is started
      is cut one byte over the budget. */
  ghost function HeldDuring(cap: nat, d: Disk, item: Item): nat {
    if item.Write? && FileFits(d.tree, item.path) && d.bytes < cap then
      DiskBytes(MkdirAll(d.tree, Parent(item.path)).value[item.path := File(Cut(item.data, cap - d.bytes + 1))])
    else
      0
  }

  function Cut(data: Bytes, limit: nat): Bytes {
    if |data| > limit then data[..limit] else data
  }

  /** The most the disk holds at any moment of an extraction. */
  ghost function MostHeld(cap: nat, items: seq<Item>): nat {
    if items == [] then 0
    else
      var before := items[..|items| - 1];
      var most := MostHeld(cap, before);
      if ExtractAll(cap, before).Failed? then most
      else Max(most, HeldDuring(cap, ExtractAll(cap, before).disk, items[|items| - 1]))
  }

  function Max(a: nat, b: nat): nat {
    if a >= b then a else b
  }

  /** It covers every moment: the tree after each item, and any part of a copy. */
  lemma {:induction false} MostHeldCovers(cap: nat, items: seq<Item>, i: nat, copied: nat)
    requires i < |items| && ExtractAll(cap, items[..i]).Extracted? && items[i].Write? && copied <= |items[i].data|
    requires var d := ExtractAll(cap, items[..i]).disk;
      FileFits(d.tree, items[i].path) && d.bytes < cap && copied <= cap - d.bytes + 1
    ensures var d := ExtractAll(cap, items[..i]).disk;
      var made := MkdirAll(d.tree, Parent(items[i].path)).value;
      DiskBytes(made[items[i].path := File(items[i].data[..copied])]) <= MostHeld(cap, items)
  {
    hide Extract, ExtractAll, MkdirAll, DiskBytes;
    var n := |items| - 1;
    if i < n {
      assert items[..n][..i] == items[..i] && items[..n][i] == items[i];
      MostHeldCovers(cap, items[..n], i, copied);
    } else {
      var d, p := ExtractAll(cap, items[..i]).disk, items[i].path;
      var made := MkdirAll(d.tree, Parent(p)).value;
      DiskBytesWrite(made, p, File(items[i].data[..copied]));
      DiskBytesWrite(made, p, File(Cut(items[i].data, cap - d.bytes + 1)));
    }
  }

  lemma ItemIsHeld(cap: nat, d: Disk, item: Item)
    ensures match Extract(cap, d, item)
      case Extracted(d') => DiskBytes(d'.tree) <= Max(DiskBytes(d.tree), HeldDuring(cap, d, item))
      case Failed(_, t) => DiskBytes(t) <= DiskBytes(d.tree)
  {
    match item
    case MakeDir(p) => MkdirAllAddsNoBytes(d.tree, p);
    case Write(p, data) =>
      MkdirAllAddsNoBytes(d.tree, Parent(p));
      if MkdirAll(d.tree, Parent(p)).Some? {
        DiskBytesWrite(MkdirAll(d.tree, Parent(p)).value, p, File(data));
      }
    case _ =>
  }

  function TreeOf(r: Outcome): Tree {
    match r
    case Extracted(d) => d.tree
    case Failed(_, t) => t
  }

  lemma {:induction false} MostHeldCoversTree(cap: nat, items: seq<Item>)
    ensures DiskBytes(TreeOf(ExtractAll(cap, items))) <= MostHeld(cap, items)
  {
    hide Extract, HeldDuring, DiskBytes;
    if items == [] {
      EmptyHoldsNothing();
    } else {
      var before := items[..|items| - 1];
      MostHeldCoversTree(cap, before);
      if ExtractAll(cap, before).Extracted? {
        ItemIsHeld(cap, ExtractAll(cap, before).disk, items[|items| - 1]);
      }
    }
  }

  lemma EmptyHoldsNothing()
    ensures DiskBytes(EMPTY) == 0
  {
    DiskBytesWithout(EMPTY, []);
    assert EMPTY - {[]} == map[];
  }

  /** The disk is never more than one byte over the cap. */
  lemma {:induction false} MostHeldIsOneOver(cap: nat, items: seq<Item>)
    ensures MostHeld(cap, items) <= cap + 1
  {
    hide Extract, ExtractAll, DiskBytes, MkdirAll;
    if items != [] {
      var before, item := items[..|items| - 1], items[|items| - 1];
      MostHeldIsOneOver(cap, before);
      if ExtractAll(cap, before).Extracted? && item.Write? {
        var d := ExtractAll(cap, before).disk;
        DiskIsWithinBudget(cap, before);
        MkdirAllAddsNoBytes(d.tree, Parent(item.path));
        if FileFits(d.tree, item.path) && d.bytes < cap {
          DiskBytesWrite(MkdirAll(d.tree, Parent(item.path)).value, item.path, File(Cut(item.data, cap - d.bytes + 1)));
        }
      }
    }
  }

  // ----- From the entries of an archive -----

  /** A place below the destination an accepted name leads to, other than clutter. */
  predicate LandsAt(name: string, p: Path) {
    match ValidateEntryName(name)
    case Invalid(_) => false
    case Valid(clean) => Components(clean) == p && p != [] && !IsClutter(p)
  }

  predicate HasGoodName(name: string) {
    ValidateEntryName(name).Valid?
  }

  /** What an entry asks for, by its kind, its name and its data. */
  lemma ItemIsExact(e: Entry)
    ensures var item := ItemOf(e);
      && (item.Refuse? <==> !HasGoodName(e.name))
      && (forall p: ProperPath, data :: item == Write(p, data) <==>
        e.FileEntry? && LandsAt(e.name, p) && e.data == data)
      && (forall p: ProperPath :: item == MakeDir(p) <==> e.DirEntry? && LandsAt(e.name, p))
      && (forall p: ProperPath :: item == Special(p) <==> e.OtherEntry? && LandsAt(e.name, p))
  {
    hide ValidateEntryName, Split, IsMetadata, Components;
    ItemsByComponents(e);
    ItemKeepsKind(e);
  }

  lemma ItemKeepsKind(e: Entry)
    ensures var item := ItemOf(e);
      && (item.Refuse? || item.Skip? || (item.Write? <==> e.FileEntry?))
      && (item.Refuse? || item.Skip? || (item.MakeDir? <==> e.DirEntry?))
      && (item.Write? ==> item.data == e.data)
  {
    hide ValidateEntryName, Split, IsMetadata;
  }

  /** Item `i` is the last to write to `p`. */
  predicate WritesLast(items: seq<Item>, i: int, p: Path) {
    && 0 <= i < |items| && items[i].Write? && items[i].path == p
    && forall j :: i < j < |items| && items[j].Write? ==> items[j].path != p
  }

  lemma {:induction false} LastDataIsExact(items: seq<Item>, p: Path, data: Bytes)
    ensures LastData(items, p) == Some(data) <==> exists i :: WritesLast(items, i, p) && items[i].data == data
  {
    if items != [] {
      var n := |items| - 1;
      LastDataIsExact(items[..n], p, data);
      if items[n].Write? && items[n].path == p {
        assert WritesLast(items, n, p);
      } else {
        forall i ensures WritesLast(items, i, p) <==> WritesLast(items[..n], i, p) {
        }
      }
    }
  }

  /** An extracted file holds what was written to it last. */
  lemma ExtractedFile(cap: nat, items: seq<Item>, p: Path, data: Bytes)
    requires ExtractAll(cap, items).Extracted?
    ensures var t := ExtractAll(cap, items).disk.tree;
      p in t && t[p] == File(data) <==> exists i :: WritesLast(items, i, p) && items[i].data == data
  {
    hide ExtractAll, Named, LastData, IsTree, WritesLast;
    ExtractionIsFaithful(cap, items);
    assert NodeIs(items, ExtractAll(cap, items).disk.tree, p);
    LastDataIsExact(items, p, data);
    if LastData(items, p).Some? {
      WrittenIsNamed(items, p);
    }
  }

  /** Directories are at and above everything made or written. */
  lemma ExtractedNode(cap: nat, items: seq<Item>, p: Path)
    requires ExtractAll(cap, items).Extracted?
    ensures p in ExtractAll(cap, items).disk.tree <==> p == [] || exists i :: 0 <= i < |items| && Names(items[i], p)
  {
    hide ExtractAll, Named, LastData, IsTree;
    ExtractionIsFaithful(cap, items);
    assert NodeIs(items, ExtractAll(cap, items).disk.tree, p);
    NamedIsNamed(items, p);
  }

  /** Every error is true of the archive. */
  lemma {:induction false} ErrorsAreTrue(cap: nat, items: seq<Item>)
    requires ExtractAll(cap, items).Failed? && 0 < cap
    ensures match ExtractAll(cap, items).error
      case BadName(error) => Refuse(error) in items
      case Unsupported => exists p :: Special(p) in items
      case OverBudget => !Fits(cap, items)
      case Conflict => exists i, j :: 0 <= i < |items| && 0 <= j < |items| && Clash(items[i], items[j])
  {
    hide Extract, Fits, Clash;
    var n := |items| - 1;
    if ExtractAll(cap, items[..n]).Failed? {
      ErrorsAreTrue(cap, items[..n]);
      ErrorsLast(cap, items);
    } else {
      hide ExtractAll;
      ExtractionIsFaithful(cap, items[..n]);
      ErrorIsTrue(cap, items);
    }
  }

  lemma FitsPrefix(cap: nat, items: seq<Item>)
    requires items != [] && Fits(cap, items) && 0 < cap
    ensures Fits(cap, items[..|items| - 1])
  {
  }

  lemma ErrorsLast(cap: nat, items: seq<Item>)
    requires items != [] && 0 < cap
    ensures !Fits(cap, items[..|items| - 1]) ==> !Fits(cap, items)
    ensures forall x :: x in items[..|items| - 1] ==> x in items
  {
    hide Fits;
    if Fits(cap, items) {
      FitsPrefix(cap, items);
    }
  }

  lemma ErrorIsTrue(cap: nat, items: seq<Item>)
    requires items != [] && ExtractAll(cap, items[..|items| - 1]).Extracted? && ExtractAll(cap, items).Failed?
    requires var d := ExtractAll(cap, items[..|items| - 1]).disk;
      Faithful(items[..|items| - 1], d.tree) && d.bytes == Total(items[..|items| - 1]) <= cap
    ensures match ExtractAll(cap, items).error
      case BadName(error) => Refuse(error) in items
      case Unsupported => exists p :: Special(p) in items
      case OverBudget => !Fits(cap, items)
      case Conflict => exists i, j :: 0 <= i < |items| && 0 <= j < |items| && Clash(items[i], items[j])
  {
    hide MkdirAll, Faithful, IsTree, Clash;
    var n := |items| - 1;
    var d, item := ExtractAll(cap, items[..n]).disk, items[n];
    assert item in items;
    match item
    case Refuse(_) =>
    case Special(_) =>
    case MakeDir(p) => MakeDirClashes(items, d.tree, p);
    case Write(p, data) =>
      if MkdirAll(d.tree, Parent(p)).None? || IsDir(MkdirAll(d.tree, Parent(p)).value, p) {
        WriteClashes(items, d.tree, p);
      }
  }

  lemma MakeDirClashes(items: seq<Item>, t: Tree, p: ProperPath)
    requires items != [] && items[|items| - 1] == MakeDir(p) && Faithful(items[..|items| - 1], t)
      && MkdirAll(t, p).None?
    ensures exists i, j :: 0 <= i < |items| && 0 <= j < |items| && Clash(items[i], items[j])
  {
    hide MkdirAll, Faithful;
    var n := |items| - 1;
    DirFits(items[..n], t, p);
    var i :| 0 <= i < n && items[..n][i].Write? && Under(p, items[..n][i].path);
    assert Clash(items[i], items[n]);
  }

  lemma WriteClashes(items: seq<Item>, t: Tree, p: ProperPath)
    requires items != [] && items[|items| - 1].Write? && items[|items| - 1].path == p
      && Faithful(items[..|items| - 1], t)
    requires !FileFits(t, p)
    ensures exists i, j :: 0 <= i < |items| && 0 <= j < |items| && Clash(items[i], items[j])
  {
    hide MkdirAll, Faithful, IsTree;
    var n := |items| - 1;
    DirFits(items[..n], t, Parent(p));
    if MkdirAll(t, Parent(p)).None? {
      var i :| 0 <= i < n && items[..n][i].Write? && Under(Parent(p), items[..n][i].path);
      UnderParent(p, items[i].path);
      ParentIsNotUnder(p, items[i].path);
      assert Clash(items[i], items[n]);
    } else {
      FaithfulIsTree(items[..n], t);
      MadeAbove(t, p);
      DirIsNamed(items[..n], t, p);
      var i :| 0 <= i < n && Names(items[..n][i], p);
      assert items[..n][i] == items[i];
      assert Clash(items[n], items[i]);
    }
  }
}
