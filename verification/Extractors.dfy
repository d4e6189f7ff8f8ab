/** The two extraction loops, one per archive format, over one directory on disk. */
module Extractors {
  import opened Basics
  import opened Paths
  import opened FileTree
  import opened Extraction

  datatype ZipMode = ZipDir | ZipRegular | ZipSpecial

  datatype ZipEntry = ZipEntry(name: string, mode: ZipMode, data: Bytes)

  datatype TarFlag = PaxHeader | GlobalHeader | GnuLongName | GnuLongLink | TarDir | TarRegular | TarSpecial

  datatype TarEntry = TarEntry(name: string, flag: TarFlag, data: Bytes)

  function OfZip(f: ZipEntry): Entry {
    match f.mode
    case ZipDir => DirEntry(f.name)
    case ZipRegular => FileEntry(f.name, f.data)
    case ZipSpecial => OtherEntry(f.name)
  }

  function ZipItem(f: ZipEntry): Item {
    ItemOf(OfZip(f))
  }

  function ZipItems(entries: seq<ZipEntry>): (items: seq<Item>)
    ensures |items| == |entries| && forall i :: 0 <= i < |entries| ==> items[i] == ZipItem(entries[i])
  {
    seq(|entries|, i requires 0 <= i < |entries| => ZipItem(entries[i]))
  }

  predicate IsHeader(flag: TarFlag) {
    flag == PaxHeader || flag == GlobalHeader || flag == GnuLongName || flag == GnuLongLink
  }

  function OfTar(hdr: TarEntry): Entry {
    match hdr.flag
    case TarDir => DirEntry(hdr.name)
    case TarRegular => FileEntry(hdr.name, hdr.data)
    case _ => OtherEntry(hdr.name)
  }

  /** Extension headers are passed over before anything is checked. */
  function TarItem(hdr: TarEntry): Item {
    if IsHeader(hdr.flag) then Skip else ItemOf(OfTar(hdr))
  }

  function TarItems(entries: seq<TarEntry>): (items: seq<Item>)
    ensures |items| == |entries| && forall i :: 0 <= i < |entries| ==> items[i] == TarItem(entries[i])
  {
    seq(|entries|, i requires 0 <= i < |entries| => TarItem(entries[i]))
  }

  datatype Copied = Copied(n: nat) | CopyFailed(error: Error)

  /** The directory an archive is unpacked into. `peak` is the most it ever held,
      brought up to date by every write. */
  class Staging {
    var tree: Tree
    ghost var peak: nat

    constructor ()
      ensures tree == EMPTY && peak == 0
    {
      tree, peak := EMPTY, 0;
    }

    method MakeDirs(p: Path) returns (ok: bool)
      modifies this
      ensures ok == MkdirAll(old(tree), p).Some? && peak == old(peak)
      ensures tree == if ok then MkdirAll(old(tree), p).value else old(tree)
    {
      var made := MkdirAll(tree, p);
      ok := made.Some?;
      if ok {
        tree := made.value;
      }
    }

    /** writeLimitedReader: one byte more than the limit is asked for, to tell
        "exactly" from "too much". */
    method WriteLimitedReader(data: Bytes, p: Path, limit: int) returns (r: Copied)
      modifies this
      ensures limit <= 0 ==> r == CopyFailed(OverBudget) && tree == old(tree) && peak == old(peak)
      ensures limit > 0 && IsDir(old(tree), p) ==> r == CopyFailed(Conflict) && tree == old(tree) && peak == old(peak)
      ensures limit > 0 && !IsDir(old(tree), p) ==>
                if |data| > limit then r == CopyFailed(OverBudget) && tree == old(tree) - {p}
                else r == Copied(|data|) && tree == old(tree)[p := File(data)]
      ensures peak == if limit > 0 && !IsDir(old(tree), p)
        then Max(old(peak), DiskBytes(old(tree)[p := File(Cut(data, limit + 1))])) else old(peak)
    {
      if limit <= 0 {
        return CopyFailed(OverBudget);
      }
      if IsDir(tree, p) {
        return CopyFailed(Conflict);
      }
      var n := if |data| > limit then limit + 1 else |data|;
      tree := tree[p := File(data[..n])];
      assert data[..n] == Cut(data, limit + 1);
      peak := Max(peak, DiskBytes(tree));
      if n > limit {
        tree := tree - {p};
        assert tree == old(tree) - {p};
        return CopyFailed(OverBudget);
      }
      assert data[..n] == data;
      r := Copied(n);
    }
  }

  /** The loops' common tail: what is done with one item after those `before` it. */
  method ExtractItem(dst: Staging, item: Item, files: nat, bytes: nat, ghost before: seq<Item>) returns (r: Copied)
    requires ExtractAll(CAP, before) == Extracted(Disk(dst.tree, files, bytes)) && dst.peak == MostHeld(CAP, before)
    modifies dst
    ensures dst.peak == MostHeld(CAP, before + [item])
    ensures ExtractAll(CAP, before + [item]) == match r
      case CopyFailed(e) => Failed(e, dst.tree)
      case Copied(n) => Extracted(Disk(dst.tree, files + if item.Write? then 1 else 0, bytes + n))
  {
    hide ExtractAll, MostHeld, DiskBytes, MkdirAll, Cut;
    AfterOneMore(before, item, Disk(dst.tree, files, bytes));
    match item
    case Refuse(error) => return CopyFailed(BadName(error));
    case Skip => return Copied(0);
    case MakeDir(p) =>
      var ok := dst.MakeDirs(p);
      return if ok then Copied(0) else CopyFailed(Conflict);
    case Special(_) => return CopyFailed(Unsupported);
    case Write(p, data) =>
      var ok := dst.MakeDirs(Parent(p));
      if !ok {
        return CopyFailed(Conflict);
      }
      r := dst.WriteLimitedReader(data, p, CAP - bytes);
  }

  lemma AfterOneMore(before: seq<Item>, item: Item, d: Disk)
    requires ExtractAll(CAP, before) == Extracted(d)
    ensures ExtractAll(CAP, before + [item]) == Extract(CAP, d, item)
    ensures MostHeld(CAP, before + [item]) == Max(MostHeld(CAP, before), HeldDuring(CAP, d, item))
  {
    hide Extract, HeldDuring;
    assert (before + [item])[..|before|] == before;
  }

  /** What both loops promise: the fold over the items of the archive. */
  ghost predicate Refines(items: seq<Item>, tree: Tree, files: nat, bytes: nat, error: Option<Error>) {
    match ExtractAll(CAP, items)
    case Extracted(d) => error == None && Disk(tree, files, bytes) == d
    case Failed(e, t) => error == Some(e) && tree == t && files == 0 && bytes == 0
  }

  lemma {:induction false} FailureSticks(items: seq<Item>, more: seq<Item>)
    requires ExtractAll(CAP, items).Failed?
    ensures ExtractAll(CAP, items + more) == ExtractAll(CAP, items)
    ensures MostHeld(CAP, items + more) == MostHeld(CAP, items)
  {
    hide Extract, HeldDuring;
    if more == [] {
      assert items + more == items;
    } else {
      FailureSticks(items, more[..|more| - 1]);
      assert (items + more)[..|items + more| - 1] == items + more[..|more| - 1];
    }
  }

  /** A loop that stops at an error stops with what the whole archive gives. */
  lemma StoppedLoop(items: seq<Item>, i: nat)
    requires i <= |items| && ExtractAll(CAP, items[..i]).Failed?
    ensures ExtractAll(CAP, items) == ExtractAll(CAP, items[..i])
    ensures MostHeld(CAP, items) == MostHeld(CAP, items[..i])
  {
    hide ExtractAll, MostHeld;
    assert items == items[..i] + items[i..];
    FailureSticks(items[..i], items[i..]);
  }

  lemma PassedOver(before: seq<Item>)
    ensures ExtractAll(CAP, before + [Skip]) == ExtractAll(CAP, before)
    ensures MostHeld(CAP, before + [Skip]) == MostHeld(CAP, before)
  {
    assert (before + [Skip])[..|before|] == before;
  }

  /** The most held, as the loops keep it, is within one byte of the cap. */
  lemma PeakIsBounded(items: seq<Item>)
    ensures DiskBytes(TreeOf(ExtractAll(CAP, items))) <= MostHeld(CAP, items) <= CAP + 1
  {
    MostHeldCoversTree(CAP, items);
    MostHeldIsOneOver(CAP, items);
  }

  method ExtractZip(dst: Staging, entries: seq<ZipEntry>) returns (files: nat, bytes: nat, error: Option<Error>)
    requires dst.tree == EMPTY && dst.peak == 0
    modifies dst
    ensures Refines(ZipItems(entries), dst.tree, files, bytes, error)
    ensures dst.peak == MostHeld(CAP, ZipItems(entries)) && DiskBytes(dst.tree) <= dst.peak <= 0x4000_0001
  {
    hide ExtractAll, MostHeld, DiskBytes, ZipItem;
    ghost var items := ZipItems(entries);
    files, bytes, error := 0, 0, None;
    Nothing();
    for i := 0 to |entries|
      invariant ExtractAll(CAP, items[..i]) == Extracted(Disk(dst.tree, files, bytes))
      invariant dst.peak == MostHeld(CAP, items[..i])
    {
      var item := ZipItem(entries[i]);
      assert items[..i + 1] == items[..i] + [item];
      var r := ExtractItem(dst, item, files, bytes, items[..i]);
      if r.CopyFailed? {
        StoppedLoop(items, i + 1);
        PeakIsBounded(items);
        return 0, 0, Some(r.error);
      }
      bytes := bytes + r.n;
      files := files + if item.Write? then 1 else 0;
    }
    assert items[..|entries|] == items;
    PeakIsBounded(items);
  }

  lemma Nothing()
    ensures ExtractAll(CAP, []) == Extracted(BLANK) && MostHeld(CAP, []) == 0
  {
  }

  method ExtractTarGz(dst: Staging, entries: seq<TarEntry>) returns (files: nat, bytes: nat, error: Option<Error>)
    requires dst.tree == EMPTY && dst.peak == 0
    modifies dst
    ensures Refines(TarItems(entries), dst.tree, files, bytes, error)
    ensures dst.peak == MostHeld(CAP, TarItems(entries)) && DiskBytes(dst.tree) <= dst.peak <= 0x4000_0001
  {
    hide ExtractAll, MostHeld, DiskBytes, IsHeader;
    ghost var items := TarItems(entries);
    files, bytes, error := 0, 0, None;
    Nothing();
    for i := 0 to |entries|
      invariant ExtractAll(CAP, items[..i]) == Extracted(Disk(dst.tree, files, bytes))
      invariant dst.peak == MostHeld(CAP, items[..i])
    {
      assert items[..i + 1] == items[..i] + [TarItem(entries[i])];
      if IsHeader(entries[i].flag) {
        PassedOver(items[..i]);
      } else {
        var item := ItemOf(OfTar(entries[i]));
        var r := ExtractItem(dst, item, files, bytes, items[..i]);
        if r.CopyFailed? {
          StoppedLoop(items, i + 1);
          PeakIsBounded(items);
          return 0, 0, Some(r.error);
        }
        bytes := bytes + r.n;
        files := files + if item.Write? then 1 else 0;
      }
    }
    assert items[..|entries|] == items;
    PeakIsBounded(items);
  }

  // ----- What an archive of either format leaves, by its own entries -----

  /** What an entry of an archive comes down to, however its format says it. */
  ghost predicate Reads(item: Item, name: string, data: Bytes, isFile: bool, isDir: bool, isOther: bool) {
    && (item.Refuse? <==> (isFile || isDir || isOther) && !HasGoodName(name))
    && (forall p: ProperPath, d :: item == Write(p, d) <==> isFile && LandsAt(name, p) && d == data)
    && (forall p: ProperPath :: item == MakeDir(p) <==> isDir && LandsAt(name, p))
    && (forall p: ProperPath :: item == Special(p) <==> isOther && LandsAt(name, p))
  }

  lemma ZipItemReads(f: ZipEntry)
    ensures Reads(ZipItem(f), f.name, f.data, f.mode == ZipRegular, f.mode == ZipDir, f.mode == ZipSpecial)
  {
    hide LandsAt, HasGoodName, ItemOf;
    ItemIsExact(OfZip(f));
  }

  lemma TarItemReads(hdr: TarEntry)
    ensures Reads(TarItem(hdr), hdr.name, hdr.data, hdr.flag == TarRegular, hdr.flag == TarDir, hdr.flag == TarSpecial)
  {
    hide LandsAt, HasGoodName, ItemOf;
    ItemIsExact(OfTar(hdr));
  }

  /** Entry `i` of a zip is the last regular one to land at `p`. */
  predicate ZipWritesLast(entries: seq<ZipEntry>, i: int, p: Path) {
    && 0 <= i < |entries| && entries[i].mode == ZipRegular && LandsAt(entries[i].name, p)
    && forall j :: i < j < |entries| && entries[j].mode == ZipRegular ==> !LandsAt(entries[j].name, p)
  }

  predicate TarWritesLast(entries: seq<TarEntry>, i: int, p: Path) {
    && 0 <= i < |entries| && entries[i].flag == TarRegular && LandsAt(entries[i].name, p)
    && forall j :: i < j < |entries| && entries[j].flag == TarRegular ==> !LandsAt(entries[j].name, p)
  }

  /** A file or directory entry of a zip lands at `p` or below. */
  predicate ZipReaches(f: ZipEntry, p: Path) {
    f.mode != ZipSpecial && ValidateEntryName(f.name).Valid?
    && LandsAt(f.name, PlaceOf(f.name)) && Under(PlaceOf(f.name), p)
  }

  predicate TarReaches(hdr: TarEntry, p: Path) {
    (hdr.flag == TarRegular || hdr.flag == TarDir) && ValidateEntryName(hdr.name).Valid?
    && LandsAt(hdr.name, PlaceOf(hdr.name)) && Under(PlaceOf(hdr.name), p)
  }

  function PlaceOf(name: string): Path
    requires ValidateEntryName(name).Valid?
  {
    Components(ValidateEntryName(name).clean)
  }

  lemma LandsAtItsPlace(name: string, p: Path)
    requires LandsAt(name, p)
    ensures ValidateEntryName(name).Valid? && PlaceOf(name) == p
  {
  }

  lemma ReadsWrite(item: Item, name: string, data: Bytes, isFile: bool, isDir: bool, isOther: bool, p: Path)
    requires Reads(item, name, data, isFile, isDir, isOther)
    ensures item.Write? && item.path == p <==> isFile && LandsAt(name, p)
    ensures item.Write? ==> item.data == data
  {
    hide LandsAt, HasGoodName;
    if item.Write? {
      assert item == Write(item.path, item.data);
    }
    if isFile && LandsAt(name, p) {
      LandsProperly(name, p);
      assert item == Write(p, data);
    }
  }

  lemma LandsProperly(name: string, p: Path)
    requires LandsAt(name, p)
    ensures p != []
  {
  }

  lemma ReadsNames(item: Item, name: string, data: Bytes, isFile: bool, isDir: bool, isOther: bool, p: Path)
    requires Reads(item, name, data, isFile, isDir, isOther)
    ensures Names(item, p) <==>
      (isFile || isDir) && ValidateEntryName(name).Valid? && LandsAt(name, PlaceOf(name)) && Under(PlaceOf(name), p)
  {
    hide HasGoodName, ValidateEntryName, LandsAt, PlaceOf;
    if Names(item, p) {
      assert item.MakeDir? ==> item == MakeDir(item.path);
      assert item.Write? ==> item == Write(item.path, item.data);
      LandsAtItsPlace(name, item.path);
    }
    if (isFile || isDir) && ValidateEntryName(name).Valid? && LandsAt(name, PlaceOf(name)) {
      LandsProperly(name, PlaceOf(name));
      assert isFile ==> item == Write(PlaceOf(name), data);
      assert isDir ==> item == MakeDir(PlaceOf(name));
    }
  }

  lemma ZipWritesLastAgrees(entries: seq<ZipEntry>, i: int, p: Path)
    ensures ZipWritesLast(entries, i, p) <==> WritesLast(ZipItems(entries), i, p)
    ensures WritesLast(ZipItems(entries), i, p) ==> ZipItems(entries)[i].data == entries[i].data
  {
    hide ZipItem, LandsAt, Reads;
    forall k | 0 <= k < |entries|
      ensures ZipItems(entries)[k].Write? && ZipItems(entries)[k].path == p <==>
        entries[k].mode == ZipRegular && LandsAt(entries[k].name, p)
      ensures ZipItems(entries)[k].Write? ==> ZipItems(entries)[k].data == entries[k].data
    {
      var f := entries[k];
      ZipItemReads(f);
      ReadsWrite(ZipItem(f), f.name, f.data, f.mode == ZipRegular, f.mode == ZipDir, f.mode == ZipSpecial, p);
    }
  }

  lemma TarWritesLastAgrees(entries: seq<TarEntry>, i: int, p: Path)
    ensures TarWritesLast(entries, i, p) <==> WritesLast(TarItems(entries), i, p)
    ensures WritesLast(TarItems(entries), i, p) ==> TarItems(entries)[i].data == entries[i].data
  {
    hide TarItem, LandsAt, Reads;
    forall k | 0 <= k < |entries|
      ensures TarItems(entries)[k].Write? && TarItems(entries)[k].path == p <==>
        entries[k].flag == TarRegular && LandsAt(entries[k].name, p)
      ensures TarItems(entries)[k].Write? ==> TarItems(entries)[k].data == entries[k].data
    {
      var f := entries[k];
      TarItemReads(f);
      ReadsWrite(TarItem(f), f.name, f.data, f.flag == TarRegular, f.flag == TarDir, f.flag == TarSpecial, p);
    }
  }

  /** A zip that is extracted leaves, in every file, the data of the last regular
      entry to land there. */
  lemma ZipFilesAreExact(entries: seq<ZipEntry>, p: Path, data: Bytes)
    requires ExtractAll(CAP, ZipItems(entries)).Extracted?
    ensures var t := ExtractAll(CAP, ZipItems(entries)).disk.tree;
      p in t && t[p] == File(data) <==> exists i :: ZipWritesLast(entries, i, p) && entries[i].data == data
  {
    hide ExtractAll, ZipItem, LandsAt;
    var items := ZipItems(entries);
    ExtractedFile(CAP, items, p, data);
    if i :| WritesLast(items, i, p) && items[i].data == data {
      ZipWritesLastAgrees(entries, i, p);
      assert ZipWritesLast(entries, i, p) && entries[i].data == data;
    }
    if i :| ZipWritesLast(entries, i, p) && entries[i].data == data {
      ZipWritesLastAgrees(entries, i, p);
      assert WritesLast(items, i, p) && items[i].data == data;
    }
  }

  /** It leaves directories exactly at and above what lands. */
  lemma ZipNodesAreExact(entries: seq<ZipEntry>, p: Path)
    requires ExtractAll(CAP, ZipItems(entries)).Extracted?
    ensures p in ExtractAll(CAP, ZipItems(entries)).disk.tree <==>
      p == [] || exists i :: 0 <= i < |entries| && ZipReaches(entries[i], p)
  {
    hide ExtractAll, ZipItem, LandsAt, Reads, Names, ValidateEntryName;
    var items := ZipItems(entries);
    ExtractedNode(CAP, items, p);
    forall i | 0 <= i < |entries| ensures Names(items[i], p) <==> ZipReaches(entries[i], p) {
      var f := entries[i];
      ZipItemReads(f);
      ReadsNames(items[i], f.name, f.data, f.mode == ZipRegular, f.mode == ZipDir, f.mode == ZipSpecial, p);
    }
  }

  /** The same for a tar. */
  lemma TarFilesAreExact(entries: seq<TarEntry>, p: Path, data: Bytes)
    requires ExtractAll(CAP, TarItems(entries)).Extracted?
    ensures var t := ExtractAll(CAP, TarItems(entries)).disk.tree;
      p in t && t[p] == File(data) <==> exists i :: TarWritesLast(entries, i, p) && entries[i].data == data
  {
    hide ExtractAll, TarItem, LandsAt;
    var items := TarItems(entries);
    ExtractedFile(CAP, items, p, data);
    if i :| WritesLast(items, i, p) && items[i].data == data {
      TarWritesLastAgrees(entries, i, p);
      assert TarWritesLast(entries, i, p) && entries[i].data == data;
    }
    if i :| TarWritesLast(entries, i, p) && entries[i].data == data {
      TarWritesLastAgrees(entries, i, p);
      assert WritesLast(items, i, p) && items[i].data == data;
    }
  }

  /** The same for a tar; extension headers leave nothing. */
  lemma TarNodesAreExact(entries: seq<TarEntry>, p: Path)
    requires ExtractAll(CAP, TarItems(entries)).Extracted?
    ensures p in ExtractAll(CAP, TarItems(entries)).disk.tree <==>
      p == [] || exists i :: 0 <= i < |entries| && TarReaches(entries[i], p)
  {
    hide ExtractAll, TarItem, LandsAt, Reads, Names, ValidateEntryName;
    var items := TarItems(entries);
    ExtractedNode(CAP, items, p);
    forall i | 0 <= i < |entries| ensures Names(items[i], p) <==> TarReaches(entries[i], p) {
      var f := entries[i];
      TarItemReads(f);
      ReadsNames(items[i], f.name, f.data, f.flag == TarRegular, f.flag == TarDir, f.flag == TarSpecial, p);
    }
  }

  // Which archives are taken, and what is counted.

  predicate Lands(name: string) {
    ValidateEntryName(name).Valid? && LandsAt(name, PlaceOf(name))
  }

  /** One entry is wanted as a file where the other needs a directory. */
  predicate ClashingPlaces(name: string, other: string, otherIsDir: bool) {
    Lands(name) && Lands(other) && Under(PlaceOf(other), PlaceOf(name))
      && (otherIsDir || PlaceOf(other) != PlaceOf(name))
  }

  function ZipSizes(entries: seq<ZipEntry>): seq<nat> {
    if entries == [] then []
    else
      var f := entries[|entries| - 1];
      ZipSizes(entries[..|entries| - 1]) + if f.mode == ZipRegular && Lands(f.name) then [|f.data|] else []
  }

  function TarSizes(entries: seq<TarEntry>): seq<nat> {
    if entries == [] then []
    else
      var hdr := entries[|entries| - 1];
      TarSizes(entries[..|entries| - 1]) + if hdr.flag == TarRegular && Lands(hdr.name) then [|hdr.data|] else []
  }

  function Sum(sizes: seq<nat>): nat {
    if sizes == [] then 0 else Sum(sizes[..|sizes| - 1]) + sizes[|sizes| - 1]
  }

  /** Less than 1 GiB, or exactly that with a last file that is not empty. */
  predicate FitsBudget(sizes: seq<nat>) {
    Sum(sizes) < 0x4000_0000 || (Sum(sizes) == 0x4000_0000 && sizes[|sizes| - 1] > 0)
  }

  /** Names are good, kinds supported, and no two entries in each other's place. */
  ghost predicate ZipIsSound(entries: seq<ZipEntry>) {
    && (forall i :: 0 <= i < |entries| ==> HasGoodName(entries[i].name))
    && (forall i :: 0 <= i < |entries| && entries[i].mode == ZipSpecial ==> !Lands(entries[i].name))
    && forall i, j :: 0 <= i < |entries| && 0 <= j < |entries| ==> !ZipClash(entries[i], entries[j])
  }

  predicate ZipClash(f: ZipEntry, g: ZipEntry) {
    f.mode == ZipRegular && g.mode != ZipSpecial && ClashingPlaces(f.name, g.name, g.mode == ZipDir)
  }

  ghost predicate TarIsSound(entries: seq<TarEntry>) {
    && (forall i :: 0 <= i < |entries| && TarCounts(entries[i].flag) ==> HasGoodName(entries[i].name))
    && (forall i :: 0 <= i < |entries| && entries[i].flag == TarSpecial ==> !Lands(entries[i].name))
    && forall i, j :: 0 <= i < |entries| && 0 <= j < |entries| ==> !TarClash(entries[i], entries[j])
  }

  predicate TarCounts(flag: TarFlag) {
    flag == TarRegular || flag == TarDir || flag == TarSpecial
  }

  predicate TarClash(f: TarEntry, g: TarEntry) {
    && f.flag == TarRegular && (g.flag == TarRegular || g.flag == TarDir)
    && ClashingPlaces(f.name, g.name, g.flag == TarDir)
  }

  lemma ReadsSize(item: Item, name: string, data: Bytes, isFile: bool, isDir: bool, isOther: bool)
    requires Reads(item, name, data, isFile, isDir, isOther)
    ensures item.Write? <==> isFile && Lands(name)
    ensures item.Write? ==> item.data == data && item.path == PlaceOf(name)
    ensures item.MakeDir? <==> isDir && Lands(name)
    ensures item.MakeDir? ==> item.path == PlaceOf(name)
    ensures item.Special? <==> isOther && Lands(name)
  {
    hide HasGoodName, ValidateEntryName, LandsAt, PlaceOf;
    assert item.Write? ==> item == Write(item.path, item.data);
    assert item.MakeDir? ==> item == MakeDir(item.path);
    assert item.Special? ==> item == Special(item.path);
    if item.Write? || item.MakeDir? || item.Special? {
      LandsAtItsPlace(name, item.path);
    }
    if Lands(name) {
      LandsProperly(name, PlaceOf(name));
      assert isFile ==> item == Write(PlaceOf(name), data);
      assert isDir ==> item == MakeDir(PlaceOf(name));
      assert isOther ==> item == Special(PlaceOf(name));
    }
  }

  /** The items of an archive come to `sizes`. */
  ghost predicate Weighs(items: seq<Item>, sizes: seq<nat>) {
    && Count(items) == |sizes| && Total(items) == Sum(sizes)
    && LastSize(items) == if sizes == [] then 0 else sizes[|sizes| - 1]
  }

  lemma WeighsMore(items: seq<Item>, sizes: seq<nat>, item: Item)
    requires Weighs(items, sizes)
    ensures Weighs(items + [item], sizes + if item.Write? then [|item.data|] else [])
  {
    assert (items + [item])[..|items|] == items;
    if item.Write? {
      assert (sizes + [|item.data|])[..|sizes|] == sizes;
    } else {
      assert sizes + [] == sizes;
    }
  }

  lemma OneZipSize(entries: seq<ZipEntry>, f: ZipEntry)
    ensures ZipItems(entries + [f]) == ZipItems(entries) + [ZipItem(f)]
    ensures ZipSizes(entries + [f]) == ZipSizes(entries) + if ZipItem(f).Write? then [|ZipItem(f).data|] else []
  {
    hide Reads, Lands, ZipItem;
    assert (entries + [f])[..|entries|] == entries;
    ZipItemReads(f);
    ReadsSize(ZipItem(f), f.name, f.data, f.mode == ZipRegular, f.mode == ZipDir, f.mode == ZipSpecial);
  }

  lemma ZipWeighsNothing()
    ensures Weighs(ZipItems([]), ZipSizes([]))
  {
    hide ZipItem;
    assert ZipItems([]) == [];
  }

  lemma {:induction false} ZipWeighs(entries: seq<ZipEntry>)
    ensures Weighs(ZipItems(entries), ZipSizes(entries))
  {
    hide Weighs, ZipItems, ZipSizes, ZipItem;
    if entries == [] {
      ZipWeighsNothing();
    } else {
      var before, f := entries[..|entries| - 1], entries[|entries| - 1];
      ZipWeighs(before);
      OneZipSize(before, f);
      assert entries == before + [f];
      WeighsMore(ZipItems(before), ZipSizes(before), ZipItem(f));
    }
  }

  lemma OneTarSize(entries: seq<TarEntry>, f: TarEntry)
    ensures TarItems(entries + [f]) == TarItems(entries) + [TarItem(f)]
    ensures TarSizes(entries + [f]) == TarSizes(entries) + if TarItem(f).Write? then [|TarItem(f).data|] else []
  {
    hide Reads, Lands, TarItem;
    assert (entries + [f])[..|entries|] == entries;
    TarItemReads(f);
    ReadsSize(TarItem(f), f.name, f.data, f.flag == TarRegular, f.flag == TarDir, f.flag == TarSpecial);
  }

  lemma TarWeighsNothing()
    ensures Weighs(TarItems([]), TarSizes([]))
  {
    hide TarItem;
    assert TarItems([]) == [];
  }

  lemma {:induction false} TarWeighs(entries: seq<TarEntry>)
    ensures Weighs(TarItems(entries), TarSizes(entries))
  {
    hide Weighs, TarItems, TarSizes, TarItem;
    if entries == [] {
      TarWeighsNothing();
    } else {
      var before, f := entries[..|entries| - 1], entries[|entries| - 1];
      TarWeighs(before);
      OneTarSize(before, f);
      assert entries == before + [f];
      WeighsMore(TarItems(before), TarSizes(before), TarItem(f));
    }
  }

  lemma ClashIsPlaces(a: Item, b: Item, name: string, other: string, isFile: bool, otherIsFile: bool, otherIsDir: bool)
    requires a.Write? <==> isFile && Lands(name)
    requires a.Write? ==> a.path == PlaceOf(name)
    requires b.Write? <==> otherIsFile && Lands(other)
    requires b.Write? || b.MakeDir? ==> Lands(other) && b.path == PlaceOf(other)
    requires b.MakeDir? <==> otherIsDir && Lands(other)
    requires !(otherIsFile && otherIsDir)
    ensures Clash(a, b) <==> isFile && (otherIsFile || otherIsDir) && ClashingPlaces(name, other, otherIsDir)
  {
    hide LandsAt, ValidateEntryName, PlaceOf;
  }

  lemma ZipSoundness(entries: seq<ZipEntry>)
    ensures Sound(ZipItems(entries)) <==> ZipIsSound(entries)
  {
    hide Reads, Clash, ZipClash, HasGoodName, Lands, ZipItem, PlaceOf, LandsAt;
    var items := ZipItems(entries);
    forall i | 0 <= i < |entries|
      ensures IsAllowed(items[i]) <==>
        HasGoodName(entries[i].name) && !(entries[i].mode == ZipSpecial && Lands(entries[i].name))
    {
      ZipAllowed(entries[i]);
    }
    forall i, j | 0 <= i < |entries| && 0 <= j < |entries| ensures Clash(items[i], items[j]) <==>
      ZipClash(entries[i], entries[j]) {
      ZipClashes(entries[i], entries[j]);
    }
  }

  lemma ZipAllowed(f: ZipEntry)
    ensures IsAllowed(ZipItem(f)) <==> HasGoodName(f.name) && !(f.mode == ZipSpecial && Lands(f.name))
  {
    hide HasGoodName, Lands, ZipItem;
    ZipItemReads(f);
    ReadsSize(ZipItem(f), f.name, f.data, f.mode == ZipRegular, f.mode == ZipDir, f.mode == ZipSpecial);
  }

  lemma ZipClashes(f: ZipEntry, g: ZipEntry)
    ensures Clash(ZipItem(f), ZipItem(g)) <==> ZipClash(f, g)
  {
    hide Reads, Clash, Lands, ZipItem, PlaceOf, ClashingPlaces;
    ZipItemReads(f);
    ZipItemReads(g);
    ReadsSize(ZipItem(f), f.name, f.data, f.mode == ZipRegular, f.mode == ZipDir, f.mode == ZipSpecial);
    ReadsSize(ZipItem(g), g.name, g.data, g.mode == ZipRegular, g.mode == ZipDir, g.mode == ZipSpecial);
    ClashIsPlaces(ZipItem(f), ZipItem(g), f.name, g.name, f.mode == ZipRegular, g.mode == ZipRegular, g.mode == ZipDir);
  }

  lemma TarSoundness(entries: seq<TarEntry>)
    ensures Sound(TarItems(entries)) <==> TarIsSound(entries)
  {
    hide Reads, Clash, TarClash, HasGoodName, Lands, TarItem, PlaceOf, LandsAt, TarCounts;
    var items := TarItems(entries);
    forall i | 0 <= i < |entries|
      ensures IsAllowed(items[i]) <==>
        (TarCounts(entries[i].flag) ==> HasGoodName(entries[i].name))
          && !(entries[i].flag == TarSpecial && Lands(entries[i].name))
    {
      TarAllowed(entries[i]);
    }
    forall i, j | 0 <= i < |entries| && 0 <= j < |entries| ensures Clash(items[i], items[j]) <==>
      TarClash(entries[i], entries[j]) {
      TarClashes(entries[i], entries[j]);
    }
  }

  lemma TarAllowed(f: TarEntry)
    ensures IsAllowed(TarItem(f)) <==>
      (TarCounts(f.flag) ==> HasGoodName(f.name)) && !(f.flag == TarSpecial && Lands(f.name))
  {
    hide HasGoodName, Lands, TarItem;
    TarItemReads(f);
    ReadsSize(TarItem(f), f.name, f.data, f.flag == TarRegular, f.flag == TarDir, f.flag == TarSpecial);
  }

  lemma TarClashes(f: TarEntry, g: TarEntry)
    ensures Clash(TarItem(f), TarItem(g)) <==> TarClash(f, g)
  {
    hide Reads, Clash, Lands, TarItem, PlaceOf, ClashingPlaces;
    TarItemReads(f);
    TarItemReads(g);
    ReadsSize(TarItem(f), f.name, f.data, f.flag == TarRegular, f.flag == TarDir, f.flag == TarSpecial);
    ReadsSize(TarItem(g), g.name, g.data, g.flag == TarRegular, g.flag == TarDir, g.flag == TarSpecial);
    ClashIsPlaces(TarItem(f), TarItem(g), f.name, g.name, f.flag == TarRegular, g.flag == TarRegular, g.flag == TarDir);
  }

  lemma WeightFits(items: seq<Item>, sizes: seq<nat>)
    requires Weighs(items, sizes)
    ensures Fits(CAP, items) <==> FitsBudget(sizes)
  {
    assert sizes == [] ==> Sum(sizes) == 0;
  }

  /** A zip is extracted if and only if it is sound and within the budget, and then
      its files and their bytes are counted. */
  lemma ZipIsTakenExactly(entries: seq<ZipEntry>)
    ensures var r := ExtractAll(CAP, ZipItems(entries));
      && (r.Extracted? <==> ZipIsSound(entries) && FitsBudget(ZipSizes(entries)))
      && (r.Extracted? ==> r.disk.files == |ZipSizes(entries)| && r.disk.bytes == Sum(ZipSizes(entries)))
  {
    hide ExtractAll, Sound, Fits, ZipIsSound, FitsBudget, ZipSizes, ZipItems, Sum;
    var items := ZipItems(entries);
    ZipSoundness(entries);
    ZipWeighs(entries);
    WeightFits(items, ZipSizes(entries));
    ExtractedExactly(CAP, items);
    if ExtractAll(CAP, items).Extracted? {
      ExtractionIsFaithful(CAP, items);
    }
  }

  /** The same for a tar; extension headers count for nothing. */
  lemma TarIsTakenExactly(entries: seq<TarEntry>)
    ensures var r := ExtractAll(CAP, TarItems(entries));
      && (r.Extracted? <==> TarIsSound(entries) && FitsBudget(TarSizes(entries)))
      && (r.Extracted? ==> r.disk.files == |TarSizes(entries)| && r.disk.bytes == Sum(TarSizes(entries)))
  {
    hide ExtractAll, Sound, Fits, TarIsSound, FitsBudget, TarSizes, TarItems, Sum;
    var items := TarItems(entries);
    TarSoundness(entries);
    TarWeighs(entries);
    WeightFits(items, TarSizes(entries));
    ExtractedExactly(CAP, items);
    if ExtractAll(CAP, items).Extracted? {
      ExtractionIsFaithful(CAP, items);
    }
  }

  // The two formats.

  predicate Alike(f: ZipEntry, hdr: TarEntry) {
    && f.name == hdr.name && f.data == hdr.data
    && match f.mode {
      case ZipDir => hdr.flag == TarDir
      case ZipRegular => hdr.flag == TarRegular
      case ZipSpecial => hdr.flag == TarSpecial
    }
  }

  /** The same entries in the same order, the extension headers of the tar aside. */
  predicate SameEntries(zip: seq<ZipEntry>, tar: seq<TarEntry>)
    decreases |tar|
  {
    if tar == [] then zip == []
    else
      var before, hdr := tar[..|tar| - 1], tar[|tar| - 1];
      if hdr.flag == PaxHeader || hdr.flag == GlobalHeader || hdr.flag == GnuLongName || hdr.flag == GnuLongLink then
        SameEntries(zip, before)
      else
        zip != [] && Alike(zip[|zip| - 1], hdr) && SameEntries(zip[..|zip| - 1], before)
  }

  lemma OneMoreItem(before: seq<Item>, item: Item)
    ensures ExtractAll(CAP, before + [item]) ==
      match ExtractAll(CAP, before) {
        case Failed(error, tree) => Failed(error, tree)
        case Extracted(d) => Extract(CAP, d, item)
      }
  {
    hide Extract;
    assert (before + [item])[..|before|] == before;
  }

  lemma AlikeItems(f: ZipEntry, hdr: TarEntry)
    requires Alike(f, hdr)
    ensures ZipItem(f) == TarItem(hdr)
  {
    hide ItemOf;
  }

  /** Then a zip and a tar give the same tree, the same counts and the same error. */
  lemma {:induction false} FormatsAgree(zip: seq<ZipEntry>, tar: seq<TarEntry>)
    requires SameEntries(zip, tar)
    ensures ExtractAll(CAP, ZipItems(zip)) == ExtractAll(CAP, TarItems(tar))
    decreases |tar|
  {
    hide Extract, ExtractAll, ZipItem, ItemOf, Alike;
    if tar == [] {
      assert ZipItems(zip) == TarItems(tar);
    } else {
      var before, hdr := tar[..|tar| - 1], tar[|tar| - 1];
      assert TarItems(tar) == TarItems(before) + [TarItem(hdr)];
      if IsHeader(hdr.flag) {
        FormatsAgree(zip, before);
        PassedOver(TarItems(before));
      } else {
        var f, others := zip[|zip| - 1], zip[..|zip| - 1];
        FormatsAgree(others, before);
        assert ZipItems(zip) == ZipItems(others) + [ZipItem(f)];
        AlikeItems(f, hdr);
        OneMoreItem(ZipItems(others), ZipItem(f));
        OneMoreItem(TarItems(before), TarItem(hdr));
      }
    }
  }
}
