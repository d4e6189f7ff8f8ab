/** Installing the unpacked saves next to the ones the user has. */
module Install {
  import opened Basics
  import opened FileTree

  // ----- Region names -----

  const REGION := "region"
  const MAX_INT := 0x7FFF_FFFF_FFFF_FFFF
  const SLOT_LIMIT := 10000

  predicate IsDigit(c: char) {
    '0' <= c <= '9'
  }

  /** regionDirRe: "region" and then one or more digits. */
  predicate IsRegion(name: string) {
    |name| > 6 && name[..6] == REGION && forall i :: 6 <= i < |name| ==> IsDigit(name[i])
  }

  function DecimalValue(digits: string): nat
    requires forall i :: 0 <= i < |digits| ==> IsDigit(digits[i])
  {
    if digits == "" then 0
    else
      assert IsDigit(digits[|digits| - 1]);
      10 * DecimalValue(digits[..|digits| - 1]) + (digits[|digits| - 1] as int - '0' as int)
  }

  /** strconv.Atoi on digits, its range error ignored: the value is then the largest int. */
  function RegionNumber(name: string): nat
    requires IsRegion(name)
  {
    var v := DecimalValue(name[6..]);
    if v > MAX_INT then MAX_INT else v
  }

  function Itoa(n: nat): (digits: string)
    ensures digits != "" && forall i :: 0 <= i < |digits| ==> IsDigit(digits[i])
  {
    if n < 10 then [('0' as int + n) as char] else Itoa(n / 10) + Itoa(n % 10)
  }

  function RegionName(n: nat): string {
    REGION + Itoa(n)
  }

  lemma {:induction false} ItoaReadsBack(n: nat)
    ensures DecimalValue(Itoa(n)) == n
  {
    if n >= 10 {
      ItoaReadsBack(n / 10);
      assert Itoa(n)[..|Itoa(n)| - 1] == Itoa(n / 10);
    }
  }

  /** A region name is "region" and then decimal digits, at least one. */
  lemma RegionNamesAreExact(name: string)
    ensures IsRegion(name) <==> exists digits :: name == "region" + digits && IsNumber(digits)
  {
    if IsRegion(name) {
      assert name == "region" + name[6..] && IsNumber(name[6..]);
    }
    if digits :| name == "region" + digits && IsNumber(digits) {
      assert name[..6] == "region";
      assert forall i :: 6 <= i < |name| ==> name[i] == digits[i - 6];
    }
  }

  predicate IsNumber(digits: string) {
    digits != "" && forall i :: 0 <= i < |digits| ==> '0' <= digits[i] <= '9'
  }

  lemma RegionNameReadsBack(n: nat)
    requires n < SLOT_LIMIT
    ensures IsRegion(RegionName(n)) && RegionNumber(RegionName(n)) == n
  {
    var name := RegionName(n);
    assert name[..6] == REGION && name[6..] == Itoa(n);
    ItoaReadsBack(n);
  }

  // ----- The next free slot -----

  predicate Occupies(saves: Tree, name: string, n: nat) {
    IsDir(saves, [name]) && IsRegion(name) && RegionNumber(name) == n
  }

  predicate Used(saves: Tree, n: nat) {
    exists name :: name in ReadDir(saves, []) && Occupies(saves, name, n)
  }

  /** The lowest slot from `n` on that no directory occupies. */
  function LowestFree(saves: Tree, n: nat): Option<nat>
    decreases SLOT_LIMIT - n
  {
    if n >= SLOT_LIMIT then None else if Used(saves, n) then LowestFree(saves, n + 1) else Some(n)
  }

  lemma {:induction false} LowestFreeIsLowest(saves: Tree, n: nat)
    ensures match LowestFree(saves, n)
      case None => forall k :: n <= k < 10000 ==> Used(saves, k)
      case Some(m) => n <= m < 10000 && !Used(saves, m) && forall k :: n <= k < m ==> Used(saves, k)
    decreases SLOT_LIMIT - n
  {
    if n < SLOT_LIMIT && Used(saves, n) {
      LowestFreeIsLowest(saves, n + 1);
    }
  }

  method NextFreeRegion(saves: Tree) returns (name: Option<string>)
    ensures name == match LowestFree(saves, 1) { case None => None case Some(n) => Some(RegionName(n)) }
  {
    var entries := ReadDir(saves, []);
    var used: map<nat, bool> := map[];
    for i := 0 to |entries|
      invariant forall n :: n in used <==> exists j :: 0 <= j < i && Occupies(saves, entries[j], n)
    {
      if IsDir(saves, [entries[i]]) && IsRegion(entries[i]) {
        used := used[RegionNumber(entries[i]) := true];
      }
    }
    forall n: nat ensures n in used <==> Used(saves, n) {
      if Used(saves, n) {
        var e :| e in entries && Occupies(saves, e, n);
        var j :| 0 <= j < |entries| && entries[j] == e;
        assert Occupies(saves, entries[j], n);
      }
    }
    for n := 1 to SLOT_LIMIT
      invariant LowestFree(saves, 1) == LowestFree(saves, n)
    {
      if n !in used {
        return Some(RegionName(n));
      }
    }
    name := None;
  }

  // ----- Installing one save -----

  /** What the file system answers. A removal that fails leaves some paths behind. */
  datatype Io = AllOk | RemoveFailed(kept: set<Path>) | RenameFailed | ChownFailed(kept: set<Path>)

  /** The unpacked archive, the user's saves, and the names installed so far. */
  datatype Site = Site(staged: Tree, saves: Tree, installed: seq<string>)

  function Target(saves: Tree, name: string): Option<string> {
    if !IsRegion(name) then Some(name)
    else
      match LowestFree(saves, 1)
      case None => None
      case Some(n) => Some(RegionName(n))
  }

  function RemovePartly(t: Tree, top: Path, kept: set<Path>): Tree {
    map p | p in t && (!Under(p, top) || p in kept) :: t[p]
  }

  /** os.Rename of `src` to the free name `target`. */
  function Graft(saves: Tree, target: string, staged: Tree, src: Path): Tree {
    saves + map q | q in (set p | p in staged && Under(p, src) :: [target] + p[|src|..]) && src + q[1..] in staged ::
      staged[src + q[1..]]
  }

  datatype Result = Result(site: Site, ok: bool)

  function InstallOne(s: Site, root: Path, name: string, io: Io): Result {
    match Target(s.saves, name)
    case None => Result(s, false)
    case Some(target) =>
      var cleared := RemoveAll(s.saves, [target]);
      var grafted := Graft(cleared, target, s.staged, root + [name]);
      var rest := RemoveAll(s.staged, root + [name]);
      match io {
        case RemoveFailed(kept) => Result(s.(saves := RemovePartly(s.saves, [target], kept)), false)
        case RenameFailed => Result(s.(saves := cleared), false)
        case ChownFailed(kept) => Result(Site(rest, RemovePartly(grafted, [target], kept), s.installed), false)
        case AllOk => Result(Site(rest, grafted, s.installed + [target]), true)
      }
  }

  function InstallAll(s: Site, root: Path, names: seq<string>, ios: seq<Io>): Result
    requires |ios| == |names|
    decreases |names|
  {
    if names == [] then Result(s, true)
    else
      var r := InstallOne(s, root, names[0], ios[0]);
      if r.ok then InstallAll(r.site, root, names[1..], ios[1..]) else r
  }

  // ----- Frames -----

  ghost predicate SameAt(a: Tree, b: Tree, p: Path) {
    (p in a <==> p in b) && (p in a ==> a[p] == b[p])
  }

  /** The same below `x` in one tree as below `y` in another. */
  ghost predicate SameSubtree(a: Tree, x: Path, b: Tree, y: Path) {
    forall r :: SameFrom(a, x, b, y, r)
  }

  ghost predicate SameFrom(a: Tree, x: Path, b: Tree, y: Path, r: Path) {
    (x + r in a <==> y + r in b) && (x + r in a ==> a[x + r] == b[y + r])
  }

  lemma GraftCopies(saves: Tree, target: string, staged: Tree, src: Path)
    requires forall q :: q in saves ==> !Under(q, [target])
    ensures SameSubtree(staged, src, Graft(saves, target, staged, src), [target])
  {
  }

  /** Whatever the outcome, only the target changes. */
  lemma OnlyTheTargetChanges(s: Site, root: Path, name: string, io: Io, p: Path)
    requires Target(s.saves, name).Some? ==> !Under(p, [Target(s.saves, name).value])
    ensures SameAt(s.saves, InstallOne(s, root, name, io).site.saves, p)
  {
  }

  /** What one turn leaves at its target, and of its source, for each answer of the
      file system. */
  lemma OneInstallIsExact(s: Site, root: Path, name: string, io: Io, p: Path, q: Path)
    requires Target(s.saves, name).Some? && Under(p, [Target(s.saves, name).value])
    ensures var r, src := InstallOne(s, root, name, io), root + [name] + p[1..];
      var moved := io == AllOk || io.ChownFailed?;
      && (r.ok <==> io == AllOk)
      && (q in r.site.staged <==> q in s.staged && !(moved && Under(q, root + [name])))
      && (p in r.site.saves <==> match io {
          case RemoveFailed(kept) => p in s.saves && p in kept
          case RenameFailed => false
          case ChownFailed(kept) => src in s.staged && p in kept
          case AllOk => src in s.staged
        })
      && (p in r.site.saves ==> r.site.saves[p] == if moved then s.staged[src] else s.saves[p])
  {
    hide Target, IsRegion, LowestFree;
    var target := Target(s.saves, name).value;
    GraftExact(RemoveAll(s.saves, [target]), target, s.staged, root + [name], p);
  }

  lemma GraftExact(saves: Tree, target: string, staged: Tree, src: Path, p: Path)
    requires Under(p, [target]) && forall q :: q in saves ==> !Under(q, [target])
    ensures var q, grafted := src + p[1..], Graft(saves, target, staged, src);
      (p in grafted <==> q in staged) && (q in staged ==> grafted[p] == staged[q])
  {
    var q := src + p[1..];
    assert q[|src|..] == p[1..] && [target] + p[1..] == p;
    assert Under(q, src);
  }

  /** With no slot left nothing happens. */
  lemma NoSlotIsExact(s: Site, root: Path, name: string, io: Io)
    requires Target(s.saves, name).None?
    ensures InstallOne(s, root, name, io) == Result(s, false)
  {
  }

  lemma OnlyTheSourceMoves(s: Site, root: Path, name: string, io: Io, p: Path)
    requires !Under(p, root + [name])
    ensures SameAt(s.staged, InstallOne(s, root, name, io).site.staged, p)
  {
  }

  // ----- Targets -----

  /** A target is never a region directory that is already there. */
  lemma TargetIsNew(saves: Tree, name: string, q: string)
    requires IsRegion(q) && IsDir(saves, [q]) && Target(saves, name).Some?
    ensures Target(saves, name).value != q
  {
    if IsRegion(name) {
      LowestFreeIsLowest(saves, 1);
      var n := LowestFree(saves, 1).value;
      RegionNameReadsBack(n);
      assert [] + [q] == [q];
      if RegionName(n) == q {
        assert q in ReadDir(saves, []) && Occupies(saves, q, n);
      }
    }
  }

  predicate IsFile(t: Tree, p: Path) {
    p in t && t[p].File?
  }

  /** Only a plain file can have the name given, and is then replaced. */
  lemma SlotIsTakenIffByAFile(saves: Tree, name: string)
    requires IsRegion(name) && Target(saves, name).Some?
    ensures var slot := Target(saves, name).value;
      [slot] in saves <==> IsFile(saves, [slot])
  {
    var slot := Target(saves, name).value;
    TargetKeepsKind(saves, name);
    if IsDir(saves, [slot]) {
      TargetIsNew(saves, name, slot);
    }
  }

  /** Directories occupy every slot below `n` and not `n`, whose name a plain file has. */
  predicate FileInFirstGap(saves: Tree, n: nat) {
    && 1 <= n < 10000 && !Used(saves, n) && IsFile(saves, [RegionName(n)])
    && forall k :: 1 <= k < n ==> Used(saves, k)
  }

  lemma GapIsLowest(saves: Tree, n: nat)
    requires 1 <= n < SLOT_LIMIT && !Used(saves, n) && forall k :: 1 <= k < n ==> Used(saves, k)
    ensures LowestFree(saves, 1) == Some(n)
  {
    hide Used, LowestFree;
    LowestFreeIsLowest(saves, 1);
  }

  /** nextFreeRegion means to give a name that does not exist. It gives one that
      does if and only if a plain file has the name of the first slot that no
      directory occupies. */
  lemma SlotIsTakenExactly(saves: Tree, name: string)
    requires IsRegion(name)
    ensures Target(saves, name).Some? && [Target(saves, name).value] in saves <==>
      exists n: nat :: FileInFirstGap(saves, n)
  {
    hide Used, LowestFree, IsRegion, Itoa, IsFile;
    LowestFreeIsLowest(saves, 1);
    if Target(saves, name).Some? && [Target(saves, name).value] in saves {
      SlotIsTakenIffByAFile(saves, name);
      assert FileInFirstGap(saves, LowestFree(saves, 1).value);
    }
    if n: nat :| FileInFirstGap(saves, n) {
      GapIsLowest(saves, n);
      FileIsThere(saves, [RegionName(n)]);
    }
  }

  lemma FileIsThere(t: Tree, p: Path)
    requires IsFile(t, p)
    ensures p in t
  {
  }

  const WITH_FILE: Tree := map[[] := Dir, ["region1"] := File([])]

  lemma NoDirectoryIsNoSlot(saves: Tree, n: nat)
    requires forall name :: !IsDir(saves, [name])
    ensures !Used(saves, n)
  {
  }

  /** A name that does exist is given here. */
  lemma SlotCanBeTaken()
    ensures Target(WITH_FILE, "region7") == Some("region1") && ["region1"] in WITH_FILE
  {
    NoDirectoryIsNoSlot(WITH_FILE, 1);
    assert Itoa(1) == "1" && RegionName(1) == "region1";
    assert LowestFree(WITH_FILE, 1) == Some(1);
    assert IsRegion("region7") by {
      assert "region7"[..6] == REGION;
    }
  }

  lemma TargetKeepsKind(saves: Tree, name: string)
    requires Target(saves, name).Some?
    ensures IsRegion(Target(saves, name).value) <==> IsRegion(name)
  {
  }

  /** On every exit, every region directory there was is as it was. */
  lemma {:induction false} RegionsAreUntouched(s: Site, root: Path, names: seq<string>, ios: seq<Io>, q: string,
    p: Path)
    requires |ios| == |names| && IsRegion(q) && IsDir(s.saves, [q]) && Under(p, [q])
    ensures SameAt(s.saves, InstallAll(s, root, names, ios).site.saves, p)
    decreases |names|
  {
    assert p[0] == q;
    if names != [] {
      var r := InstallOne(s, root, names[0], ios[0]);
      if Target(s.saves, names[0]).Some? {
        TargetIsNew(s.saves, names[0], q);
      }
      OnlyTheTargetChanges(s, root, names[0], ios[0], p);
      OnlyTheTargetChanges(s, root, names[0], ios[0], [q]);
      if r.ok {
        RegionsAreUntouched(r.site, root, names[1..], ios[1..], q, p);
      }
    }
  }

  // ----- What is installed -----

  ghost predicate Distinct(names: seq<string>) {
    forall i, j :: 0 <= i < j < |names| ==> names[i] != names[j]
  }

  /** Installed saves are there, apart from each other, and apart from the other
      names still to come; those are still staged. */
  ghost predicate Progress(s: Site, root: Path, names: seq<string>) {
    && Distinct(s.installed) && Distinct(names)
    && (forall t :: t in s.installed ==> IsDir(s.saves, [t]))
    && (forall t :: t in s.installed && !IsRegion(t) ==> t !in names)
    && (forall n :: n in names ==> IsDir(s.staged, root + [n]))
  }

  lemma InstalledIsThere(s: Site, root: Path, name: string)
    requires IsDir(s.staged, root + [name]) && InstallOne(s, root, name, AllOk).ok
    ensures var target := Target(s.saves, name).value;
      && SameSubtree(s.staged, root + [name], InstallOne(s, root, name, AllOk).site.saves, [target])
      && IsDir(InstallOne(s, root, name, AllOk).site.saves, [target])
  {
    var target := Target(s.saves, name).value;
    var saves := InstallOne(s, root, name, AllOk).site.saves;
    GraftCopies(RemoveAll(s.saves, [target]), target, s.staged, root + [name]);
    assert SameFrom(s.staged, root + [name], saves, [target], []);
    assert root + [name] + [] == root + [name] && [target] + [] == [target];
  }

  lemma TargetIsFresh(s: Site, root: Path, names: seq<string>)
    requires names != [] && Progress(s, root, names) && Target(s.saves, names[0]).Some?
    ensures Target(s.saves, names[0]).value !in s.installed
  {
    var target := Target(s.saves, names[0]).value;
    TargetKeepsKind(s.saves, names[0]);
    assert names[0] in names;
    if target in s.installed && IsRegion(target) {
      TargetIsNew(s.saves, names[0], target);
    }
  }

  lemma StepProgresses(s: Site, root: Path, names: seq<string>, io: Io)
    requires names != [] && Progress(s, root, names) && InstallOne(s, root, names[0], io).ok
    ensures Progress(InstallOne(s, root, names[0], io).site, root, names[1..])
  {
    var s' := InstallOne(s, root, names[0], io).site;
    var target := Target(s.saves, names[0]).value;
    assert names[0] in names;
    TargetIsFresh(s, root, names);
    TargetKeepsKind(s.saves, names[0]);
    InstalledIsThere(s, root, names[0]);
    forall t | t in s'.installed ensures IsDir(s'.saves, [t]) {
      if t != target {
        assert t in s.installed && [t][0] == t;
        OnlyTheTargetChanges(s, root, names[0], io, [t]);
      }
    }
    forall n | n in names[1..] ensures n in names && n != names[0] && IsDir(s'.staged, root + [n]) {
      var k :| 0 <= k < |names[1..]| && names[1..][k] == n;
      assert names[k + 1] == n;
      assert (root + [n])[|root|] == n;
      OnlyTheSourceMoves(s, root, names[0], io, root + [n]);
    }
  }

  lemma SubtreeSurvives(a: Tree, x: Path, b: Tree, b': Tree, t: string)
    requires SameSubtree(a, x, b, [t]) && forall p :: Under(p, [t]) ==> SameAt(b, b', p)
    ensures SameSubtree(a, x, b', [t])
  {
    forall r ensures SameFrom(a, x, b', [t], r) {
      assert SameFrom(a, x, b, [t], r);
      assert Under([t] + r, [t]);
    }
  }

  /** What has been installed stays, whatever happens to the names that follow. */
  lemma {:induction false} InstalledStays(s: Site, root: Path, names: seq<string>, ios: seq<Io>, t: string, p: Path)
    requires |ios| == |names| && Progress(s, root, names) && t in s.installed && Under(p, [t])
    ensures SameAt(s.saves, InstallAll(s, root, names, ios).site.saves, p)
    ensures s.installed <= InstallAll(s, root, names, ios).site.installed
    decreases |names|
  {
    assert p[0] == t;
    if names != [] {
      var r := InstallOne(s, root, names[0], ios[0]);
      if Target(s.saves, names[0]).Some? {
        TargetIsFresh(s, root, names);
      }
      OnlyTheTargetChanges(s, root, names[0], ios[0], p);
      if r.ok {
        StepProgresses(s, root, names, ios[0]);
        InstalledStays(r.site, root, names[1..], ios[1..], t, p);
      }
    }
  }

  /** The save `name` of the archive is at `t`, unchanged, under its own name
      unless it is a region. */
  ghost predicate IsInstalledAs(staged: Tree, root: Path, name: string, saves: Tree, t: string) {
    && SameSubtree(staged, root + [name], saves, [t])
    && (if IsRegion(name) then IsRegion(t) else t == name)
  }

  /** `done` is what InstallAll adds to the names that were installed before. */
  ghost predicate InstalledExactly(s: Site, root: Path, names: seq<string>, r: Result) {
    && s.installed <= r.site.installed
    && Distinct(r.site.installed)
    && var done := r.site.installed[|s.installed|..];
      && (r.ok ==> |done| == |names|)
      && AllInstalled(s.staged, root, names, r.site.saves, done)
  }

  /** `done` holds, in order, the first of the saves `names`. */
  ghost predicate AllInstalled(staged: Tree, root: Path, names: seq<string>, saves: Tree, done: seq<string>) {
    && |done| <= |names|
    && forall i :: 0 <= i < |done| ==> IsInstalledAs(staged, root, names[i], saves, done[i])
  }

  lemma SourceSurvives(s: Site, root: Path, name: string, io: Io, other: string, saves: Tree, t: string)
    requires other != name
    requires IsInstalledAs(InstallOne(s, root, name, io).site.staged, root, other, saves, t)
    ensures IsInstalledAs(s.staged, root, other, saves, t)
  {
    var staged' := InstallOne(s, root, name, io).site.staged;
    forall r ensures SameFrom(s.staged, root + [other], saves, [t], r) {
      assert SameFrom(staged', root + [other], saves, [t], r);
      assert (root + [other] + r)[|root|] == other;
      OnlyTheSourceMoves(s, root, name, io, root + [other] + r);
    }
  }

  lemma NothingAdded(s: Site, root: Path, names: seq<string>, r: Result)
    requires Distinct(s.installed) && r.site.installed == s.installed && (r.ok ==> names == [])
    ensures InstalledExactly(s, root, names, r)
  {
  }

  lemma StoppedInstallsNothing(s: Site, root: Path, name: string, io: Io)
    requires !InstallOne(s, root, name, io).ok
    ensures InstallOne(s, root, name, io).site.installed == s.installed
  {
  }

  /** On every exit the installed names are distinct and hold, in order, the
      first saves of the archive, unchanged; on success all of them. */
  lemma {:induction false} InstallIsExact(s: Site, root: Path, names: seq<string>, ios: seq<Io>)
    requires |ios| == |names| && Progress(s, root, names)
    ensures InstalledExactly(s, root, names, InstallAll(s, root, names, ios))
    decreases |names|
  {
    if names == [] {
      NothingAdded(s, root, names, Result(s, true));
    } else {
      var r := InstallOne(s, root, names[0], ios[0]);
      if r.ok {
        StepProgresses(s, root, names, ios[0]);
        InstallIsExact(r.site, root, names[1..], ios[1..]);
        FirstThenRest(s, root, names, ios);
      } else {
        StoppedInstallsNothing(s, root, names[0], ios[0]);
        NothingAdded(s, root, names, r);
      }
    }
  }

  lemma FirstHasTarget(s: Site, root: Path, names: seq<string>, ios: seq<Io>)
    requires |ios| == |names| > 0 && Progress(s, root, names) && InstallOne(s, root, names[0], ios[0]).ok
    ensures ios[0] == AllOk && Target(s.saves, names[0]).Some? && IsDir(s.staged, root + [names[0]])
    ensures InstallOne(s, root, names[0], ios[0]).site.installed == s.installed + [Target(s.saves, names[0]).value]
    ensures InstallAll(s, root, names, ios) ==
      InstallAll(InstallOne(s, root, names[0], ios[0]).site, root, names[1..], ios[1..])
  {
    hide Target, RemoveAll, Graft, RemovePartly;
    assert names[0] in names;
  }

  lemma FirstStays(s: Site, root: Path, names: seq<string>, ios: seq<Io>)
    requires |ios| == |names| > 0 && Progress(s, root, names) && InstallOne(s, root, names[0], ios[0]).ok
    ensures var target := Target(s.saves, names[0]).value;
      IsInstalledAs(s.staged, root, names[0], InstallAll(s, root, names, ios).site.saves, target)
  {
    hide IsRegion, LowestFree, SameAt, SameSubtree, Progress;
    FirstHasTarget(s, root, names, ios);
    var r, end := InstallOne(s, root, names[0], ios[0]), InstallAll(s, root, names, ios);
    var target := Target(s.saves, names[0]).value;
    assert names[0] in names;
    hide Target, InstallOne, InstallAll;
    StepProgresses(s, root, names, ios[0]);
    InstalledIsThere(s, root, names[0]);
    TargetKeepsKind(s.saves, names[0]);
    forall p | Under(p, [target]) ensures SameAt(r.site.saves, end.site.saves, p) {
      InstalledStays(r.site, root, names[1..], ios[1..], target, p);
    }
    SubtreeSurvives(s.staged, root + [names[0]], r.site.saves, end.site.saves, target);
  }

  lemma RestComesFromTheSource(s: Site, root: Path, names: seq<string>, io: Io, saves: Tree, done: seq<string>)
    requires names != [] && Distinct(names)
    requires AllInstalled(InstallOne(s, root, names[0], io).site.staged, root, names[1..], saves, done)
    ensures AllInstalled(s.staged, root, names[1..], saves, done)
  {
    hide IsInstalledAs, InstallOne;
    forall i | 0 <= i < |done| ensures IsInstalledAs(s.staged, root, names[1..][i], saves, done[i]) {
      assert names[1..][i] == names[i + 1];
      SourceSurvives(s, root, names[0], io, names[1..][i], saves, done[i]);
    }
  }

  lemma OneMoreInstalled(staged: Tree, root: Path, names: seq<string>, saves: Tree, t: string, done: seq<string>)
    requires names != [] && IsInstalledAs(staged, root, names[0], saves, t)
      && AllInstalled(staged, root, names[1..], saves, done)
    ensures AllInstalled(staged, root, names, saves, [t] + done)
  {
    hide IsInstalledAs;
    assert forall i :: 0 < i <= |done| ==> ([t] + done)[i] == done[i - 1] && names[i] == names[1..][i - 1];
  }

  lemma SuffixSplits(a: seq<string>, t: string, all: seq<string>)
    requires a + [t] <= all
    ensures a <= all && all[|a|..] == [t] + all[|a + [t]|..]
  {
    assert all[|a|] == t;
  }

  lemma FirstThenRest(s: Site, root: Path, names: seq<string>, ios: seq<Io>)
    requires |ios| == |names| > 0 && Progress(s, root, names)
    requires var r := InstallOne(s, root, names[0], ios[0]);
      r.ok && InstalledExactly(r.site, root, names[1..], InstallAll(r.site, root, names[1..], ios[1..]))
    ensures InstalledExactly(s, root, names, InstallAll(s, root, names, ios))
  {
    hide IsInstalledAs, AllInstalled, InstallOne, InstallAll, Target;
    FirstHasTarget(s, root, names, ios);
    var r, end := InstallOne(s, root, names[0], ios[0]), InstallAll(s, root, names, ios);
    var t, done := Target(s.saves, names[0]).value, end.site.installed[|r.site.installed|..];
    FirstStays(s, root, names, ios);
    RestComesFromTheSource(s, root, names, ios[0], end.site.saves, done);
    OneMoreInstalled(s.staged, root, names, end.site.saves, t, done);
    SuffixSplits(s.installed, t, end.site.installed);
  }

  // ----- The loop -----

  /** The directories the import works on. */
  class Volume {
    var staged: Tree
    var saves: Tree

    constructor (staged: Tree, saves: Tree)
      ensures this.staged == staged && this.saves == saves
    {
      this.staged, this.saves := staged, saves;
    }

    method InstallSaves(root: Path, names: seq<string>, ios: seq<Io>) returns (installed: seq<string>, ok: bool)
      requires |ios| == |names|
      modifies this
      ensures Result(Site(staged, saves, installed), ok) ==
        InstallAll(Site(old(staged), old(saves), []), root, names, ios)
    {
      installed := [];
      for i := 0 to |names|
        invariant InstallAll(Site(old(staged), old(saves), []), root, names, ios) ==
                  InstallAll(Site(staged, saves, installed), root, names[i..], ios[i..])
      {
        var name, src := names[i], root + [names[i]];
        assert names[i..][1..] == names[i + 1..] && ios[i..][1..] == ios[i + 1..];
        var target: string := name;
        if IsRegion(name) {
          var free := NextFreeRegion(saves);
          if free.None? {
            return installed, false;
          }
          target := free.value;
        }
        if ios[i].RemoveFailed? {
          saves := RemovePartly(saves, [target], ios[i].kept);
          return installed, false;
        }
        saves := RemoveAll(saves, [target]);
        if ios[i].RenameFailed? {
          return installed, false;
        }
        saves := Graft(saves, target, staged, src);
        staged := RemoveAll(staged, src);
        if ios[i].ChownFailed? {
          saves := RemovePartly(saves, [target], ios[i].kept);
          return installed, false;
        }
        installed := installed + [target];
      }
      ok := true;
    }
  }
}
