/** The invariant of the lifecycle protocol, and why every step keeps it. */
module LifecycleInvariant {
  import opened Basics
  import opened Lifecycle

  /** A stopper in flight will still act on this entry. */
  ghost predicate Claimed(s: State, c: Claim) {
    exists o :: o in s.ops && s.ops[o].kind != Import && c in s.ops[o].todo
  }

  ghost predicate TableBacked(s: State) {
    forall u :: u in s.table ==>
      s.table[u].id in s.docker && s.docker[s.table[u].id].name == NameOf(u) && s.table[u].lastSeen <= s.clock
  }

  ghost predicate IsCurrent(t: Table, id: ContainerId) {
    exists u :: Holds(t, u, id)
  }

  ghost predicate RunningAccounted(s: State) {
    forall i :: IsRunning(s.docker, i) ==> IsCurrent(s.table, i) || i in s.orphans || i in s.strays
  }

  ghost predicate ClaimKnown(s: State, c: Claim) {
    c.id in s.docker && s.docker[c.id].name == NameOf(c.uid)
  }

  ghost predicate OpOk(s: State, o: Op) {
    && o.todo != []
    && (forall c :: c in o.todo ==> ClaimKnown(s, c))
    && (o.kind != Reap ==> |o.todo| == 1)
    && (o.phase == Forgetting(false) ==> !IsRunning(s.docker, o.todo[0].id))
    && (o.phase == Probing ==> o.kind == AdminDelete || o.kind == Import)
    && (o.phase == Unflagging ==> o.kind == AdminDelete)
    && (o.kind == Import ==> o.phase == Probing || o.phase == Forgetting(false))
  }

  ghost predicate OpsOk(s: State) {
    forall o :: o in s.ops ==> OpOk(s, s.ops[o])
  }

  ghost predicate FlagsClaimed(s: State) {
    forall u :: u in s.table && s.table[u].stopping ==> Claimed(s, Claim(u, s.table[u].id))
  }

  ghost predicate LockOk(cfg: Config, s: State) {
    match s.lock
    case Free => true
    case Inspecting(u) => u in s.table && !s.table[u].stopping
    case Removing(u) => u !in s.table && |s.table| < cfg.maxSessions
    case Launching(u) => u !in s.table && |s.table| < cfg.maxSessions
  }

  ghost predicate Inv(cfg: Config, s: State) {
    && NamesUnique(s.docker)
    && TableBacked(s)
    && RunningAccounted(s)
    && OpsOk(s)
    && FlagsClaimed(s)
    && LockOk(cfg, s)
  }

  // ----- Startup establishes it -----

  lemma {:induction false} AdoptExact(listed: seq<Listed>, known: set<Uid>, now: int)
    ensures forall u :: u in Adopt(listed, known, now) ==>
      var e := Adopt(listed, known, now)[u]; !e.stopping && e.lastSeen == now && Listed(e.id, NameOf(u)) in listed
    ensures forall c :: c in listed && IsManagedName(c.name, known) ==> c.name[3..] in Adopt(listed, known, now)
  {
    if listed != [] {
      var rest, c := listed[..|listed| - 1], listed[|listed| - 1];
      AdoptExact(rest, known, now);
      assert listed == rest + [c];
      if IsManagedName(c.name, known) {
        assert c.name == NameOf(c.name[3..]);
      }
    }
  }

  /** A user has an entry at startup if and only if the user is known and a
      container under the user's name was listed; the entry is for such a one. */
  lemma {:induction false} AdoptIsExact(listed: seq<Listed>, known: set<Uid>, now: int, u: Uid)
    ensures var t := Adopt(listed, known, now);
      && (u in t <==> u in known && u != "" && exists id :: Listed(id, "df-" + u) in listed)
      && (u in t ==> !t[u].stopping && t[u].lastSeen == now && Listed(t[u].id, "df-" + u) in listed)
  {
    if listed != [] {
      var before, c := listed[..|listed| - 1], listed[|listed| - 1];
      AdoptIsExact(before, known, now, u);
      assert listed == before + [c];
      ManagedIsExact(c.name, known, u);
      if id :| Listed(id, "df-" + u) in listed {
        assert Listed(id, "df-" + u) in before || Listed(id, "df-" + u) == c;
      }
    }
  }

  lemma ManagedIsExact(name: string, known: set<Uid>, u: Uid)
    ensures name == "df-" + u ==> (IsManagedName(name, known) <==> u in known && u != "")
    ensures IsManagedName(name, known) ==> name == "df-" + name[3..]
  {
    if name == "df-" + u {
      assert name[3..] == u;
    }
  }

  /** At startup the strays are the running containers under no known user's name. */
  lemma StraysAreExact(s: State, listed: seq<Listed>, known: set<Uid>, i: ContainerId)
    requires Booted(s, listed, known)
    ensures i in s.strays <==>
      i in s.docker && s.docker[i].status == Running && forall u :: u in known && u != "" ==>
        s.docker[i].name != "df-" + u
  {
    if i in s.docker {
      var name := s.docker[i].name;
      forall u | u in known && u != "" && name == "df-" + u ensures IsManagedName(name, known) {
        ManagedIsExact(name, known, u);
      }
      if IsManagedName(name, known) {
        ManagedIsExact(name, known, name[3..]);
      }
    }
  }

  /** Startup is possible whatever containers a previous instance left. */
  lemma BootIsPossible(d: Docker, listed: seq<Listed>, known: set<Uid>, now: int)
    requires NamesUnique(d) && ListingComplete(d, listed)
    ensures exists s :: Booted(s, listed, known) && s.docker == d && s.clock == now
  {
    var strays := set i | i in d && d[i].status == Running && !IsManagedName(d[i].name, known);
    var s := State(Adopt(listed, known, now), d, map[], Free, now, {}, strays);
    assert Booted(s, listed, known);
  }

  lemma BootEstablishes(cfg: Config, s: State, listed: seq<Listed>, known: set<Uid>)
    requires Booted(s, listed, known)
    ensures Inv(cfg, s)
  {
    AdoptExact(listed, known, s.clock);
    forall i | IsRunning(s.docker, i) ensures IsCurrent(s.table, i) || i in s.strays {
      var name := s.docker[i].name;
      if IsManagedName(name, known) {
        assert Listed(i, name) in listed;
        var u := name[3..];
        assert NameOf(u) == name;
        assert Holds(s.table, u, i);
      }
    }
  }

  // ----- Every step keeps it -----

  /** A daemon that only lost running containers. */
  ghost predicate OnlyDeaths(d: Docker, d': Docker) {
    && d.Keys == d'.Keys
    && forall i :: i in d ==>
      && d'[i].name == d[i].name
      && (d[i].status == Removed ==> d'[i].status == Removed)
      && (d'[i].status == Running ==> d[i].status == Running)
  }

  // What each part of the invariant depends on.

  /** No container of `d` came to life or changed its name. */
  ghost predicate Later(d: Docker, d': Docker) {
    forall i :: i in d ==> i in d' && d'[i].name == d[i].name && (IsRunning(d', i) ==> IsRunning(d, i))
  }

  ghost predicate SameIds(t: Table, t': Table) {
    t.Keys == t'.Keys && forall u :: u in t ==> t'[u].id == t[u].id
  }

  ghost predicate FewerRun(d: Docker, d': Docker) {
    forall i :: IsRunning(d', i) ==> IsRunning(d, i)
  }

  lemma AccountsFrame(s: State, s': State)
    requires RunningAccounted(s) && FewerRun(s.docker, s'.docker) && SameIds(s.table, s'.table)
    requires s'.orphans == s.orphans && s'.strays == s.strays
    ensures RunningAccounted(s')
  {
    forall i | IsRunning(s'.docker, i) ensures IsCurrent(s'.table, i) || i in s'.orphans || i in s'.strays {
      if IsCurrent(s.table, i) {
        var u :| Holds(s.table, u, i);
        assert Holds(s'.table, u, i);
      }
    }
  }

  lemma OpFrame(s: State, s': State, o: Op)
    requires OpOk(s, o) && Later(s.docker, s'.docker)
    ensures OpOk(s', o)
  {
    assert ClaimKnown(s, o.todo[0]);
    forall c | c in o.todo ensures ClaimKnown(s', c) {
      assert ClaimKnown(s, c);
    }
  }

  lemma OpsFrame(s: State, s': State)
    requires OpsOk(s) && Later(s.docker, s'.docker) && s'.ops == s.ops
    ensures OpsOk(s')
  {
    hide OpOk, Later;
    forall o | o in s'.ops ensures OpOk(s', s'.ops[o]) {
      OpFrame(s, s', s.ops[o]);
    }
  }

  /** Every stopper is still there with the same claims. */
  ghost predicate StoppersStay(s: State, s': State) {
    forall o :: o in s.ops && s.ops[o].kind != Import ==>
      o in s'.ops && s'.ops[o].kind == s.ops[o].kind && s'.ops[o].todo == s.ops[o].todo
  }

  lemma ClaimedGrows(s: State, s': State, c: Claim)
    requires Claimed(s, c) && StoppersStay(s, s')
    ensures Claimed(s', c)
  {
    var o :| o in s.ops && s.ops[o].kind != Import && c in s.ops[o].todo;
    assert o in s'.ops && c in s'.ops[o].todo;
  }

  predicate FlaggedWas(s: State, u: Uid, e: Entry) {
    u in s.table && s.table[u].stopping && s.table[u].id == e.id
  }

  lemma FlagsFrame(s: State, s': State)
    requires FlagsClaimed(s) && StoppersStay(s, s')
    requires forall u :: u in s'.table && s'.table[u].stopping ==> FlaggedWas(s, u, s'.table[u])
    ensures FlagsClaimed(s')
  {
    hide Claimed, StoppersStay;
    forall u | u in s'.table && s'.table[u].stopping ensures Claimed(s', Claim(u, s'.table[u].id)) {
      assert FlaggedWas(s, u, s'.table[u]);
      ClaimedGrows(s, s', Claim(u, s.table[u].id));
    }
  }

  lemma DeathsAreLater(d: Docker, d': Docker)
    requires OnlyDeaths(d, d')
    ensures Later(d, d') && FewerRun(d, d')
  {
  }

  lemma LaterItself(d: Docker)
    ensures Later(d, d) && FewerRun(d, d)
  {
  }

  lemma DeathsKeep(cfg: Config, s: State, d': Docker)
    requires Inv(cfg, s) && OnlyDeaths(s.docker, d')
    ensures Inv(cfg, s.(docker := d'))
  {
    hide OpsOk, FlagsClaimed, RunningAccounted, Later, FewerRun;
    var s' := s.(docker := d');
    DeathsAreLater(s.docker, d');
    AccountsFrame(s, s');
    OpsFrame(s, s');
    FlagsFrame(s, s');
  }

  lemma PhaseKeeps(cfg: Config, s: State, op: OpId, phase: Phase)
    requires Inv(cfg, s) && op in s.ops && OpOk(s, s.ops[op].(phase := phase))
    ensures Inv(cfg, WithPhase(s, op, phase))
  {
    hide FlagsClaimed, RunningAccounted, Later, FewerRun, OpOk;
    var s' := WithPhase(s, op, phase);
    LaterItself(s.docker);
    AccountsFrame(s, s');
    FlagsFrame(s, s');
    forall o | o in s'.ops ensures OpOk(s', s'.ops[o]) {
      OpFrame(s, s', s'.ops[o]);
    }
  }

  /** Dropping an operation is safe once no flagged entry depends on it. */
  lemma DropKeeps(cfg: Config, s: State, op: OpId)
    requires Inv(cfg, s) && op in s.ops && s.ops[op].kind == Import
    ensures Inv(cfg, s.(ops := s.ops - {op}))
  {
    hide FlagsClaimed, RunningAccounted, Later, FewerRun, OpOk;
    var s' := s.(ops := s.ops - {op});
    LaterItself(s.docker);
    AccountsFrame(s, s');
    FlagsFrame(s, s');
    forall o | o in s'.ops ensures OpOk(s', s'.ops[o]) {
      OpFrame(s, s', s.ops[o]);
    }
  }

  lemma ProbeKeeps(cfg: Config, s: State, op: OpId)
    requires Inv(cfg, s) && CanAdvance(s, op, ProbeReturns)
    ensures Inv(cfg, Advanced(s, op, ProbeReturns))
  {
    var o := s.ops[op];
    assert OpOk(s, o);
    if !IsRunning(s.docker, o.todo[0].id) {
      PhaseKeeps(cfg, s, op, Forgetting(false));
    } else if o.kind == Import {
      DropKeeps(cfg, s, op);
    } else {
      PhaseKeeps(cfg, s, op, Stopping);
    }
  }

  lemma StopKeeps(cfg: Config, s: State, op: OpId, ok: bool)
    requires Inv(cfg, s) && CanAdvance(s, op, StopReturns(ok))
    ensures Inv(cfg, Advanced(s, op, StopReturns(ok)))
  {
    var o := s.ops[op];
    assert OpOk(s, o);
    if ok {
      var d' := SetStatus(s.docker, o.todo[0].id, Removed);
      DeathsKeep(cfg, s, d');
      var s1 := s.(docker := d');
      assert OpOk(s1, o) by { assert o == s1.ops[op]; }
      PhaseKeeps(cfg, s1, op, Forgetting(false));
    } else if o.kind == AdminDelete {
      PhaseKeeps(cfg, s, op, Unflagging);
    } else {
      PhaseKeeps(cfg, s, op, Forgetting(true));
    }
  }

  lemma BeginKeepsClaims(cfg: Config, s: State, op: OpId, kind: Kind, uid: Uid)
    requires FlagsClaimed(s) && Enabled(cfg, s, Begin(op, kind, uid))
    ensures FlagsClaimed(Apply(cfg, s, Begin(op, kind, uid)))
  {
    var s' := Apply(cfg, s, Begin(op, kind, uid));
    forall u | u in s'.table && s'.table[u].stopping ensures Claimed(s', Claim(u, s'.table[u].id)) {
      if u == uid && kind != Import {
        assert s'.ops[op].todo[0] == Claim(uid, s.table[uid].id);
        assert op in s'.ops && Claim(u, s'.table[u].id) in s'.ops[op].todo;
      } else {
        ClaimedGrows(s, s', Claim(u, s.table[u].id));
      }
    }
  }

  lemma BeginKeepsOps(cfg: Config, s: State, op: OpId, kind: Kind, uid: Uid)
    requires OpsOk(s) && TableBacked(s) && Enabled(cfg, s, Begin(op, kind, uid))
    ensures OpsOk(Apply(cfg, s, Begin(op, kind, uid)))
  {
    hide Later, FewerRun;
    var s' := Apply(cfg, s, Begin(op, kind, uid));
    LaterItself(s.docker);
    forall o | o in s'.ops ensures OpOk(s', s'.ops[o]) {
      if o == op {
        assert s'.ops[op].todo == [Claim(uid, s.table[uid].id)] && ClaimKnown(s', Claim(uid, s.table[uid].id));
      } else {
        OpFrame(s, s', s.ops[o]);
      }
    }
  }

  lemma BeginKeeps(cfg: Config, s: State, op: OpId, kind: Kind, uid: Uid)
    requires Inv(cfg, s) && Enabled(cfg, s, Begin(op, kind, uid))
    ensures Inv(cfg, Apply(cfg, s, Begin(op, kind, uid)))
  {
    hide OpsOk, FlagsClaimed, RunningAccounted, Later, FewerRun;
    LaterItself(s.docker);
    BeginKeepsClaims(cfg, s, op, kind, uid);
    BeginKeepsOps(cfg, s, op, kind, uid);
    AccountsFrame(s, Apply(cfg, s, Begin(op, kind, uid)));
  }

  /** What the reaper's scan makes of a state. */
  function Reaped(cfg: Config, s: State, op: OpId, order: seq<Uid>): State
    requires forall u :: u in order ==> u in s.table
  {
    s.(table := ReapFlags(cfg, s.table, s.clock), ops := s.ops[op := Op(Reap, Claims(s.table, order), Stopping)])
  }

  lemma ReapKeepsClaims(cfg: Config, s: State, op: OpId, order: seq<Uid>)
    requires FlagsClaimed(s) && op !in s.ops && IsReapOrder(cfg, s.table, s.clock, order)
    ensures FlagsClaimed(Reaped(cfg, s, op, order))
  {
    var s' := Reaped(cfg, s, op, order);
    var todo := Claims(s.table, order);
    forall u | u in s'.table && s'.table[u].stopping ensures Claimed(s', Claim(u, s'.table[u].id)) {
      if s.table[u].stopping {
        ClaimedGrows(s, s', Claim(u, s.table[u].id));
      } else {
        assert u in order;
        var k :| 0 <= k < |order| && order[k] == u;
        assert todo[k] == Claim(u, s.table[u].id);
        assert s'.ops[op].todo == todo;
      }
    }
  }

  lemma ReapKeepsOps(cfg: Config, s: State, op: OpId, order: seq<Uid>)
    requires OpsOk(s) && TableBacked(s) && op !in s.ops && order != [] && IsReapOrder(cfg, s.table, s.clock, order)
    ensures OpsOk(Reaped(cfg, s, op, order))
  {
  }

  lemma ReapKeeps(cfg: Config, s: State, op: OpId, order: seq<Uid>)
    requires Inv(cfg, s) && s.lock == Free && op !in s.ops && order != [] && IsReapOrder(cfg, s.table, s.clock, order)
    ensures Inv(cfg, Reaped(cfg, s, op, order))
  {
    hide OpsOk, FlagsClaimed, RunningAccounted, Later, FewerRun, Claims;
    LaterItself(s.docker);
    ReapKeepsClaims(cfg, s, op, order);
    ReapKeepsOps(cfg, s, op, order);
    AccountsFrame(s, Reaped(cfg, s, op, order));
  }

  ghost predicate Finishing(s: State, op: OpId) {
    op in s.ops && s.ops[op].todo != [] && (s.ops[op].phase.Forgetting? || s.ops[op].phase.Unflagging?)
  }

  lemma OpIsOk(s: State, op: OpId)
    requires OpsOk(s) && op in s.ops
    ensures OpOk(s, s.ops[op])
  {
  }

  lemma FinishKeepsAccounts(cfg: Config, s: State, op: OpId)
    requires Inv(cfg, s) && Finishing(s, op)
    ensures RunningAccounted(FinishOp(s, op))
  {
    hide FlagsClaimed, OpsOk, IsCurrent, Forget, Unflag;
    var s' := FinishOp(s, op);
    forall i | IsRunning(s'.docker, i) ensures IsCurrent(s'.table, i) || i in s'.orphans || i in s'.strays {
      FinishAccounts(cfg, s, op, i);
    }
  }

  lemma FinishKeepsOps(s: State, op: OpId)
    requires OpsOk(s) && Finishing(s, op)
    ensures OpsOk(FinishOp(s, op))
  {
    hide OpOk, Later, FewerRun, Forget, Unflag;
    var s' := FinishOp(s, op);
    LaterItself(s.docker);
    forall p | p in s'.ops ensures OpOk(s', s'.ops[p]) {
      OpFrame(s, s', s.ops[p]);
      if p == op {
        NextClaimOk(s', s.ops[op]);
      }
    }
  }

  lemma FinishKeeps(cfg: Config, s: State, op: OpId)
    requires Inv(cfg, s) && Finishing(s, op) && s.lock == Free
    ensures Inv(cfg, FinishOp(s, op))
  {
    hide FlagsClaimed, OpsOk, RunningAccounted;
    assert OpOk(s, s.ops[op]) by { OpIsOk(s, op); }
    FinishKeepsClaims(cfg, s, op);
    FinishKeepsAccounts(cfg, s, op);
    FinishKeepsOps(s, op);
  }

  lemma NextClaimOk(s: State, o: Op)
    requires OpOk(s, o) && |o.todo| > 1
    ensures OpOk(s, Op(o.kind, o.todo[1..], Stopping))
  {
    assert forall c :: c in o.todo[1..] ==> c in o.todo;
  }

  lemma FinishAccounts(cfg: Config, s: State, op: OpId, i: ContainerId)
    requires Inv(cfg, s) && Finishing(s, op) && IsRunning(s.docker, i)
    ensures var s' := FinishOp(s, op); IsCurrent(s'.table, i) || i in s'.orphans || i in s'.strays
  {
    var s' := FinishOp(s, op);
    var o := s.ops[op];
    var c := o.todo[0];
    assert OpOk(s, o);
    if IsCurrent(s.table, i) {
      var u :| Holds(s.table, u, i);
      if Claim(u, i) != c || o.phase == Unflagging {
        assert Holds(s'.table, u, i);
      }
    }
  }

  lemma FinishKeepsClaims(cfg: Config, s: State, op: OpId)
    requires FlagsClaimed(s) && Finishing(s, op) && OpOk(s, s.ops[op])
    ensures FlagsClaimed(FinishOp(s, op))
  {
    var s' := FinishOp(s, op);
    var o := s.ops[op];
    var c := o.todo[0];
    forall u | u in s'.table && s'.table[u].stopping ensures Claimed(s', Claim(u, s'.table[u].id)) {
      var d := Claim(u, s.table[u].id);
      assert d != c;
      var p :| p in s.ops && s.ops[p].kind != Import && d in s.ops[p].todo;
      if p == op {
        var k :| 0 <= k < |o.todo| && o.todo[k] == d;
        assert o.todo[1..][k - 1] == d;
      }
      assert p in s'.ops && d in s'.ops[p].todo;
    }
  }

  lemma LookupKeeps(cfg: Config, s: State, uid: Uid)
    requires Inv(cfg, s) && s.lock == Free
    ensures Inv(cfg, Ensured(cfg, s, Lookup(uid)))
  {
    LockKeeps(cfg, s, Ensured(cfg, s, Lookup(uid)).lock);
  }

  lemma LockKeeps(cfg: Config, s: State, l: Lock)
    requires Inv(cfg, s)
    requires LockOk(cfg, s.(lock := l))
    ensures Inv(cfg, s.(lock := l))
  {
    hide OpsOk, FlagsClaimed, RunningAccounted, Later, FewerRun;
    var s' := s.(lock := l);
    LaterItself(s.docker);
    AccountsFrame(s, s');
    OpsFrame(s, s');
    FlagsFrame(s, s');
  }

  lemma TouchKeepsLock(cfg: Config, s: State, uid: Uid)
    requires LockOk(cfg, s)
    ensures LockOk(cfg, s.(table := Touch(s.table, uid, s.clock)))
  {
    assert Touch(s.table, uid, s.clock).Keys == s.table.Keys;
    assert |Touch(s.table, uid, s.clock)| == |Touch(s.table, uid, s.clock).Keys| && |s.table| == |s.table.Keys|;
  }

  lemma TouchKeeps(cfg: Config, s: State, uid: Uid)
    requires Inv(cfg, s)
    ensures Inv(cfg, s.(table := Touch(s.table, uid, s.clock)))
  {
    hide OpsOk, FlagsClaimed, RunningAccounted, Later, FewerRun, LockOk;
    var s' := s.(table := Touch(s.table, uid, s.clock));
    LaterItself(s.docker);
    TouchKeepsLock(cfg, s, uid);
    AccountsFrame(s, s');
    OpsFrame(s, s');
    FlagsFrame(s, s');
  }

  lemma StillCurrent(s: State, uid: Uid, i: ContainerId)
    requires uid in s.table && !IsRunning(s.docker, s.table[uid].id) && IsRunning(s.docker, i) && IsCurrent(s.table, i)
    ensures IsCurrent(s.table - {uid}, i)
  {
    var u :| Holds(s.table, u, i);
    assert Holds(s.table - {uid}, u, i);
  }

  /** An entry whose container is dead can be dropped. */
  lemma DropDeadKeeps(cfg: Config, s: State, uid: Uid)
    requires Inv(cfg, s) && s.lock == Free && uid in s.table && !IsRunning(s.docker, s.table[uid].id)
    ensures Inv(cfg, s.(table := s.table - {uid}))
  {
    hide OpsOk, FlagsClaimed, Later, FewerRun, IsCurrent;
    var s' := s.(table := s.table - {uid});
    LaterItself(s.docker);
    forall i | IsRunning(s'.docker, i) ensures IsCurrent(s'.table, i) || i in s'.orphans || i in s'.strays {
      if IsCurrent(s.table, i) {
        StillCurrent(s, uid, i);
      }
    }
    OpsFrame(s, s');
    FlagsFrame(s, s');
  }

  lemma InspectKeeps(cfg: Config, s: State)
    requires Inv(cfg, s) && CanEnsure(s, Inspect)
    ensures Inv(cfg, Ensured(cfg, s, Inspect))
  {
    var uid := s.lock.uid;
    LockKeeps(cfg, s, Free);
    var s1 := s.(lock := Free);
    if IsRunning(s.docker, s.table[uid].id) {
      TouchKeeps(cfg, s1, uid);
    } else {
      DropDeadKeeps(cfg, s1, uid);
      var s2 := s1.(table := s.table - {uid});
      LockKeeps(cfg, s2, Ensured(cfg, s, Inspect).lock);
    }
  }

  lemma RemoveKeeps(cfg: Config, s: State, removed: RemoveOutcome)
    requires Inv(cfg, s) && CanEnsure(s, Remove(removed))
    ensures Inv(cfg, Ensured(cfg, s, Remove(removed)))
  {
    var s' := Ensured(cfg, s, Remove(removed));
    if removed == RmOk {
      DeathsKeep(cfg, s, s'.docker);
      LockKeeps(cfg, s.(docker := s'.docker), s'.lock);
    } else {
      LockKeeps(cfg, s, s'.lock);
    }
  }

  lemma LaunchKeepsNames(cfg: Config, s: State, ran: RunOutcome)
    requires NamesUnique(s.docker) && CanEnsure(s, Launch(ran))
    ensures NamesUnique(Ensured(cfg, s, Launch(ran)).docker) && Later(s.docker, Ensured(cfg, s, Launch(ran)).docker)
  {
    hide NameOf;
  }

  lemma LaunchKeepsAccounts(cfg: Config, s: State, ran: RunOutcome)
    requires RunningAccounted(s) && LockOk(cfg, s) && CanEnsure(s, Launch(ran))
    ensures RunningAccounted(Ensured(cfg, s, Launch(ran)))
  {
    hide NameOf, NameFree;
    var s', uid := Ensured(cfg, s, Launch(ran)), s.lock.uid;
    forall i | IsRunning(s'.docker, i) ensures IsCurrent(s'.table, i) || i in s'.orphans || i in s'.strays {
      if i !in s.docker {
        assert Holds(s'.table, uid, i);
      } else if IsCurrent(s.table, i) {
        var u :| Holds(s.table, u, i);
        assert Holds(s'.table, u, i);
      }
    }
  }

  lemma LaunchKeepsTable(cfg: Config, s: State, ran: RunOutcome)
    requires TableBacked(s) && LockOk(cfg, s) && CanEnsure(s, Launch(ran))
    ensures TableBacked(Ensured(cfg, s, Launch(ran)))
  {
    hide NameOf, NameFree;
  }

  lemma LaunchKeeps(cfg: Config, s: State, ran: RunOutcome)
    requires Inv(cfg, s) && CanEnsure(s, Launch(ran))
    ensures Inv(cfg, Ensured(cfg, s, Launch(ran)))
  {
    hide NamesUnique, TableBacked, OpsOk, FlagsClaimed, RunningAccounted, Later, RunName, NameOf;
    var s' := Ensured(cfg, s, Launch(ran));
    LaunchKeepsNames(cfg, s, ran);
    LaunchKeepsAccounts(cfg, s, ran);
    LaunchKeepsTable(cfg, s, ran);
    OpsFrame(s, s');
    FlagsFrame(s, s');
  }

  lemma TickKeeps(cfg: Config, s: State, now: int)
    requires Inv(cfg, s) && s.clock <= now
    ensures Inv(cfg, s.(clock := now))
  {
    hide OpsOk, FlagsClaimed, RunningAccounted, Later, FewerRun;
    var s' := s.(clock := now);
    LaterItself(s.docker);
    AccountsFrame(s, s');
    OpsFrame(s, s');
    FlagsFrame(s, s');
  }

  lemma AdvanceKeeps(cfg: Config, s: State, op: OpId, act: Act)
    requires Inv(cfg, s) && CanAdvance(s, op, act)
    ensures Inv(cfg, Advanced(s, op, act))
  {
    match act
    case ProbeReturns => ProbeKeeps(cfg, s, op);
    case StopReturns(ok) => StopKeeps(cfg, s, op, ok);
    case Finish => FinishKeeps(cfg, s, op);
  }

  lemma EnsureKeeps(cfg: Config, s: State, stage: Stage)
    requires Inv(cfg, s) && CanEnsure(s, stage)
    ensures Inv(cfg, Ensured(cfg, s, stage))
  {
    match stage
    case Lookup(uid) => LookupKeeps(cfg, s, uid);
    case Inspect => InspectKeeps(cfg, s);
    case Remove(removed) => RemoveKeeps(cfg, s, removed);
    case Launch(ran) => LaunchKeeps(cfg, s, ran);
  }

  lemma StepKeeps(cfg: Config, s: State, step: Step)
    requires Inv(cfg, s) && Enabled(cfg, s, step)
    ensures Inv(cfg, Apply(cfg, s, step))
  {
    match step
    case Tick(now) => TickKeeps(cfg, s, now);
    case Die(id, status) => DeathsKeep(cfg, s, SetStatus(s.docker, id, status));
    case Keepalive(uid) => TouchKeeps(cfg, s, uid);
    case Begin(op, kind, uid) => BeginKeeps(cfg, s, op, kind, uid);
    case ReapTick(op, order) => if order != [] { ReapKeeps(cfg, s, op, order); }
    case Advance(op, act) => AdvanceKeeps(cfg, s, op, act);
    case Ensure(stage) => EnsureKeeps(cfg, s, stage);
  }

  lemma {:induction false} InvariantHolds(cfg: Config, r: Run, listed: seq<Listed>, known: set<Uid>, i: nat)
    requires IsBootedRun(cfg, r, listed, known) && i < |r.states|
    ensures Inv(cfg, r.states[i])
  {
    hide Apply, Enabled, Inv, Booted;
    if i == 0 {
      BootEstablishes(cfg, r.states[0], listed, known);
    } else {
      InvariantHolds(cfg, r, listed, known, i - 1);
      StepKeeps(cfg, r.states[i - 1], r.steps[i - 1]);
    }
  }
}
