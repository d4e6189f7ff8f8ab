/** What the lifecycle protocol guarantees over whole runs, under every
    interleaving of any number of operations. */
module LifecycleTheorems {
  import opened Basics
  import opened Lifecycle
  import opened LifecycleInvariant

  // ----- What a stage of a request can do -----

  predicate Launches(step: Step) {
    step.Ensure? && step.stage.Launch? && step.stage.ran.RunOk?
  }

  /** An entry that was there, with its flag, or one just made for a new container. */
  predicate EntryComesFrom(s: State, stage: Stage, u: Uid, e: Entry) {
    || (u in s.table && e.id == s.table[u].id && e.stopping == s.table[u].stopping
      && (e.lastSeen == s.table[u].lastSeen || e.lastSeen == s.clock))
    || (Launches(Ensure(stage)) && s.lock == Launching(u) && e == Entry(stage.ran.id, false, s.clock)
      && e.id !in s.docker)
  }

  ghost predicate EnsureEffect(s: State, stage: Stage, s': State) {
    && s'.ops == s.ops && s'.orphans == s.orphans && s'.strays == s.strays && s'.clock == s.clock
    && (forall i :: i in s.docker ==> i in s'.docker && (IsRunning(s'.docker, i) ==> IsRunning(s.docker, i)))
    && (forall u :: u in s'.table ==> EntryComesFrom(s, stage, u, s'.table[u]))
  }

  lemma SameEffect(s: State, stage: Stage, l: Lock)
    ensures EnsureEffect(s, stage, s.(lock := l))
  {
  }

  lemma CheckCapEffect(cfg: Config, s: State, stage: Stage, s1: State, uid: Uid)
    requires EnsureEffect(s, stage, s1)
    ensures EnsureEffect(s, stage, CheckCap(cfg, s1, uid))
  {
    hide EntryComesFrom, IsRunning;
  }

  lemma InspectEffect(cfg: Config, s: State)
    requires CanEnsure(s, Inspect)
    ensures EnsureEffect(s, Inspect, Ensured(cfg, s, Inspect))
  {
    var uid := s.lock.uid;
    if IsRunning(s.docker, s.table[uid].id) {
      assert EnsureEffect(s, Inspect, s.(table := Touch(s.table, uid, s.clock), lock := Free));
    } else {
      assert EnsureEffect(s, Inspect, s.(table := s.table - {uid}));
      hide EnsureEffect;
      CheckCapEffect(cfg, s, Inspect, s.(table := s.table - {uid}), uid);
    }
  }

  lemma RemoveEffect(cfg: Config, s: State, removed: RemoveOutcome)
    requires CanEnsure(s, Remove(removed))
    ensures EnsureEffect(s, Remove(removed), Ensured(cfg, s, Remove(removed)))
  {
    hide NameOf;
  }

  lemma LaunchEffect(cfg: Config, s: State, ran: RunOutcome)
    requires CanEnsure(s, Launch(ran))
    ensures EnsureEffect(s, Launch(ran), Ensured(cfg, s, Launch(ran)))
  {
    hide NameOf;
  }

  lemma EnsureEffects(cfg: Config, s: State, stage: Stage)
    requires CanEnsure(s, stage)
    ensures EnsureEffect(s, stage, Ensured(cfg, s, stage))
  {
    hide EnsureEffect;
    match stage
    case Lookup(uid) =>
      SameEffect(s, stage, s.lock);
      SameEffect(s, stage, Inspecting(uid));
      CheckCapEffect(cfg, s, stage, s, uid);
    case Inspect => InspectEffect(cfg, s);
    case Remove(removed) => RemoveEffect(cfg, s, removed);
    case Launch(ran) => LaunchEffect(cfg, s, ran);
  }

  // ----- Containers are unique and accounted for -----

  lemma RunningContainersAreAccountedFor(cfg: Config, r: Run, listed: seq<Listed>, known: set<Uid>, i: nat)
    requires IsBootedRun(cfg, r, listed, known) && i < |r.states|
    ensures var s := r.states[i];
      && (forall a, b :: IsRunning(s.docker, a) && IsRunning(s.docker, b) && s.docker[a].name == s.docker[b].name ==>
        a == b)
      && (forall a :: IsRunning(s.docker, a) && a !in s.orphans && a !in s.strays ==>
            exists u :: Holds(s.table, u, a) && s.docker[a].name == NameOf(u))
  {
    InvariantHolds(cfg, r, listed, known, i);
    var s := r.states[i];
    forall a | IsRunning(s.docker, a) && a !in s.orphans && a !in s.strays
      ensures exists u :: Holds(s.table, u, a) && s.docker[a].name == NameOf(u)
    {
      var u :| Holds(s.table, u, a);
      assert s.docker[a].name == NameOf(u);
    }
  }

  /** Step `j` of the run is a stop command that failed on container `id`. */
  ghost predicate FailedStopAt(cfg: Config, r: Run, j: nat, op: OpId, id: ContainerId)
    requires IsRun(cfg, r)
  {
    j < |r.steps| && r.steps[j] == Advance(op, StopReturns(false)) && r.states[j].ops[op].todo[0].id == id
  }

  ghost predicate FailedStopBefore(cfg: Config, r: Run, i: nat, id: ContainerId)
    requires IsRun(cfg, r)
  {
    exists j: nat, op :: j < i && FailedStopAt(cfg, r, j, op, id)
  }

  lemma FailedPhaseOrigin(cfg: Config, s: State, step: Step, op: OpId)
    requires Enabled(cfg, s, step)
    requires op in Apply(cfg, s, step).ops && Apply(cfg, s, step).ops[op].phase == Forgetting(true)
    ensures op in s.ops && s.ops[op].todo == Apply(cfg, s, step).ops[op].todo
    ensures step != Advance(op, StopReturns(false)) ==> s.ops[op].phase == Forgetting(true)
  {
    if step.Ensure? {
      EnsureEffects(cfg, s, step.stage);
    }
  }

  lemma {:induction false} FailedPhaseHasFailedStop(cfg: Config, r: Run, i: nat, op: OpId)
    requires IsRun(cfg, r) && i < |r.states| && r.states[0].ops == map[]
    requires op in r.states[i].ops && r.states[i].ops[op].phase == Forgetting(true) && r.states[i].ops[op].todo != []
    ensures FailedStopBefore(cfg, r, i, r.states[i].ops[op].todo[0].id)
  {
    FailedPhaseOrigin(cfg, r.states[i - 1], r.steps[i - 1], op);
    if r.steps[i - 1] == Advance(op, StopReturns(false)) {
      assert FailedStopAt(cfg, r, i - 1, op, r.states[i].ops[op].todo[0].id);
    } else {
      FailedPhaseHasFailedStop(cfg, r, i - 1, op);
      var id := r.states[i].ops[op].todo[0].id;
      var j: nat, p :| j < i - 1 && FailedStopAt(cfg, r, j, p, id);
      assert j < i && FailedStopAt(cfg, r, j, p, id);
    }
  }

  lemma OrphanOrigin(cfg: Config, s: State, step: Step, id: ContainerId)
    requires Enabled(cfg, s, step) && id in Apply(cfg, s, step).orphans && id !in s.orphans
    ensures step.Advance? && step.act == Finish && s.ops[step.op].phase == Forgetting(true)
      && s.ops[step.op].todo[0].id == id
    ensures IsCurrent(s.table, id)
  {
    if step.Ensure? {
      EnsureEffects(cfg, s, step.stage);
    } else {
      assert Holds(s.table, s.ops[step.op].todo[0].uid, id);
    }
  }

  /** An orphan is the work of a stop command that failed. */
  lemma {:induction false} OrphansComeFromFailedStops(cfg: Config, r: Run, listed: seq<Listed>, known: set<Uid>,
    i: nat, id: ContainerId)
    requires IsBootedRun(cfg, r, listed, known) && i < |r.states| && id in r.states[i].orphans
    ensures FailedStopBefore(cfg, r, i, id)
  {
    var s, step := r.states[i - 1], r.steps[i - 1];
    if id in s.orphans {
      OrphansComeFromFailedStops(cfg, r, listed, known, i - 1, id);
    } else {
      OrphanOrigin(cfg, s, step, id);
      FailedPhaseHasFailedStop(cfg, r, i - 1, step.op);
    }
    var j: nat, p :| j <= i - 1 && FailedStopAt(cfg, r, j, p, id);
    assert j < i && FailedStopAt(cfg, r, j, p, id);
  }

  lemma StepKeepsDead(cfg: Config, s: State, step: Step, id: ContainerId)
    requires Enabled(cfg, s, step) && id in s.docker && !IsRunning(s.docker, id)
    ensures id in Apply(cfg, s, step).docker && !IsRunning(Apply(cfg, s, step).docker, id)
  {
    match step
    case Ensure(stage) => EnsureEffects(cfg, s, stage);
    case _ =>
  }

  /** What an unlocked look at docker once found dead can be acted on later. */
  lemma {:induction false} DeadStaysDead(cfg: Config, r: Run, i: nat, j: nat, id: ContainerId)
    requires IsRun(cfg, r) && i <= j < |r.states| && id in r.states[i].docker && !IsRunning(r.states[i].docker, id)
    ensures id in r.states[j].docker && !IsRunning(r.states[j].docker, id)
  {
    hide Apply, Enabled, IsRunning;
    if i < j {
      DeadStaysDead(cfg, r, i, j - 1, id);
      StepKeepsDead(cfg, r.states[j - 1], r.steps[j - 1], id);
    }
  }

  /** The user has this container: running, current, unflagged, just seen. */
  ghost predicate Serves(s: State, uid: Uid, id: ContainerId) {
    && Holds(s.table, uid, id) && s.table[uid] == Entry(id, false, s.clock)
    && IsRunning(s.docker, id) && s.docker[id].name == NameOf(uid)
  }

  // A reply, by the stage that gives it.

  lemma LookupRepliesAreTrue(cfg: Config, s: State, uid: Uid)
    requires CanEnsure(s, Lookup(uid))
    ensures var s' := Ensured(cfg, s, Lookup(uid));
      match ReplyOf(cfg, s, Lookup(uid))
      case None => s'.lock != Free
      case Some(SessionEnding) => uid in s.table && s.table[uid].stopping && s' == s
      case Some(ServerBusy) => uid !in s.table && |s.table| >= cfg.maxSessions && s' == s
      case _ => false
  {
  }

  lemma InspectRepliesAreTrue(cfg: Config, s: State)
    requires CanEnsure(s, Inspect) && TableBacked(s) && LockOk(cfg, s)
    ensures var s' := Ensured(cfg, s, Inspect);
      s'.docker == s.docker && match ReplyOf(cfg, s, Inspect)
      case None => s'.lock != Free
      case Some(Existing(id)) => Serves(s', s.lock.uid, id)
      case Some(ServerBusy) => s.lock.uid !in s'.table && |s'.table| >= cfg.maxSessions
      case _ => false
  {
  }

  lemma RemoveRepliesAreTrue(cfg: Config, s: State, removed: RemoveOutcome)
    requires CanEnsure(s, Remove(removed))
    ensures var s' := Ensured(cfg, s, Remove(removed));
      match ReplyOf(cfg, s, Remove(removed))
      case None => s'.lock != Free
      case Some(RunError) => s'.table == s.table && s'.docker == s.docker
      case _ => false
  {
  }

  lemma LaunchRepliesAreTrue(cfg: Config, s: State, ran: RunOutcome)
    requires CanEnsure(s, Launch(ran))
    ensures var s' := Ensured(cfg, s, Launch(ran));
      match ReplyOf(cfg, s, Launch(ran))
      case Some(Started(id)) => Serves(s', s.lock.uid, id) && id !in s.docker
      case Some(RunError) => s'.table == s.table && forall id :: IsRunning(s'.docker, id) ==> IsRunning(s.docker, id)
      case _ => false
  {
  }

  /** What a reply says of the state it leaves. */
  ghost predicate IsTrueOf(cfg: Config, s: State, s': State, uid: Uid, reply: Option<Reply>) {
    match reply
    case None => s'.lock != Free
    case Some(SessionEnding) => uid in s.table && s.table[uid].stopping && s' == s
    case Some(ServerBusy) => uid !in s'.table && |s'.table| >= cfg.maxSessions && s'.docker == s.docker
    case Some(Existing(id)) => Serves(s', uid, id) && s'.docker == s.docker
    case Some(Started(id)) => Serves(s', uid, id) && id !in s.docker
    case Some(RunError) => s'.table == s.table && forall id :: IsRunning(s'.docker, id) ==> IsRunning(s.docker, id)
  }

  /** Every reply of every run is true of the state it leaves. */
  lemma RepliesAreTrue(cfg: Config, r: Run, listed: seq<Listed>, known: set<Uid>, i: nat, stage: Stage)
    requires IsBootedRun(cfg, r, listed, known) && i < |r.steps| && r.steps[i] == Ensure(stage)
    ensures UserOf(r.states[i], r.steps[i]).Some?
    ensures IsTrueOf(cfg, r.states[i], r.states[i + 1], UserOf(r.states[i], r.steps[i]).value,
      ReplyOf(cfg, r.states[i], stage))
  {
    InvariantHolds(cfg, r, listed, known, i);
    var s := r.states[i];
    assert CanEnsure(s, stage) && r.states[i + 1] == Ensured(cfg, s, stage);
    ReplyIsTrue(cfg, s, stage);
  }

  lemma ReplyIsTrue(cfg: Config, s: State, stage: Stage)
    requires CanEnsure(s, stage) && TableBacked(s) && LockOk(cfg, s)
    ensures UserOf(s, Ensure(stage)).Some?
    ensures IsTrueOf(cfg, s, Ensured(cfg, s, stage), UserOf(s, Ensure(stage)).value, ReplyOf(cfg, s, stage))
  {
    hide Ensured, ReplyOf, Serves, TableBacked, LockOk;
    match stage
    case Lookup(uid) => LookupRepliesAreTrue(cfg, s, uid);
    case Inspect => InspectRepliesAreTrue(cfg, s);
    case Remove(removed) => RemoveRepliesAreTrue(cfg, s, removed);
    case Launch(ran) => LaunchRepliesAreTrue(cfg, s, ran);
  }

  // ----- Nobody is locked out -----

  lemma NoFlagOutlivesItsStoppers(cfg: Config, r: Run, listed: seq<Listed>, known: set<Uid>, i: nat)
    requires IsBootedRun(cfg, r, listed, known) && i < |r.states|
    ensures var s := r.states[i];
      && (forall u :: u in s.table && s.table[u].stopping ==> Claimed(s, Claim(u, s.table[u].id)))
      && (s.ops == map[] ==> forall u :: u in s.table ==> !s.table[u].stopping)
  {
    InvariantHolds(cfg, r, listed, known, i);
  }

  /** How many steps of its own an operation has left, at most. */
  function Rank(o: Op): nat {
    3 * |o.todo| + match o.phase { case Probing => 3 case Stopping => 2 case Forgetting(_) => 1 case Unflagging => 1 }
  }

  /** A step of an operation ends it or lowers its rank. */
  lemma OperationsDrain(cfg: Config, s: State, op: OpId, act: Act)
    requires Inv(cfg, s) && CanAdvance(s, op, act) && op in Advanced(s, op, act).ops
    ensures Rank(Advanced(s, op, act).ops[op]) < Rank(s.ops[op])
  {
    assert OpOk(s, s.ops[op]);
  }

  /** A step of anyone else does not touch it. */
  lemma OperationsAreIndependent(cfg: Config, s: State, step: Step, op: OpId)
    requires Enabled(cfg, s, step) && op in s.ops && !(step.Advance? && step.op == op)
    ensures op in Apply(cfg, s, step).ops && Apply(cfg, s, step).ops[op] == s.ops[op]
  {
    if step.Ensure? {
      EnsureEffects(cfg, s, step.stage);
    }
  }

  /** An operation can always take its next step, unless that step needs the
      mutex and a request for a container holds it. */
  lemma OperationsAreNeverStuck(cfg: Config, s: State, op: OpId)
    requires Inv(cfg, s) && op in s.ops && (s.lock == Free || s.ops[op].phase == Probing || s.ops[op].phase == Stopping)
    ensures exists act :: CanAdvance(s, op, act)
  {
    assert OpOk(s, s.ops[op]);
    var act := match s.ops[op].phase
      case Probing => ProbeReturns
      case Stopping => StopReturns(true)
      case _ => Finish;
    assert CanAdvance(s, op, act);
  }

  /** How many of the steps from `i` to `j` are some that count. */
  function Count(r: Run, i: nat, j: nat, counts: Step -> bool): nat
    requires i <= j <= |r.steps|
  {
    if i == j then 0 else Count(r, i, j - 1, counts) + if counts(r.steps[j - 1]) then 1 else 0
  }

  lemma {:induction false} CountIsExact(r: Run, i: nat, j: nat, counts: Step -> bool)
    requires i <= j <= |r.steps|
    ensures Count(r, i, j, counts) == |set k: nat | i <= k < j && counts(r.steps[k])|
  {
    var all := set k: nat | i <= k < j && counts(r.steps[k]);
    if i == j {
      assert all == {};
    } else {
      CountIsExact(r, i, j - 1, counts);
      var before := set k: nat | i <= k < j - 1 && counts(r.steps[k]);
      assert all == before + if counts(r.steps[j - 1]) then {j - 1} else {};
    }
  }

  function StepsOf(op: OpId): Step -> bool {
    (step: Step) => step.Advance? && step.op == op
  }

  lemma RankStep(cfg: Config, s: State, step: Step, op: OpId)
    requires Enabled(cfg, s, step) && Inv(cfg, s) && op in s.ops && op in Apply(cfg, s, step).ops
    ensures Rank(Apply(cfg, s, step).ops[op]) + (if StepsOf(op)(step) then 1 else 0) <= Rank(s.ops[op])
  {
    hide Rank, Inv;
    if step.Advance? && step.op == op {
      OperationsDrain(cfg, s, op, step.act);
    } else {
      OperationsAreIndependent(cfg, s, step, op);
    }
  }

  lemma {:induction false} RankFalls(cfg: Config, r: Run, listed: seq<Listed>, known: set<Uid>, i: nat, j: nat,
    op: OpId)
    requires IsBootedRun(cfg, r, listed, known) && i <= j < |r.states|
    requires forall k :: i <= k <= j ==> op in r.states[k].ops
    ensures Rank(r.states[j].ops[op]) + Count(r, i, j, StepsOf(op)) <= Rank(r.states[i].ops[op])
  {
    hide Rank, Apply, Enabled, Inv, Booted, StepsOf;
    if i < j {
      RankFalls(cfg, r, listed, known, i, j - 1, op);
      InvariantHolds(cfg, r, listed, known, j - 1);
      assert op in r.states[j].ops;
      RankStep(cfg, r.states[j - 1], r.steps[j - 1], op);
    }
  }

  /** An operation is over after at most as many steps of its own as its rank
      says, whatever everyone else does in between. */
  lemma OperationsFinish(cfg: Config, r: Run, listed: seq<Listed>, known: set<Uid>, i: nat, j: nat, op: OpId)
    requires IsBootedRun(cfg, r, listed, known) && i <= j < |r.states| && op in r.states[i].ops
    requires Count(r, i, j, StepsOf(op)) >= Rank(r.states[i].ops[op])
    ensures exists k :: i < k <= j && op !in r.states[k].ops
  {
    hide Apply, Enabled, Inv, Booted, StepsOf, Count;
    if forall k :: i < k <= j ==> op in r.states[k].ops {
      RankFalls(cfg, r, listed, known, i, j, op);
    }
  }

  /** How many stages a request that holds the mutex has left, at most. */
  function StagesLeft(l: Lock): nat {
    match l
    case Free => 0
    case Launching(_) => 1
    case Removing(_) => 2
    case Inspecting(_) => 3
  }

  /** A request that holds the mutex can always take its next stage. */
  lemma RequestsAreNeverStuck(cfg: Config, s: State)
    requires Inv(cfg, s) && s.lock != Free
    ensures exists stage :: CanEnsure(s, stage)
  {
    var stage := match s.lock
      case Inspecting(_) => Inspect
      case Removing(_) => Remove(RmOk)
      case _ => Launch(RunFailed(None));
    assert CanEnsure(s, stage);
  }

  function Stages(): Step -> bool {
    (step: Step) => step.Ensure?
  }

  lemma CheckCapLock(cfg: Config, s: State, uid: Uid)
    ensures StagesLeft(CheckCap(cfg, s, uid).lock) <= 2
  {
  }

  lemma EnsureStageStep(cfg: Config, s: State, stage: Stage)
    requires CanEnsure(s, stage) && s.lock != Free
    ensures StagesLeft(Ensured(cfg, s, stage).lock) < StagesLeft(s.lock)
  {
    match stage
    case Inspect =>
      hide IsRunning, Touch, CheckCap;
      CheckCapLock(cfg, s.(table := s.table - {s.lock.uid}), s.lock.uid);
    case Remove(_) => hide RemoveName, NameOf;
    case Launch(_) => hide RunName, NameOf, RunPossible;
  }

  lemma AdvanceKeepsLock(s: State, op: OpId, act: Act)
    requires CanAdvance(s, op, act)
    ensures Advanced(s, op, act).lock == s.lock
  {
    hide SetStatus, IsRunning, Forget, Unflag;
  }

  lemma StageStep(cfg: Config, s: State, step: Step)
    requires Enabled(cfg, s, step) && s.lock != Free
    ensures StagesLeft(Apply(cfg, s, step).lock) + (if Stages()(step) then 1 else 0) <= StagesLeft(s.lock)
  {
    match step
    case Ensure(stage) => EnsureStageStep(cfg, s, stage);
    case Advance(op, act) => AdvanceKeepsLock(s, op, act);
    case _ =>
  }

  lemma {:induction false} StagesFall(cfg: Config, r: Run, i: nat, j: nat)
    requires IsRun(cfg, r) && i <= j < |r.states|
    requires forall k :: i <= k < j ==> r.states[k].lock != Free
    ensures StagesLeft(r.states[j].lock) + Count(r, i, j, Stages()) <= StagesLeft(r.states[i].lock)
  {
    hide Apply, Enabled, StagesLeft, Stages;
    if i < j {
      StagesFall(cfg, r, i, j - 1);
      StageStep(cfg, r.states[j - 1], r.steps[j - 1]);
    }
  }

  /** A request lets the mutex go after at most three stages of it. */
  lemma RequestsLetGo(cfg: Config, r: Run, i: nat, j: nat)
    requires IsRun(cfg, r) && i <= j < |r.states|
    requires Count(r, i, j, Stages()) >= 3
    ensures exists k :: i <= k <= j && r.states[k].lock == Free
  {
    hide Apply, Enabled, Stages, Count;
    if forall k :: i <= k <= j ==> r.states[k].lock != Free {
      StagesFall(cfg, r, i, j);
    }
  }

  // ----- A claim is about one container -----

  lemma StepKeepsIds(cfg: Config, s: State, step: Step)
    requires Enabled(cfg, s, step)
    ensures s.docker.Keys <= Apply(cfg, s, step).docker.Keys
  {
    match step
    case Ensure(stage) => EnsureEffects(cfg, s, stage);
    case _ =>
  }

  lemma {:induction false} IdsAreNeverReused(cfg: Config, r: Run, i: nat, j: nat)
    requires IsRun(cfg, r) && i <= j < |r.states|
    ensures r.states[i].docker.Keys <= r.states[j].docker.Keys
  {
    hide Apply, Enabled;
    if i < j {
      IdsAreNeverReused(cfg, r, i, j - 1);
      StepKeepsIds(cfg, r.states[j - 1], r.steps[j - 1]);
    }
  }

  lemma ClaimsAreOfOldContainers(cfg: Config, s: State, p: OpId, c: Claim)
    requires Inv(cfg, s) && p in s.ops && c in s.ops[p].todo
    ensures c.id in s.docker
  {
    assert OpOk(s, s.ops[p]);
    assert ClaimKnown(s, c);
  }

  lemma LaunchedIsNew(cfg: Config, s: State, d: ContainerId)
    requires Enabled(cfg, s, Ensure(Launch(RunOk(d))))
    ensures d !in s.docker && d in Apply(cfg, s, Ensure(Launch(RunOk(d)))).docker
  {
    hide NameOf, NameFree;
  }

  lemma AdvanceSparesOthers(cfg: Config, s: State, step: Step, d: ContainerId)
    requires Enabled(cfg, s, step) && step.Advance? && s.ops[step.op].todo[0].id != d && d in s.docker
    ensures d in Apply(cfg, s, step).docker && Apply(cfg, s, step).docker[d] == s.docker[d]
    ensures forall u :: Holds(s.table, u, d) ==>
      Holds(Apply(cfg, s, step).table, u, d) && Apply(cfg, s, step).table[u] == s.table[u]
  {
    hide IsRunning;
  }

  /** An operation that claimed a container by time `i` leaves alone, at time `k`,
      the container `d` that was started in between, and its entry. */
  lemma OldClaimsSpareNewContainers(cfg: Config, r: Run, listed: seq<Listed>, known: set<Uid>,
                                    i: nat, j: nat, k: nat, p: OpId, op: OpId, c: Claim, d: ContainerId)
    requires IsBootedRun(cfg, r, listed, known) && i <= j < k < |r.steps|
    requires p in r.states[i].ops && c in r.states[i].ops[p].todo
    requires r.steps[j] == Ensure(Launch(RunOk(d)))
    requires r.steps[k].Advance? && r.steps[k].op == op && r.states[k].ops[op].todo[0] == c
    ensures d in r.states[k].docker && d in r.states[k + 1].docker
    ensures r.states[k + 1].docker[d] == r.states[k].docker[d]
    ensures forall u :: Holds(r.states[k].table, u, d) ==>
      Holds(r.states[k + 1].table, u, d) && r.states[k + 1].table[u] == r.states[k].table[u]
  {
    hide Inv, Apply, Booted, NamesUnique, ListingComplete, CanAdvance, Enabled;
    InvariantHolds(cfg, r, listed, known, i);
    ClaimsAreOfOldContainers(cfg, r.states[i], p, c);
    IdsAreNeverReused(cfg, r, i, j);
    LaunchedIsNew(cfg, r.states[j], d);
    IdsAreNeverReused(cfg, r, j + 1, k);
    assert Enabled(cfg, r.states[k], r.steps[k]);
    AdvanceSparesOthers(cfg, r.states[k], r.steps[k], d);
  }

  // ----- Users do not disturb each other -----

  /** The user a step is taken for; none for the clock, docker and the reaper's scan. */
  function UserOf(s: State, step: Step): Option<Uid> {
    match step
    case Keepalive(uid) => Some(uid)
    case Begin(_, _, uid) => Some(uid)
    case Advance(op, _) => if op in s.ops && s.ops[op].todo != [] then Some(s.ops[op].todo[0].uid) else None
    case Ensure(Lookup(uid)) => Some(uid)
    case Ensure(_) => if s.lock == Free then None else Some(s.lock.uid)
    case _ => None
  }

  /** The user's entry and its container are as they were. */
  ghost predicate SameFor(s: State, s': State, uid: Uid) {
    && uid in s.table && uid in s'.table && s'.table[uid] == s.table[uid]
    && s.table[uid].id in s.docker && s.table[uid].id in s'.docker
    && s'.docker[s.table[uid].id] == s.docker[s.table[uid].id]
  }

  lemma NamesTellUsersApart(u: Uid, v: Uid)
    requires u != v
    ensures NameOf(u) != NameOf(v)
  {
    assert NameOf(u)[3..] == u && NameOf(v)[3..] == v;
  }

  lemma AdvanceLeavesOthersAlone(s: State, op: OpId, act: Act, uid: Uid)
    requires CanAdvance(s, op, act) && OpOk(s, s.ops[op]) && TableBacked(s)
    requires uid in s.table && uid != s.ops[op].todo[0].uid
    ensures SameFor(s, Advanced(s, op, act), uid)
  {
    assert ClaimKnown(s, s.ops[op].todo[0]);
    NamesTellUsersApart(uid, s.ops[op].todo[0].uid);
  }

  lemma LookupLeavesAlone(cfg: Config, s: State, stage: Stage, uid: Uid)
    requires CanEnsure(s, stage) && stage.Lookup? && TableBacked(s) && uid in s.table
    ensures SameFor(s, Ensured(cfg, s, stage), uid)
  {
    hide NameOf;
  }

  lemma InspectLeavesAlone(cfg: Config, s: State, uid: Uid)
    requires CanEnsure(s, Inspect) && TableBacked(s) && uid in s.table && uid != s.lock.uid
    ensures SameFor(s, Ensured(cfg, s, Inspect), uid)
  {
    hide NameOf, IsRunning;
  }

  lemma RemoveLeavesAlone(cfg: Config, s: State, removed: RemoveOutcome, uid: Uid)
    requires CanEnsure(s, Remove(removed)) && TableBacked(s) && uid in s.table && uid != s.lock.uid
    ensures SameFor(s, Ensured(cfg, s, Remove(removed)), uid)
  {
    hide NameOf;
    NamesTellUsersApart(uid, s.lock.uid);
  }

  lemma LaunchLeavesAlone(cfg: Config, s: State, ran: RunOutcome, uid: Uid)
    requires CanEnsure(s, Launch(ran)) && TableBacked(s) && uid in s.table && uid != s.lock.uid
    ensures SameFor(s, Ensured(cfg, s, Launch(ran)), uid)
  {
    hide NameOf, NameFree;
  }

  lemma EnsureLeavesOthersAlone(cfg: Config, s: State, stage: Stage, uid: Uid)
    requires CanEnsure(s, stage) && TableBacked(s)
    requires uid in s.table && (stage.Lookup? || uid != s.lock.uid)
    ensures SameFor(s, Ensured(cfg, s, stage), uid)
  {
    hide SameFor, TableBacked;
    match stage
    case Lookup(_) => LookupLeavesAlone(cfg, s, stage, uid);
    case Inspect => InspectLeavesAlone(cfg, s, uid);
    case Remove(removed) => RemoveLeavesAlone(cfg, s, removed, uid);
    case Launch(ran) => LaunchLeavesAlone(cfg, s, ran, uid);
  }

  /** Nothing done for one user changes another's entry or container, although
      requests remove containers by name. */
  lemma UsersAreIsolated(cfg: Config, s: State, step: Step, uid: Uid)
    requires Enabled(cfg, s, step) && OpsOk(s) && TableBacked(s) && uid in s.table
    requires !step.Tick? && !step.Die? && !step.ReapTick? && UserOf(s, step) != Some(uid)
    ensures SameFor(s, Apply(cfg, s, step), uid)
  {
    match step
    case Advance(op, act) => AdvanceLeavesOthersAlone(s, op, act, uid);
    case Ensure(stage) => EnsureLeavesOthersAlone(cfg, s, stage, uid);
    case _ =>
  }

  // ----- What is forgotten stays forgotten -----

  /** Nobody's entry is for this container, and none made from now on will be. */
  ghost predicate Forgotten(s: State, id: ContainerId) {
    id in s.docker && forall u :: !Holds(s.table, u, id)
  }

  lemma FinishForgets(s: State, op: OpId)
    requires CanAdvance(s, op, Finish) && s.ops[op].phase.Forgetting? && OpOk(s, s.ops[op]) && TableBacked(s)
    ensures Forgotten(Advanced(s, op, Finish), s.ops[op].todo[0].id)
  {
    var c := s.ops[op].todo[0];
    assert ClaimKnown(s, c);
    forall u ensures !Holds(Advanced(s, op, Finish).table, u, c.id) {
      if u != c.uid {
        NamesTellUsersApart(u, c.uid);
      }
    }
  }

  lemma EnsureKeepsForgotten(cfg: Config, s: State, stage: Stage, id: ContainerId)
    requires CanEnsure(s, stage) && Forgotten(s, id)
    ensures Forgotten(Ensured(cfg, s, stage), id)
  {
    hide Ensured, IsRunning;
    EnsureEffects(cfg, s, stage);
    var s' := Ensured(cfg, s, stage);
    forall u ensures !Holds(s'.table, u, id) {
      if u in s'.table {
        assert EntryComesFrom(s, stage, u, s'.table[u]);
        assert !Holds(s.table, u, id);
      }
    }
  }

  lemma AdvanceKeepsForgotten(s: State, op: OpId, act: Act, id: ContainerId)
    requires CanAdvance(s, op, act) && Forgotten(s, id)
    ensures Forgotten(Advanced(s, op, act), id)
  {
    hide IsRunning;
    forall u ensures !Holds(Advanced(s, op, act).table, u, id) {
      assert !Holds(s.table, u, id);
    }
  }

  lemma StepKeepsForgotten(cfg: Config, s: State, step: Step, id: ContainerId)
    requires Enabled(cfg, s, step) && Forgotten(s, id)
    ensures Forgotten(Apply(cfg, s, step), id)
  {
    match step
    case Ensure(stage) => EnsureKeepsForgotten(cfg, s, stage, id);
    case Advance(op, act) => AdvanceKeepsForgotten(s, op, act, id);
    case _ =>
      forall u ensures !Holds(Apply(cfg, s, step).table, u, id) {
        assert !Holds(s.table, u, id);
      }
  }

  lemma {:induction false} ForgottenStays(cfg: Config, r: Run, i: nat, k: nat, id: ContainerId)
    requires IsRun(cfg, r) && i <= k < |r.states| && Forgotten(r.states[i], id)
    ensures Forgotten(r.states[k], id)
  {
    hide Apply, Enabled, Forgotten;
    if i < k {
      ForgottenStays(cfg, r, i, k - 1, id);
      StepKeepsForgotten(cfg, r.states[k - 1], r.steps[k - 1], id);
    }
  }

  /** Once an operation has finished with a container other than by an abort, no
      user has an entry for it again. */
  lemma FinishedClaimsStayForgotten(cfg: Config, r: Run, listed: seq<Listed>, known: set<Uid>, i: nat, k: nat, op: OpId)
    requires IsBootedRun(cfg, r, listed, known) && i < k < |r.states|
    requires r.steps[i] == Advance(op, Finish) && r.states[i].ops[op].phase.Forgetting?
    ensures forall u :: !Holds(r.states[k].table, u, r.states[i].ops[op].todo[0].id)
  {
    hide Booted, NamesUnique, RunningAccounted, FlagsClaimed, LockOk, TableBacked, Advanced, OpOk;
    InvariantHolds(cfg, r, listed, known, i);
    assert Enabled(cfg, r.states[i], r.steps[i]);
    FinishForgets(r.states[i], op);
    ForgottenStays(cfg, r, i + 1, k, r.states[i].ops[op].todo[0].id);
  }

  // ----- While an entry is flagged -----

  ghost predicate Flagged(s: State, uid: Uid, id: ContainerId) {
    Holds(s.table, uid, id) && s.table[uid].stopping
  }

  /** A stopper flags the entry it claims and no other. */
  lemma StoppersFlagTheirClaim(cfg: Config, s: State, op: OpId, kind: Kind, uid: Uid)
    requires Enabled(cfg, s, Begin(op, kind, uid))
    ensures var s' := Apply(cfg, s, Begin(op, kind, uid));
      && s'.ops[op].todo == [Claim(uid, s.table[uid].id)]
      && (kind != Import ==> Flagged(s', uid, s.table[uid].id))
      && (kind == Import ==> s'.table == s.table)
      && forall u :: u in s.table && u != uid ==> u in s'.table && s'.table[u] == s.table[u]
  {
  }

  /** The reaper flags and claims the entries idle beyond the timeout and no other. */
  lemma ReaperFlagsTheIdle(cfg: Config, s: State, op: OpId, order: seq<Uid>, uid: Uid)
    requires Enabled(cfg, s, ReapTick(op, order)) && uid in s.table
    ensures var s' := Apply(cfg, s, ReapTick(op, order));
      var e := s.table[uid];
      if !e.stopping && s.clock - e.lastSeen > cfg.idleTimeout
      then Flagged(s', uid, e.id) && op in s'.ops && Claim(uid, e.id) in s'.ops[op].todo
      else uid in s'.table && s'.table[uid] == e
  {
  }

  ghost predicate Aborts(s: State, step: Step, uid: Uid, id: ContainerId) {
    && step.Advance? && step.act == Finish && step.op in s.ops && s.ops[step.op].phase == Unflagging
    && s.ops[step.op].todo != [] && s.ops[step.op].todo[0] == Claim(uid, id)
  }

  lemma AdvanceKeepsFlag(s: State, op: OpId, act: Act, uid: Uid, id: ContainerId)
    requires CanAdvance(s, op, act) && Flagged(s, uid, id)
    requires !Aborts(s, Advance(op, act), uid, id) && Holds(Advanced(s, op, act).table, uid, id)
    ensures Flagged(Advanced(s, op, act), uid, id)
  {
  }

  lemma FlagPersists(cfg: Config, s: State, step: Step, uid: Uid, id: ContainerId)
    requires Enabled(cfg, s, step) && Inv(cfg, s) && Flagged(s, uid, id)
    requires !Aborts(s, step, uid, id) && Holds(Apply(cfg, s, step).table, uid, id)
    ensures Flagged(Apply(cfg, s, step), uid, id)
  {
    hide OpsOk, RunningAccounted, FlagsClaimed, NamesUnique;
    match step
    case Advance(op, act) => AdvanceKeepsFlag(s, op, act, uid, id);
    case Ensure(stage) => EnsureEffects(cfg, s, stage);
    case _ =>
  }

  lemma FlaggedIsRefused(cfg: Config, s: State, uid: Uid, id: ContainerId)
    requires Inv(cfg, s) && Flagged(s, uid, id)
    ensures s.lock != Inspecting(uid) && s.lock != Removing(uid) && s.lock != Launching(uid)
    ensures CanEnsure(s, Lookup(uid)) ==>
              ReplyOf(cfg, s, Lookup(uid)) == Some(SessionEnding) && Ensured(cfg, s, Lookup(uid)) == s
  {
  }

  lemma {:induction false} FlagHolds(cfg: Config, r: Run, listed: seq<Listed>, known: set<Uid>, i: nat, k: nat,
    uid: Uid, id: ContainerId)
    requires IsBootedRun(cfg, r, listed, known) && i <= k < |r.states|
    requires Flagged(r.states[i], uid, id)
    requires forall j :: i <= j <= k ==> Holds(r.states[j].table, uid, id)
    requires forall j {:trigger r.steps[j]} :: i <= j < k ==> !Aborts(r.states[j], r.steps[j], uid, id)
    ensures Flagged(r.states[k], uid, id)
  {
    hide Apply, Enabled, Inv, Booted, Flagged, Aborts;
    if i < k {
      FlagHolds(cfg, r, listed, known, i, k - 1, uid, id);
      InvariantHolds(cfg, r, listed, known, k - 1);
      FlagPersists(cfg, r.states[k - 1], r.steps[k - 1], uid, id);
    }
  }

  /** From the flag on, until the container leaves the table or an admin delete
      aborts, every request for the user's container is refused and changes nothing. */
  lemma FlaggedUserIsRefused(cfg: Config, r: Run, listed: seq<Listed>, known: set<Uid>, i: nat, k: nat, uid: Uid,
    id: ContainerId)
    requires IsBootedRun(cfg, r, listed, known) && i <= k < |r.states|
    requires Flagged(r.states[i], uid, id)
    requires forall j :: i <= j <= k ==> Holds(r.states[j].table, uid, id)
    requires forall j {:trigger r.steps[j]} :: i <= j < k ==> !Aborts(r.states[j], r.steps[j], uid, id)
    ensures r.states[k].lock != Inspecting(uid) && r.states[k].lock != Removing(uid)
      && r.states[k].lock != Launching(uid)
    ensures CanEnsure(r.states[k], Lookup(uid)) ==>
              && ReplyOf(cfg, r.states[k], Lookup(uid)) == Some(SessionEnding)
              && Ensured(cfg, r.states[k], Lookup(uid)) == r.states[k]
  {
    FlagHolds(cfg, r, listed, known, i, k, uid, id);
    InvariantHolds(cfg, r, listed, known, k);
    FlaggedIsRefused(cfg, r.states[k], uid, id);
  }

  /** What an operation claims as it begins, it flags. */
  lemma NewClaimIsFlagged(cfg: Config, s: State, step: Step, op: OpId, c: Claim)
    requires Enabled(cfg, s, step) && op !in s.ops && op in Apply(cfg, s, step).ops
    requires Apply(cfg, s, step).ops[op].kind != Import && c in Apply(cfg, s, step).ops[op].todo
    ensures Flagged(Apply(cfg, s, step), c.uid, c.id)
  {
    match step
    case Begin(_, kind, uid) =>
      StoppersFlagTheirClaim(cfg, s, op, kind, uid);
    case ReapTick(_, order) =>
      var todo := Claims(s.table, order);
      var k :| 0 <= k < |todo| && todo[k] == c;
      assert order[k] in order;
      ReaperFlagsTheIdle(cfg, s, op, order, order[k]);
    case Ensure(stage) =>
      EnsureEffects(cfg, s, stage);
    case _ =>
  }

  /** From the step at which a stopper or the reaper claims a container, until it
      leaves the table or an admin delete of it aborts, every request of its user
      is refused and changes nothing. */
  lemma ClaimsShutOutRequests(cfg: Config, r: Run, listed: seq<Listed>, known: set<Uid>, i: nat, k: nat, op: OpId,
    c: Claim)
    requires IsBootedRun(cfg, r, listed, known) && i < k < |r.states|
    requires op !in r.states[i].ops && op in r.states[i + 1].ops && r.states[i + 1].ops[op].kind != Import
      && c in r.states[i + 1].ops[op].todo
    requires forall j :: i < j <= k ==> Holds(r.states[j].table, c.uid, c.id)
    requires forall j {:trigger r.steps[j]} :: i < j < k ==> !Aborts(r.states[j], r.steps[j], c.uid, c.id)
    ensures r.states[k].lock != Inspecting(c.uid) && r.states[k].lock != Removing(c.uid)
      && r.states[k].lock != Launching(c.uid)
    ensures CanEnsure(r.states[k], Lookup(c.uid)) ==>
              && ReplyOf(cfg, r.states[k], Lookup(c.uid)) == Some(SessionEnding)
              && Ensured(cfg, r.states[k], Lookup(c.uid)) == r.states[k]
  {
    hide Apply, Enabled, Booted, Flagged, ReplyOf, Ensured, Aborts;
    assert Enabled(cfg, r.states[i], r.steps[i]);
    NewClaimIsFlagged(cfg, r.states[i], r.steps[i], op, c);
    FlaggedUserIsRefused(cfg, r, listed, known, i + 1, k, c.uid, c.id);
  }

  // ----- The session cap -----

  lemma OnlyLaunchesAddEntries(cfg: Config, s: State, stage: Stage)
    requires CanEnsure(s, stage) && !Launches(Ensure(stage))
    ensures Ensured(cfg, s, stage).table.Keys <= s.table.Keys
  {
    hide Ensured, IsRunning;
    EnsureEffects(cfg, s, stage);
    assert forall u :: u in Ensured(cfg, s, stage).table ==>
      EntryComesFrom(s, stage, u, Ensured(cfg, s, stage).table[u]);
  }

  lemma AdvanceAddsNoEntry(s: State, op: OpId, act: Act)
    requires CanAdvance(s, op, act)
    ensures Advanced(s, op, act).table.Keys <= s.table.Keys
  {
    hide IsRunning, SetStatus;
  }

  lemma OnlyLaunchesGrowTheTable(cfg: Config, s: State, step: Step)
    requires Enabled(cfg, s, step) && !Launches(step)
    ensures Apply(cfg, s, step).table.Keys <= s.table.Keys
  {
    hide EntryComesFrom;
    match step
    case Ensure(stage) => OnlyLaunchesAddEntries(cfg, s, stage);
    case Advance(op, act) => AdvanceAddsNoEntry(s, op, act);
    case _ =>
  }

  lemma LaunchAddsOne(cfg: Config, s: State, stage: Stage)
    requires Inv(cfg, s) && CanEnsure(s, stage) && Launches(Ensure(stage))
    ensures |Ensured(cfg, s, stage).table| == |s.table| + 1 <= cfg.maxSessions
  {
    hide OpsOk, FlagsClaimed, RunningAccounted, NamesUnique, TableBacked, RunName, RunPossible;
    var t, t' := s.table, Ensured(cfg, s, stage).table;
    assert |t| == |t.Keys| && |t'| == |t'.Keys|;
    assert t'.Keys == t.Keys + {s.lock.uid};
  }

  lemma StepRespectsCap(cfg: Config, s: State, step: Step)
    requires Inv(cfg, s) && Enabled(cfg, s, step)
    ensures |Apply(cfg, s, step).table| <= |s.table| || |Apply(cfg, s, step).table| <= cfg.maxSessions
  {
    hide Inv, OpsOk, FlagsClaimed, RunningAccounted, NamesUnique, TableBacked;
    var t, t' := s.table, Apply(cfg, s, step).table;
    assert |t| == |t.Keys| && |t'| == |t'.Keys|;
    if Launches(step) {
      LaunchAddsOne(cfg, s, step.stage);
    } else {
      hide Apply;
      OnlyLaunchesGrowTheTable(cfg, s, step);
      SubsetSize(t'.Keys, t.Keys);
    }
  }

  /** The table never outgrows the cap and what startup adopted, and once it is
      within the cap it stays within it. */
  lemma {:induction false} TableRespectsCap(cfg: Config, r: Run, listed: seq<Listed>, known: set<Uid>, i: nat, j: nat)
    requires IsBootedRun(cfg, r, listed, known) && i <= j < |r.states|
    ensures |r.states[j].table| <= |r.states[i].table| || |r.states[j].table| <= cfg.maxSessions
  {
    hide Apply, Enabled, Inv, Booted;
    if i < j {
      TableRespectsCap(cfg, r, listed, known, i, j - 1);
      InvariantHolds(cfg, r, listed, known, j - 1);
      StepRespectsCap(cfg, r.states[j - 1], r.steps[j - 1]);
    }
  }

  ghost function CurrentIds(t: Table): set<ContainerId> {
    set u | u in t :: t[u].id
  }

  lemma {:induction false} CurrentIdsSize(t: Table)
    ensures |CurrentIds(t)| <= |t|
  {
    if t != map[] {
      var u :| u in t;
      var rest := t - {u};
      CurrentIdsSize(rest);
      assert CurrentIds(t) == CurrentIds(rest) + {t[u].id};
      assert rest.Keys == t.Keys - {u};
      assert |rest| == |rest.Keys| && |t| == |t.Keys|;
    }
  }

  ghost function RunningIds(d: Docker): set<ContainerId> {
    set i | i in d && d[i].status == Running
  }

  lemma RunningContainersAreBounded(cfg: Config, r: Run, listed: seq<Listed>, known: set<Uid>, i: nat)
    requires IsBootedRun(cfg, r, listed, known) && i < |r.states|
    ensures var s := r.states[i];
      var bound := if cfg.maxSessions > |r.states[0].table| then cfg.maxSessions else |r.states[0].table|;
      |RunningIds(s.docker)| <= bound + |s.orphans| + |s.strays|
  {
    var s := r.states[i];
    InvariantHolds(cfg, r, listed, known, i);
    TableRespectsCap(cfg, r, listed, known, 0, i);
    CurrentIdsSize(s.table);
    forall a | a in RunningIds(s.docker) ensures a in CurrentIds(s.table) + s.orphans + s.strays {
      assert IsRunning(s.docker, a);
      if IsCurrent(s.table, a) {
        var u :| Holds(s.table, u, a);
        assert s.table[u].id in CurrentIds(s.table);
      }
    }
    SubsetSize(RunningIds(s.docker), CurrentIds(s.table) + s.orphans + s.strays);
  }

  // ----- The countdown and the reaper -----

  lemma CountdownIsSafe(cfg: Config, e: Entry, now: int, later: int)
    requires e.lastSeen <= now && SecondsUntilReap(cfg, e, now) > 0
    requires later <= now + (SecondsUntilReap(cfg, e, now) - 1) * SECOND
    ensures later - e.lastSeen <= cfg.idleTimeout
  {
    var idle := now - e.lastSeen;
    assert idle < (idle / SECOND + 1) * SECOND;
    assert Seconds(cfg.idleTimeout) > 0 && (cfg.idleTimeout / SECOND) * SECOND <= cfg.idleTimeout;
  }

  lemma ReapableReportsZero(cfg: Config, e: Entry, now: int)
    requires e.lastSeen <= now && Reapable(cfg, e, now)
    ensures SecondsUntilReap(cfg, e, now) == 0
  {
  }

  ghost predicate SeenSince(s: State, uid: Uid, seen: int) {
    seen <= s.clock && (uid in s.table ==> seen <= s.table[uid].lastSeen)
  }

  lemma AdvanceKeepsSeen(s: State, op: OpId, act: Act, uid: Uid, seen: int)
    requires CanAdvance(s, op, act) && SeenSince(s, uid, seen)
    ensures SeenSince(Advanced(s, op, act), uid, seen)
  {
  }

  lemma StepKeepsSeen(cfg: Config, s: State, step: Step, uid: Uid, seen: int)
    requires Enabled(cfg, s, step) && SeenSince(s, uid, seen)
    ensures SeenSince(Apply(cfg, s, step), uid, seen)
  {
    match step
    case Advance(op, act) => AdvanceKeepsSeen(s, op, act, uid, seen);
    case Ensure(stage) => EnsureEffects(cfg, s, stage);
    case _ =>
  }

  /** Whatever entry a user has later was seen no earlier than the entry of now. */
  lemma {:induction false} LastSeenNeverGoesBack(cfg: Config, r: Run, listed: seq<Listed>, known: set<Uid>, i: nat,
    j: nat, uid: Uid, seen: int)
    requires IsBootedRun(cfg, r, listed, known) && i <= j < |r.states|
    requires SeenSince(r.states[i], uid, seen)
    ensures SeenSince(r.states[j], uid, seen)
  {
    hide Apply, Enabled, Booted, SeenSince;
    if i < j {
      LastSeenNeverGoesBack(cfg, r, listed, known, i, j - 1, uid, seen);
      StepKeepsSeen(cfg, r.states[j - 1], r.steps[j - 1], uid, seen);
    }
  }

  /** If status says `n > 0` seconds are left, the reaper claims no container of
      the user for another `n - 1` seconds, whatever happens in between. */
  lemma ReaperHonoursCountdown(cfg: Config, r: Run, listed: seq<Listed>, known: set<Uid>, i: nat, j: nat, uid: Uid)
    requires IsBootedRun(cfg, r, listed, known) && i <= j < |r.steps|
    requires uid in r.states[i].table
    requires var n := SecondsUntilReap(cfg, r.states[i].table[uid], r.states[i].clock);
      n > 0 && r.states[j].clock <= r.states[i].clock + (n - 1) * SECOND
    ensures r.steps[j].ReapTick? ==> uid !in r.steps[j].order
  {
    var e := r.states[i].table[uid];
    InvariantHolds(cfg, r, listed, known, i);
    LastSeenNeverGoesBack(cfg, r, listed, known, i, j, uid, e.lastSeen);
    CountdownIsSafe(cfg, e, r.states[i].clock, r.states[j].clock);
  }

  /** A step that shows the user to be there: a keepalive that found an entry,
      or a request that found the container running or started it. */
  ghost predicate ShowsPresence(cfg: Config, s: State, step: Step, uid: Uid)
    requires Enabled(cfg, s, step)
  {
    || (step == Keepalive(uid) && uid in s.table)
    || (step == Ensure(Inspect) && s.lock == Inspecting(uid) && IsRunning(s.docker, s.table[uid].id))
    || (Launches(step) && s.lock == Launching(uid))
  }

  lemma ReaperHonoursPresence(cfg: Config, r: Run, listed: seq<Listed>, known: set<Uid>, i: nat, j: nat, uid: Uid)
    requires IsBootedRun(cfg, r, listed, known) && i < j < |r.steps|
    requires ShowsPresence(cfg, r.states[i], r.steps[i], uid)
    requires r.states[j].clock <= r.states[i].clock + cfg.idleTimeout
    ensures r.steps[j].ReapTick? ==> uid !in r.steps[j].order
  {
    LastSeenNeverGoesBack(cfg, r, listed, known, i + 1, j, uid, r.states[i].clock);
  }

  // ----- What docker is left with -----

  /** The only difference is container `id`. */
  ghost predicate OnlyChanges(d: Docker, d': Docker, id: ContainerId) {
    forall i :: i != id ==> (i in d <==> i in d') && (i in d ==> d'[i] == d[i])
  }

  /** A container that dies, or is removed by others, is that and no other changes. */
  lemma DeathIsExact(cfg: Config, s: State, id: ContainerId, status: Status)
    requires Enabled(cfg, s, Die(id, status))
    ensures var d, s' := s.docker, Apply(cfg, s, Die(id, status));
      && OnlyChanges(d, s'.docker, id) && id in d && id in s'.docker && s'.docker[id] == Box(d[id].name, status)
      && s'.table == s.table && s'.ops == s.ops
  {
  }

  /** A stop that succeeds removes the claimed container; one that fails does nothing. */
  lemma StopIsExact(s: State, op: OpId, ok: bool)
    requires CanAdvance(s, op, StopReturns(ok))
    ensures var id, d, d' := s.ops[op].todo[0].id, s.docker, Advanced(s, op, StopReturns(ok)).docker;
      && (!ok ==> d' == d)
      && (ok ==> OnlyChanges(d, d', id) && (id in d' <==> id in d) && (id in d ==> d'[id] == Box(d[id].name, Removed)))
  {
  }

  /** Removing by name removes every container of the user, and no other, so that a
      container can be started under that name whatever id docker gives it. */
  lemma RemoveFreesTheName(cfg: Config, s: State)
    requires CanEnsure(s, Remove(RmOk))
    ensures var uid, s' := s.lock.uid, Ensured(cfg, s, Remove(RmOk));
      && s'.docker.Keys == s.docker.Keys
      && (forall i :: i in s.docker ==>
        s'.docker[i] == if s.docker[i].name == "df-" + uid then Box("df-" + uid, Removed) else s.docker[i])
      && (forall id :: id !in s.docker ==> CanEnsure(s', Launch(RunOk(id))))
  {
  }

  /** A removal that fails changes nothing. */
  lemma FailedRemovalIsExact(cfg: Config, s: State, removed: RemoveOutcome)
    requires CanEnsure(s, Remove(removed)) && removed != RmOk
    ensures var s' := Ensured(cfg, s, Remove(removed));
      s'.docker == s.docker && s'.lock == if removed == DirsFailed then Free else Launching(s.lock.uid)
  {
  }

  /** A start adds its container under the user's name and changes no other. */
  lemma LaunchIsExact(cfg: Config, s: State, ran: RunOutcome)
    requires CanEnsure(s, Launch(ran))
    ensures var d, d', name := s.docker, Ensured(cfg, s, Launch(ran)).docker, "df-" + s.lock.uid;
      match ran
      case RunOk(id) => id !in d && OnlyChanges(d, d', id) && id in d' && d'[id] == Box(name, Running)
      case RunFailed(None) => d' == d
      case RunFailed(Some(id)) => id !in d && OnlyChanges(d, d', id) && id in d' && d'[id] == Box(name, Exited)
  {
  }

  // ----- What each operation comes to -----

  /** How an operation begins: admin deletes and imports look first, the others stop. */
  lemma BeginIsExact(cfg: Config, s: State, op: OpId, kind: Kind, uid: Uid)
    requires Enabled(cfg, s, Begin(op, kind, uid))
    ensures var s' := Apply(cfg, s, Begin(op, kind, uid));
      && op in s'.ops && s'.docker == s.docker
      && s'.ops[op] == Op(kind, [Claim(uid, s.table[uid].id)], if kind == AdminDelete || kind == Import then Probing
        else Stopping)
  {
  }

  /** An unlocked look changes nothing but the operation: a dead container is
      forgotten without a stop, a live one ends an import and is stopped by an
      admin delete. */
  lemma ProbeIsExact(s: State, op: OpId)
    requires CanAdvance(s, op, ProbeReturns)
    ensures var o, s' := s.ops[op], Advanced(s, op, ProbeReturns);
      && s'.docker == s.docker && s'.table == s.table
      && (if !IsRunning(s.docker, o.todo[0].id) then op in s'.ops && s'.ops[op] == Op(o.kind, o.todo, Forgetting(false))
          else if o.kind == Import then op !in s'.ops
          else op in s'.ops && s'.ops[op] == Op(o.kind, o.todo, Stopping))
  {
  }

  /** No step of an import changes docker or another entry than a dead one's. */
  lemma ImportsStopNothing(cfg: Config, s: State, op: OpId, act: Act)
    requires Inv(cfg, s) && CanAdvance(s, op, act) && s.ops[op].kind == Import
    ensures var c, s' := s.ops[op].todo[0], Advanced(s, op, act);
      && s'.docker == s.docker
      && (s'.table != s.table ==>
        !IsRunning(s.docker, c.id) && Holds(s.table, c.uid, c.id) && s'.table == s.table - {c.uid})
  {
    assert OpOk(s, s.ops[op]);
  }

  /** Between two of its own steps an operation stays as it is. */
  lemma {:induction false} OperationWaits(cfg: Config, r: Run, i: nat, k: nat, op: OpId)
    requires IsRun(cfg, r) && i <= k < |r.states| && op in r.states[i].ops
    requires forall j {:trigger r.steps[j]} :: i <= j < k ==> !(r.steps[j].Advance? && r.steps[j].op == op)
    ensures op in r.states[k].ops && r.states[k].ops[op] == r.states[i].ops[op]
  {
    hide Apply, Enabled;
    if i < k {
      OperationWaits(cfg, r, i, k - 1, op);
      OperationsAreIndependent(cfg, r.states[k - 1], r.steps[k - 1], op);
    }
  }

  /** What becomes of the claimed container's entry once the stop has returned. */
  ghost predicate StopComesTo(s: State, s': State, c: Claim, kind: Kind, ok: bool, op: OpId) {
    if ok then s'.table == Forget(s.table, c.uid, c.id) && s'.orphans == s.orphans
    else if kind == AdminDelete then
      && s'.table == Unflag(s.table, c.uid, c.id) && s'.orphans == s.orphans && op !in s'.ops
      && (Holds(s.table, c.uid, c.id) ==> Holds(s'.table, c.uid, c.id) && !s'.table[c.uid].stopping)
    else
      && s'.table == Forget(s.table, c.uid, c.id)
      && s'.orphans == s.orphans + if Holds(s.table, c.uid, c.id) then {c.id} else {}
  }

  lemma StopThenFinish(s: State, op: OpId, ok: bool, s1: State)
    requires CanAdvance(s, op, StopReturns(ok)) && CanAdvance(s1, op, Finish)
    requires op in Advanced(s, op, StopReturns(ok)).ops && s1.ops[op] == Advanced(s, op, StopReturns(ok)).ops[op]
    ensures StopComesTo(s1, Advanced(s1, op, Finish), s.ops[op].todo[0], s.ops[op].kind, ok, op)
  {
    hide SetStatus, IsRunning;
  }

  /** After a stop that succeeds the entry is forgotten. After one that fails an
      admin delete keeps it, lifts its flag and is over; every other operation
      forgets it all the same and leaves an orphan. */
  lemma StopsComeToTheirEnd(cfg: Config, r: Run, i: nat, k: nat, op: OpId, ok: bool)
    requires IsRun(cfg, r) && i < k < |r.steps|
    requires r.steps[i] == Advance(op, StopReturns(ok)) && r.steps[k] == Advance(op, Finish)
    requires forall j {:trigger r.steps[j]} :: i < j < k ==> !(r.steps[j].Advance? && r.steps[j].op == op)
    ensures op in r.states[i].ops && r.states[i].ops[op].todo != []
    ensures StopComesTo(r.states[k], r.states[k + 1], r.states[i].ops[op].todo[0], r.states[i].ops[op].kind, ok, op)
  {
    hide StopComesTo, Advanced;
    assert Enabled(cfg, r.states[i], r.steps[i]) && Enabled(cfg, r.states[k], r.steps[k]);
    StopGoesOn(r.states[i], op, ok);
    OperationWaits(cfg, r, i + 1, k, op);
    StopThenFinish(r.states[i], op, ok, r.states[k]);
  }

  lemma StopGoesOn(s: State, op: OpId, ok: bool)
    requires CanAdvance(s, op, StopReturns(ok))
    ensures op in Advanced(s, op, StopReturns(ok)).ops
  {
    hide SetStatus;
  }

  // ----- What may happen -----

  /** Every container of that name has been removed. */
  predicate IsFreeName(d: Docker, name: string) {
    forall i :: i in d && d[i].name == name ==> d[i].status == Removed
  }

  /** Time passes, containers die and commands succeed or fail at any moment, and
      whatever needs only a free mutex may begin whenever it is free. */
  lemma AnythingMayHappen(cfg: Config, s: State)
    ensures forall now :: s.clock <= now ==> Enabled(cfg, s, Tick(now))
    ensures forall id :: IsRunning(s.docker, id) ==>
      Enabled(cfg, s, Die(id, Exited)) && Enabled(cfg, s, Die(id, Removed))
    ensures forall id :: id in s.docker && s.docker[id].status == Exited ==> Enabled(cfg, s, Die(id, Removed))
    ensures forall op, ok :: op in s.ops && s.ops[op].todo != [] && s.ops[op].phase == Stopping ==>
      Enabled(cfg, s, Advance(op, StopReturns(ok)))
    ensures s.lock == Free ==> forall uid :: Enabled(cfg, s, Keepalive(uid)) && Enabled(cfg, s, Ensure(Lookup(uid)))
    ensures s.lock == Free ==> forall op, kind, uid :: op !in s.ops && kind != Reap && uid in s.table ==>
      Enabled(cfg, s, Begin(op, kind, uid))
    ensures s.lock == Free && (forall o :: o in s.ops ==> s.ops[o].kind != Reap) ==> forall op, order ::
      op !in s.ops && IsReapOrder(cfg, s.table, s.clock, order) ==> Enabled(cfg, s, ReapTick(op, order))
    ensures s.lock.Removing? ==> forall removed :: Enabled(cfg, s, Ensure(Remove(removed)))
    ensures s.lock.Launching? ==> Enabled(cfg, s, Ensure(Launch(RunFailed(None))))
    ensures s.lock.Launching? && IsFreeName(s.docker, "df-" + s.lock.uid) ==> forall id :: id !in s.docker ==>
      Enabled(cfg, s, Ensure(Launch(RunOk(id)))) && Enabled(cfg, s, Ensure(Launch(RunFailed(Some(id)))))
  {
  }

  // ----- The countdown is not too long -----

  /** What is shown is rounded by less than a second: an entry shown `n` is idle
      beyond the timeout `n + 1` seconds later. */
  lemma CountdownIsTight(cfg: Config, e: Entry, now: int, later: int)
    requires e.lastSeen <= now && now + (SecondsUntilReap(cfg, e, now) + 1) * 1_000_000_000 <= later
    ensures later - e.lastSeen > cfg.idleTimeout
  {
    var idle := now - e.lastSeen;
    WholeSeconds(idle);
    WholeSeconds(cfg.idleTimeout);
  }

  /** Seconds are truncated toward zero. */
  lemma WholeSeconds(d: int)
    ensures d >= 0 ==> Seconds(d) * 1_000_000_000 <= d < (Seconds(d) + 1) * 1_000_000_000
    ensures Seconds(-d) == -Seconds(d)
  {
  }

  /** A user shown `n` and not seen again is claimed by the first scan from `n + 1`
      seconds later on. */
  lemma ReaperKeepsItsWord(cfg: Config, r: Run, i: nat, j: nat, uid: Uid)
    requires IsRun(cfg, r) && i <= j < |r.steps| && r.steps[j].ReapTick?
    requires uid in r.states[i].table && uid in r.states[j].table && !r.states[j].table[uid].stopping
    requires r.states[j].table[uid].lastSeen == r.states[i].table[uid].lastSeen <= r.states[i].clock
    requires var n := SecondsUntilReap(cfg, r.states[i].table[uid], r.states[i].clock);
      r.states[i].clock + (n + 1) * 1_000_000_000 <= r.states[j].clock
    ensures uid in r.steps[j].order
  {
    CountdownIsTight(cfg, r.states[i].table[uid], r.states[i].clock, r.states[j].clock);
    assert Enabled(cfg, r.states[j], r.steps[j]);
  }
}
