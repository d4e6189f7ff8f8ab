/** The container lifecycle protocol as a labelled transition system.

    The session manager guards its container table with one mutex. A request
    for a container holds the mutex across its docker commands; every stopper
    (logout, stop, export, admin delete, idle reaper) takes it twice, once to
    claim an entry and once to forget it, and runs `docker stop` in between
    without it. A state holds the table, the docker daemon, the claim and the
    program counter of every operation in flight, the holder of the mutex and
    the clock. A step carries every choice the environment makes in it, so
    `Apply` is a function. */
module Lifecycle {
  import opened Basics

  type Uid = string
  type ContainerId = string
  type OpId = nat

  /** `idleTimeout` and all times are in nanoseconds. */
  datatype Config = Config(maxSessions: int, idleTimeout: int)

  datatype Entry = Entry(id: ContainerId, stopping: bool, lastSeen: int)

  type Table = map<Uid, Entry>

  /** An exited container still holds its name; a removed one does not. */
  datatype Status = Running | Exited | Removed

  datatype Box = Box(name: string, status: Status)

  type Docker = map<ContainerId, Box>

  function NameOf(uid: Uid): string {
    "df-" + uid
  }

  // ----- What a critical section does to the table -----

  function Flag(t: Table, uid: Uid): Table {
    if uid in t then t[uid := t[uid].(stopping := true)] else t
  }

  predicate Holds(t: Table, uid: Uid, id: ContainerId) {
    uid in t && t[uid].id == id
  }

  function Unflag(t: Table, uid: Uid, id: ContainerId): Table {
    if Holds(t, uid, id) then t[uid := t[uid].(stopping := false)] else t
  }

  function Forget(t: Table, uid: Uid, id: ContainerId): Table {
    if Holds(t, uid, id) then t - {uid} else t
  }

  function Touch(t: Table, uid: Uid, now: int): Table {
    if uid in t then t[uid := t[uid].(lastSeen := now)] else t
  }

  predicate Reapable(cfg: Config, e: Entry, now: int) {
    !e.stopping && now - e.lastSeen > cfg.idleTimeout
  }

  function ReapFlags(cfg: Config, t: Table, now: int): Table {
    map u | u in t :: if Reapable(cfg, t[u], now) then t[u].(stopping := true) else t[u]
  }

  /** Go's integer division, which truncates toward zero. */
  function Seconds(d: int): int {
    if d >= 0 then d / SECOND else -((-d) / SECOND)
  }

  /** The seconds the status request reports for an entry. */
  function SecondsUntilReap(cfg: Config, e: Entry, now: int): int {
    var remaining := Seconds(cfg.idleTimeout) - Seconds(now - e.lastSeen);
    if remaining > 0 then remaining else 0
  }

  // ----- What a docker command does to the daemon -----

  predicate IsRunning(d: Docker, id: ContainerId) {
    id in d && d[id].status == Running
  }

  predicate NameFree(d: Docker, name: string) {
    forall i :: i in d && d[i].name == name ==> d[i].status == Removed
  }

  function SetStatus(d: Docker, id: ContainerId, status: Status): Docker {
    if id in d then d[id := d[id].(status := status)] else d
  }

  function RemoveName(d: Docker, name: string): Docker {
    map i | i in d :: if d[i].name == name then d[i].(status := Removed) else d[i]
  }

  /** A failed run may leave a container that was created and never started. */
  datatype RunOutcome = RunOk(id: ContainerId) | RunFailed(leftover: Option<ContainerId>)

  predicate RunPossible(d: Docker, name: string, outcome: RunOutcome) {
    match outcome
    case RunOk(id) => id !in d && NameFree(d, name)
    case RunFailed(None) => true
    case RunFailed(Some(id)) => id !in d && NameFree(d, name)
  }

  function RunName(d: Docker, name: string, outcome: RunOutcome): Docker {
    match outcome
    case RunOk(id) => d[id := Box(name, Running)]
    case RunFailed(None) => d
    case RunFailed(Some(id)) => d[id := Box(name, Exited)]
  }

  datatype RemoveOutcome = DirsFailed | RmOk | RmFailed

  // ----- Operations in flight -----

  datatype Kind = Logout | Stop | Export | Reap | AdminDelete | Import

  datatype Claim = Claim(uid: Uid, id: ContainerId)

  datatype Phase =
    | Probing                       // docker inspect, mutex not held
    | Stopping                      // docker stop and rm, mutex not held
    | Forgetting(stopFailed: bool)  // about to delete the entry if it is unchanged
    | Unflagging                    // admin delete, about to abort

  /** The phase is about `todo[0]`; only the reaper ever has more to do. */
  datatype Op = Op(kind: Kind, todo: seq<Claim>, phase: Phase)

  /** Who holds the mutex between steps: nobody, or a request for a container. */
  datatype Lock = Free | Inspecting(uid: Uid) | Removing(uid: Uid) | Launching(uid: Uid)

  /** `orphans` collects the containers whose entry was dropped after their stop
      command failed, `strays` the ones that ran at startup and were not adopted. */
  datatype State = State(
    table: Table,
    docker: Docker,
    ops: map<OpId, Op>,
    lock: Lock,
    clock: int,
    orphans: set<ContainerId>,
    strays: set<ContainerId>)

  /** What an operation in flight does next. */
  datatype Act = ProbeReturns | StopReturns(ok: bool) | Finish

  /** The stages of a request for a container, all with the mutex held. */
  datatype Stage = Lookup(uid: Uid) | Inspect | Remove(removed: RemoveOutcome) | Launch(ran: RunOutcome)

  datatype Step =
    | Tick(now: int)
    | Die(id: ContainerId, status: Status)
    | Keepalive(uid: Uid)
    | Begin(op: OpId, kind: Kind, uid: Uid)
    | ReapTick(op: OpId, order: seq<Uid>)
    | Advance(op: OpId, act: Act)
    | Ensure(stage: Stage)

  datatype Reply = SessionEnding | ServerBusy | Existing(id: ContainerId) | Started(id: ContainerId) | RunError

  ghost predicate Enabled(cfg: Config, s: State, step: Step) {
    match step
    case Tick(now) => s.clock <= now
    case Die(id, status) =>
      && id in s.docker && s.docker[id].status != Removed
      && status != Running && (s.docker[id].status == Exited ==> status == Removed)
    case Keepalive(_) => s.lock == Free
    case Begin(op, kind, uid) =>
      s.lock == Free && op !in s.ops && kind != Reap && uid in s.table
    case ReapTick(op, order) =>
      && s.lock == Free && op !in s.ops
      && (forall o :: o in s.ops ==> s.ops[o].kind != Reap)
      && IsReapOrder(cfg, s.table, s.clock, order)
    case Advance(op, act) => CanAdvance(s, op, act)
    case Ensure(stage) => CanEnsure(s, stage)
  }

  predicate CanAdvance(s: State, op: OpId, act: Act) {
    && op in s.ops && s.ops[op].todo != []
    && match act {
      case ProbeReturns => s.ops[op].phase == Probing
      case StopReturns(_) => s.ops[op].phase == Stopping
      case Finish => s.lock == Free && (s.ops[op].phase.Forgetting? || s.ops[op].phase.Unflagging?)
    }
  }

  predicate CanEnsure(s: State, stage: Stage) {
    match stage
    case Lookup(_) => s.lock == Free
    case Inspect => s.lock.Inspecting? && s.lock.uid in s.table
    case Remove(_) => s.lock.Removing?
    case Launch(ran) => s.lock.Launching? && RunPossible(s.docker, NameOf(s.lock.uid), ran)
  }

  /** The reaper walks a Go map: each reapable user once, in any order. */
  ghost predicate IsReapOrder(cfg: Config, t: Table, now: int, order: seq<Uid>) {
    && (forall u :: u in order <==> u in t && Reapable(cfg, t[u], now))
    && (forall i, j :: 0 <= i < j < |order| ==> order[i] != order[j])
  }

  function Claims(t: Table, order: seq<Uid>): (todo: seq<Claim>)
    requires forall u :: u in order ==> u in t
    ensures |todo| == |order|
    ensures forall i :: 0 <= i < |order| ==> todo[i] == Claim(order[i], t[order[i]].id)
  {
    if order == [] then [] else [Claim(order[0], t[order[0]].id)] + Claims(t, order[1..])
  }

  function WithPhase(s: State, op: OpId, phase: Phase): State
    requires op in s.ops
  {
    s.(ops := s.ops[op := s.ops[op].(phase := phase)])
  }

  /** The cap is checked with the mutex held and right before docker is asked. */
  function CheckCap(cfg: Config, s: State, uid: Uid): State {
    if |s.table| >= cfg.maxSessions then s.(lock := Free) else s.(lock := Removing(uid))
  }

  function FinishOp(s: State, op: OpId): State
    requires op in s.ops && s.ops[op].todo != []
  {
    var o := s.ops[op];
    var c := o.todo[0];
    match o.phase
    case Forgetting(failed) =>
      s.(table := Forget(s.table, c.uid, c.id),
         orphans := if failed && Holds(s.table, c.uid, c.id) then s.orphans + {c.id} else s.orphans,
         ops := if |o.todo| > 1 then s.ops[op := Op(o.kind, o.todo[1..], Stopping)] else s.ops - {op})
    case _ =>
      s.(table := Unflag(s.table, c.uid, c.id), ops := s.ops - {op})
  }

  function Advanced(s: State, op: OpId, act: Act): State
    requires CanAdvance(s, op, act)
  {
    var o := s.ops[op];
    match act
    case ProbeReturns =>
      if !IsRunning(s.docker, o.todo[0].id) then WithPhase(s, op, Forgetting(false))
      else if o.kind == Import then s.(ops := s.ops - {op})
      else WithPhase(s, op, Stopping)
    case StopReturns(ok) =>
      if ok then WithPhase(s.(docker := SetStatus(s.docker, o.todo[0].id, Removed)), op, Forgetting(false))
      else WithPhase(s, op, if o.kind == AdminDelete then Unflagging else Forgetting(true))
    case Finish => FinishOp(s, op)
  }

  function Ensured(cfg: Config, s: State, stage: Stage): State
    requires CanEnsure(s, stage)
  {
    match stage
    case Lookup(uid) =>
      if uid !in s.table then CheckCap(cfg, s, uid)
      else if s.table[uid].stopping then s
      else s.(lock := Inspecting(uid))
    case Inspect =>
      var uid := s.lock.uid;
      if IsRunning(s.docker, s.table[uid].id) then s.(table := Touch(s.table, uid, s.clock), lock := Free)
      else CheckCap(cfg, s.(table := s.table - {uid}), uid)
    case Remove(removed) =>
      var uid := s.lock.uid;
      match removed {
        case DirsFailed => s.(lock := Free)
        case RmOk => s.(docker := RemoveName(s.docker, NameOf(uid)), lock := Launching(uid))
        case RmFailed => s.(lock := Launching(uid))
      }
    case Launch(ran) =>
      var uid := s.lock.uid;
      s.(docker := RunName(s.docker, NameOf(uid), ran),
         table := if ran.RunOk? then s.table[uid := Entry(ran.id, false, s.clock)] else s.table,
         lock := Free)
  }

  /** What a request for a container is told, by the stage that ends it. */
  function ReplyOf(cfg: Config, s: State, stage: Stage): Option<Reply>
    requires CanEnsure(s, stage)
  {
    match stage
    case Lookup(uid) =>
      if uid in s.table then (if s.table[uid].stopping then Some(SessionEnding) else None)
      else if |s.table| >= cfg.maxSessions then Some(ServerBusy) else None
    case Inspect =>
      var id := s.table[s.lock.uid].id;
      if IsRunning(s.docker, id) then Some(Existing(id))
      else if |s.table - {s.lock.uid}| >= cfg.maxSessions then Some(ServerBusy) else None
    case Remove(removed) => if removed == DirsFailed then Some(RunError) else None
    case Launch(ran) => if ran.RunOk? then Some(Started(ran.id)) else Some(RunError)
  }

  function Apply(cfg: Config, s: State, step: Step): State
    requires Enabled(cfg, s, step)
  {
    match step
    case Tick(now) => s.(clock := now)
    case Die(id, status) => s.(docker := SetStatus(s.docker, id, status))
    case Keepalive(uid) => s.(table := Touch(s.table, uid, s.clock))
    case Begin(op, kind, uid) =>
      var claim := Claim(uid, s.table[uid].id);
      var phase := if kind == AdminDelete || kind == Import then Probing else Stopping;
      s.(table := if kind == Import then s.table else Flag(s.table, uid),
         ops := s.ops[op := Op(kind, [claim], phase)])
    case ReapTick(op, order) =>
      if order == [] then s
      else s.(table := ReapFlags(cfg, s.table, s.clock),
              ops := s.ops[op := Op(Reap, Claims(s.table, order), Stopping)])
    case Advance(op, act) => Advanced(s, op, act)
    case Ensure(stage) => Ensured(cfg, s, stage)
  }

  // ----- Startup -----

  datatype Listed = Listed(id: ContainerId, name: string)

  predicate IsManagedName(name: string, known: set<Uid>) {
    |name| > 3 && name[..3] == "df-" && name[3..] in known
  }

  /** The table reconcile builds from the running containers docker lists. */
  function Adopt(listed: seq<Listed>, known: set<Uid>, now: int): Table {
    if listed == [] then map[]
    else
      var c := listed[|listed| - 1];
      var t := Adopt(listed[..|listed| - 1], known, now);
      if IsManagedName(c.name, known) then t[c.name[3..] := Entry(c.id, false, now)] else t
  }

  ghost predicate NamesUnique(d: Docker) {
    forall i, j :: i in d && j in d && d[i].status != Removed && d[j].status != Removed && d[i].name == d[j].name ==>
      i == j
  }

  /** docker reports every running container whose name can be adopted, and only running ones. */
  ghost predicate ListingComplete(d: Docker, listed: seq<Listed>) {
    && (forall c :: c in listed ==> IsRunning(d, c.id) && d[c.id].name == c.name)
    && (forall i :: IsRunning(d, i) && |d[i].name| >= 3 && d[i].name[..3] == "df-" ==> Listed(i, d[i].name) in listed)
  }

  ghost predicate Booted(s: State, listed: seq<Listed>, known: set<Uid>) {
    && NamesUnique(s.docker) && ListingComplete(s.docker, listed)
    && s.table == Adopt(listed, known, s.clock)
    && s.ops == map[] && s.lock == Free && s.orphans == {}
    && s.strays == set i | i in s.docker && s.docker[i].status == Running && !IsManagedName(s.docker[i].name, known)
  }

  // ----- Runs -----

  datatype Run = Run(states: seq<State>, steps: seq<Step>)

  ghost predicate IsRun(cfg: Config, r: Run) {
    && |r.states| == |r.steps| + 1
    && forall i {:trigger r.steps[i]} :: 0 <= i < |r.steps| ==>
      Enabled(cfg, r.states[i], r.steps[i]) && r.states[i + 1] == Apply(cfg, r.states[i], r.steps[i])
  }

  ghost predicate IsBootedRun(cfg: Config, r: Run, listed: seq<Listed>, known: set<Uid>) {
    IsRun(cfg, r) && Booted(r.states[0], listed, known)
  }
}
