/** The manager's critical sections, in the form the program gives them: a map
    of mutable records. Each is proved to do to the table what the step of the
    lifecycle protocol does. */
module Manager {
  import opened Basics
  import opened Lifecycle

  class ContainerInfo {
    const id: ContainerId
    const uid: Uid
    var lastSeen: int
    var stopping: bool

    constructor (id: ContainerId, uid: Uid, now: int)
      ensures this.id == id && this.uid == uid && lastSeen == now && !stopping
    {
      this.id, this.uid, lastSeen, stopping := id, uid, now, false;
    }
  }

  /** The premise on `ran`: docker keeps names unique. */
  predicate Answers(d: Docker, uid: Uid, removed: RemoveOutcome, ran: RunOutcome) {
    RunPossible(if removed == RmOk then RemoveName(d, NameOf(uid)) else d, NameOf(uid), ran)
  }

  /** It asks of docker's answer what the stages ask. */
  lemma AnswersAreExact(cfg: Config, s: State, removed: RemoveOutcome, ran: RunOutcome)
    requires CanEnsure(s, Remove(removed)) && removed != DirsFailed
    ensures Answers(s.docker, s.lock.uid, removed, ran) <==> CanEnsure(Ensured(cfg, s, Remove(removed)), Launch(ran))
  {
  }

  /** The stages of a request from a given one on, with nobody in between. */
  function SpawnAlone(cfg: Config, s: State, removed: RemoveOutcome, ran: RunOutcome): (State, Reply)
    requires s.lock.Removing? && Answers(s.docker, s.lock.uid, removed, ran)
  {
    var s1, r1 := Ensured(cfg, s, Remove(removed)), ReplyOf(cfg, s, Remove(removed));
    if r1.Some? then (s1, r1.value) else (Ensured(cfg, s1, Launch(ran)), ReplyOf(cfg, s1, Launch(ran)).value)
  }

  function InspectAlone(cfg: Config, s: State, removed: RemoveOutcome, ran: RunOutcome): (State, Reply)
    requires s.lock.Inspecting? && s.lock.uid in s.table && Answers(s.docker, s.lock.uid, removed, ran)
  {
    var s1, r1 := Ensured(cfg, s, Inspect), ReplyOf(cfg, s, Inspect);
    if r1.Some? then (s1, r1.value) else SpawnAlone(cfg, s1, removed, ran)
  }

  function EnsureAlone(cfg: Config, s: State, uid: Uid, removed: RemoveOutcome, ran: RunOutcome): (State, Reply)
    requires s.lock == Free && Answers(s.docker, uid, removed, ran)
  {
    var s1, r1 := Ensured(cfg, s, Lookup(uid)), ReplyOf(cfg, s, Lookup(uid));
    if r1.Some? then (s1, r1.value)
    else if s1.lock.Inspecting? then InspectAlone(cfg, s1, removed, ran)
    else SpawnAlone(cfg, s1, removed, ran)
  }

  datatype Served = Served(table: Table, docker: Docker, reply: Reply)

  /** The same request as one decision on the table and the daemon. */
  function Serve(cfg: Config, t: Table, d: Docker, uid: Uid, now: int, removed: RemoveOutcome,
    ran: RunOutcome): Served {
    if uid in t && t[uid].stopping then Served(t, d, SessionEnding)
    else if uid in t && IsRunning(d, t[uid].id) then Served(Touch(t, uid, now), d, Existing(t[uid].id))
    else if |t - {uid}| >= cfg.maxSessions then Served(t - {uid}, d, ServerBusy)
    else Spawn(t - {uid}, d, uid, now, removed, ran)
  }

  function Spawn(t: Table, d: Docker, uid: Uid, now: int, removed: RemoveOutcome, ran: RunOutcome): Served {
    if removed == DirsFailed then Served(t, d, RunError)
    else
      var d1 := RunName(if removed == RmOk then RemoveName(d, NameOf(uid)) else d, NameOf(uid), ran);
      if ran.RunOk? then Served(t[uid := Entry(ran.id, false, now)], d1, Started(ran.id)) else Served(t, d1, RunError)
  }

  function Result(s: State, v: Served): (State, Reply) {
    (s.(table := v.table, docker := v.docker, lock := Free), v.reply)
  }

  lemma SpawnIsItsStages(cfg: Config, s: State, removed: RemoveOutcome, ran: RunOutcome)
    requires s.lock.Removing? && Answers(s.docker, s.lock.uid, removed, ran)
    ensures SpawnAlone(cfg, s, removed, ran) == Result(s, Spawn(s.table, s.docker, s.lock.uid, s.clock, removed, ran))
  {
  }

  lemma InspectIsItsStages(cfg: Config, s: State, removed: RemoveOutcome, ran: RunOutcome)
    requires s.lock.Inspecting? && s.lock.uid in s.table && !s.table[s.lock.uid].stopping
      && Answers(s.docker, s.lock.uid, removed, ran)
    ensures InspectAlone(cfg, s, removed, ran) ==
      Result(s, Serve(cfg, s.table, s.docker, s.lock.uid, s.clock, removed, ran))
  {
    var s1 := Ensured(cfg, s, Inspect);
    if s1.lock.Removing? {
      SpawnIsItsStages(cfg, s1, removed, ran);
    }
  }

  lemma LookupThenInspect(cfg: Config, s: State, uid: Uid, removed: RemoveOutcome, ran: RunOutcome)
    requires s.lock == Free && uid in s.table && Answers(s.docker, uid, removed, ran)
    ensures EnsureAlone(cfg, s, uid, removed, ran) ==
              if s.table[uid].stopping then (s, SessionEnding)
              else InspectAlone(cfg, s.(lock := Inspecting(uid)), removed, ran)
  {
  }

  lemma LookupThenSpawn(cfg: Config, s: State, uid: Uid, removed: RemoveOutcome, ran: RunOutcome)
    requires s.lock == Free && uid !in s.table && Answers(s.docker, uid, removed, ran)
    ensures EnsureAlone(cfg, s, uid, removed, ran) ==
              if |s.table| >= cfg.maxSessions then (s, ServerBusy)
              else SpawnAlone(cfg, s.(lock := Removing(uid)), removed, ran)
  {
  }

  lemma ServeFlagged(cfg: Config, t: Table, d: Docker, uid: Uid, now: int, removed: RemoveOutcome, ran: RunOutcome)
    requires uid in t && t[uid].stopping
    ensures Serve(cfg, t, d, uid, now, removed, ran) == Served(t, d, SessionEnding)
  {
  }

  lemma ServeAbsent(cfg: Config, t: Table, d: Docker, uid: Uid, now: int, removed: RemoveOutcome, ran: RunOutcome)
    requires uid !in t
    ensures Serve(cfg, t, d, uid, now, removed, ran) ==
              if |t| >= cfg.maxSessions then Served(t, d, ServerBusy) else Spawn(t, d, uid, now, removed, ran)
  {
    assert t - {uid} == t;
  }

  /** The stages of a request, run back to back, are that one decision. */
  lemma ServeIsItsStages(cfg: Config, s: State, uid: Uid, removed: RemoveOutcome, ran: RunOutcome)
    requires s.lock == Free && Answers(s.docker, uid, removed, ran)
    ensures EnsureAlone(cfg, s, uid, removed, ran) ==
      Result(s, Serve(cfg, s.table, s.docker, uid, s.clock, removed, ran))
  {
    hide Serve, EnsureAlone, InspectAlone, SpawnAlone, Spawn, Answers;
    if uid in s.table {
      LookupThenInspect(cfg, s, uid, removed, ran);
      if s.table[uid].stopping {
        ServeFlagged(cfg, s.table, s.docker, uid, s.clock, removed, ran);
      } else {
        InspectIsItsStages(cfg, s.(lock := Inspecting(uid)), removed, ran);
      }
    } else {
      LookupThenSpawn(cfg, s, uid, removed, ran);
      ServeAbsent(cfg, s.table, s.docker, uid, s.clock, removed, ran);
      if |s.table| < cfg.maxSessions {
        SpawnIsItsStages(cfg, s.(lock := Removing(uid)), removed, ran);
      }
    }
  }

  /** The reaper's scan with the users in `todo` still to come. */
  ghost function ReapedBut(cfg: Config, t: Table, now: int, todo: set<Uid>): Table {
    map u | u in t :: if u !in todo && Reapable(cfg, t[u], now) then t[u].(stopping := true) else t[u]
  }

  ghost predicate InOrder(cfg: Config, t: Table, now: int, todo: set<Uid>, order: seq<Uid>) {
    && (forall u :: u in order <==> u in t && u !in todo && Reapable(cfg, t[u], now))
    && (forall i, j :: 0 <= i < j < |order| ==> order[i] != order[j])
  }

  lemma OneMoreClaim(t: Table, order: seq<Uid>, u: Uid)
    requires u in t && forall v :: v in order ==> v in t
    ensures Claims(t, order + [u]) == Claims(t, order) + [Claim(u, t[u].id)]
  {
    hide Claims;
    assert forall v :: v in order + [u] ==> v in t;
  }

  lemma ReapedOne(cfg: Config, t: Table, now: int, todo: set<Uid>, u: Uid, order: seq<Uid>)
    requires u in todo && u in t && InOrder(cfg, t, now, todo, order)
    ensures ReapedBut(cfg, t, now, todo)[u] == t[u]
    ensures if Reapable(cfg, t[u], now)
      then ReapedBut(cfg, t, now, todo - {u}) == Flag(ReapedBut(cfg, t, now, todo), u)
        && InOrder(cfg, t, now, todo - {u}, order + [u])
        && Claims(t, order + [u]) == Claims(t, order) + [Claim(u, t[u].id)]
      else ReapedBut(cfg, t, now, todo - {u}) == ReapedBut(cfg, t, now, todo) && InOrder(cfg, t, now, todo - {u}, order)
  {
    hide Claims;
    if Reapable(cfg, t[u], now) {
      var more := order + [u];
      assert forall v :: v in more <==> v in order || v == u;
      assert forall i :: 0 <= i < |order| ==> order[i] in order;
      OneMoreClaim(t, order, u);
    }
  }

  class Manager {
    const cfg: Config
    var containers: map<Uid, ContainerInfo>

    /** Every record is filed under its own user, so no two users share one. */
    ghost predicate Valid()
      reads this, containers.Values
    {
      forall u :: u in containers ==> containers[u].uid == u
    }

    ghost function Entries(): Table
      reads this, containers.Values
    {
      map u | u in containers :: Entry(containers[u].id, containers[u].stopping, containers[u].lastSeen)
    }

    constructor (cfg: Config)
      ensures Valid() && this.cfg == cfg && containers == map[]
    {
      this.cfg, containers := cfg, map[];
    }

    /** The first critical section of every stopper. */
    method FlagForStop(uid: Uid) returns (claim: Option<Claim>)
      requires Valid()
      modifies containers.Values
      ensures Valid() && containers == old(containers)
      ensures Entries() == Flag(old(Entries()), uid)
      ensures claim == if uid in old(Entries()) then Some(Claim(uid, old(Entries())[uid].id)) else None
    {
      claim := None;
      if uid in containers {
        var ci := containers[uid];
        ci.stopping := true;
        claim := Some(Claim(uid, ci.id));
      }
    }

    /** The last critical section of a stopper, and the import's stale check. */
    method ForgetIfSame(claim: Claim)
      requires Valid()
      modifies this
      ensures Valid()
      ensures Entries() == Forget(old(Entries()), claim.uid, claim.id)
    {
      if claim.uid in containers && containers[claim.uid].id == claim.id {
        containers := containers - {claim.uid};
      }
    }

    /** The last critical section of an admin delete that aborts. */
    method UnflagIfSame(claim: Claim)
      requires Valid()
      modifies containers.Values
      ensures Valid() && containers == old(containers)
      ensures Entries() == Unflag(old(Entries()), claim.uid, claim.id)
    {
      if claim.uid in containers && containers[claim.uid].id == claim.id {
        var cur := containers[claim.uid];
        cur.stopping := false;
      }
    }

    method Keepalive(uid: Uid, now: int) returns (ok: bool)
      requires Valid()
      modifies containers.Values
      ensures Valid() && containers == old(containers)
      ensures Entries() == Touch(old(Entries()), uid, now)
      ensures ok <==> uid in old(Entries())
    {
      ok := uid in containers;
      if ok {
        var c := containers[uid];
        c.lastSeen := now;
      }
    }

    /** Read-only: whole seconds idle, and the countdown to the reaper. */
    method SessionStatus(uid: Uid, now: int) returns (active: bool, idle: int, untilReap: int)
      requires Valid()
      ensures active <==> uid in Entries()
      ensures active ==> idle == Seconds(now - Entries()[uid].lastSeen)
      ensures active ==> untilReap == SecondsUntilReap(cfg, Entries()[uid], now)
      ensures !active ==> idle == 0 && untilReap == 0
    {
      active, idle, untilReap := uid in containers, 0, 0;
      if active {
        idle := Seconds(now - containers[uid].lastSeen);
        var remaining := Seconds(cfg.idleTimeout) - idle;
        if remaining > 0 {
          untilReap := remaining;
        }
      }
    }

    /** The idle reaper's scan: it claims every reapable entry, once each. */
    method ReapScan(now: int) returns (toReap: seq<Claim>, ghost order: seq<Uid>)
      requires Valid()
      modifies containers.Values
      ensures Valid() && containers == old(containers)
      ensures Entries() == ReapFlags(cfg, old(Entries()), now)
      ensures IsReapOrder(cfg, old(Entries()), now, order)
      ensures toReap == Claims(old(Entries()), order)
      ensures forall i, j :: 0 <= i < j < |toReap| ==> toReap[i].uid != toReap[j].uid
    {
      toReap, order := [], [];
      ghost var before := Entries();
      var todo := containers.Keys;
      while todo != {}
        invariant Valid() && containers == old(containers) && todo <= containers.Keys
        invariant Entries() == ReapedBut(cfg, before, now, todo)
        invariant InOrder(cfg, before, now, todo, order) && toReap == Claims(before, order)
        decreases todo
      {
        var u :| u in todo;
        var ci := containers[u];
        ReapedOne(cfg, before, now, todo, u, order);
        if !ci.stopping && now - ci.lastSeen > cfg.idleTimeout {
          var _ := FlagForStop(u);
          toReap, order := toReap + [Claim(u, ci.id)], order + [u];
        }
        todo := todo - {u};
      }
    }

    /** Startup: adopt what a previous instance left running. */
    method Reconcile(listed: seq<Listed>, known: set<Uid>, now: int)
      requires Valid() && containers == map[]
      modifies this
      ensures Valid() && Entries() == Adopt(listed, known, now)
    {
      for i := 0 to |listed|
        invariant Valid()
        invariant Entries() == Adopt(listed[..i], known, now)
      {
        var c := listed[i];
        assert listed[..i + 1][..i] == listed[..i];
        if |c.name| < 3 || c.name[..3] != "df-" {
          continue;
        }
        var uid := c.name[3..];
        if uid == "" || uid !in known {
          continue;
        }
        var ci := new ContainerInfo(c.id, uid, now);
        containers := containers[uid := ci];
      }
      assert listed[..|listed|] == listed;
    }

    /** Runs wholly under the mutex, docker commands included. What docker
        answers is a parameter. */
    method EnsureContainer(docker: Docker, uid: Uid, now: int, removed: RemoveOutcome, ran: RunOutcome)
      returns (docker': Docker, reply: Reply)
      requires Valid()
      modifies this, containers.Values
      ensures Valid()
      ensures Served(Entries(), docker', reply) == Serve(cfg, old(Entries()), docker, uid, now, removed, ran)
    {
      hide Spawn, Touch;
      docker' := docker;
      var reused := ReuseContainer(docker, uid, now);
      if reused.Some? {
        return docker', reused.value;
      }
      assert |containers| == |Entries()| by {
        assert containers.Keys == Entries().Keys;
        assert |containers| == |containers.Keys| && |Entries()| == |Entries().Keys|;
      }
      if |containers| >= cfg.maxSessions {
        return docker', ServerBusy;
      }
      docker', reply := SpawnContainer(docker, uid, now, removed, ran);
    }

    /** The head of EnsureContainer: what becomes of the entry the user has. */
    method ReuseContainer(docker: Docker, uid: Uid, now: int) returns (reply: Option<Reply>)
      requires Valid()
      modifies this, containers.Values
      ensures Valid()
      ensures uid in old(Entries()) && old(Entries())[uid].stopping ==>
        Entries() == old(Entries()) && reply == Some(SessionEnding)
      ensures uid in old(Entries()) && !old(Entries())[uid].stopping && IsRunning(docker, old(Entries())[uid].id) ==>
                Entries() == Touch(old(Entries()), uid, now) && reply == Some(Existing(old(Entries())[uid].id))
      ensures !(uid in old(Entries())
                && (old(Entries())[uid].stopping || IsRunning(docker, old(Entries())[uid].id))) ==>
                Entries() == old(Entries()) - {uid} && reply == None
    {
      if uid in containers {
        var ci := containers[uid];
        if ci.stopping {
          return Some(SessionEnding);
        }
        if IsRunning(docker, ci.id) {
          ci.lastSeen := now;
          return Some(Existing(ci.id));
        }
        containers := containers - {uid};
      }
      reply := None;
    }

    /** The tail of EnsureContainer: dockerRun, then the new entry. */
    method SpawnContainer(docker: Docker, uid: Uid, now: int, removed: RemoveOutcome, ran: RunOutcome)
      returns (docker': Docker, reply: Reply)
      requires Valid()
      modifies this
      ensures Valid()
      ensures Served(Entries(), docker', reply) == Spawn(old(Entries()), docker, uid, now, removed, ran)
      ensures removed == RmOk && ran.RunOk? ==>
        forall i :: i in docker' && i != ran.id && docker'[i].name == "df-" + uid ==> docker'[i].status == Removed
    {
      docker' := docker;
      if removed == DirsFailed {
        return docker', RunError;
      }
      if removed == RmOk {
        docker' := RemoveName(docker', NameOf(uid));
      }
      docker' := RunName(docker', NameOf(uid), ran);
      if ran.RunFailed? {
        return docker', RunError;
      }
      var ci := new ContainerInfo(ran.id, uid, now);
      containers := containers[uid := ci];
      reply := Started(ran.id);
    }
  }
}
