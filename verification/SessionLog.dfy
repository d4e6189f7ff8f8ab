/** The event ring of one session and its fan-out to subscribers with bounded
    queues: first as functions, then as the classes of the program. */
module SessionLog {
  import opened Basics
  import opened LineFramer

  datatype Event = Event(ts: int, kind: string, raw: Bytes)

  const MAX_EVENTS := 500
  const REPLAY_COUNT := 50
  const QUEUE_CAP := 64

  function Push(ring: seq<Event>, ev: Event): seq<Event> {
    LastN(MAX_EVENTS, ring + [ev])
  }

  function PushAll(ring: seq<Event>, evs: seq<Event>): seq<Event> {
    if evs == [] then ring else Push(PushAll(ring, evs[..|evs| - 1]), evs[|evs| - 1])
  }

  /** A subscriber as the log sees it: what is queued, and drops not yet reported. */
  datatype Sub = Sub(queue: seq<Event>, drops: nat)

  function Offer(s: Sub, ev: Event): Sub {
    if |s.queue| < QUEUE_CAP then s.(queue := s.queue + [ev]) else s.(drops := s.drops + 1)
  }

  function OfferAll(s: Sub, evs: seq<Event>): Sub {
    if evs == [] then s else Offer(OfferAll(s, evs[..|evs| - 1]), evs[|evs| - 1])
  }

  // ----- The ring -----

  lemma LastNOfLastN<T>(n: nat, k: nat, s: seq<T>)
    requires k <= n
    ensures LastN(k, LastN(n, s)) == LastN(k, s)
  {
  }

  lemma LastNAppends<T>(n: nat, s: seq<T>, x: T)
    ensures LastN(n, LastN(n, s) + [x]) == LastN(n, s + [x])
  {
  }

  /** The ring is the last 500 events there ever were. */
  lemma {:induction false} RingIsTheLastEvents(all: seq<Event>, evs: seq<Event>)
    ensures PushAll(LastN(500, all), evs) == LastN(500, all + evs)
  {
    if evs == [] {
      assert all + evs == all;
    } else {
      var before, ev := evs[..|evs| - 1], evs[|evs| - 1];
      RingIsTheLastEvents(all, before);
      LastNAppends(MAX_EVENTS, all + before, ev);
      assert all + before + [ev] == all + evs;
    }
  }

  // ----- One subscriber over a whole run -----

  datatype Act = Appended(ev: Event) | Receive | TakeDrops

  /** `offered` is what was replayed on joining and appended since, `received`
      and `taken` what the client has had of it so far. */
  datatype Trace = Trace(sub: Sub, offered: seq<Event>, received: seq<Event>, taken: nat)

  function Joined(ring: seq<Event>): Trace {
    Trace(Sub(LastN(REPLAY_COUNT, ring), 0), LastN(REPLAY_COUNT, ring), [], 0)
  }

  function Acted(t: Trace, act: Act): Trace {
    match act
    case Appended(ev) => t.(sub := Offer(t.sub, ev), offered := t.offered + [ev])
    case Receive =>
      if t.sub.queue == [] then t
      else t.(sub := t.sub.(queue := t.sub.queue[1..]), received := t.received + [t.sub.queue[0]])
    case TakeDrops => t.(sub := t.sub.(drops := 0), taken := t.taken + t.sub.drops)
  }

  lemma ReceiveIsExact(t: Trace)
    ensures Acted(t, Receive) ==
      if t.sub.queue == [] then t
      else Trace(Sub(t.sub.queue[1..], t.sub.drops), t.offered, t.received + [t.sub.queue[0]], t.taken)
  {
  }

  lemma TakeDropsIsExact(t: Trace)
    ensures Acted(t, TakeDrops) == Trace(Sub(t.sub.queue, 0), t.offered, t.received, t.taken + t.sub.drops)
  {
  }

  function ActAll(t: Trace, acts: seq<Act>): Trace {
    if acts == [] then t else Acted(ActAll(t, acts[..|acts| - 1]), acts[|acts| - 1])
  }

  function Lost(t: Trace): nat {
    t.taken + t.sub.drops
  }

  function Kept(t: Trace): seq<Event> {
    t.received + t.sub.queue
  }

  ghost predicate IsSubsequence<T>(a: seq<T>, b: seq<T>) {
    if a == [] then true
    else if b == [] then false
    else (a[|a| - 1] == b[|b| - 1] && IsSubsequence(a[..|a| - 1], b[..|b| - 1])) || IsSubsequence(a, b[..|b| - 1])
  }

  lemma {:induction false} SubsequenceOfItself<T>(a: seq<T>)
    ensures IsSubsequence(a, a)
  {
    if a != [] {
      SubsequenceOfItself(a[..|a| - 1]);
    }
  }

  lemma SubsequenceGrows<T>(a: seq<T>, b: seq<T>, x: T)
    requires IsSubsequence(a, b)
    ensures IsSubsequence(a, b + [x]) && IsSubsequence(a + [x], b + [x])
  {
    assert (b + [x])[..|b|] == b && (a + [x])[..|a|] == a;
  }

  ghost predicate Conserved(t: Trace) {
    && |t.received| + |t.sub.queue| + t.taken + t.sub.drops == |t.offered|
    && IsSubsequence(Kept(t), t.offered)
    && |t.sub.queue| <= QUEUE_CAP
    && (Lost(t) == 0 ==> Kept(t) == t.offered)
  }

  lemma KeptByActs(t: Trace, act: Act)
    ensures act.Appended? && |t.sub.queue| < QUEUE_CAP ==> Kept(Acted(t, act)) == Kept(t) + [act.ev]
    ensures !(act.Appended? && |t.sub.queue| < QUEUE_CAP) ==> Kept(Acted(t, act)) == Kept(t)
  {
  }

  lemma ActConserves(t: Trace, act: Act)
    requires Conserved(t)
    ensures Conserved(Acted(t, act))
  {
    KeptByActs(t, act);
    if act.Appended? {
      SubsequenceGrows(Kept(t), t.offered, act.ev);
    }
  }

  lemma {:induction false} AlwaysConserved(ring: seq<Event>, acts: seq<Act>)
    ensures Conserved(ActAll(Joined(ring), acts))
  {
    if acts == [] {
      SubsequenceOfItself(LastN(REPLAY_COUNT, ring));
      assert Kept(Joined(ring)) == LastN(REPLAY_COUNT, ring);
    } else {
      AlwaysConserved(ring, acts[..|acts| - 1]);
      ActConserves(ActAll(Joined(ring), acts[..|acts| - 1]), acts[|acts| - 1]);
    }
  }

  /** Every event offered is received, queued, or counted as a drop, reported or
      pending; what the client gets keeps its order; the queue is bounded. */
  lemma EventsAreConserved(ring: seq<Event>, acts: seq<Act>)
    ensures var t := ActAll(Joined(ring), acts);
      && |t.received| + |t.sub.queue| + t.taken + t.sub.drops == |t.offered|
      && IsSubsequence(t.received + t.sub.queue, t.offered)
      && |t.sub.queue| <= 64
  {
    AlwaysConserved(ring, acts);
  }

  function AppendedIn(acts: seq<Act>): seq<Event> {
    if acts == [] then []
    else
      var last := acts[|acts| - 1];
      AppendedIn(acts[..|acts| - 1]) + if last.Appended? then [last.ev] else []
  }

  /** What is offered is the replay and then every event appended since. */
  lemma {:induction false} OfferedIsReplayThenAppended(ring: seq<Event>, acts: seq<Act>)
    ensures ActAll(Joined(ring), acts).offered == LastN(50, ring) + AppendedIn(acts)
  {
    if acts == [] {
      assert LastN(REPLAY_COUNT, ring) + [] == LastN(REPLAY_COUNT, ring);
    } else {
      OfferedIsReplayThenAppended(ring, acts[..|acts| - 1]);
    }
  }

  /** An event is lost exactly when 64 are queued as it is appended, and then
      nothing that is queued is. */
  lemma {:induction false} DropsHappenExactlyWhenFull(ring: seq<Event>, acts: seq<Act>, act: Act)
    ensures var t := ActAll(Joined(ring), acts);
      var full := act.Appended? && |t.sub.queue| == 64;
      && Lost(Acted(t, act)) == Lost(t) + (if full then 1 else 0)
      && (full ==> Kept(Acted(t, act)) == Kept(t))
  {
    AlwaysConserved(ring, acts);
  }

  ghost predicate NeverFull(t: Trace, acts: seq<Act>) {
    forall i :: 0 <= i < |acts| && acts[i].Appended? ==> |ActAll(t, acts[..i]).sub.queue| < 64
  }

  lemma {:induction false} NothingLostIffNeverFull(ring: seq<Event>, acts: seq<Act>)
    ensures NeverFull(Joined(ring), acts) <==> Lost(ActAll(Joined(ring), acts)) == 0
  {
    if acts != [] {
      var n := |acts| - 1;
      NothingLostIffNeverFull(ring, acts[..n]);
      NeverFullPrefix(Joined(ring), acts);
      DropsHappenExactlyWhenFull(ring, acts[..n], acts[n]);
      AlwaysConserved(ring, acts[..n]);
    }
  }

  /** A client gets everything it was offered, once and in order, if and only if
      its queue was never full when an event was appended. */
  lemma LosslessIffNeverFull(ring: seq<Event>, acts: seq<Act>)
    ensures var t := ActAll(Joined(ring), acts);
      NeverFull(Joined(ring), acts) <==> t.received + t.sub.queue == t.offered
  {
    NothingLostIffNeverFull(ring, acts);
    AlwaysConserved(ring, acts);
  }

  lemma NeverFullPrefix(t: Trace, acts: seq<Act>)
    requires acts != []
    ensures var n := |acts| - 1;
      NeverFull(t, acts) <==>
        NeverFull(t, acts[..n]) && (acts[n].Appended? ==> |ActAll(t, acts[..n]).sub.queue| < QUEUE_CAP)
  {
    var n := |acts| - 1;
    forall i | 0 <= i < n ensures acts[..n][..i] == acts[..i] && acts[..n][i] == acts[i] {
    }
  }

  // ----- The classes -----

  class Subscriber {
    var queue: seq<Event>
    var drops: nat

    constructor ()
      ensures queue == [] && drops == 0
    {
      queue, drops := [], 0;
    }

    ghost function View(): Sub
      reads this
    {
      Sub(queue, drops)
    }

    /** A channel send: it may only be made where it cannot block. */
    method Send(ev: Event)
      requires |queue| < QUEUE_CAP
      modifies this
      ensures queue == old(queue) + [ev] && drops == old(drops)
    {
      queue := queue + [ev];
    }
  }

  class Log {
    var events: seq<Event>
    var subs: seq<Subscriber>

    /** No subscriber is registered twice. */
    ghost predicate Valid()
      reads this
    {
      forall i, j :: 0 <= i < j < |subs| ==> subs[i] != subs[j]
    }

    constructor ()
      ensures Valid() && events == [] && subs == []
    {
      events, subs := [], [];
    }

    method Append(ev: Event)
      requires Valid()
      modifies this`events, subs
      ensures Valid() && events == Push(old(events), ev)
      ensures forall s :: s in subs ==> s.View() == Offer(old(s.View()), ev)
    {
      events := events + [ev];
      if |events| > MAX_EVENTS {
        events := events[|events| - MAX_EVENTS..];
      }
      for i := 0 to |subs|
        invariant Valid() && events == Push(old(events), ev)
        invariant forall j :: 0 <= j < i ==> subs[j].View() == Offer(old(subs[j].View()), ev)
        invariant forall j :: i <= j < |subs| ==> subs[j].View() == old(subs[j].View())
      {
        var s := subs[i];
        if |s.queue| < QUEUE_CAP {
          s.Send(ev);
        } else {
          s.drops := s.drops + 1;
        }
      }
    }

    /** The replay is sent with the log's mutex held, and never blocks. */
    method Subscribe() returns (s: Subscriber)
      requires Valid()
      modifies this`subs
      ensures Valid() && fresh(s) && subs == old(subs) + [s]
      ensures s.View() == Joined(events).sub
    {
      s := new Subscriber();
      var start := if |events| > REPLAY_COUNT then |events| - REPLAY_COUNT else 0;
      var replay := events[start..];
      for i := 0 to |replay|
        invariant Valid() && subs == old(subs) && s.queue == replay[..i] && s.drops == 0
      {
        s.Send(replay[i]);
      }
      assert replay[..|replay|] == LastN(REPLAY_COUNT, events);
      subs := subs + [s];
    }

    method Unsubscribe(s: Subscriber)
      requires Valid()
      modifies this`subs
      ensures Valid() && s !in subs
      ensures if s in old(subs)
        then exists i :: 0 <= i < |old(subs)| && old(subs)[i] == s && subs == old(subs)[..i] + old(subs)[i + 1..]
        else subs == old(subs)
    {
      for i := 0 to |subs|
        invariant subs == old(subs) && s !in subs[..i]
      {
        if subs[i] == s {
          subs := subs[..i] + subs[i + 1..];
          return;
        }
      }
    }

    method TakeDrops(s: Subscriber) returns (d: nat)
      modifies s
      ensures d == old(s.drops) && s.drops == 0 && s.queue == old(s.queue)
    {
      d := s.drops;
      s.drops := 0;
    }

    /** The stream handler's receive. */
    method Receive(s: Subscriber) returns (ev: Event)
      requires s.queue != []
      modifies s
      ensures s.queue == old(s.queue)[1..] && ev == old(s.queue)[0] && s.drops == old(s.drops)
    {
      ev := s.queue[0];
      s.queue := s.queue[1..];
    }
  }
}
