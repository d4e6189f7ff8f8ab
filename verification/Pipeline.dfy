/** From the bytes of gamelog.txt to what a connected client is sent. */
module Pipeline {
  import opened Basics
  import opened LineFramer
  import opened SessionLog
  import opened TailFile

  /** The lines one read completed, as events. What classifies a line is not
      part of this model. */
  function EventsOf(classify: Bytes -> string, now: int, lines: seq<Bytes>): seq<Event> {
    if lines == [] then []
    else
      var line := lines[|lines| - 1];
      EventsOf(classify, now, lines[..|lines| - 1]) + [Event(now, classify(line), line)]
  }

  function Raws(evs: seq<Event>): (lines: seq<Bytes>)
    ensures |lines| == |evs| && forall i :: 0 <= i < |evs| ==> lines[i] == evs[i].raw
  {
    seq(|evs|, i requires 0 <= i < |evs| => evs[i].raw)
  }

  // ----- The tailer -----

  lemma EventsAppend(classify: Bytes -> string, now: int, lines: seq<Bytes>, line: Bytes)
    ensures EventsOf(classify, now, lines + [line]) ==
      EventsOf(classify, now, lines) + [Event(now, classify(line), line)]
  {
    assert (lines + [line])[..|lines|] == lines;
  }

  lemma PushAppends(ring: seq<Event>, evs: seq<Event>, ev: Event)
    ensures PushAll(ring, evs + [ev]) == Push(PushAll(ring, evs), ev)
  {
    assert (evs + [ev])[..|evs|] == evs;
  }

  lemma OfferAppends(s: Sub, evs: seq<Event>, ev: Event)
    ensures OfferAll(s, evs + [ev]) == Offer(OfferAll(s, evs), ev)
  {
    assert (evs + [ev])[..|evs|] == evs;
  }

  lemma LinesOfNext(s: Bytes, idx: nat)
    requires IndexNL(s) == idx
    ensures Lines(s) == (if TrimCR(s[..idx]) == [] then [] else [TrimCR(s[..idx])]) + Lines(s[idx + 1..])
    ensures Rest(s) == Rest(s[idx + 1..])
  {
    hide Pieces, Rest, Report, TrimCR, IndexNL;
    FirstPiece(s);
    FirstRest(s);
    ReportOne(s[..idx], Pieces(s[idx + 1..]));
  }

  lemma NoMoreLines(s: Bytes)
    requires IndexNL(s) < 0
    ensures Lines(s) == [] && Rest(s) == s
  {
    NoPiece(s);
  }

  lemma CheckMoves(s: Tail)
    requires Possible(s, CheckSize)
    ensures var s1 := Moved(s, CheckSize);
      && Possible(s1, CheckSize) && Current(s1) == Current(s)
      && (if |Current(s)| < s.pos then s1.pos == 0 && s1.framed.buf == []
        else s1.pos == s.pos && s1.framed.buf == s.framed.buf)
  {
  }

  lemma ReadMoves(s: Tail, n: nat)
    requires Possible(s, Read(n))
    ensures n == 0 ==> Moved(s, Read(n)) == s && NewLines(s, Read(n)) == []
    ensures n > 0 ==>
      var full := Fill(s.framed.buf, Current(s)[s.pos..s.pos + n]);
      Moved(s, Read(n)).pos == s.pos + n && Moved(s, Read(n)).framed.buf == Rest(full)
        && NewLines(s, Read(n)) == Lines(full)
  {
    hide Rest, Lines, FullMarks, LastN;
  }

  class Tailer {
    const log: Log
    var pos: nat
    var buf: Bytes

    constructor (log: Log)
      ensures this.log == log && pos == 0 && buf == []
    {
      this.log, pos, buf := log, 0, [];
    }

    /** Back to the start when the file is shorter than what was read of it. */
    method CheckSize(size: nat)
      modifies this
      ensures if size < old(pos) then pos == 0 && buf == [] else pos == old(pos) && buf == old(buf)
    {
      if size < pos {
        pos := 0;
        buf := [];
      }
    }

    /** The log, started from `ring` and `views`, has seen these lines. */
    ghost predicate Reported(classify: Bytes -> string, now: int, lines: seq<Bytes>, ring: seq<Event>,
      views: map<Subscriber, Sub>)
      reads log, log.subs
    {
      && log.events == PushAll(ring, EventsOf(classify, now, lines))
      && forall s :: s in log.subs ==> s in views && s.View() == OfferAll(views[s], EventsOf(classify, now, lines))
    }

    method Report(line: Bytes, now: int, classify: Bytes -> string,
                  ghost lines: seq<Bytes>, ghost ring: seq<Event>, ghost views: map<Subscriber, Sub>)
      requires log.Valid() && Reported(classify, now, lines, ring, views)
      modifies log`events, log.subs
      ensures log.Valid() && Reported(classify, now, lines + [line], ring, views)
    {
      ghost var evs, ev := EventsOf(classify, now, lines), Event(now, classify(line), line);
      log.Append(Event(now, classify(line), line));
      EventsAppend(classify, now, lines, line);
      PushAppends(ring, evs, ev);
      forall s | s in log.subs ensures s in views && s.View() == OfferAll(views[s], evs + [ev]) {
        OfferAppends(views[s], evs, ev);
      }
    }

    /** The loop over the complete lines in the buffer. */
    method Drain(now: int, classify: Bytes -> string, ghost ring: seq<Event>, ghost views: map<Subscriber, Sub>)
      requires log.Valid() && Reported(classify, now, [], ring, views)
      modifies this`buf, log`events, log.subs
      ensures log.Valid() && Reported(classify, now, Lines(old(buf)), ring, views)
      ensures buf == Rest(old(buf))
    {
      hide Lines, Rest, IndexNL, TrimCR, EventsOf, PushAll, OfferAll;
      ghost var done: seq<Bytes> := [];
      assert done + Lines(buf) == Lines(buf);
      while true
        invariant Lines(old(buf)) == done + Lines(buf) && Rest(old(buf)) == Rest(buf)
        invariant log.Valid() && log.subs == old(log.subs) && Reported(classify, now, done, ring, views)
        decreases |buf|
      {
        var idx := IndexNL(buf);
        if idx < 0 {
          NoMoreLines(buf);
          assert done + [] == done;
          return;
        }
        LinesOfNext(buf, idx);
        var line := TrimCR(buf[..idx]);
        Associative(done, if line == [] then [] else [line], Lines(buf[idx + 1..]));
        buf := buf[idx + 1..];
        if line == [] {
          assert done + [] == done;
          continue;
        }
        Report(line, now, classify, done, ring, views);
        done := done + [line];
      }
    }

    /** One nonempty read: the completed lines go to the log, and through it to
        every subscriber. */
    method Read(chunk: Bytes, now: int, classify: Bytes -> string)
      requires log.Valid() && 0 < |chunk| <= MAX_READ
      modifies this, log`events, log.subs
      ensures log.Valid() && log.subs == old(log.subs) && pos == old(pos) + |chunk|
      ensures buf == Rest(Fill(old(buf), chunk)) && |buf| <= 65536
      ensures Reported(classify, now, Lines(Fill(old(buf), chunk)), old(log.events),
        old(map s | s in log.subs :: s.View()))
    {
      hide Lines, Rest, EventsOf, PushAll, OfferAll;
      pos := pos + |chunk|;
      buf := buf + chunk;
      if |buf| > MAX_BUFFER {
        buf := [];
      }
      NothingReported(classify, now, log.events, map s | s in log.subs :: s.View());
      Drain(now, classify, log.events, map s | s in log.subs :: s.View());
    }

    /** Where the tailer is, as the model of the file has it. */
    ghost predicate Follows(s: Tail)
      reads this
    {
      pos == s.pos && buf == s.framed.buf
    }

    /** One turn of the loop: the size is looked at, then up to 4096 bytes are read. */
    method Poll(content: Bytes, n: nat, now: int, classify: Bytes -> string, ghost s: Tail)
      requires log.Valid() && Follows(s)
      requires Possible(s, Move.CheckSize) && content == Current(s) && Possible(Moved(s, Move.CheckSize), Move.Read(n))
      modifies this, log`events, log.subs
      ensures log.Valid() && log.subs == old(log.subs)
      ensures Follows(Moved(Moved(s, Move.CheckSize), Move.Read(n)))
      ensures Reported(classify, now, NewLines(Moved(s, Move.CheckSize), Move.Read(n)), old(log.events),
        old(map s | s in log.subs :: s.View()))
    {
      hide Lines, Rest, EventsOf, PushAll, OfferAll, Moved, NewLines, Current, Fill;
      CheckMoves(s);
      ReadMoves(Moved(s, Move.CheckSize), n);
      CheckSize(|content|);
      if n > 0 {
        Read(content[pos..pos + n], now, classify);
      } else {
        NothingReported(classify, now, log.events, map s | s in log.subs :: s.View());
      }
    }

    lemma NothingReported(classify: Bytes -> string, now: int, ring: seq<Event>, views: map<Subscriber, Sub>)
      requires log.events == ring && forall s :: s in log.subs ==> s in views && s.View() == views[s]
      ensures Reported(classify, now, [], ring, views)
    {
    }
  }

  // ----- End to end -----

  /** What happens to the file and the tailer, and to one client. */
  datatype Happening = Tailed(move: Move, now: int) | ClientReceives | ClientTakesDrops

  /** `tails[i]` is the file and the tailer before `hs[i]`. */
  datatype Trail = Trail(tails: seq<Tail>, hs: seq<Happening>)

  /** The move a happening is for the tailer; what a client does is none. */
  function MoveOf(h: Happening): Move {
    if h.Tailed? then h.move else Read(0)
  }

  function RunOf(t: Trail): TailFile.Run {
    TailFile.Run(t.tails, seq(|t.hs|, i requires 0 <= i < |t.hs| => MoveOf(t.hs[i])))
  }

  ghost predicate IsTrail(t: Trail, content: Bytes) {
    IsRun(RunOf(t), content)
  }

  /** The lines a move completes. */
  function NewLines(s: Tail, m: Move): seq<Bytes> {
    if IsRound(s, m) then Lines(Full(s, m.n)) else []
  }

  function NewEvents(classify: Bytes -> string, s: Tail, h: Happening): seq<Event> {
    if h.Tailed? then EventsOf(classify, h.now, NewLines(s, h.move)) else []
  }

  /** The events of the happenings from `i` to `j`, and what they do to a client. */
  function EventsIn(classify: Bytes -> string, t: Trail, i: nat, j: nat): seq<Event>
    requires i <= j <= |t.hs| < |t.tails|
  {
    if i == j then [] else EventsIn(classify, t, i, j - 1) + NewEvents(classify, t.tails[j - 1], t.hs[j - 1])
  }

  function Appends(evs: seq<Event>): seq<Act> {
    if evs == [] then [] else Appends(evs[..|evs| - 1]) + [Appended(evs[|evs| - 1])]
  }

  function NewActs(classify: Bytes -> string, s: Tail, h: Happening): seq<Act> {
    match h
    case Tailed(_, _) => Appends(NewEvents(classify, s, h))
    case ClientReceives => [Receive]
    case ClientTakesDrops => [TakeDrops]
  }

  function ActsIn(classify: Bytes -> string, t: Trail, i: nat, j: nat): seq<Act>
    requires i <= j <= |t.hs| < |t.tails|
  {
    if i == j then [] else ActsIn(classify, t, i, j - 1) + NewActs(classify, t.tails[j - 1], t.hs[j - 1])
  }

  function RingAt(classify: Bytes -> string, t: Trail, i: nat): seq<Event>
    requires i <= |t.hs| < |t.tails|
  {
    PushAll([], EventsIn(classify, t, 0, i))
  }

  /** What a client that joined at `i` has had by `j`. */
  function ClientAt(classify: Bytes -> string, t: Trail, i: nat, j: nat): Trace
    requires i <= j <= |t.hs| < |t.tails|
  {
    ActAll(Joined(RingAt(classify, t, i)), ActsIn(classify, t, i, j))
  }

  lemma {:induction false} RawsOfEvents(classify: Bytes -> string, now: int, lines: seq<Bytes>)
    ensures Raws(EventsOf(classify, now, lines)) == lines
  {
    if lines != [] {
      RawsOfEvents(classify, now, lines[..|lines| - 1]);
    }
  }

  lemma RawsAppend(a: seq<Event>, b: seq<Event>)
    ensures Raws(a + b) == Raws(a) + Raws(b)
  {
  }

  lemma RawsOfLastN(n: nat, evs: seq<Event>)
    ensures Raws(LastN(n, evs)) == LastN(n, Raws(evs))
  {
  }

  lemma MoveReports(s: Tail, m: Move)
    requires Possible(s, m)
    ensures Moved(s, m).framed.lines == s.framed.lines + NewLines(s, m)
  {
    hide Lines, Rest, FullMarks, LastN;
    assert s.framed.lines + [] == s.framed.lines;
  }

  lemma NewEventsAreTheLines(classify: Bytes -> string, s: Tail, h: Happening)
    requires Possible(s, MoveOf(h))
    ensures Moved(s, MoveOf(h)).framed.lines == s.framed.lines + Raws(NewEvents(classify, s, h))
  {
    hide Moved, NewLines, Raws, EventsOf;
    if h.Tailed? {
      MoveReports(s, h.move);
      RawsOfEvents(classify, h.now, NewLines(s, h.move));
    } else {
      StandsStill(s);
      assert Raws([]) == [] && s.framed.lines + [] == s.framed.lines;
    }
  }

  lemma StandsStill(s: Tail)
    requires Possible(s, Read(0))
    ensures Moved(s, Read(0)) == s
  {
  }

  lemma TrailStep(t: Trail, content: Bytes, j: nat)
    requires IsTrail(t, content) && j < |t.hs|
    ensures |t.tails| == |t.hs| + 1
    ensures Possible(t.tails[j], MoveOf(t.hs[j])) && t.tails[j + 1] == Moved(t.tails[j], MoveOf(t.hs[j]))
  {
    hide Moved, MoveOf;
    assert RunOf(t).moves[j] == MoveOf(t.hs[j]);
  }

  /** The events are the framed lines. */
  lemma {:induction false} EventsAreTheLines(classify: Bytes -> string, t: Trail, content: Bytes, i: nat, j: nat)
    requires IsTrail(t, content) && i <= j <= |t.hs| < |t.tails|
    ensures t.tails[j].framed.lines == t.tails[i].framed.lines + Raws(EventsIn(classify, t, i, j))
  {
    hide IsTrail, NewEvents, MoveOf, Moved, Raws;
    var lines := t.tails[i].framed.lines;
    if i == j {
      assert Raws([]) == [] && lines + [] == lines;
    } else {
      var s, h := t.tails[j - 1], t.hs[j - 1];
      var before, now := EventsIn(classify, t, i, j - 1), NewEvents(classify, s, h);
      EventsAreTheLines(classify, t, content, i, j - 1);
      TrailStep(t, content, j - 1);
      NewEventsAreTheLines(classify, s, h);
      RawsAppend(before, now);
      Associative(lines, Raws(before), Raws(now));
    }
  }

  lemma {:induction false} AppendedInAppends(a: seq<Act>, b: seq<Act>)
    ensures AppendedIn(a + b) == AppendedIn(a) + AppendedIn(b)
  {
    if b == [] {
      assert a + b == a;
    } else {
      assert (a + b)[..|a + b| - 1] == a + b[..|b| - 1];
      AppendedInAppends(a, b[..|b| - 1]);
    }
  }

  lemma {:induction false} AppendsAppend(evs: seq<Event>)
    ensures AppendedIn(Appends(evs)) == evs
  {
    if evs != [] {
      AppendsAppend(evs[..|evs| - 1]);
      assert Appends(evs)[..|Appends(evs)| - 1] == Appends(evs[..|evs| - 1]);
    }
  }

  lemma NewActsAppendTheEvents(classify: Bytes -> string, s: Tail, h: Happening)
    ensures AppendedIn(NewActs(classify, s, h)) == NewEvents(classify, s, h)
  {
    hide Appends, EventsOf;
    if h.Tailed? {
      AppendsAppend(NewEvents(classify, s, h));
    }
  }

  lemma {:induction false} ActsAppendTheEvents(classify: Bytes -> string, t: Trail, i: nat, j: nat)
    requires i <= j <= |t.hs| < |t.tails|
    ensures AppendedIn(ActsIn(classify, t, i, j)) == EventsIn(classify, t, i, j)
  {
    hide NewActs, NewEvents;
    if i < j {
      ActsAppendTheEvents(classify, t, i, j - 1);
      NewActsAppendTheEvents(classify, t.tails[j - 1], t.hs[j - 1]);
      AppendedInAppends(ActsIn(classify, t, i, j - 1), NewActs(classify, t.tails[j - 1], t.hs[j - 1]));
    }
  }

  // A client's side of what the log's methods do.

  lemma {:induction false} ActAllSplits(c: Trace, a: seq<Act>, b: seq<Act>)
    ensures ActAll(c, a + b) == ActAll(ActAll(c, a), b)
  {
    hide Acted;
    if b == [] {
      assert a + b == a;
    } else {
      assert (a + b)[..|a + b| - 1] == a + b[..|b| - 1];
      ActAllSplits(c, a, b[..|b| - 1]);
    }
  }

  lemma ActAllOne(c: Trace, acts: seq<Act>, act: Act)
    ensures ActAll(c, acts + [act]) == Acted(ActAll(c, acts), act)
  {
    hide Acted;
    assert (acts + [act])[..|acts|] == acts;
  }

  /** Events appended one after the other are offered as the log offers them. */
  lemma {:induction false} AppendsAreOffers(c: Trace, evs: seq<Event>)
    ensures ActAll(c, Appends(evs)).sub == OfferAll(c.sub, evs)
  {
    if evs != [] {
      hide ActAll, Offer;
      AppendsAreOffers(c, evs[..|evs| - 1]);
      ActAllOne(c, Appends(evs[..|evs| - 1]), Appended(evs[|evs| - 1]));
    }
  }

  /** A client moves on as the tailer's method says of every subscriber. */
  lemma ClientFollowsTheLog(classify: Bytes -> string, t: Trail, i: nat, j: nat)
    requires i <= j < |t.hs| < |t.tails| && t.hs[j].Tailed?
    ensures ClientAt(classify, t, i, j + 1).sub ==
      OfferAll(ClientAt(classify, t, i, j).sub, NewEvents(classify, t.tails[j], t.hs[j]))
  {
    hide NewEvents, Joined, RingAt, ActAll, OfferAll;
    var c, evs := Joined(RingAt(classify, t, i)), NewEvents(classify, t.tails[j], t.hs[j]);
    ActAllSplits(c, ActsIn(classify, t, i, j), Appends(evs));
    AppendsAreOffers(ClientAt(classify, t, i, j), evs);
  }

  lemma ClientStep(classify: Bytes -> string, t: Trail, i: nat, j: nat)
    requires i <= j < |t.hs| < |t.tails|
    ensures ClientAt(classify, t, i, j + 1) ==
      ActAll(ClientAt(classify, t, i, j), NewActs(classify, t.tails[j], t.hs[j]))
  {
    hide NewActs, RingAt, Joined, ActsIn, ActAll;
    OneMoreActs(classify, t, i, j);
    ActAllSplits(Joined(RingAt(classify, t, i)), ActsIn(classify, t, i, j), NewActs(classify, t.tails[j], t.hs[j]));
  }

  lemma ClientActs(classify: Bytes -> string, s: Tail, h: Happening)
    requires !h.Tailed?
    ensures NewActs(classify, s, h) == [if h.ClientReceives? then Receive else TakeDrops]
  {
    hide NewEvents, Appends;
  }

  /** A client receives the first event that is queued, and nothing else changes. */
  lemma ClientReceivesOne(classify: Bytes -> string, t: Trail, i: nat, j: nat)
    requires i <= j < |t.hs| < |t.tails| && t.hs[j] == ClientReceives
    ensures var c, c' := ClientAt(classify, t, i, j), ClientAt(classify, t, i, j + 1);
      if c.sub.queue == [] then c' == c
      else
        c' == Trace(Sub(c.sub.queue[1..], c.sub.drops), c.offered, c.received + [c.sub.queue[0]], c.taken)
  {
    hide ClientAt, ActAll, Acted, NewActs;
    var c := ClientAt(classify, t, i, j);
    ClientStep(classify, t, i, j);
    ClientActs(classify, t.tails[j], t.hs[j]);
    OneAct(c, Receive);
    ReceiveIsExact(c);
  }

  /** A client takes the drops counted so far, and nothing else changes. */
  lemma ClientTakesItsDrops(classify: Bytes -> string, t: Trail, i: nat, j: nat)
    requires i <= j < |t.hs| < |t.tails| && t.hs[j] == ClientTakesDrops
    ensures var c, c' := ClientAt(classify, t, i, j), ClientAt(classify, t, i, j + 1);
      c' == Trace(Sub(c.sub.queue, 0), c.offered, c.received, c.taken + c.sub.drops)
  {
    hide ClientAt, ActAll, Acted, NewActs;
    var c := ClientAt(classify, t, i, j);
    ClientStep(classify, t, i, j);
    ClientActs(classify, t.tails[j], t.hs[j]);
    OneAct(c, TakeDrops);
    TakeDropsIsExact(c);
  }

  lemma OneMoreActs(classify: Bytes -> string, t: Trail, i: nat, j: nat)
    requires i <= j < |t.hs| < |t.tails|
    ensures ActsIn(classify, t, i, j + 1) == ActsIn(classify, t, i, j) + NewActs(classify, t.tails[j], t.hs[j])
  {
    hide NewActs;
  }

  lemma OneAct(c: Trace, act: Act)
    ensures ActAll(c, [act]) == Acted(c, act)
  {
    hide Acted;
    ActAllOne(c, [], act);
    assert [] + [act] == [act];
  }

  // The two results.

  lemma NoLinesYet(t: Trail, content: Bytes)
    requires IsTrail(t, content)
    ensures |t.tails| == |t.hs| + 1 && t.tails[0].framed.lines == []
  {
    hide Moved;
  }

  /** However the file was read, reset and overflown, the ring holds the last 500
      lines that were framed. */
  lemma RingHoldsTheLastLines(classify: Bytes -> string, t: Trail, content: Bytes, i: nat)
    requires IsTrail(t, content) && i <= |t.hs| < |t.tails|
    ensures Raws(RingAt(classify, t, i)) == LastN(500, t.tails[i].framed.lines)
  {
    hide IsTrail, PushAll, EventsIn, Raws;
    var evs := EventsIn(classify, t, 0, i);
    NoLinesYet(t, content);
    EventsAreTheLines(classify, t, content, 0, i);
    assert [] + Raws(evs) == Raws(evs);
    RingIsTheLastEvents([], evs);
    assert [] + evs == evs && LastN<Event>(MAX_EVENTS, []) == [];
    RawsOfLastN(MAX_EVENTS, evs);
  }

  /** A client that joins at `i` is offered the last 50 lines framed so far and then
      every later line; it has or will get them all, once and in order, if and
      only if its queue is never full when a line comes in. */
  lemma ClientSeesTheFile(classify: Bytes -> string, t: Trail, content: Bytes, i: nat, j: nat)
    requires IsTrail(t, content) && i <= j <= |t.hs| < |t.tails|
    ensures var c, before, all := ClientAt(classify, t, i, j), t.tails[i].framed.lines, t.tails[j].framed.lines;
      && before <= all
      && Raws(c.offered) == LastN(50, before) + all[|before|..]
      && (NeverFull(Joined(RingAt(classify, t, i)), ActsIn(classify, t, i, j)) <==>
        c.received + c.sub.queue == c.offered)
  {
    hide IsTrail, EventsIn, ActsIn, RingAt, NeverFull, ActAll, Raws, AppendedIn, LastN;
    var ring, acts, evs := RingAt(classify, t, i), ActsIn(classify, t, i, j), EventsIn(classify, t, i, j);
    LosslessIffNeverFull(ring, acts);
    OfferedIsReplayThenAppended(ring, acts);
    ActsAppendTheEvents(classify, t, i, j);
    RawsAppend(LastN(REPLAY_COUNT, ring), evs);
    RawsOfLastN(REPLAY_COUNT, ring);
    RingHoldsTheLastLines(classify, t, content, i);
    LastNOfLastN(MAX_EVENTS, REPLAY_COUNT, t.tails[i].framed.lines);
    EventsAreTheLines(classify, t, content, i, j);
  }

  lemma RingHoldsWhatWasRead(classify: Bytes -> string, t: Trail, content: Bytes, i: nat)
    requires IsTrail(t, content) && i <= |t.hs| < |t.tails|
    requires forall k {:trigger t.hs[k]} :: 0 <= k < i ==> Roomy(t.tails[k], MoveOf(t.hs[k]))
    ensures Raws(RingAt(classify, t, i)) == LastN(500, FlatLines(t.tails[i].past) + Lines(t.tails[i].read))
  {
    hide PushAll, EventsIn, Raws, FlatLines, Lines, Rest, Moved, Roomy, MoveOf;
    RingHoldsTheLastLines(classify, t, content, i);
    forall k {:trigger RunOf(t).moves[k]} | 0 <= k < i ensures Roomy(t.tails[k], RunOf(t).moves[k]) {
      assert RunOf(t).moves[k] == MoveOf(t.hs[k]);
    }
    StretchesAreFramedOneByOne(RunOf(t), content, i);
  }

  /** If no line that was read is longer than 61440 bytes, the ring holds the last
      500 complete nonblank lines of what was read of the file, from one seek to
      the start to the next, whatever was reset. */
  lemma RingHoldsTheFile(classify: Bytes -> string, t: Trail, content: Bytes, i: nat)
    requires IsTrail(t, content) && i <= |t.hs| < |t.tails| && ReadShortLines(t.tails[i])
    ensures Raws(RingAt(classify, t, i)) == LastN(500, FlatLines(t.tails[i].past) + Lines(t.tails[i].read))
  {
    hide PushAll, EventsIn, Raws, FlatLines, Lines, Moved, Roomy, ReadShortLines;
    forall k {:trigger t.hs[k]} | 0 <= k < i ensures Roomy(t.tails[k], MoveOf(t.hs[k])) {
      assert RunOf(t).moves[k] == MoveOf(t.hs[k]);
      ShortLinesLeaveRoomInRuns(RunOf(t), content, i, k);
    }
    RingHoldsWhatWasRead(classify, t, content, i);
  }
}
