/** The tailer against a file that grows and is now and then reset. */
module TailFile {
  import opened Basics
  import opened LineFramer

  /** `history` holds the content of every epoch of the file, the current one
      last. The next read is at offset `pos`; the last one was of epoch `epoch`.
      `marks` says of each byte in the buffer which epoch it was read from.
      `read` is what was read since the last seek to the start, `past` what was
      read before each of them. */
  datatype Tail = Tail(
    history: seq<Bytes>,
    epoch: nat,
    pos: nat,
    framed: Framed,
    marks: seq<nat>,
    read: Bytes,
    past: seq<Bytes>)

  datatype Move = Grow(bytes: Bytes) | Reset(content: Bytes) | CheckSize | Read(n: nat)

  function Opened(content: Bytes): Tail {
    Tail([content], 0, 0, START, [], [], [])
  }

  function Latest(s: Tail): nat
    requires s.history != []
  {
    |s.history| - 1
  }

  function Current(s: Tail): Bytes
    requires s.history != []
  {
    s.history[Latest(s)]
  }

  predicate Possible(s: Tail, m: Move) {
    && s.history != [] && s.epoch < |s.history|
    && (m.Read? && m.n > 0 ==> m.n <= MAX_READ && s.pos + m.n <= |Current(s)|)
  }

  /** The file may change at any moment, and a read may give any number of bytes up
      to 4096 that are there. */
  lemma AnythingMayHappen(s: Tail, bytes: Bytes, n: nat)
    requires s.history != [] && s.epoch < |s.history|
    ensures Possible(s, Grow(bytes)) && Possible(s, Reset(bytes)) && Possible(s, CheckSize)
    ensures n <= 4096 && s.pos + n <= |Current(s)| ==> Possible(s, Read(n))
    ensures Possible(s, Read(0))
  {
  }

  function Chunk(s: Tail, n: nat): Bytes
    requires n > 0 && Possible(s, Read(n))
  {
    Current(s)[s.pos..s.pos + n]
  }

  /** The buffer before it is cut into lines, and the epochs of its bytes. */
  function Full(s: Tail, n: nat): Bytes
    requires n > 0 && Possible(s, Read(n))
  {
    Fill(s.framed.buf, Chunk(s, n))
  }

  function FullMarks(s: Tail, n: nat): seq<nat>
    requires n > 0 && Possible(s, Read(n))
  {
    if |s.framed.buf| + n > MAX_BUFFER then [] else s.marks + Repeat(Latest(s), n)
  }

  function Repeat(e: nat, n: nat): seq<nat> {
    seq(n, _ => e)
  }

  function Moved(s: Tail, m: Move): Tail
    requires Possible(s, m)
  {
    match m
    case Grow(bytes) => s.(history := s.history[Latest(s) := Current(s) + bytes])
    case Reset(content) => s.(history := s.history + [content])
    case CheckSize => if |Current(s)| < s.pos then Rewound(s) else s
    case Read(n) => if n == 0 then s else Advanced(s, n)
  }

  /** Back to the start of the file, with an empty buffer. */
  function Rewound(s: Tail): Tail
    requires s.history != []
  {
    Tail(s.history, Latest(s), 0, s.framed.(buf := []), [], [], s.past + [s.read])
  }

  function Advanced(s: Tail, n: nat): Tail
    requires n > 0 && Possible(s, Read(n))
  {
    Tail(s.history, Latest(s), s.pos + n, Round(s.framed, Chunk(s, n)),
         LastN(|Rest(Full(s, n))|, FullMarks(s, n)), s.read + Chunk(s, n), s.past)
  }

  datatype Run = Run(states: seq<Tail>, moves: seq<Move>)

  ghost predicate IsRun(r: Run, content: Bytes) {
    && |r.states| == |r.moves| + 1 && r.states[0] == Opened(content)
    && forall i {:trigger r.moves[i]} :: 0 <= i < |r.moves| ==>
      Possible(r.states[i], r.moves[i]) && r.states[i + 1] == Moved(r.states[i], r.moves[i])
  }

  // ----- Lines and the epochs they are from -----

  /** A line of a round, and the epochs of its bytes. */
  function LineAt(s: Tail, n: nat, q: nat): Bytes
    requires n > 0 && Possible(s, Read(n)) && q < |Pieces(Full(s, n))|
  {
    TrimCR(Pieces(Full(s, n))[q])
  }

  function LineMarks(s: Tail, n: nat, q: nat): (ms: seq<nat>)
    requires n > 0 && Possible(s, Read(n)) && q < |Pieces(Full(s, n))| && |s.marks| == |s.framed.buf|
    ensures |ms| == |LineAt(s, n, q)|
  {
    PieceIsSlice(Full(s, n), q);
    var a := StartOf(Full(s, n), q);
    FullMarks(s, n)[a..a + |LineAt(s, n, q)|]
  }

  /** Bytes of two epochs are in it. */
  ghost predicate Joins(ms: seq<nat>) {
    exists a, b :: 0 <= a < b < |ms| && ms[a] != ms[b]
  }

  ghost predicate IsSlice(line: Bytes, text: Bytes) {
    exists a: nat, b: nat :: a <= b <= |text| && line == text[a..b]
  }

  ghost predicate OfOneEpoch(history: seq<Bytes>, line: Bytes) {
    exists e :: 0 <= e < |history| && IsSlice(line, history[e])
  }

  // ----- What tears a line -----

  /** A read of a new epoch at an offset of an old one, with bytes of the old one
      in the buffer and room for the new ones. */
  predicate Tears(s: Tail, m: Move) {
    && m.Read? && m.n > 0 && s.epoch + 1 < |s.history|
    && s.framed.buf != [] && |s.framed.buf| + m.n <= MAX_BUFFER
  }

  /** A move after which the buffer no longer starts as it did. */
  predicate Cuts(s: Tail, m: Move)
    requires Possible(s, m)
  {
    || (m == CheckSize && |Current(s)| < s.pos)
    || (m.Read? && m.n > 0 && (|s.framed.buf| + m.n > MAX_BUFFER || NL in Chunk(s, m.n)))
  }

  ghost predicate Uncut(r: Run, i: int, j: nat)
    requires 0 <= i && j <= |r.moves| && |r.states| == |r.moves| + 1
    requires forall k {:trigger r.moves[k]} :: 0 <= k < |r.moves| ==> Possible(r.states[k], r.moves[k])
  {
    forall k {:trigger r.moves[k]} :: i <= k < j ==> !Cuts(r.states[k], r.moves[k])
  }

  /** Move `i` tore the buffer, and its start has been kept until move `j`. */
  ghost predicate TornUntil(r: Run, content: Bytes, i: int, j: nat)
    requires IsRun(r, content) && j <= |r.moves|
  {
    0 <= i < j && Tears(r.states[i], r.moves[i]) && Uncut(r, i, j)
  }

  /** The same, or move `j` tears it itself. */
  ghost predicate TornInto(r: Run, content: Bytes, i: int, j: nat)
    requires IsRun(r, content) && j < |r.moves|
  {
    0 <= i <= j && Tears(r.states[i], r.moves[i]) && Uncut(r, i, j)
  }

  predicate IsRound(s: Tail, m: Move) {
    m.Read? && m.n > 0 && Possible(s, m)
  }

  /** Move `i` tore the buffer, and move `j` completes its first line, which is
      longer than what was in the buffer before `i`. */
  ghost predicate Mixes(r: Run, content: Bytes, i: int, j: nat)
    requires IsRun(r, content) && j < |r.moves|
  {
    && TornInto(r, content, i, j) && IsRound(r.states[j], r.moves[j])
    && Pieces(Full(r.states[j], r.moves[j].n)) != []
    && |r.states[i].framed.buf| < |LineAt(r.states[j], r.moves[j].n, 0)|
  }

  // ----- Marks -----

  ghost predicate Marked(s: Tail) {
    && s.history != [] && s.epoch < |s.history|
    && |s.marks| == |s.framed.buf| && NL !in s.framed.buf
    && (s.marks != [] ==> s.marks[|s.marks| - 1] == s.epoch)
  }

  lemma AdvancedMarks(s: Tail, n: nat)
    requires Marked(s) && n > 0 && Possible(s, Read(n))
    ensures Marked(Advanced(s, n))
  {
    hide Lines, Rest;
    RestHasNoNewline(Full(s, n));
  }

  lemma MoveMarks(s: Tail, m: Move)
    requires Marked(s) && Possible(s, m)
    ensures Marked(Moved(s, m))
  {
    hide Advanced, Current;
    if m.Read? && m.n > 0 {
      AdvancedMarks(s, m.n);
    }
  }

  lemma {:induction false} RunMarks(r: Run, content: Bytes, j: nat)
    requires IsRun(r, content) && j <= |r.moves|
    ensures Marked(r.states[j])
  {
    hide Marked, Moved;
    if j == 0 {
      OpenedIsMarked(content);
    } else {
      RunMarks(r, content, j - 1);
      MoveMarks(r.states[j - 1], r.moves[j - 1]);
    }
  }

  lemma OpenedIsMarked(content: Bytes)
    ensures Marked(Opened(content))
  {
  }

  // ----- Seams -----

  /** Where one epoch ends and another begins. */
  predicate SeamAt(ms: seq<nat>, m: int) {
    0 < m < |ms| && ms[m - 1] != ms[m]
  }

  lemma {:induction false} JoinsAtASeam(ms: seq<nat>, a: nat, b: nat)
    requires a < b < |ms| && ms[a] != ms[b]
    ensures exists m :: SeamAt(ms, m)
    decreases b - a
  {
    if ms[b - 1] == ms[b] {
      JoinsAtASeam(ms, a, b - 1);
    } else {
      assert SeamAt(ms, b);
    }
  }

  lemma JoinsIffSeam(ms: seq<nat>)
    ensures Joins(ms) <==> exists m :: SeamAt(ms, m)
  {
    if Joins(ms) {
      var a, b :| 0 <= a < b < |ms| && ms[a] != ms[b];
      JoinsAtASeam(ms, a, b);
    }
    if m :| SeamAt(ms, m) {
      assert ms[m - 1] != ms[m];
    }
  }

  /** A read with room in the buffer adds at most one seam, where it tears it. */
  lemma ReadSeams(s: Tail, n: nat, m: int)
    requires Marked(s) && n > 0 && Possible(s, Read(n)) && |s.framed.buf| + n <= MAX_BUFFER
    ensures SeamAt(FullMarks(s, n), m) <==> SeamAt(s.marks, m) || (m == |s.framed.buf| && Tears(s, Read(n)))
  {
  }

  /** A read without a newline leaves everything in the buffer. */
  lemma UncutRead(s: Tail, n: nat)
    requires Marked(s) && n > 0 && Possible(s, Read(n)) && !Cuts(s, Read(n))
    ensures Advanced(s, n).marks == FullMarks(s, n) && |Advanced(s, n).framed.buf| == |s.framed.buf| + n
  {
    hide Lines, Rest, Pieces;
    NoNewline(Full(s, n));
  }

  lemma RestAfterNewline(buf: Bytes, chunk: Bytes)
    requires NL !in buf && NL in chunk
    ensures |Rest(buf + chunk)| < |chunk|
  {
    hide Rest, Pieces, IndexNL;
    var k := IndexNL(chunk);
    assert buf + chunk == buf + chunk[..k] + [NL] + chunk[k + 1..];
    CutFirst(buf + chunk[..k], chunk[k + 1..]);
  }

  /** A cut leaves bytes of one epoch only. */
  lemma CutHasNoSeams(s: Tail, m: Move, at: int)
    requires Marked(s) && Possible(s, m) && Cuts(s, m)
    ensures !SeamAt(Moved(s, m).marks, at)
  {
    hide Round, Rest;
    if m.Read? && |s.framed.buf| + m.n <= MAX_BUFFER {
      RestAfterNewline(s.framed.buf, Chunk(s, m.n));
    }
  }

  lemma KeptBuffer(s: Tail, m: Move)
    requires Marked(s) && Possible(s, m) && !Cuts(s, m)
    ensures |Moved(s, m).framed.buf| == |s.framed.buf| + (if m.Read? then m.n else 0)
    ensures !(m.Read? && m.n > 0) ==> Moved(s, m).marks == s.marks
  {
    hide Advanced;
    if m.Read? && m.n > 0 {
      UncutRead(s, m.n);
    }
  }

  /** The seams in the buffer are where it was torn and has not been cut since. */
  ghost predicate SeamsAreTears(r: Run, content: Bytes, j: nat)
    requires IsRun(r, content) && j <= |r.moves|
  {
    forall m :: SeamAt(r.states[j].marks, m) <==>
      exists i :: TornUntil(r, content, i, j) && |r.states[i].framed.buf| == m
  }

  ghost predicate FullSeamsAreTears(r: Run, content: Bytes, j: nat)
    requires IsRun(r, content) && j < |r.moves| && IsRound(r.states[j], r.moves[j])
  {
    forall m :: SeamAt(FullMarks(r.states[j], r.moves[j].n), m) <==>
      exists i :: TornInto(r, content, i, j) && |r.states[i].framed.buf| == m
  }

  lemma FullSeams(r: Run, content: Bytes, j: nat)
    requires IsRun(r, content) && j < |r.moves| && IsRound(r.states[j], r.moves[j])
    requires |r.states[j].framed.buf| + r.moves[j].n <= MAX_BUFFER && SeamsAreTears(r, content, j)
    ensures FullSeamsAreTears(r, content, j)
  {
    hide Cuts, Moved, FullMarks, SeamAt, Marked, Possible;
    var s, n := r.states[j], r.moves[j].n;
    RunMarks(r, content, j);
    forall m ensures SeamAt(FullMarks(s, n), m) <==>
      exists i :: TornInto(r, content, i, j) && |r.states[i].framed.buf| == m {
      ReadSeams(s, n, m);
      if SeamAt(s.marks, m) {
        var i :| TornUntil(r, content, i, j) && |r.states[i].framed.buf| == m;
        assert TornInto(r, content, i, j);
      }
      if m == |s.framed.buf| && Tears(s, Read(n)) {
        assert TornInto(r, content, j, j);
      }
      if i :| TornInto(r, content, i, j) && |r.states[i].framed.buf| == m && i < j {
        assert TornUntil(r, content, i, j);
      }
    }
  }

  lemma SeamsAfter(r: Run, content: Bytes, j: nat)
    requires IsRun(r, content) && j < |r.moves| && SeamsAreTears(r, content, j)
    ensures SeamsAreTears(r, content, j + 1)
  {
    hide Cuts, Moved, FullMarks, SeamAt, Marked, Possible, Advanced, Tears;
    var s, m, s' := r.states[j], r.moves[j], r.states[j + 1];
    RunMarks(r, content, j);
    if Cuts(s, m) {
      forall at ensures !SeamAt(s'.marks, at) {
        CutHasNoSeams(s, m, at);
      }
    } else {
      StillTorn(r, content, j);
      if m.Read? && m.n > 0 {
        UncutRead(s, m.n);
        UncutRoom(s, m.n);
        FullSeams(r, content, j);
        AdvancedIsMoved(s, m.n);
      } else {
        KeptBuffer(s, m);
        NoReadNoTear(s, m);
      }
    }
  }

  lemma AdvancedIsMoved(s: Tail, n: nat)
    requires n > 0 && Possible(s, Read(n))
    ensures Moved(s, Read(n)) == Advanced(s, n)
  {
  }

  lemma UncutRoom(s: Tail, n: nat)
    requires n > 0 && Possible(s, Read(n)) && !Cuts(s, Read(n))
    ensures |s.framed.buf| + n <= MAX_BUFFER && IsRound(s, Read(n))
  {
  }

  lemma NoReadNoTear(s: Tail, m: Move)
    requires !(m.Read? && m.n > 0)
    ensures !Tears(s, m)
  {
  }

  lemma StillTorn(r: Run, content: Bytes, j: nat)
    requires IsRun(r, content) && j < |r.moves| && !Cuts(r.states[j], r.moves[j])
    ensures forall i :: TornUntil(r, content, i, j + 1) <==> TornInto(r, content, i, j)
    ensures forall i :: TornInto(r, content, i, j) <==>
      TornUntil(r, content, i, j) || (i == j && Tears(r.states[j], r.moves[j]))
  {
    hide Cuts, Moved, Tears, Possible;
  }

  lemma {:induction false} RunSeams(r: Run, content: Bytes, j: nat)
    requires IsRun(r, content) && j <= |r.moves|
    ensures SeamsAreTears(r, content, j)
  {
    hide SeamsAreTears, Moved;
    if j == 0 {
      NoSeamsYet(r, content);
    } else {
      RunSeams(r, content, j - 1);
      SeamsAfter(r, content, j - 1);
    }
  }

  lemma NoSeamsYet(r: Run, content: Bytes)
    requires IsRun(r, content)
    ensures SeamsAreTears(r, content, 0)
  {
    hide Moved, Cuts, Tears;
    assert r.states[0].marks == [];
    assert forall i :: !TornUntil(r, content, i, 0);
  }

  // ----- Exactly when a line joins two epochs -----

  lemma NewlineIsNew(s: Tail, n: nat)
    requires Marked(s) && n > 0 && Possible(s, Read(n)) && Pieces(Full(s, n)) != []
    ensures |s.framed.buf| + n <= MAX_BUFFER && |s.framed.buf| <= IndexNL(Full(s, n))
  {
    hide Pieces, IndexNL, Rest;
    if IndexNL(Full(s, n)) < 0 {
      NoPiece(Full(s, n));
    }
    assert forall k :: 0 <= k < |s.framed.buf| ==> s.framed.buf[k] in s.framed.buf;
    assert Full(s, n)[IndexNL(Full(s, n))] == NL;
  }

  /** Only the first line of a round can join epochs. */
  lemma LaterLinesAreNew(s: Tail, n: nat, q: nat)
    requires Marked(s) && n > 0 && Possible(s, Read(n)) && 0 < q < |Pieces(Full(s, n))|
    ensures !Joins(LineMarks(s, n, q))
  {
    hide Pieces, IndexNL, Rest, TrimCR, StartOf;
    NewlineIsNew(s, n);
    PieceIsSlice(Full(s, n), q);
    var a, ms := StartOf(Full(s, n), q), LineMarks(s, n, q);
    forall k | 0 <= k < |ms| ensures ms[k] == Latest(s) {
      assert ms[k] == FullMarks(s, n)[a + k];
    }
  }

  lemma FirstLineMarks(s: Tail, n: nat)
    requires Marked(s) && n > 0 && Possible(s, Read(n)) && Pieces(Full(s, n)) != []
    ensures var ms, all := LineMarks(s, n, 0), FullMarks(s, n);
      |ms| <= |all| && forall m: int :: SeamAt(ms, m) <==> SeamAt(all, m) && m < |ms|
  {
    hide Pieces, IndexNL, Rest, TrimCR, StartOf;
    PieceIsSlice(Full(s, n), 0);
    var ms, all := LineMarks(s, n, 0), FullMarks(s, n);
    assert ms == all[0..|ms|];
  }

  /** A line joins two epochs if and only if it is the first of its round and,
      since a read tore the buffer, nothing has cut it, and the line goes beyond
      the tear. */
  lemma LineJoinsIffTorn(r: Run, content: Bytes, j: nat, q: nat)
    requires IsRun(r, content) && j < |r.moves| && IsRound(r.states[j], r.moves[j])
    requires q < |Pieces(Full(r.states[j], r.moves[j].n))|
    ensures |r.states[j].marks| == |r.states[j].framed.buf|
    ensures Joins(LineMarks(r.states[j], r.moves[j].n, q)) <==> q == 0 && exists i :: Mixes(r, content, i, j)
  {
    hide Cuts, Moved, Possible, SeamAt, LineMarks, FullMarks, Pieces, Joins, LineAt, Full, Tears;
    var s, n := r.states[j], r.moves[j].n;
    RunMarks(r, content, j);
    if q > 0 {
      LaterLinesAreNew(s, n, q);
    } else {
      NewlineIsNew(s, n);
      RunSeams(r, content, j);
      FullSeams(r, content, j);
      FirstLineMarks(s, n);
      var ms := LineMarks(s, n, 0);
      JoinsIffSeam(ms);
      SeamIsShort(ms);
      if m :| SeamAt(ms, m) {
        var i :| TornInto(r, content, i, j) && |r.states[i].framed.buf| == m;
        assert Mixes(r, content, i, j);
      }
      if i :| Mixes(r, content, i, j) {
        assert SeamAt(FullMarks(s, n), |r.states[i].framed.buf|);
        assert SeamAt(ms, |r.states[i].framed.buf|);
      }
    }
  }

  lemma SeamIsShort(ms: seq<nat>)
    ensures forall m :: SeamAt(ms, m) ==> m < |ms|
  {
  }

  // ----- A line that joins none is of one epoch -----

  /** The last bytes read, up to offset `end`, each where its epoch has it. */
  ghost predicate SourcedBy(history: seq<Bytes>, bytes: Bytes, ms: seq<nat>, end: nat) {
    && |ms| == |bytes| <= end
    && forall m :: 0 <= m < |bytes| ==> ByteIs(history, ms[m], end - |bytes| + m, bytes[m])
  }

  predicate ByteIs(history: seq<Bytes>, e: nat, at: int, b: Byte) {
    e < |history| && 0 <= at < |history[e]| && history[e][at] == b
  }

  ghost predicate Sourced(s: Tail) {
    s.history != [] && SourcedBy(s.history, s.framed.buf, s.marks, s.pos)
  }

  ghost predicate Extends(h: seq<Bytes>, h': seq<Bytes>) {
    |h| <= |h'| && forall e :: 0 <= e < |h| ==> h[e] <= h'[e]
  }

  lemma SourceSurvives(h: seq<Bytes>, h': seq<Bytes>, bytes: Bytes, ms: seq<nat>, end: nat)
    requires Extends(h, h') && SourcedBy(h, bytes, ms, end)
    ensures SourcedBy(h', bytes, ms, end)
  {
    forall m | 0 <= m < |bytes| ensures ByteIs(h', ms[m], end - |bytes| + m, bytes[m]) {
      assert ByteIs(h, ms[m], end - |bytes| + m, bytes[m]);
    }
  }

  lemma SourceOfSuffix(h: seq<Bytes>, bytes: Bytes, ms: seq<nat>, end: nat, k: nat)
    requires SourcedBy(h, bytes, ms, end) && k <= |bytes|
    ensures SourcedBy(h, LastN(k, bytes), LastN(k, ms), end)
  {
    hide ByteIs;
    var d := |bytes| - k;
    forall m | 0 <= m < k ensures ByteIs(h, LastN(k, ms)[m], end - k + m, LastN(k, bytes)[m]) {
      assert ByteIs(h, ms[d + m], end - |bytes| + (d + m), bytes[d + m]);
    }
  }

  lemma FullIsSourced(s: Tail, n: nat)
    requires Sourced(s) && n > 0 && Possible(s, Read(n))
    ensures SourcedBy(s.history, Full(s, n), FullMarks(s, n), s.pos + n)
  {
    var full, ms := Full(s, n), FullMarks(s, n);
    forall m | 0 <= m < |full| ensures ByteIs(s.history, ms[m], s.pos + n - |full| + m, full[m]) {
      if m < |s.framed.buf| {
        assert ByteIs(s.history, s.marks[m], s.pos - |s.framed.buf| + m, s.framed.buf[m]);
      }
    }
  }

  lemma {:induction false} RestIsSuffix(s: Bytes)
    ensures Rest(s) == LastN(|Rest(s)|, s)
    decreases |s|
  {
    hide Rest, Pieces, IndexNL;
    var i := IndexNL(s);
    if i < 0 {
      NoPiece(s);
    } else {
      FirstRest(s);
      RestIsSuffix(s[i + 1..]);
    }
  }

  lemma AdvancedIsSourced(s: Tail, n: nat)
    requires Sourced(s) && n > 0 && Possible(s, Read(n))
    ensures Sourced(Advanced(s, n))
  {
    hide Rest, Lines, SourcedBy, FullMarks, LastN;
    FullIsSourced(s, n);
    RestIsSuffix(Full(s, n));
    FullMarksFit(s, n);
    SourceOfSuffix(s.history, Full(s, n), FullMarks(s, n), s.pos + n, |Rest(Full(s, n))|);
  }

  lemma FullMarksFit(s: Tail, n: nat)
    requires Sourced(s) && n > 0 && Possible(s, Read(n))
    ensures |FullMarks(s, n)| == |Full(s, n)|
  {
  }

  lemma HistoryExtends(s: Tail, m: Move)
    requires Possible(s, m)
    ensures Extends(s.history, Moved(s, m).history)
  {
    hide Round, Rest, FullMarks, LastN;
  }

  lemma MoveIsSourced(s: Tail, m: Move)
    requires Sourced(s) && Possible(s, m)
    ensures Sourced(Moved(s, m))
  {
    hide Advanced, Extends, Current;
    HistoryExtends(s, m);
    if m.Read? && m.n > 0 {
      AdvancedIsSourced(s, m.n);
    } else {
      SourceSurvives(s.history, Moved(s, m).history, s.framed.buf, s.marks, s.pos);
    }
  }

  lemma {:induction false} RunIsSourced(r: Run, content: Bytes, j: nat)
    requires IsRun(r, content) && j <= |r.moves|
    ensures Sourced(r.states[j])
  {
    hide Sourced, Moved;
    if j == 0 {
      OpenedIsSourced(content);
    } else {
      RunIsSourced(r, content, j - 1);
      MoveIsSourced(r.states[j - 1], r.moves[j - 1]);
    }
  }

  lemma OpenedIsSourced(content: Bytes)
    ensures Sourced(Opened(content))
  {
  }

  /** Bytes of one epoch, in a row, are a contiguous part of it. */
  lemma SourcedSlice(h: seq<Bytes>, bytes: Bytes, ms: seq<nat>, end: nat, a: nat, b: nat)
    requires SourcedBy(h, bytes, ms, end) && a <= b <= |bytes| && h != [] && !Joins(ms[a..b])
    ensures OfOneEpoch(h, bytes[a..b])
  {
    var line := bytes[a..b];
    if a == b {
      assert line == h[0][0..0] && IsSlice(line, h[0]);
    } else {
      var e, from := ms[a], end - |bytes| + a;
      forall k | 0 <= k < b - a ensures ByteIs(h, e, from + k, line[k]) {
        assert ByteIs(h, ms[a + k], end - |bytes| + (a + k), bytes[a + k]);
        assert k > 0 ==> ms[a..b][0] == ms[a..b][k];
      }
      assert ByteIs(h, e, from + (b - a - 1), line[b - a - 1]);
      assert line == h[e][from..from + (b - a)];
      assert IsSlice(line, h[e]);
    }
  }

  lemma UnjoinedLineIsOfOneEpoch(s: Tail, n: nat, q: nat)
    requires Sourced(s) && n > 0 && Possible(s, Read(n)) && q < |Pieces(Full(s, n))| && !Joins(LineMarks(s, n, q))
    ensures OfOneEpoch(s.history, LineAt(s, n, q))
  {
    hide Pieces, Joins, SourcedBy, OfOneEpoch, Full, FullMarks, TrimCR, StartOf;
    FullIsSourced(s, n);
    FullMarksFit(s, n);
    PieceIsSlice(Full(s, n), q);
    var a, line := StartOf(Full(s, n), q), LineAt(s, n, q);
    assert line == Full(s, n)[a..a + |line|];
    SourcedSlice(s.history, Full(s, n), FullMarks(s, n), s.pos + n, a, a + |line|);
  }

  lemma SlicesSurvive(h: seq<Bytes>, h': seq<Bytes>, line: Bytes)
    requires Extends(h, h') && OfOneEpoch(h, line)
    ensures OfOneEpoch(h', line)
  {
    var e :| 0 <= e < |h| && IsSlice(line, h[e]);
    var a: nat, b: nat :| a <= b <= |h[e]| && line == h[e][a..b];
    assert h[e] <= h'[e] && line == h'[e][a..b];
  }

  lemma LineOfMove(s: Tail, m: Move, line: Bytes) returns (q: nat)
    requires Possible(s, m) && line in Moved(s, m).framed.lines && line !in s.framed.lines
    ensures IsRound(s, m) && q < |Pieces(Full(s, m.n))| && line == LineAt(s, m.n, q)
  {
    hide Rest, Pieces, TrimCR, Report, FullMarks, LastN;
    assert IsRound(s, m);
    assert line in Lines(Full(s, m.n));
    q := ReportedLine(Pieces(Full(s, m.n)), line);
  }

  /** Unless a torn line is completed, every line is a contiguous piece of what one
      epoch of the file holds. */
  lemma {:induction false} LinesNeverMixEpochs(r: Run, content: Bytes, j: nat, line: Bytes)
    requires IsRun(r, content) && j <= |r.moves| && line in r.states[j].framed.lines
    requires forall i, k :: 0 <= i <= k < j ==> !Mixes(r, content, i, k)
    ensures OfOneEpoch(r.states[j].history, line)
  {
    hide Moved, Tears, Uncut, LineAt, OfOneEpoch, Extends, Sourced, Joins, LineMarks, Pieces, Full;
    if j > 0 {
      var s, m := r.states[j - 1], r.moves[j - 1];
      if line in s.framed.lines {
        LinesNeverMixEpochs(r, content, j - 1, line);
      } else {
        var q := LineOfMove(s, m, line);
        RunIsSourced(r, content, j - 1);
        LineJoinsIffTorn(r, content, j - 1, q);
        UnjoinedLineIsOfOneEpoch(s, m.n, q);
      }
      HistoryExtends(s, m);
      SlicesSurvive(s.history, r.states[j].history, line);
    }
  }

  // ----- A run that mixes -----

  lemma NotSlice(line: Bytes, text: Bytes)
    requires line != [] && (line[|line| - 1] !in text || line[0] !in text)
    ensures !IsSlice(line, text)
  {
    forall a: nat, b: nat | a <= b <= |text| ensures line != text[a..b] {
      assert a < b ==> text[a..b][0] in text && text[a..b][b - a - 1] in text;
    }
  }

  lemma MixedRound()
    ensures Round(Framed([], [97]), [99, NL]) == Framed([[97, 99]], [])
    ensures Round(START, [97]) == Framed([], [97])
  {
    var one: Bytes, p: Bytes := [97], [97, 99];
    NoNewline(one);
    NoNewline([]);
    CutFirst(p, []);
    assert p + [NL] + [] == one + [99, NL];
    assert TrimCR(p) == p;
    assert Pieces(one + [99, NL]) == [p];
    assert Report([p]) == [p] by {
      ReportOne(p, []);
      assert [p] + [] == [p];
    }
  }

  const OLD: Bytes := [97]
  const NEW: Bytes := [98, 99, NL]

  /** The tailer after it has read the whole of an unterminated line, and after
      the file was then reset. */
  lemma BeforeLateRead()
    ensures var s := Moved(Opened(OLD), Read(1));
      s.history == [OLD] && s.epoch == 0 && s.pos == 1 && s.framed == Framed([], [97])
  {
    hide Round, Lines, Rest;
    MixedRound();
    assert Chunk(Opened(OLD), 1) == [97];
  }

  lemma LateRead(s: Tail)
    requires s.history == [OLD, NEW] && s.epoch == 0 && s.pos == 1 && s.framed == Framed([], [97])
    ensures Moved(s, CheckSize) == s && Possible(s, Read(2)) && Tears(s, Read(2))
    ensures Moved(s, Read(2)).framed.lines == [[97, 99]]
  {
    hide Round, Lines, Rest;
    MixedRound();
    assert Chunk(s, 2) == [99, NL];
  }

  /** The file is reset and back above the read offset before its size is looked
      at again, with an unterminated line in the buffer. */
  lemma LateResetMixesEpochs()
    ensures var s := Moved(Moved(Opened(OLD), Read(1)), Reset(NEW));
      && Moved(s, CheckSize) == s && Possible(s, Read(2)) && Tears(s, Read(2))
      && Moved(s, Read(2)).framed.lines == [[97, 99]] && !OfOneEpoch(s.history, [97, 99])
  {
    hide Round, Lines, Rest, FullMarks, LastN, IsSlice;
    BeforeLateRead();
    LateRead(Moved(Moved(Opened(OLD), Read(1)), Reset(NEW)));
    NotSlice([97, 99], OLD);
    NotSlice([97, 99], NEW);
  }

  // ----- What was read is framed stretch by stretch -----

  function FlatLines(texts: seq<Bytes>): seq<Bytes> {
    if texts == [] then [] else FlatLines(texts[..|texts| - 1]) + Lines(texts[|texts| - 1])
  }

  predicate Roomy(s: Tail, m: Move) {
    m.Read? ==> |s.framed.buf| + m.n <= MAX_BUFFER
  }

  ghost predicate Framing(s: Tail) {
    s.framed == Frame(FlatLines(s.past), s.read)
  }

  lemma RewoundFrames(s: Tail)
    requires Framing(s) && s.history != []
    ensures Framing(Rewound(s))
  {
    hide Lines, Rest;
    assert (s.past + [s.read])[..|s.past|] == s.past;
    StartIsAFrame();
    assert Rewound(s).framed.lines + [] == Rewound(s).framed.lines;
    assert Lines([]) == [] && Rest([]) == [];
  }

  lemma MoveFrames(s: Tail, m: Move)
    requires Framing(s) && Possible(s, m) && Roomy(s, m)
    ensures Framing(Moved(s, m))
  {
    hide FlatLines, Rewound, Lines, Rest, Round, FullMarks, LastN;
    if m.Read? && m.n > 0 {
      RoundExtends(FlatLines(s.past), s.read, Chunk(s, m.n));
    } else if m == CheckSize {
      RewoundFrames(s);
    }
  }

  /** With room in the buffer, what is reported is the lines of what was read
      between one seek to the start and the next, each stretch split on its own. */
  lemma {:induction false} StretchesAreFramedOneByOne(r: Run, content: Bytes, j: nat)
    requires IsRun(r, content) && j <= |r.moves|
    requires forall k {:trigger r.moves[k]} :: 0 <= k < j ==> Roomy(r.states[k], r.moves[k])
    ensures r.states[j].framed == Frame(FlatLines(r.states[j].past), r.states[j].read)
  {
    hide Moved, Roomy, Frame;
    if j == 0 {
      StartIsAFrame();
    } else {
      StretchesAreFramedOneByOne(r, content, j - 1);
      MoveFrames(r.states[j - 1], r.moves[j - 1]);
    }
  }

  /** Short lines in what was read of the file leave room for every read. */
  ghost predicate ReadShortLines(s: Tail) {
    HasShortLines(s.read) && forall p :: p in s.past ==> HasShortLines(p)
  }

  lemma ShortLinesBefore(s: Tail, m: Move)
    requires Possible(s, m) && ReadShortLines(Moved(s, m))
    ensures ReadShortLines(s)
  {
    hide HasShortLines, Round, FullMarks, LastN, Rest;
    var s' := Moved(s, m);
    if m.Read? && m.n > 0 {
      ShortLinesOfStart(s.read, Chunk(s, m.n));
    } else {
      assert s'.past != s.past ==> s'.past[|s.past|] == s.read;
      forall p | p in s.past ensures p in s'.past {
        var k :| 0 <= k < |s.past| && s.past[k] == p;
        assert s'.past[k] == p;
      }
    }
  }

  lemma ShortRestLeavesRoom(s: Tail, m: Move)
    requires Possible(s, m) && Framing(s) && ReadShortLines(s)
    ensures Roomy(s, m)
  {
    hide Rest, Lines, Pieces, FlatLines;
  }

  /** Whatever was reset or rewound, no read of at most 4096 bytes overflows on
      lines of at most 61440. */
  lemma {:induction false} ShortLinesLeaveRoomInRuns(r: Run, content: Bytes, j: nat, k: nat)
    requires IsRun(r, content) && k < j <= |r.moves| && ReadShortLines(r.states[j])
    ensures Roomy(r.states[k], r.moves[k])
  {
    hide Moved, Roomy, ReadShortLines, Possible, Frame, FlatLines;
    ShortLinesBefore(r.states[j - 1], r.moves[j - 1]);
    if k < j - 1 {
      ShortLinesLeaveRoomInRuns(r, content, j - 1, k);
    } else {
      forall i {:trigger r.moves[i]} | 0 <= i < k ensures Roomy(r.states[i], r.moves[i]) {
        ShortLinesLeaveRoomInRuns(r, content, k, i);
      }
      StretchesAreFramedOneByOne(r, content, k);
      ShortRestLeavesRoom(r.states[k], r.moves[k]);
    }
  }

  /** No bytes of a new epoch are read at an offset of an old one. */
  predicate InTime(s: Tail, m: Move) {
    m.Read? && m.n > 0 && s.pos > 0 ==> s.epoch + 1 == |s.history|
  }

  /** A file that is never reset is always read in time. */
  lemma {:induction false} WithoutResetsInTime(r: Run, content: Bytes, j: nat)
    requires IsRun(r, content) && j < |r.moves| && forall k {:trigger r.moves[k]} :: 0 <= k < j ==> !r.moves[k].Reset?
    ensures InTime(r.states[j], r.moves[j])
  {
    hide Moved;
    OneEpoch(r, content, j);
  }

  lemma {:induction false} OneEpoch(r: Run, content: Bytes, j: nat)
    requires IsRun(r, content) && j < |r.states| && forall k {:trigger r.moves[k]} :: 0 <= k < j ==> !r.moves[k].Reset?
    ensures |r.states[j].history| == 1 && r.states[j].epoch == 0
  {
    if j > 0 {
      hide Round, FullMarks, Rest, LastN;
      OneEpoch(r, content, j - 1);
      assert !r.moves[j - 1].Reset? && r.states[j] == Moved(r.states[j - 1], r.moves[j - 1]);
    }
  }

  ghost predicate InEpochs(s: Tail) {
    && s.epoch < |s.history| && s.pos <= |s.history[s.epoch]| && s.read == s.history[s.epoch][..s.pos]
    && forall p :: p in s.past ==> StartsAnEpoch(s.history, p)
  }

  ghost predicate StartsAnEpoch(history: seq<Bytes>, p: Bytes) {
    exists e :: 0 <= e < |history| && p <= history[e]
  }

  lemma StartSurvives(h: seq<Bytes>, h': seq<Bytes>, p: Bytes)
    requires Extends(h, h') && StartsAnEpoch(h, p)
    ensures StartsAnEpoch(h', p)
  {
    var e :| 0 <= e < |h| && p <= h[e];
    assert h[e] <= h'[e] && p <= h'[e];
  }

  lemma AdvancedInEpochs(s: Tail, n: nat)
    requires InEpochs(s) && n > 0 && Possible(s, Read(n)) && InTime(s, Read(n))
    ensures InEpochs(Advanced(s, n))
  {
    hide Round, FullMarks, LastN, Rest, StartsAnEpoch;
    assert Current(s)[..s.pos] + Chunk(s, n) == Current(s)[..s.pos + n];
    assert s.pos == 0 ==> s.read == Current(s)[..s.pos];
  }

  lemma MoveInEpochs(s: Tail, m: Move)
    requires InEpochs(s) && Possible(s, m) && InTime(s, m)
    ensures InEpochs(Moved(s, m))
  {
    hide Advanced, StartsAnEpoch;
    if m.Read? && m.n > 0 {
      AdvancedInEpochs(s, m.n);
    } else {
      var s' := Moved(s, m);
      HistoryExtends(s, m);
      forall p | p in s'.past ensures StartsAnEpoch(s'.history, p) {
        if p in s.past {
          StartSurvives(s.history, s'.history, p);
        } else {
          ReadStartsAnEpoch(s);
        }
      }
      assert m.Grow? ==> s'.history[s.epoch][..s.pos] == s.history[s.epoch][..s.pos];
    }
  }

  lemma ReadStartsAnEpoch(s: Tail)
    requires InEpochs(s)
    ensures StartsAnEpoch(s.history, s.read)
  {
    assert s.read <= s.history[s.epoch];
  }

  /** When every read is in time, the stretches are what each epoch started with. */
  lemma {:induction false} StretchesAreEpochs(r: Run, content: Bytes, j: nat)
    requires IsRun(r, content) && j <= |r.moves|
    requires forall k {:trigger r.moves[k]} :: 0 <= k < j ==> InTime(r.states[k], r.moves[k])
    ensures var s := r.states[j];
      && s.epoch < |s.history| && s.read <= s.history[s.epoch] && |s.read| == s.pos
      && forall p :: p in s.past ==> StartsAnEpoch(s.history, p)
  {
    RunInEpochs(r, content, j);
  }

  lemma {:induction false} RunInEpochs(r: Run, content: Bytes, j: nat)
    requires IsRun(r, content) && j <= |r.moves|
    requires forall k {:trigger r.moves[k]} :: 0 <= k < j ==> InTime(r.states[k], r.moves[k])
    ensures InEpochs(r.states[j])
  {
    hide Moved, InTime;
    if j == 0 {
      assert content[..0] == [];
    } else {
      RunInEpochs(r, content, j - 1);
      MoveInEpochs(r.states[j - 1], r.moves[j - 1]);
    }
  }

  /** Where no read is late, short lines in every epoch are short lines in what was read. */
  lemma ShortEpochsAreReadShort(r: Run, content: Bytes, j: nat)
    requires IsRun(r, content) && j <= |r.moves|
    requires forall k {:trigger r.moves[k]} :: 0 <= k < j ==> InTime(r.states[k], r.moves[k])
    requires forall e :: 0 <= e < |r.states[j].history| ==> HasShortLines(r.states[j].history[e])
    ensures ReadShortLines(r.states[j])
  {
    hide HasShortLines, Moved, InTime;
    StretchesAreEpochs(r, content, j);
    var s := r.states[j];
    ShortLinesOfPrefix(s.read, s.history[s.epoch]);
    forall p | p in s.past ensures HasShortLines(p) {
      var e :| 0 <= e < |s.history| && p <= s.history[e];
      ShortLinesOfPrefix(p, s.history[e]);
    }
  }
}
