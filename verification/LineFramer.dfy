/** The gamelog tailer's line framer: reads arrive in chunks, lines leave whole. */
module LineFramer {
  import opened Basics

  const NL: Byte := 10
  const CR: Byte := 13
  const MAX_READ := 4096
  const MAX_BUFFER := 65536
  const MAX_SAFE_LINE := 61440

  function TrimCR(s: Bytes): (t: Bytes)
    ensures t <= s && (t != [] ==> t[|t| - 1] != 13)
    ensures forall i :: |t| <= i < |s| ==> s[i] == 13
  {
    if s != [] && s[|s| - 1] == CR then TrimCR(s[..|s| - 1]) else s
  }

  function IndexFrom(s: Bytes, from: nat): (i: int)
    requires from <= |s|
    ensures i < 0 ==> i == -1 && forall k :: from <= k < |s| ==> s[k] != NL
    ensures i >= 0 ==> from <= i < |s| && s[i] == NL && forall k :: from <= k < i ==> s[k] != NL
    decreases |s| - from
  {
    if from == |s| then -1 else if s[from] == NL then from else IndexFrom(s, from + 1)
  }

  /** The index of the first newline, or -1. */
  function IndexNL(s: Bytes): (i: int)
    ensures -1 <= i < |s|
    ensures i >= 0 ==> s[i] == NL && NL !in s[..i]
    ensures i < 0 ==> NL !in s
  {
    IndexFrom(s, 0)
  }

  /** The newline-terminated pieces of a text, without their newlines. */
  function Pieces(s: Bytes): seq<Bytes>
    decreases |s|
  {
    var i := IndexNL(s);
    if i < 0 then [] else [s[..i]] + Pieces(s[i + 1..])
  }

  /** What follows the last newline. */
  function Rest(s: Bytes): (t: Bytes)
    ensures |t| <= |s|
    decreases |s|
  {
    var i := IndexNL(s);
    if i < 0 then s else Rest(s[i + 1..])
  }

  /** The lines a list of pieces is reported as: trailing CRs trimmed, blank ones skipped. */
  function Report(pieces: seq<Bytes>): seq<Bytes> {
    if pieces == [] then []
    else (if TrimCR(pieces[0]) == [] then [] else [TrimCR(pieces[0])]) + Report(pieces[1..])
  }

  function Lines(s: Bytes): seq<Bytes> {
    Report(Pieces(s))
  }

  // ----- Pieces and Rest are the one way to cut a text at its newlines -----

  function Unsplit(pieces: seq<Bytes>): Bytes {
    if pieces == [] then [] else pieces[0] + [NL] + Unsplit(pieces[1..])
  }

  lemma {:induction false} UnsplitCons(p: Bytes, pieces: seq<Bytes>)
    ensures Unsplit([p] + pieces) == p + [NL] + Unsplit(pieces)
  {
    assert ([p] + pieces)[1..] == pieces;
  }

  lemma Rejoin(s: Bytes, i: nat, u: Bytes, r: Bytes)
    requires i < |s| && s[i] == NL && u + r == s[i + 1..]
    ensures s[..i] + [NL] + u + r == s
  {
    assert s[..i] + [NL] + u + r == s[..i] + [NL] + (u + r);
  }

  lemma SplitOff(s: Bytes, i: nat, pieces: seq<Bytes>, rest: Bytes)
    requires i < |s| && s[i] == NL && Unsplit(pieces) + rest == s[i + 1..]
    ensures Unsplit([s[..i]] + pieces) + rest == s
  {
    UnsplitCons(s[..i], pieces);
    Rejoin(s, i, Unsplit(pieces), rest);
  }

  // Pieces and Rest, unfolded once.

  lemma FirstPiece(s: Bytes)
    requires IndexNL(s) >= 0
    ensures Pieces(s) == [s[..IndexNL(s)]] + Pieces(s[IndexNL(s) + 1..])
  {
    hide IndexNL;
  }

  lemma FirstRest(s: Bytes)
    requires IndexNL(s) >= 0
    ensures Rest(s) == Rest(s[IndexNL(s) + 1..])
  {
    hide IndexNL;
  }

  lemma NoPiece(s: Bytes)
    requires IndexNL(s) < 0
    ensures Pieces(s) == [] && Rest(s) == s
  {
    hide IndexNL;
  }

  lemma {:induction false} RestHasNoNewline(s: Bytes)
    ensures NL !in Rest(s)
    decreases |s|
  {
    hide Rest, IndexNL;
    if IndexNL(s) < 0 {
      NoPiece(s);
    } else {
      FirstRest(s);
      RestHasNoNewline(s[IndexNL(s) + 1..]);
    }
  }

  lemma {:induction false} SplitIsExact(s: Bytes)
    ensures Unsplit(Pieces(s)) + Rest(s) == s
    ensures forall k :: 0 <= k < |Pieces(s)| ==> 10 !in Pieces(s)[k]
    decreases |s|
  {
    hide Pieces, Rest, IndexNL;
    var i := IndexNL(s);
    if i < 0 {
      NoPiece(s);
    } else {
      var t := s[i + 1..];
      SplitIsExact(t);
      FirstPiece(s);
      FirstRest(s);
      SplitOff(s, i, Pieces(t), Rest(t));
    }
  }

  lemma FirstNewline(p: Bytes, t: Bytes)
    requires NL !in p
    ensures IndexNL(p + [NL] + t) == |p|
  {
    hide IndexNL;
    var s := p + [NL] + t;
    var i := IndexNL(s);
    assert s[|p|] == NL;
    assert NL in s;
    assert forall k :: 0 <= k < |p| ==> s[k] == p[k];
  }

  lemma NoNewline(s: Bytes)
    requires NL !in s
    ensures Pieces(s) == [] && Rest(s) == s
  {
    hide Pieces, Rest, IndexNL;
    assert IndexNL(s) < 0;
    NoPiece(s);
  }

  /** A text that starts with a given piece and its newline. */
  lemma CutFirst(p: Bytes, t: Bytes)
    requires NL !in p
    ensures Pieces(p + [NL] + t) == [p] + Pieces(t) && Rest(p + [NL] + t) == Rest(t)
  {
    hide Pieces, Rest, IndexNL;
    var s := p + [NL] + t;
    FirstNewline(p, t);
    FirstPiece(s);
    FirstRest(s);
    assert s[..|p|] == p && s[|p| + 1..] == t;
  }

  lemma {:induction false} SplitIsUnique(s: Bytes, pieces: seq<Bytes>, rest: Bytes)
    requires Unsplit(pieces) + rest == s && NL !in rest && forall p :: p in pieces ==> NL !in p
    ensures pieces == Pieces(s) && rest == Rest(s)
    decreases |pieces|
  {
    hide Pieces, Rest;
    if pieces == [] {
      assert s == rest;
      NoNewline(s);
    } else {
      var p, t := pieces[0], Unsplit(pieces[1..]) + rest;
      assert s == p + [NL] + t;
      CutFirst(p, t);
      SplitIsUnique(t, pieces[1..], rest);
    }
  }

  // ----- One round of the tailer -----

  /** The buffer with a chunk added, dropped whole if it grew too large. */
  function Fill(buf: Bytes, chunk: Bytes): Bytes {
    if |buf + chunk| > MAX_BUFFER then [] else buf + chunk
  }

  datatype Framed = Framed(lines: seq<Bytes>, buf: Bytes)

  function Round(f: Framed, chunk: Bytes): Framed {
    Framed(f.lines + Lines(Fill(f.buf, chunk)), Rest(Fill(f.buf, chunk)))
  }

  function Feed(f: Framed, chunks: seq<Bytes>): Framed {
    if chunks == [] then f else Round(Feed(f, chunks[..|chunks| - 1]), chunks[|chunks| - 1])
  }

  const START := Framed([], [])

  function Concat(chunks: seq<Bytes>): Bytes {
    if chunks == [] then [] else Concat(chunks[..|chunks| - 1]) + chunks[|chunks| - 1]
  }

  lemma {:induction false} SplitAppends(a: Bytes, b: Bytes)
    ensures Pieces(a + b) == Pieces(a) + Pieces(Rest(a) + b)
    ensures Rest(a + b) == Rest(Rest(a) + b)
    decreases |a|
  {
    hide Pieces, Rest, IndexNL;
    var i := IndexNL(a);
    if i < 0 {
      NoPiece(a);
    } else {
      var first, more := a[..i], a[i + 1..];
      FirstPiece(a);
      FirstRest(a);
      assert a + b == first + [NL] + (more + b);
      CutFirst(first, more + b);
      SplitAppends(more, b);
    }
  }

  lemma ReportOne(p: Bytes, rest: seq<Bytes>)
    ensures Report([p] + rest) == (if TrimCR(p) == [] then [] else [TrimCR(p)]) + Report(rest)
  {
    assert ([p] + rest)[1..] == rest;
  }

  lemma {:induction false} ReportAppends(p: seq<Bytes>, q: seq<Bytes>)
    ensures Report(p + q) == Report(p) + Report(q)
  {
    if p == [] {
      assert p + q == q;
      assert [] + Report(q) == Report(q);
    } else {
      hide Report, TrimCR;
      var first, rest := p[0], p[1..];
      ReportAppends(rest, q);
      assert p + q == [first] + (rest + q) && p == [first] + rest;
      ReportOne(first, rest + q);
      ReportOne(first, rest);
      Associative(if TrimCR(first) == [] then [] else [TrimCR(first)], Report(rest), Report(q));
    }
  }

  lemma LinesAppend(a: Bytes, b: Bytes)
    ensures Lines(a + b) == Lines(a) + Lines(Rest(a) + b)
  {
    hide Pieces, Rest, Report;
    SplitAppends(a, b);
    ReportAppends(Pieces(a), Pieces(Rest(a) + b));
  }

  /** What framing `seen` after the lines `before` gives. */
  function Frame(before: seq<Bytes>, seen: Bytes): Framed {
    Framed(before + Lines(seen), Rest(seen))
  }

  lemma RoundWithRoom(f: Framed, chunk: Bytes)
    requires |f.buf| + |chunk| <= MAX_BUFFER
    ensures Round(f, chunk) == Framed(f.lines + Lines(f.buf + chunk), Rest(f.buf + chunk))
  {
    hide Lines, Rest;
  }

  /** A round with room in the buffer goes on with the text. */
  lemma RoundExtends(before: seq<Bytes>, seen: Bytes, chunk: Bytes)
    requires |Rest(seen)| + |chunk| <= MAX_BUFFER
    ensures Round(Frame(before, seen), chunk) == Frame(before, seen + chunk)
  {
    hide Lines, Rest, Round, Pieces;
    RoundWithRoom(Frame(before, seen), chunk);
    LinesAppend(seen, chunk);
    SplitAppends(seen, chunk);
    Associative(before, Lines(seen), Lines(Rest(seen) + chunk));
  }

  ghost predicate NeverOverflows(chunks: seq<Bytes>) {
    forall i :: 0 <= i < |chunks| ==> |Rest(Concat(chunks[..i]))| + |chunks[i]| <= MAX_BUFFER
  }

  lemma StartIsAFrame()
    ensures START == Frame([], [])
  {
    NoNewline([]);
  }

  /** Framing chunk by chunk gives what splitting the whole text gives. */
  lemma {:induction false} FramingIgnoresChunks(chunks: seq<Bytes>)
    requires NeverOverflows(chunks)
    ensures Feed(START, chunks) == Frame([], Concat(chunks))
  {
    hide Round, Frame, Rest;
    if chunks == [] {
      StartIsAFrame();
    } else {
      var n := |chunks| - 1;
      var before := chunks[..n];
      forall i | 0 <= i < n ensures |Rest(Concat(before[..i]))| + |before[i]| <= MAX_BUFFER {
        assert before[..i] == chunks[..i];
      }
      FramingIgnoresChunks(before);
      RoundExtends([], Concat(before), chunks[n]);
    }
  }

  /** The unterminated tail of a beginning of a text starts some piece of the
      text, or its unterminated tail. */
  lemma RestStartsAPiece(a: Bytes, b: Bytes) returns (p: Bytes)
    ensures Rest(a) <= p && (p == Rest(a + b) || p in Pieces(a + b))
  {
    hide Pieces, Rest, IndexNL;
    var r := Rest(a);
    var s := r + b;
    RestHasNoNewline(a);
    SplitAppends(a, b);
    var i := IndexNL(s);
    if i < 0 {
      NoPiece(s);
      p := s;
    } else {
      p := s[..i];
      FirstPiece(s);
      assert Pieces(s)[0] == p && p in Pieces(s);
      assert forall k :: 0 <= k < |r| ==> s[k] == r[k] && r[k] in r;
    }
  }

  lemma {:induction false} ConcatPrefix(chunks: seq<Bytes>, i: nat)
    requires i <= |chunks|
    ensures Concat(chunks[..i]) <= Concat(chunks)
  {
    if i < |chunks| {
      var before := chunks[..|chunks| - 1];
      assert before[..i] == chunks[..i];
      ConcatPrefix(before, i);
    } else {
      assert chunks[..i] == chunks;
    }
  }

  /** No line of the text, terminated or not, is longer than 61440 bytes. */
  ghost predicate HasShortLines(text: Bytes) {
    |Rest(text)| <= 61440 && forall p :: p in Pieces(text) ==> |p| <= 61440
  }

  lemma ShortLinesLeaveRoom(a: Bytes, b: Bytes)
    requires HasShortLines(a + b)
    ensures |Rest(a)| <= MAX_SAFE_LINE
  {
    hide Pieces, Rest;
    var p := RestStartsAPiece(a, b);
  }

  /** The beginning of a text with short lines has short lines. */
  lemma ShortLinesOfStart(a: Bytes, b: Bytes)
    requires HasShortLines(a + b)
    ensures HasShortLines(a)
  {
    hide Pieces, Rest;
    ShortLinesLeaveRoom(a, b);
    SplitAppends(a, b);
    assert forall p :: p in Pieces(a) ==> p in Pieces(a + b);
  }

  lemma ShortLinesOfPrefix(a: Bytes, all: Bytes)
    requires a <= all && HasShortLines(all)
    ensures HasShortLines(a)
  {
    hide HasShortLines;
    assert all == a + all[|a|..];
    ShortLinesOfStart(a, all[|a|..]);
  }

  /** Reads of at most 4096 bytes never overflow on lines of at most 61440. */
  lemma ShortLinesNeverOverflow(chunks: seq<Bytes>)
    requires forall c :: c in chunks ==> |c| <= 4096
    requires HasShortLines(Concat(chunks))
    ensures NeverOverflows(chunks)
  {
    hide Pieces, Rest, Concat, HasShortLines;
    forall i | 0 <= i < |chunks| ensures |Rest(Concat(chunks[..i]))| + |chunks[i]| <= MAX_BUFFER {
      var all, a := Concat(chunks), Concat(chunks[..i]);
      ConcatPrefix(chunks, i);
      assert all == a + all[|a|..];
      ShortLinesLeaveRoom(a, all[|a|..]);
      assert chunks[i] in chunks;
    }
  }

  /** Every complete nonblank line leaves once, in order, whatever the reads
      were, and the unterminated tail stays in the buffer. */
  lemma ShortLinesAreFramedExactly(chunks: seq<Bytes>)
    requires forall c :: c in chunks ==> |c| <= 4096
    requires HasShortLines(Concat(chunks))
    ensures Feed(START, chunks) == Framed(Lines(Concat(chunks)), Rest(Concat(chunks)))
  {
    hide Lines, Rest, Feed, Concat, HasShortLines;
    ShortLinesNeverOverflow(chunks);
    FramingIgnoresChunks(chunks);
    assert [] + Lines(Concat(chunks)) == Lines(Concat(chunks));
  }

  lemma {:induction false} BufferIsBounded(chunks: seq<Bytes>)
    ensures |Feed(START, chunks).buf| <= 65536
  {
  }

  lemma {:induction false} ReportedLine(pieces: seq<Bytes>, line: Bytes) returns (q: nat)
    requires line in Report(pieces)
    ensures q < |pieces| && line == TrimCR(pieces[q])
  {
    hide TrimCR;
    if line in Report(pieces[1..]) {
      q := ReportedLine(pieces[1..], line);
      q := q + 1;
    } else {
      q := 0;
    }
  }

  /** Where in a text one of its pieces starts. */
  function StartOf(s: Bytes, q: nat): (a: nat)
    requires q < |Pieces(s)|
    decreases q
  {
    if q == 0 || IndexNL(s) < 0 then 0
    else
      FirstPiece(s);
      IndexNL(s) + 1 + StartOf(s[IndexNL(s) + 1..], q - 1)
  }

  lemma {:induction false} PieceIsSlice(s: Bytes, q: nat)
    requires q < |Pieces(s)|
    ensures var a, p := StartOf(s, q), Pieces(s)[q];
      && a + |p| < |s| && p == s[a..a + |p|]
      && (q == 0 ==> a == 0 && |p| == IndexNL(s)) && (q > 0 ==> 0 <= IndexNL(s) < a)
    decreases q
  {
    hide Pieces, IndexNL;
    if IndexNL(s) < 0 {
      NoPiece(s);
    } else {
      FirstPiece(s);
      if q > 0 {
        var at := IndexNL(s) + 1;
        PieceIsSlice(s[at..], q - 1);
        SliceOfRest(s, at, StartOf(s[at..], q - 1), |Pieces(s)[q]|);
      }
    }
  }

  lemma SliceOfRest(s: Bytes, at: nat, a: nat, n: nat)
    requires at + a + n <= |s|
    ensures s[at..][a..a + n] == s[at + a..at + a + n]
  {
  }

  /** A reported line is a contiguous part of the text it was cut from. */
  lemma LinesAreSlices(s: Bytes, line: Bytes)
    requires line in Lines(s)
    ensures exists a: nat, b: nat :: a <= b <= |s| && line == s[a..b]
  {
    hide Pieces, Report, TrimCR, StartOf;
    var q := ReportedLine(Pieces(s), line);
    PieceIsSlice(s, q);
    var a := StartOf(s, q);
    var b := a + |line|;
    assert a <= b <= |s| && line == s[a..b];
  }
}
