/** The session cookie: uid, time of issue and signature, in unpadded base64url
    (section 5 of RFC 4648). */
module Cookie {
  import opened Basics

  // ----- base64url -----

  type Sextet = v: int | 0 <= v < 64

  function Digit(v: Sextet): Byte {
    if v < 26 then 65 + v
    else if v < 52 then 97 + (v - 26)
    else if v < 62 then 48 + (v - 52)
    else if v == 62 then 45
    else 95
  }

  function SextetOf(c: Byte): Option<Sextet> {
    if 65 <= c <= 90 then Some(c - 65)
    else if 97 <= c <= 122 then Some(c - 97 + 26)
    else if 48 <= c <= 57 then Some(c - 48 + 52)
    else if c == 45 then Some(62)
    else if c == 95 then Some(63)
    else None
  }

  /** Three bytes make four digits; one or two left over make two or three. */
  function Ungroup(b: Bytes): seq<Sextet> {
    if b == [] then []
    else if |b| == 1 then [b[0] / 4, b[0] % 4 * 16]
    else if |b| == 2 then [b[0] / 4, b[0] % 4 * 16 + b[1] / 16, b[1] % 16 * 4]
    else [b[0] / 4, b[0] % 4 * 16 + b[1] / 16, b[1] % 16 * 4 + b[2] / 64, b[2] % 64] + Ungroup(b[3..])
  }

  function Digits(vs: seq<Sextet>): Bytes {
    if vs == [] then [] else [Digit(vs[0])] + Digits(vs[1..])
  }

  function Encode(b: Bytes): Bytes {
    Digits(Ungroup(b))
  }

  /** Go's decoder passes over line breaks wherever they are. */
  function WithoutBreaks(s: Bytes): Bytes {
    if s == [] then [] else (if s[0] == 10 || s[0] == 13 then [] else [s[0]]) + WithoutBreaks(s[1..])
  }

  function Sextets(s: Bytes): Option<seq<Sextet>> {
    if s == [] then Some([])
    else
      match (SextetOf(s[0]), Sextets(s[1..]))
      case (Some(v), Some(rest)) => Some([v] + rest)
      case _ => None
  }

  // The three bytes of a group of four digits.

  function First(v: int, w: int): int {
    v * 4 + w / 16
  }

  function Second(v: int, w: int): int {
    v % 16 * 16 + w / 4
  }

  function Third(v: int, w: int): int {
    v % 4 * 64 + w
  }

  /** A last group of two or three digits stands for one or two bytes; bits left over are not checked. */
  function Group(vs: seq<Sextet>): Option<Bytes> {
    if vs == [] then Some([])
    else if |vs| == 1 then None
    else
      var b0: Byte := First(vs[0], vs[1]);
      if |vs| == 2 then Some([b0])
      else
        var b1: Byte := Second(vs[1], vs[2]);
        if |vs| == 3 then Some([b0, b1])
        else
          match Group(vs[4..])
          case None => None
          case Some(rest) => var b2: Byte := Third(vs[2], vs[3]); Some([b0, b1, b2] + rest)
  }

  function Decode(s: Bytes): Option<Bytes> {
    match Sextets(WithoutBreaks(s))
    case None => None
    case Some(vs) => Group(vs)
  }

  lemma BytesReadBack(a: Byte, b: Byte, c: Byte)
    ensures First(a / 4, a % 4 * 16 + b / 16) == a
    ensures Second(a % 4 * 16 + b / 16, b % 16 * 4 + c / 64) == b
    ensures Third(b % 16 * 4 + c / 64, c % 64) == c
  {
  }

  lemma GroupOfFour(vs: seq<Sextet>, rest: seq<Sextet>)
    requires |vs| == 4
    ensures Group(vs + rest) == match Group(rest)
      case None => None
      case Some(bytes) => Some([First(vs[0], vs[1]), Second(vs[1], vs[2]), Third(vs[2], vs[3])] + bytes)
  {
    assert (vs + rest)[4..] == rest;
  }

  lemma GroupOfTwo(v: Sextet, w: Sextet)
    ensures 0 <= First(v, w) < 256 && Group([v, w]) == Some([First(v, w)])
  {
  }

  lemma GroupOfThree(v: Sextet, w: Sextet, x: Sextet)
    ensures 0 <= First(v, w) < 256 && 0 <= Second(w, x) < 256 && Group([v, w, x]) == Some([First(v, w), Second(w, x)])
  {
  }

  lemma OneLeft(a: Byte)
    ensures Group([a / 4, a % 4 * 16]) == Some([a])
  {
    hide Group, First;
    GroupOfTwo(a / 4, a % 4 * 16);
    BytesReadBack(a, 0, 0);
  }

  lemma TwoLeft(a: Byte, b: Byte)
    ensures Group([a / 4, a % 4 * 16 + b / 16, b % 16 * 4]) == Some([a, b])
  {
    hide Group, First, Second;
    GroupOfThree(a / 4, a % 4 * 16 + b / 16, b % 16 * 4);
    BytesReadBack(a, b, 0);
  }

  /** The four digits of three bytes. */
  function Four(a: Byte, b: Byte, c: Byte): (vs: seq<Sextet>)
    ensures |vs| == 4
  {
    [a / 4, a % 4 * 16 + b / 16, b % 16 * 4 + c / 64, c % 64]
  }

  lemma FourReadBack(a: Byte, b: Byte, c: Byte, rest: seq<Sextet>)
    requires Group(rest).Some?
    ensures Group(Four(a, b, c) + rest) == Some([a, b, c] + Group(rest).value)
  {
    GroupOfFour(Four(a, b, c), rest);
    BytesReadBack(a, b, c);
  }

  lemma UngroupFour(b: Bytes)
    requires |b| >= 3
    ensures Ungroup(b) == Four(b[0], b[1], b[2]) + Ungroup(b[3..])
  {
  }

  lemma {:induction false} GroupUndoesUngroup(b: Bytes)
    ensures Group(Ungroup(b)) == Some(b)
  {
    hide Group, Four;
    if |b| == 0 {
      assert Group([]) == Some([]) by { NoGroup(); }
    } else if |b| == 1 {
      OneLeft(b[0]);
      assert b == [b[0]];
    } else if |b| == 2 {
      TwoLeft(b[0], b[1]);
      assert b == [b[0], b[1]];
    } else {
      hide Ungroup;
      GroupUndoesUngroup(b[3..]);
      UngroupFour(b);
      FourReadBack(b[0], b[1], b[2], Ungroup(b[3..]));
      assert b == [b[0], b[1], b[2]] + b[3..];
    }
  }

  lemma NoGroup()
    ensures Group([]) == Some([])
  {
  }

  lemma DigitReadsBack(v: Sextet)
    ensures SextetOf(Digit(v)) == Some(v) && Digit(v) != 10 && Digit(v) != 13
  {
  }

  lemma {:induction false} DigitsReadBack(vs: seq<Sextet>)
    ensures WithoutBreaks(Digits(vs)) == Digits(vs) && Sextets(Digits(vs)) == Some(vs)
  {
    if vs != [] {
      DigitReadsBack(vs[0]);
      DigitsReadBack(vs[1..]);
      assert vs == [vs[0]] + vs[1..];
    }
  }

  lemma Base64ReadsBack(b: Bytes)
    ensures Decode(Encode(b)) == Some(b)
  {
    DigitsReadBack(Ungroup(b));
    GroupUndoesUngroup(b);
  }

  // ----- What the decoder takes -----

  /** The alphabet of base64url. */
  lemma DigitsAreTheAlphabet(v: Sextet)
    ensures v < 26 ==> Digit(v) == 'A' as int + v
    ensures 26 <= v < 52 ==> Digit(v) == 'a' as int + (v - 26)
    ensures 52 <= v < 62 ==> Digit(v) == '0' as int + (v - 52)
    ensures Digit(62) == '-' as int && Digit(63) == '_' as int
  {
  }

  /** A digit sequence without the bits left over in its last digit. */
  function Cleared(vs: seq<Sextet>): seq<Sextet> {
    if |vs| % 4 == 2 then vs[..|vs| - 1] + [vs[|vs| - 1] / 16 * 16]
    else if |vs| % 4 == 3 then vs[..|vs| - 1] + [vs[|vs| - 1] / 4 * 4]
    else vs
  }

  lemma TwoDigits(v: Sextet, w: Sextet, b: Byte)
    ensures First(v, w) == b <==> v == b / 4 && w / 16 * 16 == b % 4 * 16
  {
  }

  lemma ThreeDigits(v: Sextet, w: Sextet, x: Sextet, a: Byte, b: Byte)
    ensures First(v, w) == a && Second(w, x) == b <==>
      v == a / 4 && w == a % 4 * 16 + b / 16 && x / 4 * 4 == b % 16 * 4
  {
  }

  lemma FirstTwoDigits(v: Sextet, w: Sextet, x: Sextet)
    ensures 0 <= First(v, w) < 256 && First(v, w) / 4 == v
    ensures First(v, w) % 4 * 16 + Second(w, x) / 16 == w
  {
  }

  lemma ThirdDigit(w: Sextet, x: Sextet, y: Sextet)
    ensures 0 <= Second(w, x) < 256 && Second(w, x) % 16 == x / 4
  {
    var hi, lo := w % 16, x / 4;
    assert Second(w, x) == 16 * hi + lo && 0 <= lo < 16;
    HiLo(hi, lo, 16);
  }

  lemma FourthDigit(x: Sextet, y: Sextet)
    ensures 0 <= Third(x, y) < 256 && Third(x, y) / 64 == x % 4 && Third(x, y) % 64 == y
  {
    HiLo(x % 4, y, 64);
  }

  lemma HiLo(hi: int, lo: int, base: int)
    requires 0 <= lo < base && (base == 16 || base == 64)
    ensures (hi * base + lo) / base == hi && (hi * base + lo) % base == lo
  {
  }

  lemma LastTwoDigits(w: Sextet, x: Sextet, y: Sextet)
    ensures 0 <= Second(w, x) < 256 && 0 <= Third(x, y) < 256
    ensures Second(w, x) % 16 * 4 + Third(x, y) / 64 == x
    ensures Third(x, y) % 64 == y
  {
    hide Second, Third;
    ThirdDigit(w, x, y);
    FourthDigit(x, y);
    assert x / 4 * 4 + x % 4 == x;
  }

  lemma FourDigits(v: Sextet, w: Sextet, x: Sextet, y: Sextet)
    ensures 0 <= First(v, w) < 256 && 0 <= Second(w, x) < 256 && 0 <= Third(x, y) < 256
    ensures Four(First(v, w), Second(w, x), Third(x, y)) == [v, w, x, y]
  {
    hide First, Second, Third;
    FirstTwoDigits(v, w, x);
    LastTwoDigits(w, x, y);
  }

  lemma ClearedLater(head: seq<Sextet>, rest: seq<Sextet>)
    requires |head| == 4
    ensures Cleared(head + rest) == head + Cleared(rest)
  {
    assert |head + rest| % 4 == |rest| % 4;
    if |rest| % 4 >= 2 {
      assert (head + rest)[..|head + rest| - 1] == head + rest[..|rest| - 1];
      Associative(head, rest[..|rest| - 1], [Cleared(rest)[|rest| - 1]]);
    }
  }

  ghost predicate ReadsExactly(vs: seq<Sextet>) {
    && (Group(vs).Some? <==> |vs| % 4 != 1)
    && (Group(vs).Some? ==> Ungroup(Group(vs).value) == Cleared(vs))
  }

  lemma FewDigitsReadExactly(vs: seq<Sextet>)
    requires |vs| < 4
    ensures ReadsExactly(vs)
  {
    hide First, Second;
    if |vs| == 2 {
      GroupOfTwo(vs[0], vs[1]);
      TwoDigits(vs[0], vs[1], First(vs[0], vs[1]));
      assert vs == [vs[0], vs[1]];
    } else if |vs| == 3 {
      GroupOfThree(vs[0], vs[1], vs[2]);
      ThreeDigits(vs[0], vs[1], vs[2], First(vs[0], vs[1]), Second(vs[1], vs[2]));
      assert vs == [vs[0], vs[1], vs[2]];
    }
  }

  lemma FourMoreReadExactly(head: seq<Sextet>, rest: seq<Sextet>)
    requires |head| == 4 && ReadsExactly(rest)
    ensures ReadsExactly(head + rest)
  {
    hide Group, Ungroup, Cleared, First, Second, Third, Four;
    GroupOfFour(head, rest);
    ClearedLater(head, rest);
    FourDigits(head[0], head[1], head[2], head[3]);
    assert head == [head[0], head[1], head[2], head[3]];
    if Group(rest).Some? {
      var a, b, c := First(head[0], head[1]), Second(head[1], head[2]), Third(head[2], head[3]);
      var bytes: Bytes := [a, b, c] + Group(rest).value;
      UngroupFour(bytes);
      assert bytes[3..] == Group(rest).value;
    }
  }

  /** Digits stand for bytes if and only if their number is not one more than a
      multiple of four, and then for the bytes that are written with them, bits
      left over aside. */
  lemma {:induction false} GroupIsExact(vs: seq<Sextet>)
    ensures ReadsExactly(vs)
  {
    if |vs| < 4 {
      FewDigitsReadExactly(vs);
    } else {
      hide ReadsExactly;
      GroupIsExact(vs[4..]);
      FourMoreReadExactly(vs[..4], vs[4..]);
      assert vs == vs[..4] + vs[4..];
    }
  }

  lemma {:induction false} BreaksAppend(a: Bytes, b: Bytes)
    ensures WithoutBreaks(a + b) == WithoutBreaks(a) + WithoutBreaks(b)
  {
    if a == [] {
      assert a + b == b;
    } else {
      BreaksAppend(a[1..], b);
      assert (a + b)[1..] == a[1..] + b;
    }
  }

  /** CR and LF are passed over wherever they are, and nothing else is. */
  lemma BreaksAreIgnored(a: Bytes, c: Byte, b: Bytes)
    ensures WithoutBreaks(a + [c] + b) ==
      WithoutBreaks(a) + (if c == 10 || c == 13 then [] else [c]) + WithoutBreaks(b)
    ensures WithoutBreaks([]) == []
  {
    BreaksAppend(a + [c], b);
    BreaksAppend(a, [c]);
    assert [c][1..] == [];
  }

  lemma {:induction false} SextetsAreDigits(s: Bytes, vs: seq<Sextet>)
    ensures Sextets(s) == Some(vs) <==> s == Digits(vs)
  {
    if s != [] {
      if vs == [] {
      } else {
        SextetsAreDigits(s[1..], vs[1..]);
        SextetIsDigit(s[0], vs[0]);
        assert vs == [vs[0]] + vs[1..] && s == [s[0]] + s[1..];
      }
    } else if vs != [] {
      assert |Digits(vs)| > 0;
    }
  }

  lemma SextetIsDigit(c: Byte, v: Sextet)
    ensures SextetOf(c) == Some(v) <==> c == Digit(v)
  {
  }

  /** A text decodes to some bytes if and only if, CR and LF aside, it is digits of
      the alphabet, not one more than a multiple of four, that the bytes are
      written with, bits left over aside. */
  lemma DecodeIsExact(s: Bytes, b: Bytes)
    ensures Decode(s) == Some(b) <==>
      exists vs :: WithoutBreaks(s) == Digits(vs) && |vs| % 4 != 1 && Ungroup(b) == Cleared(vs)
  {
    hide Digits, Ungroup, Cleared, Group, WithoutBreaks, Sextets;
    forall vs ensures Sextets(WithoutBreaks(s)) == Some(vs) <==> WithoutBreaks(s) == Digits(vs) {
      SextetsAreDigits(WithoutBreaks(s), vs);
    }
    if vs :| WithoutBreaks(s) == Digits(vs) && |vs| % 4 != 1 && Ungroup(b) == Cleared(vs) {
      GroupIsExact(vs);
      GroupUndoesUngroup(b);
      GroupUndoesUngroup(Group(vs).value);
    }
    if Sextets(WithoutBreaks(s)).Some? {
      GroupIsExact(Sextets(WithoutBreaks(s)).value);
    }
  }

  // ----- The cookie -----

  const BAR: Byte := 124
  const COOKIE_TTL := 7 * 24 * 3600 * SECOND

  /** What the manager has: the keyed hash, and how times in nanoseconds are
      written and read as timestamps. */
  datatype Codec = Codec(mac: Bytes -> Bytes, format: int -> Bytes, parse: Bytes -> Option<int>)

  /** The premise on timestamps: no bars, and they read back to the second. */
  predicate WritesTime(c: Codec, t: int) {
    BAR !in c.format(t) && c.parse(c.format(t)) == Some(t / SECOND * SECOND)
  }

  function HexDigit(v: int): Byte
    requires 0 <= v < 16
  {
    if v < 10 then 48 + v else 97 + (v - 10)
  }

  function Hex(b: Bytes): (h: Bytes)
    ensures BAR !in h
  {
    if b == [] then [] else [HexDigit(b[0] / 16), HexDigit(b[0] % 16)] + Hex(b[1..])
  }

  // Reading hex back: two lower-case digits for a byte.

  function NibbleOf(c: Byte): Option<int> {
    if 48 <= c <= 57 then Some(c - 48) else if 97 <= c <= 102 then Some(c - 97 + 10) else None
  }

  function Unhex(h: Bytes): Option<Bytes> {
    if h == [] then Some([])
    else if |h| == 1 then None
    else
      match (NibbleOf(h[0]), NibbleOf(h[1]), Unhex(h[2..]))
      case (Some(hi), Some(lo), Some(rest)) =>
        var b: Byte := 16 * hi + lo;
        Some([b] + rest)
      case _ => None
  }

  lemma NibbleIsDigit(c: Byte, v: int)
    ensures NibbleOf(c) == Some(v) <==> 0 <= v < 16 && c == HexDigit(v)
  {
  }

  lemma TwoNibbles(hi: int, lo: int, b: Byte)
    requires 0 <= hi < 16 && 0 <= lo < 16
    ensures 16 * hi + lo == b <==> hi == b / 16 && lo == b % 16
  {
  }

  lemma HexOne(b: Bytes)
    requires b != []
    ensures Hex(b) == [HexDigit(b[0] / 16), HexDigit(b[0] % 16)] + Hex(b[1..])
  {
  }

  lemma UnhexTwo(h: Bytes)
    requires |h| >= 2
    ensures Unhex(h) == match (NibbleOf(h[0]), NibbleOf(h[1]), Unhex(h[2..])) {
        case (Some(hi), Some(lo), Some(rest)) => var b: Byte := 16 * hi + lo; Some([b] + rest)
        case _ => None
      }
  {
  }

  /** A text reads as some bytes if and only if it is their hex. */
  lemma {:induction false} HexReadsBack(b: Bytes, h: Bytes)
    ensures Unhex(h) == Some(b) <==> h == Hex(b)
  {
    if |h| < 2 || b == [] {
      FewHexDigits(b, h);
    } else {
      hide Unhex, Hex, NibbleOf, HexDigit;
      HexReadsBack(b[1..], h[2..]);
      UnhexTwo(h);
      HexOne(b);
      NibbleIsDigit(h[0], b[0] / 16);
      NibbleIsDigit(h[1], b[0] % 16);
      assert h == [h[0], h[1]] + h[2..] && b == [b[0]] + b[1..];
      if h == Hex(b) {
        assert h[0] == HexDigit(b[0] / 16) && h[1] == HexDigit(b[0] % 16) && h[2..] == Hex(b[1..]);
        TwoNibbles(b[0] / 16, b[0] % 16, b[0]);
      }
      if Unhex(h) == Some(b) {
        var hi, lo := NibbleOf(h[0]).value, NibbleOf(h[1]).value;
        NibbleIsDigit(h[0], hi);
        NibbleIsDigit(h[1], lo);
        TwoNibbles(hi, lo, b[0]);
        assert b[1..] == Unhex(h[2..]).value;
      }
    }
  }

  lemma FewHexDigits(b: Bytes, h: Bytes)
    requires |h| < 2 || b == []
    ensures Unhex(h) == Some(b) <==> h == Hex(b)
  {
    hide NibbleOf, HexDigit;
    if b == [] && |h| >= 2 {
      UnhexTwo(h);
      assert Unhex(h).Some? ==> |Unhex(h).value| > 0;
    }
  }

  function Sign(c: Codec, payload: Bytes): Bytes {
    Hex(c.mac(payload))
  }

  /** The value setSession puts in the cookie. */
  function SetSession(c: Codec, uid: Bytes, now: int): Bytes {
    var raw := uid + [BAR] + c.format(now);
    Encode(raw + [BAR] + Sign(c, raw))
  }

  function IndexBar(s: Bytes): (i: int)
    ensures -1 <= i < |s|
    ensures i >= 0 ==> s[i] == BAR && BAR !in s[..i]
    ensures i < 0 ==> BAR !in s
  {
    if s == [] then -1
    else if s[0] == BAR then 0
    else
      var i := IndexBar(s[1..]);
      if i < 0 then -1 else i + 1
  }

  datatype Parts = Parts(uid: Bytes, issued: Bytes, sig: Bytes)

  /** strings.SplitN(raw, "|", 3), where it gives three parts. */
  function SplitAtBars(raw: Bytes): Option<Parts> {
    var i := IndexBar(raw);
    if i < 0 then None
    else
      var rest := raw[i + 1..];
      var j := IndexBar(rest);
      if j < 0 then None else Some(Parts(raw[..i], rest[..j], rest[j + 1..]))
  }

  datatype Session = NoCookie | Malformed | InvalidSignature | Expired | User(uid: Bytes)

  function SessionUid(c: Codec, cookie: Option<Bytes>, now: int): Session {
    if cookie.None? then NoCookie
    else
      match Decode(cookie.value)
      case None => Malformed
      case Some(raw) => Check(c, raw, now)
  }

  function Check(c: Codec, raw: Bytes, now: int): Session {
    match SplitAtBars(raw)
    case None => Malformed
    case Some(p) =>
      if p.sig != Sign(c, p.uid + [BAR] + p.issued) then InvalidSignature
      else
        match c.parse(p.issued)
        case None => Malformed
        case Some(t) => if now - t > COOKIE_TTL then Expired else User(p.uid)
  }

  // ----- What is accepted -----

  function Joined(p: Parts): Bytes {
    p.uid + [BAR] + p.issued + [BAR] + p.sig
  }

  lemma FirstBar(a: Bytes, b: Bytes)
    requires BAR !in a
    ensures IndexBar(a + [BAR] + b) == |a|
  {
    var s := a + [BAR] + b;
    assert BAR in s;
    assert s[|a|] == BAR;
    assert forall k :: 0 <= k < |a| ==> s[k] == a[k];
  }

  lemma Regroup(a: Bytes, b: Bytes, c: Bytes)
    ensures a + [BAR] + b + [BAR] + c == a + [BAR] + (b + [BAR] + c)
  {
  }

  lemma CutAtBar(s: Bytes)
    requires IndexBar(s) >= 0
    ensures s == s[..IndexBar(s)] + [BAR] + s[IndexBar(s) + 1..]
  {
  }

  lemma SplitJoinsBack(raw: Bytes, p: Parts)
    requires SplitAtBars(raw) == Some(p)
    ensures raw == Joined(p) && BAR !in p.uid && BAR !in p.issued
  {
    CutAtBar(raw);
    CutAtBar(raw[IndexBar(raw) + 1..]);
    Regroup(p.uid, p.issued, p.sig);
  }

  lemma JoinSplitsBack(p: Parts)
    requires BAR !in p.uid && BAR !in p.issued
    ensures SplitAtBars(Joined(p)) == Some(p)
  {
    var rest := p.issued + [BAR] + p.sig;
    Regroup(p.uid, p.issued, p.sig);
    FirstBar(p.uid, rest);
    FirstBar(p.issued, p.sig);
    var raw := p.uid + [BAR] + rest;
    assert raw[..|p.uid|] == p.uid && raw[|p.uid| + 1..] == rest;
    assert rest[..|p.issued|] == p.issued && rest[|p.issued| + 1..] == p.sig;
  }

  /** The split at the first two bars is the one way to write a payload as two
      bar-free parts and a rest. */
  lemma SplitIsExact(raw: Bytes, p: Parts)
    ensures SplitAtBars(raw) == Some(p) <==> raw == Joined(p) && BAR !in p.uid && BAR !in p.issued
  {
    if SplitAtBars(raw) == Some(p) {
      SplitJoinsBack(raw, p);
    }
    if BAR !in p.uid && BAR !in p.issued {
      JoinSplitsBack(p);
    }
  }

  /** A payload is accepted for a user if and only if it is the user, a time not
      too long ago, and the signature of the two, split at its first two bars. */
  lemma AcceptedIffSigned(c: Codec, raw: Bytes, now: int, uid: Bytes)
    ensures Check(c, raw, now) == User(uid) <==>
              exists issued :: 124 !in uid && 124 !in issued
                && raw == uid + [124] + issued + [124] + Sign(c, uid + [124] + issued)
                && c.parse(issued).Some? && now - c.parse(issued).value <= 7 * 24 * 3600 * 1_000_000_000
  {
    if Check(c, raw, now) == User(uid) {
      SplitIsExact(raw, SplitAtBars(raw).value);
    }
    forall issued | BAR !in uid && BAR !in issued && raw == uid + [BAR] + issued + [BAR] + Sign(c, uid + [BAR] + issued)
      ensures SplitAtBars(raw) == Some(Parts(uid, issued, Sign(c, uid + [BAR] + issued)))
    {
      SplitIsExact(raw, Parts(uid, issued, Sign(c, uid + [BAR] + issued)));
    }
  }

  /** A signature is the keyed hash in hex, so two payloads have the same one if
      and only if they have the same hash. */
  lemma SignaturesAreMacs(c: Codec, p: Bytes, q: Bytes)
    ensures Unhex(Sign(c, p)) == Some(c.mac(p))
    ensures Sign(c, p) == Sign(c, q) <==> c.mac(p) == c.mac(q)
  {
    HexReadsBack(c.mac(p), Sign(c, p));
    HexReadsBack(c.mac(q), Sign(c, q));
  }

  /** Whatever is accepted for a user carries the keyed hash of that user and that
      time of issue, and a signature made for another payload is accepted only
      where the two have the same hash. */
  lemma AcceptedCarriesItsMac(c: Codec, raw: Bytes, now: int, uid: Bytes)
    requires Check(c, raw, now) == User(uid)
    ensures SplitAtBars(raw).Some?
    ensures var p, payload := SplitAtBars(raw).value,
      SplitAtBars(raw).value.uid + [124] + SplitAtBars(raw).value.issued;
      && raw == payload + [124] + p.sig && p.uid == uid
      && Unhex(p.sig) == Some(c.mac(payload))
      && forall other :: p.sig == Sign(c, other) ==> c.mac(other) == c.mac(payload)
  {
    var p := SplitAtBars(raw).value;
    var payload := p.uid + [BAR] + p.issued;
    SplitIsExact(raw, p);
    SignaturesAreMacs(c, payload, payload);
    forall other | p.sig == Sign(c, other) ensures c.mac(other) == c.mac(payload) {
      SignaturesAreMacs(c, other, payload);
    }
  }

  /** A bar in the user name leaves one in what is taken for the signature. */
  lemma BarInUidIsRefused(c: Codec, uid: Bytes, rest: Bytes, now: int)
    requires BAR in uid && BAR in rest
    ensures Check(c, uid + [BAR] + rest, now) == InvalidSignature
  {
    hide IndexBar, Hex;
    var raw := uid + [BAR] + rest;
    var i := IndexBar(raw);
    var k :| 0 <= k < |uid| && uid[k] == BAR;
    assert raw[k] == BAR;
    assert i <= k;
    var tail := raw[i + 1..];
    var j := IndexBar(tail);
    var at := |uid| - (i + 1);
    assert tail[at] == BAR;
    assert j <= at;
    assert tail[at + 1..] == rest;
    var m :| 0 <= m < |rest| && rest[m] == BAR;
    assert tail[j + 1..][at + 1 + m - (j + 1)] == BAR;
    assert BAR in SplitAtBars(raw).value.sig;
  }

  /** The cookie names its user for exactly seven days from the second it was
      issued in, and never if the name has a bar in it. */
  lemma CookieReadsBackForSevenDays(c: Codec, uid: Bytes, issued: int, now: int)
    requires WritesTime(c, issued)
    ensures SessionUid(c, Some(SetSession(c, uid, issued)), now) == User(uid) <==>
              BAR !in uid && now - issued / 1_000_000_000 * 1_000_000_000 <= 7 * 24 * 3600 * 1_000_000_000
  {
    var raw := uid + [BAR] + c.format(issued);
    var sig := Sign(c, raw);
    Base64ReadsBack(raw + [BAR] + sig);
    if BAR in uid {
      var rest := c.format(issued) + [BAR] + sig;
      assert raw + [BAR] + sig == uid + [BAR] + rest;
      assert rest[|c.format(issued)|] == BAR;
      BarInUidIsRefused(c, uid, rest, now);
    } else {
      SplitIsExact(raw + [BAR] + sig, Parts(uid, c.format(issued), sig));
    }
  }
}
