/** Entry names of an archive: how one is cleaned, and when it is refused. */
module Paths {

  datatype NameError = EmptyName | AbsolutePath | PathTraversal

  datatype Validated = Valid(clean: string) | Invalid(error: NameError)

  // ----- Splitting at slashes and joining again -----

  /** strings.Split(s, "/"), and the loop path.Clean makes over a path. */
  function Split(s: string): (parts: seq<string>)
    ensures parts != []
  {
    if s == "" then [""]
    else if s[0] == '/' then [""] + Split(s[1..])
    else
      var rest := Split(s[1..]);
      [[s[0]] + rest[0]] + rest[1..]
  }

  function Join(parts: seq<string>): string {
    if parts == [] then "" else if |parts| == 1 then parts[0] else parts[0] + "/" + Join(parts[1..])
  }

  lemma {:induction false} SplitPieces(s: string)
    ensures forall i :: 0 <= i < |Split(s)| ==> '/' !in Split(s)[i] && forall c :: c in Split(s)[i] ==> c in s
  {
    if s != "" {
      SplitPieces(s[1..]);
      var rest := Split(s[1..]);
      forall i | 0 <= i < |Split(s)| ensures '/' !in Split(s)[i] && forall c :: c in Split(s)[i] ==> c in s {
        if i > 0 || s[0] == '/' {
          assert i > 0 ==> s[0] == '/' || Split(s)[i] == rest[i];
        } else {
          assert Split(s)[0] == [s[0]] + rest[0];
        }
      }
    }
  }

  lemma {:induction false} SplitOnePiece(p: string)
    requires '/' !in p
    ensures Split(p) == [p]
  {
    if p != "" {
      SplitOnePiece(p[1..]);
      assert p == [p[0]] + p[1..];
    }
  }

  lemma {:induction false} SplitFirst(p: string, rest: string)
    requires '/' !in p
    ensures Split(p + "/" + rest) == [p] + Split(rest)
  {
    if p == "" {
      assert (p + "/" + rest)[1..] == rest;
    } else {
      SplitFirst(p[1..], rest);
      assert (p + "/" + rest)[1..] == p[1..] + "/" + rest;
      assert p == [p[0]] + p[1..];
    }
  }

  /** The parts, joined by slashes, are the text again, and no part has a slash. */
  lemma {:induction false} JoinOfSplit(s: string)
    ensures Join(Split(s)) == s && forall i :: 0 <= i < |Split(s)| ==> '/' !in Split(s)[i]
  {
    SplitPieces(s);
    if s != "" {
      JoinOfSplit(s[1..]);
      var rest := Split(s[1..]);
      if s[0] == '/' {
        assert Split(s) == [""] + rest;
        assert Join(Split(s)) == "" + "/" + Join(rest);
      } else {
        PutInFront(s[0], rest);
      }
      assert s == [s[0]] + s[1..];
    }
  }

  lemma JoinOne(p: string)
    ensures Join([p]) == p
  {
  }

  lemma JoinMore(parts: seq<string>)
    requires |parts| > 1
    ensures Join(parts) == parts[0] + "/" + Join(parts[1..])
  {
  }

  lemma InFront(c: char, a: string, b: string)
    ensures [c] + a + "/" + b == [c] + (a + "/" + b)
  {
  }

  lemma PutInFront(c: char, parts: seq<string>)
    requires parts != []
    ensures Join([[c] + parts[0]] + parts[1..]) == [c] + Join(parts)
  {
    hide Join;
    var first, rest := parts[0], parts[1..];
    if |parts| == 1 {
      assert parts == [first] && [[c] + first] + rest == [[c] + first];
      JoinOne([c] + first);
      JoinOne(first);
    } else {
      JoinMore([[c] + first] + rest);
      JoinMore(parts);
      InFront(c, first, Join(rest));
      assert ([[c] + first] + rest)[1..] == rest;
    }
  }

  lemma {:induction false} SplitOfJoin(parts: seq<string>)
    requires parts != [] && forall p :: p in parts ==> '/' !in p
    ensures Split(Join(parts)) == parts
  {
    if |parts| == 1 {
      SplitOnePiece(parts[0]);
    } else {
      SplitOfJoin(parts[1..]);
      SplitFirst(parts[0], Join(parts[1..]));
    }
  }

  // ----- path.Clean -----

  /** path.Clean as it is documented: components are pushed on a stack, ".." pops
      one, or is kept where a relative path has nothing left to pop. */
  function Walk(rooted: bool, stack: seq<string>, parts: seq<string>): seq<string>
    decreases |parts|
  {
    if parts == [] then stack
    else Walk(rooted, Visit(rooted, stack, parts[0]), parts[1..])
  }

  function Visit(rooted: bool, stack: seq<string>, part: string): seq<string> {
    if part == "" || part == "." then stack
    else if part != ".." then stack + [part]
    else if stack != [] && stack[|stack| - 1] != ".." then stack[..|stack| - 1]
    else if rooted then stack
    else stack + [part]
  }

  predicate IsRooted(s: string) {
    s != "" && s[0] == '/'
  }

  function Clean(s: string): string {
    var stack := Walk(IsRooted(s), [], Split(s));
    if IsRooted(s) then "/" + Join(stack) else if stack == [] then "." else Join(stack)
  }

  // ----- validateEntryName -----

  function ToSlash(s: string): (t: string)
    ensures |t| == |s| && '\\' !in t && forall i :: 0 <= i < |s| ==> t[i] == if s[i] == '\\' then '/' else s[i]
  {
    seq(|s|, i requires 0 <= i < |s| => if s[i] == '\\' then '/' else s[i])
  }

  function TrimDotSlash(s: string): string {
    if "./" <= s then s[2..] else s
  }

  function Normalised(name: string): string {
    TrimDotSlash(ToSlash(name))
  }

  function ValidateEntryName(name: string): Validated {
    if name == "" then Invalid(EmptyName)
    else if IsRooted(Normalised(name)) then Invalid(AbsolutePath)
    else
      var clean := Clean(Normalised(name));
      if IsRooted(clean) then Invalid(AbsolutePath)
      else if ".." in Split(clean) then Invalid(PathTraversal)
      else Valid(clean)
  }

  // ----- What it means -----

  /** The lexical walk from depth `depth` never goes above its start. */
  predicate StaysInside(depth: nat, parts: seq<string>)
    decreases |parts|
  {
    if parts == [] then true
    else if parts[0] == "" || parts[0] == "." then StaysInside(depth, parts[1..])
    else if parts[0] == ".." then depth > 0 && StaysInside(depth - 1, parts[1..])
    else StaysInside(depth + 1, parts[1..])
  }

  /** Where the lexical walk ends, as directories below its start. */
  function Reach(at: seq<string>, parts: seq<string>): seq<string>
    requires StaysInside(|at|, parts)
    decreases |parts|
  {
    if parts == [] then at
    else if parts[0] == "" || parts[0] == "." then Reach(at, parts[1..])
    else if parts[0] == ".." then Reach(at[..|at| - 1], parts[1..])
    else Reach(at + [parts[0]], parts[1..])
  }

  predicate IsName(part: string) {
    part != "" && part != "." && part != ".." && '/' !in part && '\\' !in part
  }

  lemma {:induction false} WalkKeepsDotDot(stack: seq<string>, parts: seq<string>)
    requires ".." in stack
    ensures ".." in Walk(false, stack, parts)
    decreases |parts|
  {
    if parts != [] {
      var next := Visit(false, stack, parts[0]);
      var k :| 0 <= k < |stack| && stack[k] == "..";
      assert k < |next| && next[k] == "..";
      WalkKeepsDotDot(next, parts[1..]);
    }
  }

  /** The stack ends up without ".." exactly when the walk stays inside, and then
      it is where the walk leads. */
  lemma {:induction false} WalkIsReach(stack: seq<string>, parts: seq<string>)
    requires ".." !in stack
    ensures StaysInside(|stack|, parts) <==> ".." !in Walk(false, stack, parts)
    ensures StaysInside(|stack|, parts) ==> Walk(false, stack, parts) == Reach(stack, parts)
    decreases |parts|
  {
    if parts != [] {
      var next := Visit(false, stack, parts[0]);
      if parts[0] == ".." && stack == [] {
        assert next[0] == "..";
        WalkKeepsDotDot(next, parts[1..]);
      } else {
        WalkIsReach(next, parts[1..]);
      }
    }
  }

  lemma {:induction false} WalkGivesNames(stack: seq<string>, parts: seq<string>)
    requires forall p :: p in stack ==> p == ".." || IsName(p)
    requires forall p :: p in parts ==> '/' !in p && '\\' !in p
    ensures forall p :: p in Walk(false, stack, parts) ==> p == ".." || IsName(p)
    decreases |parts|
  {
    if parts != [] {
      WalkGivesNames(Visit(false, stack, parts[0]), parts[1..]);
    }
  }

  lemma {:induction false} WalkOfNames(stack: seq<string>, parts: seq<string>)
    requires forall p :: p in parts ==> IsName(p)
    ensures Walk(false, stack, parts) == stack + parts
    decreases |parts|
  {
    if parts == [] {
      assert stack + parts == stack;
    } else {
      assert IsName(parts[0]);
      assert Visit(false, stack, parts[0]) == stack + [parts[0]];
      WalkOfNames(stack + [parts[0]], parts[1..]);
      assert stack + [parts[0]] + parts[1..] == stack + parts;
    }
  }

  /** The stack of a name that is not absolute. */
  function StackOf(name: string): seq<string> {
    Walk(false, [], Split(Normalised(name)))
  }

  lemma StackHasNames(name: string)
    ensures forall p :: p in StackOf(name) ==> p == ".." || IsName(p)
  {
    var s := Normalised(name);
    SplitPieces(s);
    WalkGivesNames([], Split(s));
  }

  /** The components of a cleaned name, as a path below the destination. */
  function Components(clean: string): seq<string> {
    if clean == "." then [] else Split(clean)
  }

  lemma {:induction false} JoinOfNames(parts: seq<string>)
    requires parts != [] && forall p :: p in parts ==> p == ".." || IsName(p)
    ensures Join(parts) != "" && Join(parts) != "." && !IsRooted(Join(parts)) && !("./" <= Join(parts))
      && '\\' !in Join(parts)
    ensures Split(Join(parts)) == parts
  {
    assert forall p :: p in parts ==> '/' !in p && '\\' !in p && p != "" && p != ".";
    SplitOfJoin(parts);
    JoinHasNoBackslash(parts);
    SplitOnePiece(".");
    assert parts[0] in parts;
    if IsRooted(Join(parts)) {
      SplitOfRooted(Join(parts));
    }
  }

  lemma {:induction false} JoinHasNoBackslash(parts: seq<string>)
    requires forall p :: p in parts ==> '\\' !in p
    ensures '\\' !in Join(parts)
  {
    if |parts| > 1 {
      JoinHasNoBackslash(parts[1..]);
    }
  }

  lemma SplitOfRooted(s: string)
    requires IsRooted(s)
    ensures Split(s)[0] == ""
  {
  }

  lemma CleanOfRelative(s: string)
    requires !IsRooted(s) && '\\' !in s
    ensures var stack := Walk(false, [], Split(s));
      && (stack == [] ==> Clean(s) == "." && Split(Clean(s)) == ["."])
      && (stack != [] ==> Clean(s) == Join(stack) && Split(Clean(s)) == stack && !IsRooted(Clean(s)) && Clean(s) != ".")
  {
    var stack := Walk(false, [], Split(s));
    SplitPieces(s);
    WalkGivesNames([], Split(s));
    SplitOnePiece(".");
    if stack != [] {
      JoinOfNames(stack);
    }
  }

  lemma NormalisedHasNoBackslash(name: string)
    ensures '\\' !in Normalised(name)
  {
  }

  lemma NormalisedIffInside(name: string)
    requires name != ""
    ensures ValidateEntryName(name).Valid? <==> !IsRooted(Normalised(name)) && StaysInside(0, Split(Normalised(name)))
  {
    var s := Normalised(name);
    NormalisedHasNoBackslash(name);
    if !IsRooted(s) {
      CleanOfRelative(s);
      WalkIsReach([], Split(s));
    }
  }

  /** Trimming "./" changes neither where a name leads nor whether it stays inside. */
  lemma TrimmingIsHarmless(name: string)
    ensures var s, t := ToSlash(name), Normalised(name);
      && (IsRooted(t) <==> "/" <= s || ".//" <= s)
      && (StaysInside(0, Split(s)) <==> StaysInside(0, Split(t)))
      && (StaysInside(0, Split(s)) ==> Reach([], Split(s)) == Reach([], Split(t)))
  {
    var s := ToSlash(name);
    if "./" <= s {
      var dot, rest := ".", s[2..];
      assert s == dot + "/" + rest;
      SplitFirst(dot, rest);
      assert Split(s)[1..] == Split(rest);
    }
  }

  /** A nonempty name is accepted if and only if, with slashes for backslashes, it
      starts with neither "/" nor ".//" and its lexical walk never goes above its
      start. */
  lemma AcceptedIffInside(name: string)
    requires name != ""
    ensures var s := ToSlash(name);
      ValidateEntryName(name).Valid? <==> !("/" <= s) && !(".//" <= s) && StaysInside(0, Split(s))
  {
    hide ValidateEntryName, Normalised, Split, StaysInside, IsRooted;
    NormalisedIffInside(name);
    TrimmingIsHarmless(name);
  }

  /** Which error a name is refused with. */
  lemma RefusalsAreExact(name: string)
    requires ValidateEntryName(name).Invalid?
    ensures var s := ToSlash(name);
      ValidateEntryName(name).error ==
        if s == "" then EmptyName else if "/" <= s || ".//" <= s then AbsolutePath else PathTraversal
  {
    hide Split, StaysInside;
    TrimmingIsHarmless(name);
    NormalisedHasNoBackslash(name);
    if !IsRooted(Normalised(name)) {
      CleanOfRelative(Normalised(name));
      hide Clean;
    }
  }

  lemma CleanOfAccepted(name: string)
    requires ValidateEntryName(name).Valid?
    ensures var clean, t := ValidateEntryName(name).clean, Normalised(name);
      && (forall p :: p in Components(clean) ==> IsName(p))
      && StaysInside(0, Split(t)) && Components(clean) == Reach([], Split(t))
      && ValidateEntryName(clean) == Valid(clean)
  {
    var s := Normalised(name);
    NormalisedHasNoBackslash(name);
    NormalisedIffInside(name);
    CleanOfRelative(s);
    WalkIsReach([], Split(s));
    StackHasNames(name);
    var stack := StackOf(name);
    if stack == [] {
      DotIsCanonical();
    } else {
      NamesAreCanonical(stack);
    }
  }

  /** What is accepted has only proper components, is the place the name leads to,
      written with slashes, and is a fixed point. */
  lemma AcceptedNamesAreCanonical(name: string)
    requires ValidateEntryName(name).Valid?
    ensures var clean, s := ValidateEntryName(name).clean, ToSlash(name);
      && (forall p :: p in Components(clean) ==> IsName(p))
      && StaysInside(0, Split(s)) && Components(clean) == Reach([], Split(s))
      && clean == (if Reach([], Split(s)) == [] then "." else Join(Reach([], Split(s))))
      && ValidateEntryName(clean) == Valid(clean)
  {
    hide ValidateEntryName, Normalised, Split, StaysInside, Reach, Join;
    CleanOfAccepted(name);
    TrimmingIsHarmless(name);
    AcceptedIsJoined(name);
  }

  lemma DotIsCanonical()
    ensures ValidateEntryName(".") == Valid(".")
  {
    assert ToSlash(".") == ".";
    SplitOnePiece(".");
    assert Walk(false, [], ["."]) == [];
  }

  /** Joining proper components gives a name that is accepted as it is. */
  lemma NamesAreCanonical(parts: seq<string>)
    requires parts != [] && forall p :: p in parts ==> IsName(p)
    ensures ValidateEntryName(Join(parts)) == Valid(Join(parts)) && Components(Join(parts)) == parts
  {
    var s := Join(parts);
    JoinOfNames(parts);
    assert ToSlash(s) == s;
    WalkOfNames([], parts);
    assert [] + parts == parts;
  }

  lemma AcceptedIsJoined(name: string)
    requires ValidateEntryName(name).Valid?
    ensures var clean := ValidateEntryName(name).clean;
      clean != "" && (clean != "." ==> Components(clean) != [] && clean == Join(Components(clean)))
  {
    NormalisedHasNoBackslash(name);
    CleanOfRelative(Normalised(name));
    StackHasNames(name);
    if StackOf(name) != [] {
      JoinOfNames(StackOf(name));
    }
  }

  // ----- Metadata entries -----

  function StripSlashes(p: string): string {
    if p != "" && p[|p| - 1] == '/' then StripSlashes(p[..|p| - 1]) else p
  }

  /** path.Base */
  function Base(p: string): string {
    if p == "" then "."
    else if StripSlashes(p) == "" then "/"
    else var parts := Split(StripSlashes(p)); parts[|parts| - 1]
  }

  predicate IsMetadata(p: string) {
    "__MACOSX/" <= p || p == "__MACOSX" || Base(p) == ".DS_Store" || "._" <= Base(p)
  }

  predicate IsNoise(base: string) {
    base == ".DS_Store" || "._" <= base
  }

  lemma SplitTail(s: string)
    requires s != "" && |Split(s[1..])| > 1
    ensures Split(s)[|Split(s)| - 1] == Split(s[1..])[|Split(s[1..])| - 1]
  {
  }

  lemma {:induction false} SplitOfTrailingSlash(s: string)
    requires s != "" && s[|s| - 1] == '/'
    ensures var parts := Split(s); parts[|parts| - 1] == ""
  {
    if |s| == 1 {
      assert Split(s) == [""] + Split("");
    } else {
      SplitOfTrailingSlash(s[1..]);
      SlashesSplit(s[1..]);
      SplitTail(s);
    }
  }

  lemma {:induction false} SlashesSplit(s: string)
    requires '/' in s
    ensures |Split(s)| > 1
  {
    if s[0] != '/' {
      SlashesSplit(s[1..]);
    }
  }

  lemma BaseOfUnslashed(s: string)
    requires s != "" && s[|s| - 1] != '/'
    ensures Base(s) == Split(s)[|Split(s)| - 1]
  {
    hide Split;
    assert StripSlashes(s) == s;
  }

  lemma BaseOfNames(parts: seq<string>)
    requires parts != [] && forall p :: p in parts ==> IsName(p)
    ensures Base(Join(parts)) == parts[|parts| - 1]
  {
    hide Split, Join, Base;
    var s := Join(parts);
    JoinOfNames(parts);
    assert parts[|parts| - 1] in parts;
    if s[|s| - 1] == '/' {
      SplitOfTrailingSlash(s);
    }
    BaseOfUnslashed(s);
  }

  lemma PrefixIsFirst(first: string, s: string)
    requires '/' !in first && first + "/" <= s
    ensures Split(s)[0] == first
  {
    var head := first + "/";
    assert s == head + s[|head|..];
    SplitFirst(first, s[|head|..]);
  }

  lemma FirstComponent(first: string, parts: seq<string>)
    requires '/' !in first && parts != [] && Split(Join(parts)) == parts
    ensures first + "/" <= Join(parts) || Join(parts) == first <==> parts[0] == first
  {
    SplitOnePiece(first);
    if first + "/" <= Join(parts) {
      PrefixIsFirst(first, Join(parts));
    }
  }

  /** On a clean path the test looks at the first and the last component. */
  lemma MetadataByComponents(parts: seq<string>)
    requires parts != [] && forall p :: p in parts ==> IsName(p)
    ensures IsMetadata(Join(parts)) <==> parts[0] == "__MACOSX" || IsNoise(parts[|parts| - 1])
  {
    hide Split, Join, Base;
    BaseOfNames(parts);
    JoinOfNames(parts);
    FirstComponent("__MACOSX", parts);
    assert "__MACOSX" + "/" == "__MACOSX/";
  }
}
