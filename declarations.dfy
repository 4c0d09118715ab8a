/**
  `extract_declarations`: the classes, structs, enums and protocols a file declares,
  minus those the tool knows to be used some other way. Each line is stripped for the
  tests; the raw line is what the conformance tests (`UIApplicationDelegate`, ...) look at.
 */
module DeclarationExtractor {
  import opened Text
  import opened Words

  datatype Kind = Class | Struct | Enum | Protocol

  /** The keyword that introduces a declaration of each kind. */
  function Keyword(k: Kind): string {
    match k
    case Class => "class"
    case Struct => "struct"
    case Enum => "enum"
    case Protocol => "protocol"
  }

  /** One entry of the result: `{ name:, kind:, file: }`. */
  datatype Declaration = Declaration(name: string, kind: Kind, file: string)

  /** What the declaration pattern captures: the keyword's kind and the type name. */
  datatype Header = Header(kind: Kind, name: string)

  /** `TEST_BASE_CLASSES` */
  const TestBaseClasses: seq<string> := ["XCTestCase"]

  // ------------------------------------------------------------ the declaration pattern

  /** Length of the run of whitespace starting at `q`. */
  function SpaceRun(s: string, q: nat): (n: nat)
    requires q <= |s|
    decreases |s| - q
    ensures q + n <= |s|
    ensures q + n < |s| ==> !IsSpace(s[q + n])
  {
    if q < |s| && IsSpace(s[q]) then 1 + SpaceRun(s, q + 1) else 0
  }

  /** Every character of the run is whitespace: the run is `\s+` taken as far as it goes. */
  lemma {:induction false} SpaceRunIsWhitespace(s: string, q: nat)
    requires q <= |s|
    decreases |s| - q
    ensures forall j :: q <= j < q + SpaceRun(s, q) ==> IsSpace(s[j])
  {
    if q < |s| && IsSpace(s[q]) {
      SpaceRunIsWhitespace(s, q + 1);
    }
  }

  /** Length of the run of word characters starting at `q`. */
  function WordRun(s: string, q: nat): (n: nat)
    requires q <= |s|
    decreases |s| - q
    ensures q + n <= |s|
    ensures forall j :: q <= j < q + n ==> IsWordChar(s[j])
    ensures q + n < |s| ==> !IsWordChar(s[q + n])
  {
    if q < |s| && IsWordChar(s[q]) then 1 + WordRun(s, q + 1) else 0
  }

  /** `name` stands right after the whitespace run at `q`, up to a non-word character or
      the end of `s`. */
  predicate NameAfter(s: string, q: nat, name: string)
    requires q <= |s|
  {
    var b := q + SpaceRun(s, q);
    OccursAt(s, name, b) && (b + |name| == |s| || !IsWordChar(s[b + |name|]))
  }

  /** The keyword starting at `p`, if any. At most one can: they differ in their first
      letter. */
  function KeywordAt(s: string, p: nat): (r: Option<Kind>)
    ensures r.Some? ==> OccursAt(s, Keyword(r.value), p)
  {
    if OccursAt(s, Keyword(Class), p) then Some(Class)
    else if OccursAt(s, Keyword(Struct), p) then Some(Struct)
    else if OccursAt(s, Keyword(Enum), p) then Some(Enum)
    else if OccursAt(s, Keyword(Protocol), p) then Some(Protocol)
    else None
  }

  /** The part of the pattern after a keyword of kind `k` that ends at `q`:
      `\s+([A-Z][A-Za-z0-9_]*)`. `\s+` can only end where the whitespace does, and the
      name runs as far as word characters go. */
  function HeaderAfter(s: string, q: nat, k: Kind): (r: Option<Header>)
    requires q <= |s|
    ensures r.Some? ==> r.value.kind == k && IsTypeName(r.value.name)
    ensures r.Some? ==> 0 < SpaceRun(s, q) && NameAfter(s, q, r.value.name)
  {
    var n := SpaceRun(s, q);
    if n == 0 || q + n == |s| || !IsUpper(s[q + n]) then None
    else
      var w := WordRun(s, q + n);
      var name := s[q + n..q + n + w];
      assert name[0] == s[q + n];
      assert OccursAt(s, name, q + n);
      Some(Header(k, name))
  }

  /** `/\b(class|struct|enum|protocol)\s+([A-Z][A-Za-z0-9_]*)/` matching at `p`: a keyword
      with no word character before it, then the rest of the pattern. */
  function HeaderAt(s: string, p: nat): (r: Option<Header>)
    requires p <= |s|
    ensures r.Some? ==> IsTypeName(r.value.name)
    ensures r.Some? ==> OccursAt(s, Keyword(r.value.kind), p) && (p == 0 || !IsWordChar(s[p - 1]))
  {
    if p > 0 && IsWordChar(s[p - 1]) then None
    else HeaderAfterKeyword(s, p, KeywordAt(s, p))
  }

  /** The rest of the pattern after the keyword found at `p`, if one was. */
  function HeaderAfterKeyword(s: string, p: nat, kw: Option<Kind>): Option<Header>
    requires p <= |s| && (kw.Some? ==> OccursAt(s, Keyword(kw.value), p))
  {
    match kw
    case None => None
    case Some(k) => HeaderAfter(s, p + |Keyword(k)|, k)
  }

  /** Where a match puts the captured name: after the keyword comes at least one
      whitespace character, and the name stands right after that whitespace, running up
      to a non-word character or the end of the line. */
  lemma HeaderAtPlacesName(s: string, p: nat, h: Header)
    requires p <= |s| && HeaderAt(s, p) == Some(h)
    ensures 0 < SpaceRun(s, p + |Keyword(h.kind)|)
    ensures NameAfter(s, p + |Keyword(h.kind)|, h.name)
  {
    var q := p + |Keyword(h.kind)|;
    MatchIsAfterKeyword(s, p, h);
    assert HeaderAfter(s, q, h.kind) == Some(h);
    MatchedAfterKeyword(s, q, h.kind, h);
  }

  /** `\s+[A-Z]` matching at `q` with a whitespace part of `n` characters: any of the
      splits a backtracking matcher could try. */
  predicate SpacesThenUpper(s: string, q: nat, n: nat) {
    0 < n && q + n < |s| && (forall j :: q <= j < q + n ==> IsSpace(s[j])) && IsUpper(s[q + n])
  }

  /** A run of whitespace at `q` is no longer than the greedy one. */
  lemma {:induction false} SpaceRunIsLongest(s: string, q: nat, n: nat)
    requires q + n <= |s| && forall j :: q <= j < q + n ==> IsSpace(s[j])
    decreases n
    ensures n <= SpaceRun(s, q)
  {
    if n > 0 {
      SpaceRunIsLongest(s, q + 1, n - 1);
    }
  }

  /** `\s+[A-Z]` matches at `q` with some split. */
  ghost predicate UpperAfterSpaces(s: string, q: nat) {
    exists n: nat :: SpacesThenUpper(s, q, n)
  }

  /** `HeaderAfter` on the greedy whitespace run, unfolded. */
  lemma HeaderAfterUnfolds(s: string, q: nat, k: Kind)
    requires q <= |s|
    ensures HeaderAfter(s, q, k).Some? <==>
      0 < SpaceRun(s, q) && q + SpaceRun(s, q) < |s| && IsUpper(s[q + SpaceRun(s, q)])
    ensures HeaderAfter(s, q, k).Some? ==>
      HeaderAfter(s, q, k).value ==
        Header(k, s[q + SpaceRun(s, q)..q + SpaceRun(s, q) + WordRun(s, q + SpaceRun(s, q))])
  {
  }

  /** The rest of the pattern, `\s+([A-Z][A-Za-z0-9_]*)`, matches exactly when some split
      into whitespace and an upper-case letter exists; every such split puts the letter
      right after the greedy run, and the name is the whole run of word characters
      there. */
  lemma HeaderAfterMatches(s: string, q: nat, k: Kind)
    requires q <= |s|
    ensures HeaderAfter(s, q, k).Some? <==> UpperAfterSpaces(s, q)
    ensures forall n: nat :: SpacesThenUpper(s, q, n) ==> n == SpaceRun(s, q)
    ensures HeaderAfter(s, q, k).Some? ==>
      HeaderAfter(s, q, k).value ==
        Header(k, s[q + SpaceRun(s, q)..q + SpaceRun(s, q) + WordRun(s, q + SpaceRun(s, q))])
  {
    SpaceRunIsWhitespace(s, q);
    HeaderAfterUnfolds(s, q, k);
    var m := SpaceRun(s, q);
    forall n: nat | SpacesThenUpper(s, q, n)
      ensures n == m
    {
      SpaceRunIsLongest(s, q, n);
    }
    if HeaderAfter(s, q, k).Some? {
      assert SpacesThenUpper(s, q, m);
    }
  }

  /** The keywords differ in their first letter, so the one that occurs at `p` is the one
      found there. */
  lemma KeywordAtFinds(s: string, p: nat, k: Kind)
    requires OccursAt(s, Keyword(k), p)
    ensures KeywordAt(s, p) == Some(k)
  {
    forall k': Kind
      ensures OccursAt(s, Keyword(k'), p) ==> s[p] == Keyword(k')[0]
    {
      OccurrenceChar(s, Keyword(k'), p, p);
    }
  }

  /** The pattern's conditions at `p` for the keyword of kind `k`, on the characters of
      `s`: no word character before `p`, the keyword at `p`, then whitespace, then an
      upper-case letter. */
  ghost predicate PatternAt(s: string, p: nat, k: Kind)
    requires p <= |s|
  {
    (p == 0 || !IsWordChar(s[p - 1])) && OccursAt(s, Keyword(k), p) &&
    UpperAfterSpaces(s, p + |Keyword(k)|)
  }

  /** Where the whole pattern can match, it does, with that keyword's kind. */
  lemma HeaderAtComplete(s: string, p: nat, k: Kind)
    requires p <= |s| && PatternAt(s, p, k)
    ensures HeaderAt(s, p).Some? && HeaderAt(s, p).value.kind == k
    ensures HeaderAt(s, p) == HeaderAfter(s, p + |Keyword(k)|, k)
  {
    var q := p + |Keyword(k)|;
    assert UpperAfterSpaces(s, q);
    HeaderAfterMatches(s, q, k);
    assert HeaderAfter(s, q, k).Some?;
    KeywordAtFinds(s, p, k);
    HeaderAtAfterKeyword(s, p, k);
  }

  /** The pattern matches at `p` exactly when its conditions hold there for some keyword,
      and the kind found is that keyword's. */
  lemma HeaderAtMatches(s: string, p: nat)
    requires p <= |s|
    ensures HeaderAt(s, p).Some? <==> exists k :: PatternAt(s, p, k)
    ensures HeaderAt(s, p).Some? ==> PatternAt(s, p, HeaderAt(s, p).value.kind)
  {
    if HeaderAt(s, p).Some? {
      HeaderAtSound(s, p, HeaderAt(s, p).value);
    } else {
      forall k | PatternAt(s, p, k)
        ensures false
      {
        HeaderAtComplete(s, p, k);
      }
    }
  }

  /** A match satisfies the pattern's conditions for its own kind. */
  lemma HeaderAtSound(s: string, p: nat, h: Header)
    requires p <= |s| && HeaderAt(s, p) == Some(h)
    ensures PatternAt(s, p, h.kind)
  {
    MatchIsAfterKeyword(s, p, h);
    PatternAfterKeyword(s, p, h);
  }

  /** A keyword after a word boundary, followed by a match of the rest of the pattern,
      satisfies the pattern's conditions. */
  lemma PatternAfterKeyword(s: string, p: nat, h: Header)
    requires p <= |s| && (p == 0 || !IsWordChar(s[p - 1])) && OccursAt(s, Keyword(h.kind), p)
    requires p + |Keyword(h.kind)| <= |s| && HeaderAfter(s, p + |Keyword(h.kind)|, h.kind) == Some(h)
    ensures PatternAt(s, p, h.kind)
  {
    MatchedAfterKeyword(s, p + |Keyword(h.kind)|, h.kind, h);
  }

  /** A match is the rest of the pattern's match at the end of its keyword. */
  lemma MatchIsAfterKeyword(s: string, p: nat, h: Header)
    requires p <= |s| && HeaderAt(s, p) == Some(h)
    ensures p + |Keyword(h.kind)| <= |s| && HeaderAfter(s, p + |Keyword(h.kind)|, h.kind) == Some(h)
  {
    assert OccursAt(s, Keyword(h.kind), p);
    KeywordAtFinds(s, p, h.kind);
    assert KeywordAt(s, p) == Some(h.kind);
    HeaderAtAfterKeyword(s, p, h.kind);
  }

  /** A match of the rest of the pattern is a split into whitespace and an upper-case
      letter, with the name right after the whitespace. */
  lemma MatchedAfterKeyword(s: string, q: nat, k: Kind, h: Header)
    requires q <= |s| && HeaderAfter(s, q, k) == Some(h)
    ensures UpperAfterSpaces(s, q) && 0 < SpaceRun(s, q) && NameAfter(s, q, h.name)
  {
    HeaderAfterMatches(s, q, k);
  }

  /** Past the word-boundary test, `HeaderAt` is `HeaderAfter` at the keyword's end. */
  lemma HeaderAtAfterKeyword(s: string, p: nat, k: Kind)
    requires p <= |s| && (p == 0 || !IsWordChar(s[p - 1])) && KeywordAt(s, p) == Some(k)
    ensures p + |Keyword(k)| <= |s|
    ensures HeaderAt(s, p) == HeaderAfter(s, p + |Keyword(k)|, k)
  {
    HeaderAtUnfolds(s, p, k);
    HeaderAfterKeywordUnfolds(s, p, k);
  }

  /** `HeaderAt` past a passed word-boundary test, one step at a time. */
  lemma HeaderAtUnfolds(s: string, p: nat, k: Kind)
    requires p <= |s| && (p == 0 || !IsWordChar(s[p - 1])) && KeywordAt(s, p) == Some(k)
    ensures HeaderAt(s, p) == HeaderAfterKeyword(s, p, Some(k))
  {
  }

  /** `HeaderAfterKeyword` on a found keyword. */
  lemma HeaderAfterKeywordUnfolds(s: string, p: nat, k: Kind)
    requires p <= |s| && OccursAt(s, Keyword(k), p)
    ensures HeaderAfterKeyword(s, p, Some(k)) == HeaderAfter(s, p + |Keyword(k)|, k)
  {
  }

  /** The line `class Helper {}` declares the class `Helper`. */
  lemma HelperClassIsMatched(s: string)
    requires s == "class Helper {}"
    ensures MatchHeader(s) == Some(Header(Class, "Helper"))
  {
    HelperLineShape(s);
    assert SpacesThenUpper(s, 5, 1);
    HeaderAtComplete(s, 0, Class);
    HeaderAfterMatches(s, 5, Class);
    assert HeaderTable(s)[0] == Some(Header(Class, "Helper"));
  }

  /** The pieces of `class Helper {}` that the pattern looks at. */
  lemma HelperLineShape(s: string)
    requires s == "class Helper {}"
    ensures OccursAt(s, Keyword(Class), 0)
    ensures SpaceRun(s, 5) == 1 && IsUpper(s[6])
    ensures WordRun(s, 6) == 6 && s[6..12] == "Helper"
  {
    assert s[0..5] == "class";
    assert SpaceRun(s, 6) == 0;
    assert WordRun(s, 12) == 0;
    assert WordRun(s, 11) == 1;
    assert WordRun(s, 10) == 2;
    assert WordRun(s, 9) == 3;
    assert WordRun(s, 8) == 4;
    assert WordRun(s, 7) == 5;
    assert s[6..12] == "Helper";
  }

  /** The first entry that is present at or after `p`. */
  function FirstSome<T>(ms: seq<Option<T>>, p: nat): (r: Option<T>)
    requires p <= |ms|
    decreases |ms| - p
    ensures r.Some? ==> exists q :: p <= q < |ms| && ms[q] == r
  {
    if p == |ms| then None
    else if ms[p].Some? then ms[p]
    else FirstSome(ms, p + 1)
  }

  /** The first present entry is the leftmost one, and there is none exactly when all
      entries are absent. */
  lemma {:induction false} FirstSomeIsLeftmost<T>(ms: seq<Option<T>>, p: nat)
    requires p <= |ms|
    decreases |ms| - p
    ensures FirstSome(ms, p).None? <==> forall q :: p <= q < |ms| ==> ms[q].None?
    ensures FirstSome(ms, p).Some? ==>
      exists q :: p <= q < |ms| && ms[q] == FirstSome(ms, p) && (forall q' :: p <= q' < q ==> ms[q'].None?)
  {
    if p < |ms| && ms[p].None? {
      FirstSomeIsLeftmost(ms, p + 1);
    }
  }

  /** The pattern's result at every position of `s`, the end included. */
  function HeaderTable(s: string): (ms: seq<Option<Header>>)
    ensures |ms| == |s| + 1
    ensures forall q :: 0 <= q <= |s| ==> ms[q] == HeaderAt(s, q)
  {
    seq(|s| + 1, q requires 0 <= q <= |s| => HeaderAt(s, q))
  }

  /** `stripped.match(...)`: the leftmost match, whose name is a type name. */
  function MatchHeader(s: string): (r: Option<Header>)
    ensures r.Some? ==> IsTypeName(r.value.name)
  {
    FirstSome(HeaderTable(s), 0)
  }

  /** A declaration header is found in a stripped line exactly when the pattern matches
      somewhere in it; the header found is the leftmost match. */
  lemma MatchHeaderIsLeftmost(s: string)
    ensures MatchHeader(s).None? <==> forall q :: 0 <= q <= |s| ==> HeaderAt(s, q).None?
    ensures MatchHeader(s).Some? ==>
      exists q :: 0 <= q <= |s| && HeaderAt(s, q) == MatchHeader(s) &&
                  (forall q' :: 0 <= q' < q ==> HeaderAt(s, q').None?)
  {
    var ms := HeaderTable(s);
    FirstSomeIsLeftmost(ms, 0);
    if MatchHeader(s).Some? {
      var q :| 0 <= q < |ms| && ms[q] == MatchHeader(s) && (forall q' :: 0 <= q' < q ==> ms[q'].None?);
      TableNoneBelow(s, ms, q);
    } else {
      TableNoneBelow(s, ms, |ms|);
    }
  }

  /** Absent entries of the table below `q` are positions where the pattern fails. */
  lemma TableNoneBelow(s: string, ms: seq<Option<Header>>, q: nat)
    requires ms == HeaderTable(s) && q <= |ms|
    requires forall q' :: 0 <= q' < q ==> ms[q'].None?
    ensures forall q' :: 0 <= q' < q ==> HeaderAt(s, q').None?
  {
    forall q' | 0 <= q' < q
      ensures HeaderAt(s, q').None?
    {
      assert ms[q'].None?;
    }
  }

  // ------------------------------------------------------------ the skip rules

  /** `stripped.match?(/^#if\b/)` */
  predicate OpensConditional(s: string) {
    StartsWith(s, "#if") && (|s| == 3 || !IsWordChar(s[3]))
  }

  /** `in_debug_block` when line `n` is reached: an `#if` line sets it and the first
      `#endif` line after it clears it; `#if` lines in between change nothing. */
  function DebugBefore(lines: seq<string>, n: nat): bool
    requires n <= |lines|
  {
    if n == 0 then false
    else
      var s := Strip(lines[n - 1]);
      OpensConditional(s) || (DebugBefore(lines, n - 1) && s != "#endif")
  }

  /** Line `i` is passed over by the `#if` rules: it opens a conditional block or lies in
      one (the `#endif` that closes the block included). */
  predicate InConditional(lines: seq<string>, i: nat)
    requires i < |lines|
  {
    OpensConditional(Strip(lines[i])) || DebugBefore(lines, i)
  }

  /** The `@objc` test, on the stripped line and the stripped line before it. */
  predicate ObjcMarked(s: string, prev: string) {
    StartsWith(s, "@objc") || prev == "@objc" || Contains(s, "@objc ")
  }

  /** `prev_line` */
  function PreviousStripped(lines: seq<string>, i: nat): string
    requires i < |lines|
  {
    if i > 0 then Strip(lines[i - 1]) else ""
  }

  /** `l.match?(/^@main(?!Actor)\b/)` on a stripped line. */
  predicate MainAttribute(l: string) {
    StartsWith(l, "@main") && !OccursAt(l, "Actor", 5) && (|l| == 5 || !IsWordChar(l[5]))
  }

  /** `lookahead`: the stripped forms of the (up to) three lines before line `i`. */
  function Lookahead(lines: seq<string>, i: nat): (ls: seq<string>)
    requires i <= |lines|
    ensures |ls| == if i >= 3 then 3 else i
  {
    var from := if i >= 3 then i - 3 else 0;
    seq(i - from, j requires 0 <= j < i - from => Strip(lines[from + j]))
  }

  /** `lookahead.any? { |l| l.match?(/^@main(?!Actor)\b/) }` */
  predicate MainAbove(lines: seq<string>, i: nat)
    requires i <= |lines|
  {
    var ls := Lookahead(lines, i);
    exists j :: 0 <= j < |ls| && MainAttribute(ls[j])
  }

  /** The type is known to be used though nothing may name it: a class in a file with
      `@NSManaged`, or whose raw line names `UIApplicationDelegate`,
      `UNNotificationServiceExtension` or a test base class; a struct whose raw line names
      `PreviewProvider`. */
  predicate KnownUsed(content: string, line: string, k: Kind) {
    || (k == Class && Contains(content, "@NSManaged"))
    || (k == Class && Contains(line, "UIApplicationDelegate"))
    || (k == Class && Contains(line, "UNNotificationServiceExtension"))
    || (k == Class && IncludesAny(line, TestBaseClasses))
    || (k == Struct && Contains(line, "PreviewProvider"))
  }

  /** Line `i` is passed over by the rules that precede the pattern: a `///` line, a line
      with the word `extension`, an `@objc` declaration. */
  predicate SkippedLine(lines: seq<string>, i: nat)
    requires i < |lines|
  {
    var s := Strip(lines[i]);
    StartsWith(s, "///") || ContainsWord(s, "extension") || ObjcMarked(s, PreviousStripped(lines, i))
  }

  /** The declaration the pattern finds on line `i`, unless the type is known to be used
      or an `@main` line stands just above. */
  function Candidate(file: string, content: string, lines: seq<string>, i: nat): Option<Declaration>
    requires i < |lines|
  {
    match MatchHeader(Strip(lines[i]))
    case None => None
    case Some(h) =>
      if KnownUsed(content, lines[i], h.kind) || MainAbove(lines, i) then None
      else Some(Declaration(h.name, h.kind, file))
  }

  /** What line `i` adds to the result. */
  function DeclAt(file: string, content: string, lines: seq<string>, i: nat): Option<Declaration>
    requires i < |lines|
  {
    if InConditional(lines, i) || SkippedLine(lines, i) then None else Candidate(file, content, lines, i)
  }

  /** What each line adds to the result. */
  function DeclTable(file: string, content: string, lines: seq<string>): (ms: seq<Option<Declaration>>)
    ensures |ms| == |lines|
    ensures forall i :: 0 <= i < |lines| ==> ms[i] == DeclAt(file, content, lines, i)
  {
    seq(|lines|, i requires 0 <= i < |lines| => DeclAt(file, content, lines, i))
  }

  /** The present entries among the first `n`, in order. */
  function PresentUpTo<T>(ms: seq<Option<T>>, n: nat): seq<T>
    requires n <= |ms|
  {
    if n == 0 then []
    else PresentUpTo(ms, n - 1) + match ms[n - 1] case None => [] case Some(d) => [d]
  }

  /** `extract_declarations` on a file with the given path and contents. */
  function Declarations(file: string, content: string): seq<Declaration> {
    if Contains(content, "NSClassFromString") then []
    else
      var lines := Lines(content);
      PresentUpTo(DeclTable(file, content, lines), |lines|)
  }

  method ExtractDeclarations(file: string, content: string) returns (declarations: seq<Declaration>)
    ensures declarations == Declarations(file, content)
  {
    declarations := [];
    if Contains(content, "NSClassFromString") {
      return;
    }
    var lines := Lines(content);
    var inDebugBlock := false;
    ghost var table := DeclTable(file, content, lines);
    for idx := 0 to |lines|
      invariant inDebugBlock == DebugBefore(lines, idx)
      invariant declarations == PresentUpTo(table, idx)
    {
      var d;
      inDebugBlock, d := ScanLine(file, content, lines, idx, inDebugBlock);
      if d.Some? {
        declarations := declarations + [d.value];
      }
    }
  }

  /** One pass of the loop body: the `#if` rules first, then the rest. */
  method ScanLine(file: string, content: string, lines: seq<string>, idx: nat, inDebugBlock: bool)
    returns (inDebugBlockAfter: bool, d: Option<Declaration>)
    requires idx < |lines| && inDebugBlock == DebugBefore(lines, idx)
    ensures inDebugBlockAfter == DebugBefore(lines, idx + 1)
    ensures d == DeclAt(file, content, lines, idx)
  {
    var stripped := Strip(lines[idx]);
    inDebugBlockAfter, d := inDebugBlock, None;
    if OpensConditional(stripped) {
      inDebugBlockAfter := true;
      return;
    }
    if inDebugBlock {
      if stripped == "#endif" {
        inDebugBlockAfter := false;
      }
      return;
    }
    d := LineDeclaration(file, content, lines, idx);
  }

  /** The rest of the loop body, for a line outside any `#if` block: each `next` there
      is a return without a declaration. */
  method LineDeclaration(file: string, content: string, lines: seq<string>, idx: nat) returns (d: Option<Declaration>)
    requires idx < |lines|
    ensures d == if SkippedLine(lines, idx) then None else Candidate(file, content, lines, idx)
  {
    d := None;
    var stripped := Strip(lines[idx]);
    if StartsWith(stripped, "///") {
      return;
    }
    if ContainsWord(stripped, "extension") {
      return;
    }
    var prevLine := if idx > 0 then Strip(lines[idx - 1]) else "";
    if StartsWith(stripped, "@objc") || prevLine == "@objc" || Contains(stripped, "@objc ") {
      return;
    }
    d := MatchedDeclaration(file, content, lines, idx);
  }

  /** From the pattern match on: the declaration found, unless a later `next` skips it. */
  method MatchedDeclaration(file: string, content: string, lines: seq<string>, idx: nat) returns (d: Option<Declaration>)
    requires idx < |lines|
    ensures d == Candidate(file, content, lines, idx)
  {
    var line := lines[idx];
    d := None;
    var m := MatchHeader(Strip(line));
    if m.None? {
      return;
    }
    var kind, name := m.value.kind, m.value.name;
    if kind == Class && Contains(content, "@NSManaged") {
      return;
    }
    if kind == Class && Contains(line, "UIApplicationDelegate") {
      return;
    }
    if kind == Class && Contains(line, "UNNotificationServiceExtension") {
      return;
    }
    if kind == Class && IncludesAny(line, TestBaseClasses) {
      return;
    }
    if kind == Struct && Contains(line, "PreviewProvider") {
      return;
    }
    assert !KnownUsed(content, line, kind);
    var lookahead := Lookahead(lines, idx);
    if exists j :: 0 <= j < |lookahead| && MainAttribute(lookahead[j]) {
      return;
    }
    d := Some(Declaration(name, kind, file));
  }

  // ------------------------------------------------------------ properties

  /** An entry is in the result exactly when some line among the first `n` supplies it. */
  lemma {:induction false} PresentMembership<T>(ms: seq<Option<T>>, n: nat, x: T)
    requires n <= |ms|
    ensures x in PresentUpTo(ms, n) <==> exists i :: 0 <= i < n && ms[i] == Some(x)
  {
    if n > 0 {
      PresentMembership(ms, n - 1, x);
      if ms[n - 1] == Some(x) {
        assert x in PresentUpTo(ms, n);
      }
    }
  }

  /** Lines that supply nothing leave the result as it was. */
  lemma {:induction false} PresentUnchanged<T>(ms: seq<Option<T>>, j: nat, n: nat)
    requires j <= n <= |ms|
    requires forall k :: j <= k < n ==> ms[k].None?
    ensures PresentUpTo(ms, n) == PresentUpTo(ms, j)
  {
    if j < n {
      PresentUnchanged(ms, j, n - 1);
    }
  }

  /** What a line contributes, rule by rule: nothing when it is under an `#if`, is a `///`
      line, mentions the word `extension` or is marked `@objc`; otherwise the leftmost
      header of the stripped line, named and kinded as the pattern captured it and filed
      under the given path, unless the type is known to be used or `@main` stands above. */
  lemma DeclAtCharacterized(file: string, content: string, lines: seq<string>, i: nat, d: Declaration)
    requires i < |lines|
    ensures DeclAt(file, content, lines, i) == Some(d) <==>
      && !InConditional(lines, i)
      && !StartsWith(Strip(lines[i]), "///")
      && !ContainsWord(Strip(lines[i]), "extension")
      && !ObjcMarked(Strip(lines[i]), PreviousStripped(lines, i))
      && MatchHeader(Strip(lines[i])) == Some(Header(d.kind, d.name))
      && !KnownUsed(content, lines[i], d.kind)
      && !MainAbove(lines, i)
      && d.file == file
  {
  }

  /** Every declaration found is one of the four kinds, carries a name the pattern can
      capture, and is filed under the path it was read from; a file that mentions
      `NSClassFromString` yields nothing, and one with `@NSManaged` yields no class. */
  lemma DeclarationsShape(file: string, content: string)
    ensures Contains(content, "NSClassFromString") ==> Declarations(file, content) == []
    ensures forall d :: d in Declarations(file, content) ==> d.file == file && IsTypeName(d.name)
    ensures Contains(content, "@NSManaged") ==> forall d :: d in Declarations(file, content) ==> d.kind != Class
  {
    if !Contains(content, "NSClassFromString") {
      var lines := Lines(content);
      var table := DeclTable(file, content, lines);
      forall d | d in Declarations(file, content)
        ensures d.file == file && IsTypeName(d.name)
        ensures Contains(content, "@NSManaged") ==> d.kind != Class
      {
        PresentMembership(table, |lines|, d);
        var i :| 0 <= i < |lines| && table[i] == Some(d);
        DeclAtCharacterized(file, content, lines, i, d);
      }
    }
  }

  /** Without `NSClassFromString`, the result holds exactly the declarations some line
      contributes. */
  lemma DeclarationsMembership(file: string, content: string, lines: seq<string>, d: Declaration)
    requires !Contains(content, "NSClassFromString") && lines == Lines(content)
    ensures d in Declarations(file, content) <==>
      exists i :: 0 <= i < |lines| && DeclAt(file, content, lines, i) == Some(d)
  {
    TableMembership(file, content, lines, d);
  }

  /** `extract_declarations` rule by rule: a declaration is in the result exactly when
      the file does not mention `NSClassFromString`, the declaration is filed under the
      file's path, and some line is under no `#if`, is no `///` line, has no word
      `extension`, is not marked `@objc`, and has it as the leftmost header of its
      stripped form, with the type not known to be used and no `@main` just above. */
  lemma DeclarationsCharacterized(file: string, content: string, lines: seq<string>, d: Declaration)
    requires lines == Lines(content)
    ensures d in Declarations(file, content) <==>
      && !Contains(content, "NSClassFromString")
      && d.file == file
      && exists i :: 0 <= i < |lines|
           && !InConditional(lines, i)
           && !StartsWith(Strip(lines[i]), "///")
           && !ContainsWord(Strip(lines[i]), "extension")
           && !ObjcMarked(Strip(lines[i]), PreviousStripped(lines, i))
           && MatchHeader(Strip(lines[i])) == Some(Header(d.kind, d.name))
           && !KnownUsed(content, lines[i], d.kind)
           && !MainAbove(lines, i)
  {
    if !Contains(content, "NSClassFromString") {
      DeclarationsMembership(file, content, lines, d);
      forall i | 0 <= i < |lines|
        ensures DeclAt(file, content, lines, i) == Some(d) <==>
          && !InConditional(lines, i)
          && !StartsWith(Strip(lines[i]), "///")
          && !ContainsWord(Strip(lines[i]), "extension")
          && !ObjcMarked(Strip(lines[i]), PreviousStripped(lines, i))
          && MatchHeader(Strip(lines[i])) == Some(Header(d.kind, d.name))
          && !KnownUsed(content, lines[i], d.kind)
          && !MainAbove(lines, i)
          && d.file == file
      {
        DeclAtCharacterized(file, content, lines, i, d);
      }
    }
  }

  lemma TableMembership(file: string, content: string, lines: seq<string>, d: Declaration)
    ensures d in PresentUpTo(DeclTable(file, content, lines), |lines|) <==>
      exists i :: 0 <= i < |lines| && DeclAt(file, content, lines, i) == Some(d)
  {
    var table := DeclTable(file, content, lines);
    PresentMembership(table, |lines|, d);
    if d in PresentUpTo(table, |lines|) {
      var i :| 0 <= i < |lines| && table[i] == Some(d);
      assert DeclAt(file, content, lines, i) == Some(d);
    }
  }

  /** `#endif` is not an `#if` line. */
  lemma EndifOpensNothing()
    ensures !OpensConditional("#endif")
  {
    assert "#endif"[1] == 'e';
  }

  /** While the flag is set, the `#if` line that set it can be named. */
  lemma {:induction false} DebugBeforeOpener(lines: seq<string>, i: nat) returns (j: nat)
    requires i <= |lines| && DebugBefore(lines, i)
    ensures j < i && OpensConditional(Strip(lines[j]))
    ensures forall k :: j < k < i ==> Strip(lines[k]) != "#endif"
  {
    if OpensConditional(Strip(lines[i - 1])) {
      j := i - 1;
    } else {
      j := DebugBeforeOpener(lines, i - 1);
    }
  }

  /** An `#if` line sets the flag, and no line but `#endif` clears it. */
  lemma {:induction false} DebugBeforeFromOpener(lines: seq<string>, j: nat, i: nat)
    requires j < i <= |lines| && OpensConditional(Strip(lines[j]))
    requires forall k :: j < k < i ==> Strip(lines[k]) != "#endif"
    ensures DebugBefore(lines, i)
  {
    if j < i - 1 {
      DebugBeforeFromOpener(lines, j, i - 1);
    }
  }

  /** `in_debug_block` holds at line `i` exactly when some earlier line opens a conditional
      and no line after it up to `i` strips to exactly `#endif`: the first such line ends
      the block, however many `#if` lines it contains, and a block that is never closed
      runs to the end. */
  lemma DebugBeforeCharacterized(lines: seq<string>, i: nat)
    requires i <= |lines|
    ensures DebugBefore(lines, i) <==>
      exists j :: 0 <= j < i && OpensConditional(Strip(lines[j])) &&
        forall k :: j < k < i ==> Strip(lines[k]) != "#endif"
  {
    if DebugBefore(lines, i) {
      var j := DebugBeforeOpener(lines, i);
    }
    forall j | 0 <= j < i && OpensConditional(Strip(lines[j])) &&
        forall k :: j < k < i ==> Strip(lines[k]) != "#endif"
      ensures DebugBefore(lines, i)
    {
      DebugBeforeFromOpener(lines, j, i);
    }
  }

  /** Only a line that is exactly `#endif` once stripped closes the block: one that carries
      a trailing comment, as in `#endif // DEBUG`, leaves it open. */
  lemma CommentedEndifKeepsBlockOpen(lines: seq<string>, i: nat)
    requires i < |lines| && DebugBefore(lines, i)
    requires Strip(lines[i]) == "#endif // DEBUG"
    ensures DebugBefore(lines, i + 1)
  {
    assert Strip(lines[i])[7] == '/';
  }

  /** No line from an `#if` line up to and including the first `#endif` after it
      contributes a declaration. */
  lemma ConditionalSuppresses(file: string, content: string, lines: seq<string>, j: nat, i: nat)
    requires j <= i < |lines|
    requires OpensConditional(Strip(lines[j]))
    requires forall k :: j < k < i ==> Strip(lines[k]) != "#endif"
    ensures DeclAt(file, content, lines, i) == None
  {
    if j < i {
      DebugBeforeCharacterized(lines, i);
    }
  }

  /** An `#if` that no later line closes suppresses every line after it: the result is
      what the lines before it gave. */
  lemma UnterminatedConditional(file: string, content: string, j: nat)
    requires !Contains(content, "NSClassFromString")
    requires j < |Lines(content)| && OpensConditional(Strip(Lines(content)[j]))
    requires forall k :: j < k < |Lines(content)| ==> Strip(Lines(content)[k]) != "#endif"
    ensures Declarations(file, content) == PresentUpTo(DeclTable(file, content, Lines(content)), j)
  {
    var lines := Lines(content);
    var table := DeclTable(file, content, lines);
    forall k | j <= k < |lines|
      ensures table[k].None?
    {
      ConditionalSuppresses(file, content, lines, j, k);
    }
    PresentUnchanged(table, j, |lines|);
  }

  /** After the first `#endif` that closes a block, lines count again until the next
      `#if`. */
  lemma EndifReopens(file: string, content: string, lines: seq<string>, e: nat, i: nat)
    requires e < i < |lines|
    requires Strip(lines[e]) == "#endif"
    requires forall k :: e < k <= i ==> !OpensConditional(Strip(lines[k]))
    ensures !InConditional(lines, i)
  {
    DebugBeforeCharacterized(lines, i);
    if DebugBefore(lines, i) {
      var j :| 0 <= j < i && OpensConditional(Strip(lines[j])) &&
        forall k :: j < k < i ==> Strip(lines[k]) != "#endif";
      if j == e {
        EndifOpensNothing();
      }
      assert false;
    }
  }

  /** The look-ahead in `(?!Actor)` is subsumed by `\b`: `@mainActor` fails the word
      boundary anyway, so `@main` is recognised exactly when no word character follows. */
  lemma MainAttributeIsWordBoundary(l: string)
    ensures MainAttribute(l) <==> StartsWith(l, "@main") && (|l| == 5 || !IsWordChar(l[5]))
  {
    OccurrenceChar(l, "Actor", 5, 5);
  }

  /** `@MainActor` does not mark a type as used. */
  lemma MainActorIsNotMain(l: string)
    requires StartsWith(l, "@MainActor")
    ensures !MainAttribute(l)
  {
    PrefixChar(l, "@MainActor", 1);
    PrefixChar(l, "@main", 1);
  }

  /** Entry `j` of the window is the stripped line `|window|` lines up from `i`, plus `j`. */
  lemma LookaheadAt(lines: seq<string>, i: nat, j: nat)
    requires i <= |lines| && j < |Lookahead(lines, i)|
    ensures i - |Lookahead(lines, i)| + j >= 0
    ensures Lookahead(lines, i)[j] == Strip(lines[i - |Lookahead(lines, i)| + j])
  {
  }

  lemma MainInWindow(lines: seq<string>, i: nat, j: nat)
    requires i <= |lines| && i - 3 <= j < i
    requires MainAttribute(Strip(lines[j]))
    ensures MainAbove(lines, i)
  {
    var ls := Lookahead(lines, i);
    var k := j - (i - |ls|);
    LookaheadAt(lines, i, k);
    assert MainAttribute(ls[k]);
  }

  lemma MainFromWindow(lines: seq<string>, i: nat) returns (j: nat)
    requires i <= |lines| && MainAbove(lines, i)
    ensures i - 3 <= j < i && MainAttribute(Strip(lines[j]))
  {
    var ls := Lookahead(lines, i);
    var k :| 0 <= k < |ls| && MainAttribute(ls[k]);
    LookaheadAt(lines, i, k);
    j := i - |ls| + k;
  }

  /** The look-behind covers exactly the three lines above line `i` (fewer near the top). */
  lemma MainAboveWithinThreeLines(lines: seq<string>, i: nat)
    requires i <= |lines|
    ensures MainAbove(lines, i) <==> exists j: nat :: i - 3 <= j < i && MainAttribute(Strip(lines[j]))
  {
    if MainAbove(lines, i) {
      var j := MainFromWindow(lines, i);
    }
    forall j: nat | i - 3 <= j < i && MainAttribute(Strip(lines[j]))
      ensures MainAbove(lines, i)
    {
      MainInWindow(lines, i, j);
    }
  }
}
