// `strip_comments`: the text the reference search looks at. Each line is stripped of
// whitespace for the tests only; a line is dropped while a block comment is open (the
// block closes on the first line whose stripped form ends in `*/`), when it opens a block
// (its stripped form starts with `/*`), and when it is a `//` or `///` line. Every other
// line is kept as it was, minus an inline `//` comment. The kept lines are concatenated.
//
// Block comments do not nest: a `/*` inside an open block is ignored. And since `/*` is
// tested before anything else, a one-line `/* ... */` opens a block too.
module CommentStripper {
  import opened Text

  /** A line without its newline, if it has one. */
  function Chomp(l: string): string {
    if EndsWithNewline(l) then l[..|l| - 1] else l
  }

  /** `line.gsub(/\/\/.*$/, "")` on one line of `each_line`: from the first `//` up to
      the end of the line goes, and the newline, which `.` does not match, stays. */
  function RemoveLineComment(line: string): string {
    match Find(line, "//")
    case None => line
    case Some(k) => line[..k] + (if EndsWithNewline(line) then "\n" else "")
  }

  /** What the inline-comment removal leaves of a line: the part of the line before its
      first `//` (all of it when there is none), with the newline it had. */
  lemma RemoveLineCommentShape(line: string)
    requires IsLine(line)
    ensures !Contains(RemoveLineComment(line), "//")
    ensures !Contains(line, "//") ==> RemoveLineComment(line) == line
    ensures EndsWithNewline(RemoveLineComment(line)) <==> EndsWithNewline(line)
    ensures StartsWith(line, Chomp(RemoveLineComment(line)))
    ensures Contains(line, "//") ==> OccursAt(line, "//", |Chomp(RemoveLineComment(line))|)
    ensures forall i: nat :: i < |Chomp(RemoveLineComment(line))| ==> !OccursAt(line, "//", i)
  {
    match Find(line, "//")
    case None =>
    case Some(k) =>
      var nl := if EndsWithNewline(line) then "\n" else "";
      var r := line[..k] + nl;
      assert Chomp(r) == line[..k];
      assert !Contains(line[..k], "//") by {
        forall i: nat | i <= k ensures !OccursAt(line[..k], "//", i) {
          if OccursAt(line[..k], "//", i) {
            OccursInPrefix(line, k, "//", i);
          }
        }
      }
      assert !Contains(nl, "//") by {
        NewlineNoDoubleSlash();
        if nl == [] {
          assert !OccursAt(nl, "//", 0);
        }
      }
      NoDoubleSlashAcross(line[..k], nl);
  }

  /** The `in_block_comment` flag after a stripped line. */
  function NextState(inBlock: bool, s: string): bool {
    if inBlock then !EndsWith(s, "*/") else StartsWith(s, "/*")
  }

  /** The flag when line `n` is reached. */
  function StateBefore(lines: seq<string>, n: nat): bool
    requires n <= |lines|
  {
    if n == 0 then false else NextState(StateBefore(lines, n - 1), Strip(lines[n - 1]))
  }

  /** Line `i` survives: no block is open, it opens none and it is no `//` line. */
  predicate KeptAt(lines: seq<string>, i: nat)
    requires i < |lines|
  {
    var s := Strip(lines[i]);
    !StateBefore(lines, i) && !StartsWith(s, "/*") && !StartsWith(s, "//")
  }

  /** The `result` array after the first `n` lines. */
  function StrippedUpTo(lines: seq<string>, n: nat): seq<string>
    requires n <= |lines|
  {
    if n == 0 then []
    else StrippedUpTo(lines, n - 1) + (if KeptAt(lines, n - 1) then [RemoveLineComment(lines[n - 1])] else [])
  }

  /** `strip_comments(source)` */
  function Stripped(source: string): string {
    var lines := Lines(source);
    Concat(StrippedUpTo(lines, |lines|))
  }

  /** A `///` line is a `//` line. */
  lemma TripleSlashIsLineComment(s: string)
    requires StartsWith(s, "///")
    ensures StartsWith(s, "//")
  {
    assert s[..2] == s[..3][..2];
  }

  method StripComments(source: string) returns (r: string)
    ensures r == Stripped(source)
    ensures !Contains(r, "//")
  {
    var lines := Lines(source);
    var result: seq<string> := [];
    var inBlockComment := false;
    for i := 0 to |lines|
      invariant inBlockComment == StateBefore(lines, i)
      invariant result == StrippedUpTo(lines, i)
    {
      var stripped := Strip(lines[i]);
      if inBlockComment {
        if EndsWith(stripped, "*/") {
          inBlockComment := false;
        }
      } else if StartsWith(stripped, "/*") {
        inBlockComment := true;
      } else if StartsWith(stripped, "///") {
        TripleSlashIsLineComment(stripped);
      } else if StartsWith(stripped, "//") {
      } else {
        result := result + [RemoveLineComment(lines[i])];
      }
    }
    r := Concat(result);
    NoLineCommentMarker(source);
  }

  // ------------------------------------------------------------ block comments

  // From a `/*` line outside a block up to (not including) line `j`, with no line in
  // between ending in `*/`, the block stays open and every line is dropped, whatever
  // other `/*` those lines hold.
  lemma {:induction false} BlockStaysOpen(lines: seq<string>, i: nat, j: nat)
    requires i < j <= |lines|
    requires !StateBefore(lines, i) && StartsWith(Strip(lines[i]), "/*")
    requires forall k :: i < k < j ==> !EndsWith(Strip(lines[k]), "*/")
    ensures StateBefore(lines, j)
    ensures forall k :: i <= k < j ==> !KeptAt(lines, k)
  {
    if j > i + 1 {
      BlockStaysOpen(lines, i, j - 1);
      assert StateBefore(lines, j) == !EndsWith(Strip(lines[j - 1]), "*/");
    }
  }

  // The first later line that ends in `*/` closes the block: it is dropped too, and
  // the line after it starts outside any block.
  lemma BlockClosesAt(lines: seq<string>, i: nat, c: nat)
    requires i < c < |lines|
    requires !StateBefore(lines, i) && StartsWith(Strip(lines[i]), "/*")
    requires forall k :: i < k < c ==> !EndsWith(Strip(lines[k]), "*/")
    requires EndsWith(Strip(lines[c]), "*/")
    ensures forall k :: i <= k <= c ==> !KeptAt(lines, k)
    ensures !StateBefore(lines, c + 1)
  {
    BlockStaysOpen(lines, i, c);
  }

  // While a block is open, the `/*` line that opened it can be named: it lies outside
  // any block, and no line since ends in `*/`.
  lemma {:induction false} BlockOpener(lines: seq<string>, i: nat) returns (j: nat)
    requires i <= |lines| && StateBefore(lines, i)
    ensures j < i && !StateBefore(lines, j) && StartsWith(Strip(lines[j]), "/*")
    ensures forall k :: j < k < i ==> !EndsWith(Strip(lines[k]), "*/")
  {
    if StateBefore(lines, i - 1) {
      assert !EndsWith(Strip(lines[i - 1]), "*/");
      j := BlockOpener(lines, i - 1);
    } else {
      j := i - 1;
    }
  }

  // A block is open at line `i` exactly when some earlier `/*` line outside any block
  // opened it and no line since ends in `*/`; nothing else ever sets the flag.
  lemma StateBeforeCharacterized(lines: seq<string>, i: nat)
    requires i <= |lines|
    ensures StateBefore(lines, i) <==>
      exists j :: 0 <= j < i && !StateBefore(lines, j) && StartsWith(Strip(lines[j]), "/*") &&
        forall k :: j < k < i ==> !EndsWith(Strip(lines[k]), "*/")
  {
    if StateBefore(lines, i) {
      var j := BlockOpener(lines, i);
    }
    forall j | 0 <= j < i && !StateBefore(lines, j) && StartsWith(Strip(lines[j]), "/*") &&
        forall k :: j < k < i ==> !EndsWith(Strip(lines[k]), "*/")
      ensures StateBefore(lines, i)
    {
      BlockStaysOpen(lines, j, i);
    }
  }

  // The converse of the block lemmas: a line is kept exactly when it is no `//` line,
  // opens no block, and lies in no block opened by an earlier `/*` line and not closed
  // by a line ending in `*/` since.
  lemma KeptIffOutsideBlocks(lines: seq<string>, i: nat)
    requires i < |lines|
    ensures KeptAt(lines, i) <==>
      && !StartsWith(Strip(lines[i]), "/*")
      && !StartsWith(Strip(lines[i]), "//")
      && !exists j :: 0 <= j < i && !StateBefore(lines, j) && StartsWith(Strip(lines[j]), "/*") &&
           forall k :: j < k < i ==> !EndsWith(Strip(lines[k]), "*/")
  {
    StateBeforeCharacterized(lines, i);
  }

  lemma DroppedLine(lines: seq<string>, n: nat)
    requires 0 < n <= |lines| && !KeptAt(lines, n - 1)
    ensures StrippedUpTo(lines, n) == StrippedUpTo(lines, n - 1)
  {
  }

  // With no later line ending in `*/`, nothing from the `/*` line on survives.
  lemma {:induction false} UnclosedBlockDropsRest(lines: seq<string>, i: nat, n: nat)
    requires i <= n <= |lines| && i < |lines|
    requires !StateBefore(lines, i) && StartsWith(Strip(lines[i]), "/*")
    requires forall k :: i < k < |lines| ==> !EndsWith(Strip(lines[k]), "*/")
    ensures StrippedUpTo(lines, n) == StrippedUpTo(lines, i)
  {
    if n > i {
      assert !KeptAt(lines, n - 1) by {
        BlockStaysOpen(lines, i, n);
      }
      calc {
        StrippedUpTo(lines, n);
      == { DroppedLine(lines, n); }
        StrippedUpTo(lines, n - 1);
      == { UnclosedBlockDropsRest(lines, i, n - 1); }
        StrippedUpTo(lines, i);
      }
    }
  }

  // A one-line block comment, a stripped line that starts with `/*` and ends in `*/`,
  // opens a block all the same: the line after it is dropped, whatever it holds.
  lemma OneLineBlockCommentOpensBlock(lines: seq<string>, i: nat)
    requires i + 1 < |lines|
    requires !StateBefore(lines, i) && StartsWith(Strip(lines[i]), "/*") && EndsWith(Strip(lines[i]), "*/")
    ensures !KeptAt(lines, i) && !KeptAt(lines, i + 1)
  {
  }

  // ------------------------------------------------------------ the kept text

  /** A kept line after inline-comment removal: a line with no `//`, whose stripped form
      opens no block comment and is no `//` line. */
  predicate CleanLine(l: string) {
    && IsLine(l)
    && !Contains(l, "//")
    && !StartsWith(Strip(l), "/*")
    && !StartsWith(Strip(l), "//")
  }

  /** A `//` that does not start the stripped line has a non-blank character before it. */
  lemma TextBeforeComment(line: string, k: nat)
    requires OccursAt(line, "//", k)
    requires !StartsWith(TrimStart(line), "//")
    ensures LeadSpaces(line[..k]) < k
  {
    var x, rest := line[..k], line[k..];
    assert line == x + rest;
    LeadSpacesAppend(x, rest);
    assert rest[..2] == line[k..k + 2];
    assert LeadSpaces(rest) == 0;
    assert StartsWith(rest, "//");
    if LeadSpaces(x) == |x| {
      assert false;
    }
  }

  /** Cutting a kept line before its first `//` cannot make its stripped form start a
      comment. */
  lemma CutLineStrip(line: string, k: nat, nl: string)
    requires OccursAt(line, "//", k)
    requires nl == [] || nl == "\n"
    requires !StartsWith(Strip(line), "/*") && !StartsWith(Strip(line), "//")
    ensures !StartsWith(Strip(line[..k] + nl), "/*") && !StartsWith(Strip(line[..k] + nl), "//")
  {
    StripStartsWith(line, "//");
    TextBeforeComment(line, k);
    assert line == line[..k] + line[k..];
    StripStartsWithPrefix(line[..k], nl, line[k..], "/*");
    StripStartsWithPrefix(line[..k], nl, line[k..], "//");
  }

  /** Cutting a line before a `//` leaves a line. */
  lemma CutLineIsLine(line: string, k: nat, nl: string)
    requires IsLine(line) && OccursAt(line, "//", k) && 0 < k
    requires nl == [] || nl == "\n"
    ensures IsLine(line[..k] + nl)
  {
    var r := line[..k] + nl;
    forall j | 0 <= j < |r| - 1 ensures r[j] != '\n' {
      assert r[j] == line[j];
    }
  }

  /** Removing the inline comment of a line that is not dropped leaves a clean line with
      the newline it had. */
  lemma KeptLineShape(line: string)
    requires IsLine(line)
    requires !StartsWith(Strip(line), "/*") && !StartsWith(Strip(line), "//")
    ensures CleanLine(RemoveLineComment(line))
    ensures EndsWithNewline(RemoveLineComment(line)) <==> EndsWithNewline(line)
  {
    RemoveLineCommentShape(line);
    match Find(line, "//")
    case None =>
    case Some(k) =>
      var nl := if EndsWithNewline(line) then "\n" else "";
      assert RemoveLineComment(line) == line[..k] + nl;
      CutLineStrip(line, k, nl);
      if k == 0 {
        // the stripped line would start with `//`
        StripStartsWith(line, "//");
        TextBeforeComment(line, k);
        assert false;
      }
      CutLineIsLine(line, k, nl);
  }

  /** The kept lines so far are clean, and all of them end in a newline unless the last
      one is the input's last line. */
  lemma {:induction false} StrippedUpToShape(lines: seq<string>, n: nat)
    requires WellFormedLines(lines) && n <= |lines|
    ensures forall j :: 0 <= j < |StrippedUpTo(lines, n)| ==> CleanLine(StrippedUpTo(lines, n)[j])
    ensures forall j :: 0 <= j < |StrippedUpTo(lines, n)| ==>
      (j < |StrippedUpTo(lines, n)| - 1 || n < |lines|) ==> EndsWithNewline(StrippedUpTo(lines, n)[j])
  {
    if n > 0 {
      StrippedUpToShape(lines, n - 1);
      var prev, kept := StrippedUpTo(lines, n - 1), StrippedUpTo(lines, n);
      if KeptAt(lines, n - 1) {
        var l := lines[n - 1];
        assert IsLine(l) && (n < |lines| ==> EndsWithNewline(l));
        KeptLineShape(l);
        assert kept == prev + [RemoveLineComment(l)];
        forall j | 0 <= j < |kept|
          ensures CleanLine(kept[j])
          ensures (j < |kept| - 1 || n < |lines|) ==> EndsWithNewline(kept[j])
        {
          if j < |prev| {
            assert kept[j] == prev[j];
            assert CleanLine(prev[j]);
          } else {
            assert kept[j] == RemoveLineComment(l);
          }
        }
      } else {
        assert kept == prev;
      }
    }
  }

  /** The kept lines are lines in the sense of `String#lines`, so splitting the output
      gives them back. */
  lemma StrippedLines(source: string)
    ensures var kept := StrippedUpTo(Lines(source), |Lines(source)|);
      && WellFormedLines(kept)
      && Lines(Stripped(source)) == kept
      && (forall j :: 0 <= j < |kept| ==> CleanLine(kept[j]))
  {
    var lines := Lines(source);
    LinesOfText(source);
    StrippedUpToShape(lines, |lines|);
    LinesOfConcat(StrippedUpTo(lines, |lines|));
  }

  /** No `//` survives stripping: every inline comment marker is gone. */
  lemma NoLineCommentMarker(source: string)
    ensures !Contains(Stripped(source), "//")
  {
    var lines := Lines(source);
    var kept := StrippedUpTo(lines, |lines|);
    StrippedLines(source);
    ConcatNoDoubleSlash(kept);
  }

  /** Clean lines pass a second round untouched. */
  lemma {:induction false} CleanLinesKept(lines: seq<string>, n: nat)
    requires n <= |lines|
    requires forall j :: 0 <= j < |lines| ==> CleanLine(lines[j])
    ensures !StateBefore(lines, n)
    ensures StrippedUpTo(lines, n) == lines[..n]
  {
    if n > 0 {
      CleanLinesKept(lines, n - 1);
      var l := lines[n - 1];
      assert CleanLine(l);
      assert Find(l, "//").None?;
      assert lines[..n] == lines[..n - 1] + [l];
    }
  }

  /** Stripping twice is stripping once. */
  lemma StripIdempotent(source: string)
    ensures Stripped(Stripped(source)) == Stripped(source)
  {
    var kept := StrippedUpTo(Lines(source), |Lines(source)|);
    StrippedLines(source);
    CleanLinesKept(kept, |kept|);
    assert kept[..|kept|] == kept;
  }
}
