// The lines-of-code report: `count_lines` classifies each stripped line of one file as
// blank, comment or code while tracking one flag, `in_block_comment`, and
// `search_swift_files` adds the per-file counts over every selected file.
//
// The rule order is the source's: `//` is tested before `/*`, and `*/` at the end of a
// line is tested before the block flag, so a code line that merely ends in `*/` counts
// as a comment, and a one-line `/* ... */` opens a block that only a later line ending
// in `*/` closes.
module LineCounter {
  import opened Text
  import opened FileSelector

  datatype LineKind = Blank | Comment | Code

  datatype LineCounts = LineCounts(code: nat, blank: nat, comment: nat)

  datatype Totals = Totals(code: nat, blank: nat, comment: nat, files: nat, total: nat)

  /** The kind `count_lines` gives a stripped line. */
  function Classify(inBlock: bool, s: string): LineKind {
    if s == [] then Blank
    else if StartsWith(s, "//") then Comment
    else if StartsWith(s, "/*") then Comment
    else if EndsWith(s, "*/") then Comment
    else if inBlock then Comment
    else Code
  }

  /** The `in_block_comment` flag after a stripped line. */
  function BlockAfter(inBlock: bool, s: string): bool {
    if s == [] || StartsWith(s, "//") then inBlock
    else if StartsWith(s, "/*") then true
    else if EndsWith(s, "*/") then false
    else inBlock
  }

  /** The flag when line `n` is reached. */
  function BlockBefore(lines: seq<string>, n: nat): bool
    requires n <= |lines|
  {
    if n == 0 then false else BlockAfter(BlockBefore(lines, n - 1), Strip(lines[n - 1]))
  }

  function KindAt(lines: seq<string>, i: nat): LineKind
    requires i < |lines|
  {
    Classify(BlockBefore(lines, i), Strip(lines[i]))
  }

  function Bump(c: LineCounts, k: LineKind): LineCounts {
    match k
    case Blank => c.(blank := c.blank + 1)
    case Comment => c.(comment := c.comment + 1)
    case Code => c.(code := c.code + 1)
  }

  /** The three counters after the first `n` lines. */
  function Tally(lines: seq<string>, n: nat): LineCounts
    requires n <= |lines|
  {
    if n == 0 then LineCounts(0, 0, 0) else Bump(Tally(lines, n - 1), KindAt(lines, n - 1))
  }

  function Sum(c: LineCounts): nat {
    c.code + c.blank + c.comment
  }

  /** The lines among the first `n` whose stripped form is empty. */
  function BlankLines(lines: seq<string>, n: nat): set<nat>
    requires n <= |lines|
  {
    set i: nat | i < n && Strip(lines[i]) == []
  }

  /** The blank lines are exactly the lines made of whitespace alone. */
  lemma BlankLinesAreWhitespace(lines: seq<string>, n: nat)
    requires n <= |lines|
    ensures forall i: nat :: i < n ==>
      (i in BlankLines(lines, n) <==> forall j :: 0 <= j < |lines[i]| ==> IsSpace(lines[i][j]))
  {
    forall i: nat | i < n
      ensures i in BlankLines(lines, n) <==> forall j :: 0 <= j < |lines[i]| ==> IsSpace(lines[i][j])
    {
      StripEmpty(lines[i]);
    }
  }

  lemma BumpCounts(c: LineCounts, k: LineKind)
    ensures Sum(Bump(c, k)) == Sum(c) + 1
    ensures Bump(c, k).blank == if k == Blank then c.blank + 1 else c.blank
  {
  }

  /** Only a line that strips to nothing is blank, whatever the block flag. */
  lemma BlankIffEmpty(inBlock: bool, s: string)
    ensures Classify(inBlock, s) == Blank <==> s == []
  {
  }

  /** One more line adds itself to the blank lines exactly when it strips to nothing. */
  lemma BlankLinesStep(lines: seq<string>, n: nat)
    requires 0 < n <= |lines|
    ensures |BlankLines(lines, n)| == |BlankLines(lines, n - 1)| + if Strip(lines[n - 1]) == [] then 1 else 0
  {
    var now, before := BlankLines(lines, n), BlankLines(lines, n - 1);
    if Strip(lines[n - 1]) == [] {
      assert now == before + {n - 1} by {
        forall i | i in now ensures i in before + {n - 1} {
          if i != n - 1 { assert i in before; }
        }
      }
      assert n - 1 !in before;
    } else {
      assert now == before by {
        forall i | i in now ensures i in before {
          assert i != n - 1;
        }
      }
    }
  }

  /** Every line lands in exactly one counter, and the blank counter counts exactly the
      lines that strip to nothing. */
  lemma {:induction false} TallyAccounts(lines: seq<string>, n: nat)
    requires n <= |lines|
    ensures Sum(Tally(lines, n)) == n
    ensures Tally(lines, n).blank == |BlankLines(lines, n)|
  {
    if n > 0 {
      TallyAccounts(lines, n - 1);
      BumpCounts(Tally(lines, n - 1), KindAt(lines, n - 1));
      BlankIffEmpty(BlockBefore(lines, n - 1), Strip(lines[n - 1]));
      BlankLinesStep(lines, n);
    }
  }

  /** `count_lines` over the contents of one file. */
  method CountLines(content: string) returns (counts: LineCounts)
    ensures counts == Tally(Lines(content), |Lines(content)|)
    ensures Sum(counts) == |Lines(content)|
    ensures counts.blank == |BlankLines(Lines(content), |Lines(content)|)|
  {
    var lines := Lines(content);
    var linesOfCode: nat, blankLines: nat, commentLines: nat := 0, 0, 0;
    var inBlockComment := false;
    for i := 0 to |lines|
      invariant inBlockComment == BlockBefore(lines, i)
      invariant LineCounts(linesOfCode, blankLines, commentLines) == Tally(lines, i)
    {
      var line := Strip(lines[i]);
      if line == [] {
        blankLines := blankLines + 1;
      } else if StartsWith(line, "//") {
        commentLines := commentLines + 1;
      } else if StartsWith(line, "/*") {
        inBlockComment := true;
        commentLines := commentLines + 1;
      } else if EndsWith(line, "*/") {
        inBlockComment := false;
        commentLines := commentLines + 1;
      } else if inBlockComment {
        commentLines := commentLines + 1;
      } else {
        linesOfCode := linesOfCode + 1;
      }
    }
    counts := LineCounts(linesOfCode, blankLines, commentLines);
    TallyAccounts(lines, |lines|);
  }

  /** The counts of one file. */
  function FileCounts(f: SourceFile): LineCounts {
    var lines := Lines(f.content);
    Tally(lines, |lines|)
  }

  /** Per-kind sums over the given files. */
  function SumCounts(fs: seq<SourceFile>): LineCounts {
    if fs == [] then LineCounts(0, 0, 0)
    else
      var c, d := SumCounts(fs[..|fs| - 1]), FileCounts(fs[|fs| - 1]);
      LineCounts(c.code + d.code, c.blank + d.blank, c.comment + d.comment)
  }

  /** The number of lines in the given files. */
  function LineTotal(fs: seq<SourceFile>): nat {
    if fs == [] then 0 else LineTotal(fs[..|fs| - 1]) + |Lines(fs[|fs| - 1].content)|
  }

  /** Every line of a file is counted once. */
  lemma FileCountsAccount(f: SourceFile)
    ensures Sum(FileCounts(f)) == |Lines(f.content)|
  {
    var lines := Lines(f.content);
    TallyAccounts(lines, |lines|);
  }

  /** The three per-kind totals add up to the number of lines of all files. */
  lemma {:induction false} SumCountsAccounts(fs: seq<SourceFile>)
    ensures Sum(SumCounts(fs)) == LineTotal(fs)
  {
    if fs != [] {
      var init, f := fs[..|fs| - 1], fs[|fs| - 1];
      SumCountsAccounts(init);
      FileCountsAccount(f);
      assert Sum(SumCounts(fs)) == Sum(SumCounts(init)) + Sum(FileCounts(f));
    }
  }

  lemma SumCountsAppend(fs: seq<SourceFile>, f: SourceFile)
    ensures SumCounts(fs + [f]) ==
      LineCounts(SumCounts(fs).code + FileCounts(f).code, SumCounts(fs).blank + FileCounts(f).blank,
                 SumCounts(fs).comment + FileCounts(f).comment)
  {
    assert (fs + [f])[..|fs|] == fs;
  }

  lemma SelectPrefix(files: seq<SourceFile>, i: nat)
    requires i < |files|
    ensures Select(files[..i + 1]) ==
      if IsThirdPartyPath(files[i].path) then Select(files[..i]) else Select(files[..i]) + [files[i]]
  {
    assert files[..i + 1][..i] == files[..i];
  }

  /** `search_swift_files` over the files the glob found. */
  method SearchSwiftFiles(files: seq<SourceFile>) returns (t: Totals)
    ensures t.files == |Select(files)|
    ensures LineCounts(t.code, t.blank, t.comment) == SumCounts(Select(files))
    ensures t.total == t.code + t.blank + t.comment
    ensures t.total == LineTotal(Select(files))
  {
    var totalLinesOfCode: nat, totalBlankLines: nat, totalCommentLines: nat, totalFiles: nat := 0, 0, 0, 0;
    ghost var selected: seq<SourceFile> := [];
    for i := 0 to |files|
      invariant selected == Select(files[..i])
      invariant totalFiles == |selected|
      invariant LineCounts(totalLinesOfCode, totalBlankLines, totalCommentLines) == SumCounts(selected)
    {
      var f := files[i];
      SelectPrefix(files, i);
      if !IsThirdPartyPath(f.path) {
        var counts := CountLines(f.content);
        assert counts == FileCounts(f);
        SumCountsAppend(selected, f);
        totalLinesOfCode := totalLinesOfCode + counts.code;
        totalBlankLines := totalBlankLines + counts.blank;
        totalCommentLines := totalCommentLines + counts.comment;
        totalFiles := totalFiles + 1;
        selected := selected + [f];
      }
    }
    assert files[..|files|] == files;
    var totalLines := totalLinesOfCode + totalBlankLines + totalCommentLines;
    t := Totals(totalLinesOfCode, totalBlankLines, totalCommentLines, totalFiles, totalLines);
    SumCountsAccounts(selected);
  }

  // A line that is code on its own but ends in `*/` is counted as a comment even when no
  // block comment is open.
  lemma TrailingCloserCountsAsComment(lines: seq<string>, i: nat)
    requires i < |lines| && !BlockBefore(lines, i)
    requires Strip(lines[i]) != [] && EndsWith(Strip(lines[i]), "*/")
    ensures KindAt(lines, i) == Comment
    ensures !BlockBefore(lines, i + 1) || StartsWith(Strip(lines[i]), "/*")
  {
  }
}
