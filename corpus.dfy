/**
  `build_corpus`: the comment-free text of every selected file, joined with newlines.
  Reading a file is not modelled; a file is given with its contents, so the `rescue`
  fallback to an empty text for an unreadable file does not arise.
 */
module Corpus {
  import opened Text
  import opened Words
  import opened FileSelector
  import opened CommentStripper

  /** The comment-free text of each file, in order. */
  function StrippedContents(files: seq<SourceFile>): seq<string> {
    seq(|files|, i requires 0 <= i < |files| => Stripped(files[i].content))
  }

  /** `build_corpus(all_files)` */
  function BuildCorpus(files: seq<SourceFile>): string {
    JoinNewline(StrippedContents(files))
  }

  /** The whole-word matches of each text, added up. */
  function SumOccurrences(parts: seq<string>, w: string): nat {
    if parts == [] then 0 else Occurrences(parts[0], w) + SumOccurrences(parts[1..], w)
  }

  /** The corpus holds no `//`: no mention inside a line comment is ever counted. */
  lemma CorpusHasNoLineComment(files: seq<SourceFile>)
    ensures !Contains(BuildCorpus(files), "//")
  {
    var parts := StrippedContents(files);
    forall i | 0 <= i < |parts| ensures !Contains(parts[i], "//") {
      NoLineCommentMarker(files[i].content);
    }
    JoinNewlineNoDoubleSlash(parts);
  }

  lemma {:induction false} JoinNewlineOccurrences(parts: seq<string>, w: string)
    requires IsWord(w)
    ensures Occurrences(JoinNewline(parts), w) == SumOccurrences(parts, w)
  {
    if |parts| == 0 {
      assert !OccursAt([], w, 0);
    } else if |parts| == 1 {
      assert parts[1..] == [];
    } else {
      JoinNewlineOccurrences(parts[1..], w);
      OccurrencesOfJoin(parts[0], JoinNewline(parts[1..]), w);
    }
  }

  /** The newlines that join the files never create or merge a match: a name's count in
      the corpus is the sum of its counts in the files' comment-free texts. */
  lemma CorpusOccurrences(files: seq<SourceFile>, w: string)
    requires IsWord(w)
    ensures Occurrences(BuildCorpus(files), w) == SumOccurrences(StrippedContents(files), w)
  {
    JoinNewlineOccurrences(StrippedContents(files), w);
  }

  lemma {:induction false} JoinNewlineContains(parts: seq<string>, t: string)
    requires forall j :: 0 <= j < |t| ==> t[j] != '\n'
    ensures Contains(JoinNewline(parts), t) <==> (t == [] || exists i :: 0 <= i < |parts| && Contains(parts[i], t))
  {
    if |parts| == 0 {
      if Contains(JoinNewline(parts), t) {
        assert OccursAt([], t, 0);
      }
      if t == [] {
        assert OccursAt([], t, 0);
      }
    } else if |parts| == 1 {
      if t == [] {
        assert OccursAt(parts[0], t, 0);
      }
    } else {
      JoinNewlineContains(parts[1..], t);
      ContainsAcrossNewline(parts[0], JoinNewline(parts[1..]), t);
      if exists i :: 0 <= i < |parts| && Contains(parts[i], t) {
        var i :| 0 <= i < |parts| && Contains(parts[i], t);
        if i > 0 {
          assert parts[1..][i - 1] == parts[i];
        }
      }
      if exists i :: 0 <= i < |parts[1..]| && Contains(parts[1..][i], t) {
        var i :| 0 <= i < |parts[1..]| && Contains(parts[1..][i], t);
        assert parts[1..][i] == parts[i + 1];
      }
    }
  }

  /** A text without newlines, such as `Name(rawValue:`, is in the corpus exactly when it
      is in the comment-free text of some file. */
  lemma CorpusContains(files: seq<SourceFile>, t: string)
    requires t != [] && forall j :: 0 <= j < |t| ==> t[j] != '\n'
    ensures Contains(BuildCorpus(files), t) <==>
      exists i :: 0 <= i < |files| && Contains(Stripped(files[i].content), t)
  {
    var parts := StrippedContents(files);
    JoinNewlineContains(parts, t);
    if exists i :: 0 <= i < |files| && Contains(Stripped(files[i].content), t) {
      var i :| 0 <= i < |files| && Contains(Stripped(files[i].content), t);
      assert parts[i] == Stripped(files[i].content);
    }
  }
}
