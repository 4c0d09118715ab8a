/**
  The decision loop of `find_unused_types`: every declaration found in the selected
  files is reported unused when the corpus names it at most once as a whole word (its
  own declaration being that one mention), except an enum whose `Name(rawValue:`
  initializer appears in the corpus.
 */
module UsageResolver {
  import opened Text
  import opened Words
  import opened FileSelector
  import opened CommentStripper
  import opened Corpus
  import opened DeclarationExtractor

  /** `kind == "enum" && corpus.include?("#{name}(rawValue:")` */
  predicate RawValueUsed(d: Declaration, corpus: string) {
    d.kind == Enum && Contains(corpus, d.name + "(rawValue:")
  }

  /** The loop's verdict on one declaration. */
  predicate IsUnused(d: Declaration, corpus: string) {
    !RawValueUsed(d, corpus) && Occurrences(corpus, d.name) <= 1
  }

  /** `unused` after the first `n` declarations. */
  function UnusedUpTo(decls: seq<Declaration>, corpus: string, n: nat): seq<Declaration>
    requires n <= |decls|
  {
    if n == 0 then []
    else if IsUnused(decls[n - 1], corpus) then UnusedUpTo(decls, corpus, n - 1) + [decls[n - 1]]
    else UnusedUpTo(decls, corpus, n - 1)
  }

  function UnusedOf(decls: seq<Declaration>, corpus: string): seq<Declaration> {
    UnusedUpTo(decls, corpus, |decls|)
  }

  /** The loop over `all_declarations`. */
  method SelectUnused(decls: seq<Declaration>, corpus: string) returns (unused: seq<Declaration>)
    ensures unused == UnusedOf(decls, corpus)
  {
    unused := [];
    for i := 0 to |decls|
      invariant unused == UnusedUpTo(decls, corpus, i)
    {
      var decl := decls[i];
      var name, kind := decl.name, decl.kind;
      if kind == Enum {
        if Contains(corpus, name + "(rawValue:") {
          continue;
        }
      }
      var occurrences := Occurrences(corpus, name);
      if occurrences <= 1 {
        unused := unused + [decl];
      }
    }
  }

  /** `all_files.flat_map { |f| extract_declarations(f) }` */
  function AllDeclarations(files: seq<SourceFile>): seq<Declaration> {
    if files == [] then []
    else AllDeclarations(files[..|files| - 1]) + Declarations(files[|files| - 1].path, files[|files| - 1].content)
  }

  /** `find_unused_types` over the files the glob found. */
  function UnusedTypes(files: seq<SourceFile>): seq<Declaration> {
    var selected := Select(files);
    UnusedOf(AllDeclarations(selected), BuildCorpus(selected))
  }

  // ------------------------------------------------------------ properties

  /** The report lists exactly the declarations judged unused. */
  lemma {:induction false} UnusedMembership(decls: seq<Declaration>, corpus: string, n: nat, d: Declaration)
    requires n <= |decls|
    ensures d in UnusedUpTo(decls, corpus, n) <==> d in decls[..n] && IsUnused(d, corpus)
  {
    if n > 0 {
      UnusedMembership(decls, corpus, n - 1, d);
      assert decls[..n] == decls[..n - 1] + [decls[n - 1]];
    }
  }

  /** The report keeps the order of the declarations: it picks them at increasing
      positions, each one judged unused. */
  lemma {:induction false} UnusedIsSubsequence(decls: seq<Declaration>, corpus: string, n: nat)
    returns (pos: seq<nat>)
    requires n <= |decls|
    ensures |pos| == |UnusedUpTo(decls, corpus, n)|
    ensures forall k :: 0 <= k < |pos| ==>
      pos[k] < n && UnusedUpTo(decls, corpus, n)[k] == decls[pos[k]] && IsUnused(decls[pos[k]], corpus)
    ensures forall k, l :: 0 <= k < l < |pos| ==> pos[k] < pos[l]
  {
    if n == 0 {
      pos := [];
    } else {
      pos := UnusedIsSubsequence(decls, corpus, n - 1);
      if IsUnused(decls[n - 1], corpus) {
        pos := pos + [n - 1];
      }
    }
  }

  /** An enum built through `Name(rawValue:` anywhere in the corpus is never reported. */
  lemma RawValueEnumIsUsed(decls: seq<Declaration>, corpus: string, d: Declaration)
    requires d.kind == Enum && Contains(corpus, d.name + "(rawValue:")
    ensures d !in UnusedOf(decls, corpus)
  {
    UnusedMembership(decls, corpus, |decls|, d);
  }

  /** Any other declaration is reported exactly when its name occurs at most once in the
      corpus as a whole word. */
  lemma ReportedIffNamedAtMostOnce(decls: seq<Declaration>, corpus: string, d: Declaration)
    requires d in decls && !RawValueUsed(d, corpus)
    ensures d in UnusedOf(decls, corpus) <==> Occurrences(corpus, d.name) <= 1
  {
    UnusedMembership(decls, corpus, |decls|, d);
    assert decls[..|decls|] == decls;
  }

  /** A declaration comes from one of the given files. */
  lemma {:induction false} AllDeclarationsFrom(files: seq<SourceFile>, d: Declaration)
    requires d in AllDeclarations(files)
    ensures exists i :: 0 <= i < |files| && files[i].path == d.file && d in Declarations(files[i].path, files[i].content)
    ensures IsTypeName(d.name)
  {
    var init, f := files[..|files| - 1], files[|files| - 1];
    if d in AllDeclarations(init) {
      AllDeclarationsFrom(init, d);
      var i :| 0 <= i < |init| && init[i].path == d.file && d in Declarations(init[i].path, init[i].content);
      assert files[i] == init[i];
    } else {
      DeclarationsShape(f.path, f.content);
      assert files[|files| - 1] == f;
    }
  }

  /** Every reported type was declared in a first-party file, under its own name. */
  lemma ReportedTypesAreFirstParty(files: seq<SourceFile>, d: Declaration)
    requires d in UnusedTypes(files)
    ensures exists f :: f in files && !IsThirdPartyPath(f.path) && f.path == d.file
    ensures IsTypeName(d.name)
  {
    var selected := Select(files);
    var decls := AllDeclarations(selected);
    UnusedMembership(decls, BuildCorpus(selected), |decls|, d);
    assert decls[..|decls|] == decls;
    AllDeclarationsFrom(selected, d);
    var i :| 0 <= i < |selected| && selected[i].path == d.file && d in Declarations(selected[i].path, selected[i].content);
    SelectMembership(files);
    assert selected[i] in selected;
  }

  /** An enum counts as used by its raw-value initializer exactly when some selected
      file's comment-free text spells `Name(rawValue:`. */
  lemma RawValueUseIsPerFile(files: seq<SourceFile>, d: Declaration)
    requires d.kind == Enum && IsTypeName(d.name)
    ensures RawValueUsed(d, BuildCorpus(files)) <==>
      exists i :: 0 <= i < |files| && Contains(Stripped(files[i].content), d.name + "(rawValue:")
  {
    var t := d.name + "(rawValue:";
    forall j | 0 <= j < |t| ensures t[j] != '\n' {
      if j < |d.name| {
        assert t[j] == d.name[j];
      }
    }
    CorpusContains(files, t);
  }

  // ------------------------------------------------------------ the whole analysis

  /** `find_unused_types`: select the first-party files, collect their declarations,
      build the corpus once and keep the declarations it barely names. */
  method FindUnusedTypes(files: seq<SourceFile>) returns (unused: seq<Declaration>)
    ensures unused == UnusedTypes(files)
    ensures forall d :: d in unused ==> IsTypeName(d.name) && exists f :: f in files && !IsThirdPartyPath(f.path) && f.path == d.file
  {
    var allFiles := Select(files);
    var allDeclarations := AllDeclarations(allFiles);
    var corpus := BuildCorpus(allFiles);
    unused := SelectUnused(allDeclarations, corpus);
    forall d | d in unused
      ensures IsTypeName(d.name) && exists f :: f in files && !IsThirdPartyPath(f.path) && f.path == d.file
    {
      ReportedTypesAreFirstParty(files, d);
    }
  }
}
