# MetricsSwifted, modelled in Dafny

`metrics_swifted.rb` is a one-file Ruby tool for Swift code bases. It walks the
`.swift` files of a folder, skipping third-party checkouts (`.build/checkouts`,
`SourcePackages/checkouts`, `Pods`). It makes two reports:

- a lines-of-code report: blank, comment and code lines per file, summed over the files;
- a list of types that look unused.

For the second report it collects the class, struct, enum and protocol declarations of
every file, minus those the tool knows to be used in some other way. It builds one
corpus from the comment-free text of all files. A declaration is reported when that
corpus names it at most once as a whole word, unless it is an enum that the corpus
builds through `Name(rawValue:`.

The model works on in-memory files: a `SourceFile` is a path with its contents, and a
run is given the files the glob found. The modules follow the script's functions:

- `Text`: the parts of Ruby's `String` API the script uses (`strip`, `lines`, `include?`,
  `start_with?`, `end_with?`, `join`), over ASCII.
- `Words`: whole-word matching, `\bname\b`, and the `scan(...).length` count.
- `FileSelector`: `third_party_path?` and the `reject` that selects first-party files.
- `LineCounter`: `count_lines` and the totals of `search_swift_files`, as methods with
  loops proved against the prefix functions `BlockBefore` and `Tally`.
- `CommentStripper`: `strip_comments`, a loop proved against `StateBefore` and
  `StrippedUpTo`.
- `Corpus`: `build_corpus`.
- `DeclarationExtractor`: `extract_declarations`. The loop runs over a per-line table
  `DeclAt`, and the declaration regex is a leftmost search over `HeaderAt`.
- `UsageResolver`: the decision loop of `find_unused_types` and the whole analysis.

Quirks of the source that the model keeps:

- Both the comment stripper and the line counter treat a one-line `/* ... */` as the
  start of a block. Only a later line ending in `*/` closes it.
- The line counter counts a code line that ends in `*/` as a comment, even outside any
  block.
- The inline-comment cut removes everything from the first `//`, including a `//` inside
  a string literal such as `"http://"`.
- The extractor does not skip `//` or `/* */` comment lines. A commented-out
  `// class Foo` is extracted like any other line.
- The `#if` rule does not track nesting: the first line that strips to exactly `#endif`
  ends the block. An `#if` that is never closed suppresses the rest of the file.
- An `#endif` that carries a comment, as in `#endif // DEBUG`, is not exactly `#endif`,
  so it does not close the block: the block stays open up to the next line that strips to
  exactly `#endif`, or to the end of the file if there is none.

## Model

| member | source | states |
|---|---|---|
| FileSelector.ExcludedPathCharacterized | metrics_swifted.rb:18-21 | the path filter holds exactly when some fragment is a substring of the path or some folder name is a whole `/`-delimited segment of it |
| FileSelector.ThirdPartyIsSubstringTest | metrics_swifted.rb:2-21 | with the shipped lists (no folder names), the filter is the substring test for `.build/checkouts`, `SourcePackages/checkouts` or `Pods` |
| FileSelector.PodsInFileNameIsSkipped | metrics_swifted.rb:19 | the test matches substrings, not folders: `App/PodsView.swift` is treated as third-party |
| Text.IncludesAnyIff | metrics_swifted.rb:19 | `any? { include? }` over a list holds exactly when some entry of the list is a substring |
| FileSelector.AnyFolderIff | metrics_swifted.rb:20 | for real folder names, `any? { split("/").include? }` holds exactly when some name is a whole segment of the path |
| FileSelector.SegmentMembership | metrics_swifted.rb:20 | a non-empty name without `/` is among the fields of `split("/")` exactly when it stands in the path between `/`s or the ends of the path |
| FileSelector.SplitFields | metrics_swifted.rb:20 | the fields contain no `/`, and joining them with `/` gives the path back |
| FileSelector.DropTrailingEmpty | metrics_swifted.rb:20 | Ruby's `split` drops exactly the trailing empty fields: the result is a prefix of the fields, every field past it is empty, and its last field is not |
| FileSelector.SelectMembership | metrics_swifted.rb:172 | the selected files are exactly the given files whose path is not third-party |
| Text.StripCharacterized | metrics_swifted.rb:86 | `strip` cuts only whitespace, at either end, and leaves a text that neither starts nor ends with whitespace |
| Text.LinesOfText | metrics_swifted.rb:82 | `lines` splits after each newline: every line but the last ends in one, no line has one inside, and concatenating the lines gives the text back |
| Text.Find | metrics_swifted.rb:160 | the position found is the leftmost occurrence, and none is found exactly when the text does not contain the pattern |
| Words.OccurrencesIsMatchCount | metrics_swifted.rb:194 | the occurrence count is the number of positions where the name matches as a whole word |
| Words.MatchesDoNotOverlap | metrics_swifted.rb:194 | two whole-word matches of a name never overlap, so counting positions is counting what `scan` returns |
| Words.ContainsWordIffCounted | metrics_swifted.rb:102 | a whole-word match exists exactly when the count is at least one |
| Words.OccurrencesOfJoin | metrics_swifted.rb:168 | joining two texts with a newline adds their whole-word counts |
| LineCounter.BlankIffEmpty | metrics_swifted.rb:33-46 | a line is counted as blank exactly when it strips to nothing, whatever the block flag |
| LineCounter.BlankLinesAreWhitespace | metrics_swifted.rb:32-34 | the lines counted blank are exactly the lines made of whitespace alone |
| LineCounter.TallyAccounts | metrics_swifted.rb:25-51 | the three counters add up to the number of lines, and the blank counter equals the number of lines that strip to nothing |
| LineCounter.CountLines | metrics_swifted.rb:25-51 | the counters are the tally of the file's lines, they sum to its line count, and the blank counter counts its empty lines |
| LineCounter.SumCountsAccounts | metrics_swifted.rb:53-67 | the three per-kind totals add up to the number of lines of all the files |
| LineCounter.SearchSwiftFiles | metrics_swifted.rb:53-67 | the file count and the per-kind totals cover exactly the first-party files, and `total_lines` is their sum, which is the number of lines in those files |
| LineCounter.TrailingCloserCountsAsComment | metrics_swifted.rb:40-42 | outside a block, a line ending in `*/` is counted as a comment, and only leaves a block open when it also starts with `/*` |
| CommentStripper.RemoveLineCommentShape | metrics_swifted.rb:160 | the cut line has no `//`; without `//` the line is unchanged; otherwise it is the text before the first `//`, with the newline kept exactly when the line had one |
| CommentStripper.TripleSlashIsLineComment | metrics_swifted.rb:154-157 | a `///` line is also a `//` line, so the two branches drop the same lines |
| CommentStripper.StripComments | metrics_swifted.rb:143-164 | the result is the kept lines, cut at their first `//` and joined, and it contains no `//` |
| CommentStripper.BlockStaysOpen | metrics_swifted.rb:148-153 | after a `/*` line outside a block, the block stays open and every line is dropped until a line ends in `*/`; further `/*` lines change nothing |
| CommentStripper.BlockClosesAt | metrics_swifted.rb:148-153 | the first later line ending in `*/` is dropped too, and the line after it starts outside any block |
| CommentStripper.UnclosedBlockDropsRest | metrics_swifted.rb:148-153 | when no later line ends in `*/`, nothing from the `/*` line on is kept |
| CommentStripper.StateBeforeCharacterized | metrics_swifted.rb:145-153 | the block flag is set at a line exactly when an earlier `/*` line outside any block opened it and no line since ends in `*/` |
| CommentStripper.KeptIffOutsideBlocks | metrics_swifted.rb:147-161 | a line is kept exactly when it opens no block, is no `//` line, and lies in no open block |
| CommentStripper.OneLineBlockCommentOpensBlock | metrics_swifted.rb:148-153 | a one-line `/* ... */` opens a block, so it and the line after it are dropped |
| CommentStripper.KeptLineShape | metrics_swifted.rb:158-160 | a kept line, once cut, has no `//`, and its stripped form opens no block and is no line comment; the newline is kept exactly when the line had one |
| CommentStripper.StrippedUpToShape | metrics_swifted.rb:143-163 | every kept line is clean, and every kept line but the last of the file ends in a newline |
| CommentStripper.StrippedLines | metrics_swifted.rb:163 | splitting the output into lines gives back exactly the kept lines |
| CommentStripper.NoLineCommentMarker | metrics_swifted.rb:143-164 | the output contains no `//` |
| CommentStripper.StripIdempotent | metrics_swifted.rb:143-164 | stripping twice gives the same text as stripping once |
| Corpus.CorpusHasNoLineComment | metrics_swifted.rb:167-169 | the corpus contains no `//` |
| Corpus.CorpusOccurrences | metrics_swifted.rb:167-169 | a name's whole-word count in the corpus is the sum of its counts in the files' comment-free texts |
| Corpus.CorpusContains | metrics_swifted.rb:167-169 | a non-empty text without newlines is in the corpus exactly when it is in the comment-free text of some file |
| DeclarationExtractor.SpaceRun | metrics_swifted.rb:109 | the whitespace run stays inside the line and ends where whitespace ends |
| DeclarationExtractor.SpaceRunIsWhitespace | metrics_swifted.rb:109 | every character of the run is whitespace, so the run is `\s+` taken as far as it goes |
| DeclarationExtractor.WordRun | metrics_swifted.rb:109 | the name run consists of word characters and ends where they end |
| DeclarationExtractor.HeaderAt | metrics_swifted.rb:109 | a match at a position has a type name `[A-Z][A-Za-z0-9_]*`, its keyword at that position, and a word boundary before it |
| DeclarationExtractor.KeywordAtFinds | metrics_swifted.rb:109 | the keyword that occurs at a position is the one found there, since the four keywords differ in their first letter |
| DeclarationExtractor.HeaderAtComplete | metrics_swifted.rb:109 | where the pattern's conditions hold for a keyword (no word character before, the keyword, then one or more whitespace characters and an upper-case letter, split in any way), the pattern matches with that keyword's kind, and the match is the rest of the pattern's match at the keyword's end |
| DeclarationExtractor.HeaderAtMatches | metrics_swifted.rb:109 | the pattern matches at a position exactly when its conditions hold there for some keyword, and the kind found is one whose conditions hold |
| DeclarationExtractor.HeaderAfter | metrics_swifted.rb:109 | after a keyword, `\s+([A-Z][A-Za-z0-9_]*)` matches only with at least one whitespace character, and captures a type name that stands right after the whitespace and runs up to a non-word character or the end |
| DeclarationExtractor.HeaderAfterMatches | metrics_swifted.rb:109 | after a keyword, `\s+([A-Z][A-Za-z0-9_]*)` matches exactly when the text there splits, in some way, into one or more whitespace characters and an upper-case letter; every such split ends where the whitespace ends, and the name captured is the whole run of word characters after it |
| DeclarationExtractor.SpaceRunIsLongest | metrics_swifted.rb:109 | no run of whitespace starting at a position is longer than the one `SpaceRun` measures there |
| DeclarationExtractor.HeaderAtSound | metrics_swifted.rb:109 | a match at a position satisfies the pattern's conditions there for the kind it reports |
| DeclarationExtractor.HeaderAtPlacesName | metrics_swifted.rb:109 | after the keyword of a match comes at least one whitespace character (`\s+`), then the captured name, which stands in the line right after the whitespace and runs up to a non-word character or the end |
| DeclarationExtractor.MatchHeader | metrics_swifted.rb:109-110 | the captured name is a type name |
| DeclarationExtractor.HelperClassIsMatched | metrics_swifted.rb:109-110 | the line `class Helper {}` yields the class `Helper` |
| DeclarationExtractor.MatchHeaderIsLeftmost | metrics_swifted.rb:109-110 | the pattern fails exactly when it matches at no position; otherwise the capture is the one at the leftmost matching position |
| DeclarationExtractor.Lookahead | metrics_swifted.rb:132 | the window holds three lines, or all the lines above when fewer |
| DeclarationExtractor.MainAboveWithinThreeLines | metrics_swifted.rb:130-133 | the `@main` test looks at exactly the up to three lines above the declaration |
| DeclarationExtractor.MainAttributeIsWordBoundary | metrics_swifted.rb:133 | `^@main(?!Actor)\b` matches exactly when the line starts with `@main` and no word character follows, so the look-ahead adds nothing to `\b` |
| DeclarationExtractor.MainActorIsNotMain | metrics_swifted.rb:130-133 | an `@MainActor` line does not count as `@main` |
| DeclarationExtractor.ExtractDeclarations | metrics_swifted.rb:75-139 | the result is what the lines contribute, in order, and nothing for a file that mentions `NSClassFromString` |
| DeclarationExtractor.ScanLine | metrics_swifted.rb:86-96 | one pass of the loop body: the new `in_debug_block` flag and the line's contribution |
| DeclarationExtractor.LineDeclaration | metrics_swifted.rb:98-106 | a `///` line, a line with the word `extension` or an `@objc` line contributes nothing; any other line contributes its candidate |
| DeclarationExtractor.MatchedDeclaration | metrics_swifted.rb:108-135 | the line contributes the leftmost header, unless the type is known to be used or `@main` stands above |
| DeclarationExtractor.DeclarationsCharacterized | metrics_swifted.rb:75-139 | a declaration is in the result exactly when the file has no `NSClassFromString`, the declaration is filed under the file's path, and some line is under no `#if`, is no `///` line, has no word `extension`, is not `@objc`-marked, has that kind and name as its leftmost header, is not known to be used and has no `@main` in the three lines above |
| DeclarationExtractor.DeclarationsShape | metrics_swifted.rb:75-139 | every declaration is filed under the given path with a type name; `NSClassFromString` yields nothing; `@NSManaged` yields no class |
| DeclarationExtractor.DeclarationsMembership | metrics_swifted.rb:85-138 | without `NSClassFromString`, the result holds exactly the declarations some line contributes |
| DeclarationExtractor.DebugBeforeCharacterized | metrics_swifted.rb:89-96 | the flag is set at a line exactly when an earlier `#if` line has no line stripping to exactly `#endif` after it up to there |
| DeclarationExtractor.CommentedEndifKeepsBlockOpen | metrics_swifted.rb:94 | a line `#endif // DEBUG` inside a block leaves the block open |
| DeclarationExtractor.ConditionalSuppresses | metrics_swifted.rb:89-96 | no line from an `#if` line through the first exact `#endif` after it contributes anything |
| DeclarationExtractor.UnterminatedConditional | metrics_swifted.rb:89-96 | after an `#if` that no later line closes, the result is what the lines before it gave |
| DeclarationExtractor.EndifReopens | metrics_swifted.rb:93-96 | after an `#endif`, lines are no longer suppressed until the next `#if`, however many `#if` lines the block held |
| UsageResolver.SelectUnused | metrics_swifted.rb:182-197 | the loop keeps exactly the declarations judged unused, in order |
| UsageResolver.UnusedMembership | metrics_swifted.rb:182-199 | a declaration is reported exactly when it is among the declarations and is judged unused |
| UsageResolver.UnusedIsSubsequence | metrics_swifted.rb:182-199 | the report picks declarations at strictly increasing positions, so it is a subsequence of them in order |
| UsageResolver.RawValueEnumIsUsed | metrics_swifted.rb:187-189 | an enum whose `Name(rawValue:` appears in the corpus is never reported |
| UsageResolver.ReportedIffNamedAtMostOnce | metrics_swifted.rb:191-196 | any other declaration is reported exactly when the corpus names it at most once as a whole word |
| UsageResolver.RawValueUseIsPerFile | metrics_swifted.rb:188 | `Name(rawValue:` is in the corpus exactly when some selected file's comment-free text contains it |
| UsageResolver.AllDeclarationsFrom | metrics_swifted.rb:175 | every collected declaration comes from one of the files, filed under its path, with a type name |
| UsageResolver.ReportedTypesAreFirstParty | metrics_swifted.rb:171-199 | every reported type was declared in a given first-party file, under a type name |
| UsageResolver.FindUnusedTypes | metrics_swifted.rb:171-199 | the report of the whole analysis; every entry is a type name from a first-party file |

## Left out

- Directory walking (`Dir.glob`), file reading (`File.read`, `File.open`) and UTF-8 decoding: a run is given the paths and contents of the `.swift` files.
- The `rescue` in `build_corpus` that turns an unreadable file into `""`: in the model every file has contents.
- The top-level script: `ARGV`, `Dir.exist?`, `exit 1` and every `puts` of the report, `upcase` included. These are input handling and output formatting.
- A general regex engine: only the fixed patterns are modelled, as predicates over characters: `\b`, `\s`, `^#if\b`, `\bextension\b`, `^@main(?!Actor)\b` and the declaration pattern.
- Non-ASCII text: word characters are `[A-Za-z0-9_]`. Whitespace is space, tab, newline, carriage return, vertical tab and form feed; the NUL that Ruby's `strip` also trims is not.
- `Regexp.escape(name)` is not modelled on its own: a captured name contains only word characters, which escaping leaves unchanged.
- `build_corpus` and the `flat_map` over `extract_declarations` are pure functions over the files (`BuildCorpus`, `AllDeclarations`), specified through `Stripped` and `Declarations`. The step-by-step methods `StripComments` and `ExtractDeclarations` are proved equal to those functions.
- SpaceRun: its own contract does not say that the run is whitespace. That fact is the lemma `SpaceRunIsWhitespace`, kept apart so that every use of `SpaceRun` stays cheap to verify.
- HeaderAt: its own contract does not place the captured name in the line, nor say where the pattern matches. `HeaderAtPlacesName` states the placement, `HeaderAtComplete` says that the pattern matches wherever its conditions hold, and `HeaderAtMatches` states the two directions together. They are lemmas so that every use of `HeaderAt` stays cheap to verify.
- HeaderAfter: its own contract states only what a match captures. `HeaderAfterMatches` says when it matches, in terms of any way of splitting the text into whitespace and an upper-case letter, and it says what the match captures.
