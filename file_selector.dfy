/**
  File selection (`third_party_path?` and the `reject` in `find_unused_types`): a file is
  left out when its path contains a third-party directory fragment, or when one of its
  `/`-separated segments is an excluded folder name. Directory enumeration is not
  modelled; a run is given the `.swift` files the glob found, with their contents.
 */
module FileSelector {
  import opened Text

  datatype SourceFile = SourceFile(path: string, content: string)

  /** `THIRD_PARTY_DIRS` */
  const ThirdPartyDirs: seq<string> := [".build/checkouts", "SourcePackages/checkouts", "Pods"]

  /** `EXCLUDED_FOLDER_NAMES` (empty as shipped). */
  const ExcludedFolderNames: seq<string> := []

  /** Index of the first `/` in `s`, or `|s|` when there is none. */
  function SlashIndex(s: string): (k: nat)
    ensures k <= |s|
    ensures forall j :: 0 <= j < k ==> s[j] != '/'
    ensures k < |s| ==> s[k] == '/'
  {
    if s == [] || s[0] == '/' then 0 else 1 + SlashIndex(s[1..])
  }

  /** `fields.join("/")` */
  function JoinSlash(fields: seq<string>): string
    requires |fields| >= 1
  {
    if |fields| == 1 then fields[0] else fields[0] + "/" + JoinSlash(fields[1..])
  }

  /** Every field between separators, empty ones included: the fields are free of `/`
      and joining them back gives `s`. */
  function SplitFields(s: string): (r: seq<string>)
    ensures |r| >= 1
    ensures forall i :: 0 <= i < |r| ==> '/' !in r[i]
    ensures JoinSlash(r) == s
    decreases |s|
  {
    var k := SlashIndex(s);
    if k == |s| then [s]
    else
      assert s == s[..k] + "/" + s[k + 1..];
      [s[..k]] + SplitFields(s[k + 1..])
  }

  /** The fields without their trailing empty ones. */
  function DropTrailingEmpty(fields: seq<string>): (r: seq<string>)
    ensures r <= fields
    ensures forall i :: |r| <= i < |fields| ==> fields[i] == []
    ensures r == [] || r[|r| - 1] != []
  {
    if fields != [] && fields[|fields| - 1] == [] then DropTrailingEmpty(fields[..|fields| - 1])
    else fields
  }

  /** `path.split("/")`: Ruby drops trailing empty fields. */
  function SplitPath(path: string): seq<string> {
    DropTrailingEmpty(SplitFields(path))
  }

  /** `names.any? { |name| path.split("/").include?(name) }` */
  predicate AnyFolder(path: string, names: seq<string>) {
    names != [] && (names[0] in SplitPath(path) || AnyFolder(path, names[1..]))
  }

  /** `third_party_path?`, for given fragment and folder-name lists. */
  predicate IsExcludedPath(path: string, dirs: seq<string>, names: seq<string>) {
    IncludesAny(path, dirs) || AnyFolder(path, names)
  }

  /** `third_party_path?` with the lists the tool ships. */
  predicate IsThirdPartyPath(path: string) {
    IsExcludedPath(path, ThirdPartyDirs, ExcludedFolderNames)
  }

  /** Files kept by `reject { |f| third_party_path?(f) }`, in their order. */
  function Select(files: seq<SourceFile>): seq<SourceFile>
  {
    if files == [] then []
    else if IsThirdPartyPath(files[|files| - 1].path) then Select(files[..|files| - 1])
    else Select(files[..|files| - 1]) + [files[|files| - 1]]
  }

  /** The selected files are exactly the given files that are not third-party. */
  lemma {:induction false} SelectMembership(files: seq<SourceFile>)
    ensures forall f :: f in Select(files) <==> f in files && !IsThirdPartyPath(f.path)
  {
    if files != [] {
      var init, f := files[..|files| - 1], files[|files| - 1];
      assert files == init + [f];
      SelectMembership(init);
    }
  }

  // ------------------------------------------------------------ properties

  /** `name` stands in `path` as a whole segment starting at index `i`. */
  predicate SegmentAt(path: string, name: string, i: nat) {
    && OccursAt(path, name, i)
    && (i == 0 || path[i - 1] == '/')
    && (i + |name| == |path| || path[i + |name|] == '/')
  }

  lemma {:induction false} DropTrailingEmptyMembership(fields: seq<string>, name: string)
    requires name != []
    ensures name in DropTrailingEmpty(fields) <==> name in fields
  {
    if fields != [] && fields[|fields| - 1] == [] {
      var init := fields[..|fields| - 1];
      assert fields == init + [[]];
      DropTrailingEmptyMembership(init, name);
    }
  }

  /** In a path without `/`, the only segment is the whole path. */
  lemma SegmentInSlashFree(path: string, name: string)
    requires SlashIndex(path) == |path|
    ensures HasSegment(path, name) <==> name == path
  {
    if HasSegment(path, name) {
      var i: nat :| i <= |path| && SegmentAt(path, name, i);
      if i > 0 {
        assert false;
      }
      if |name| < |path| {
        assert false;
      }
      assert name == path[..|name|] == path;
    }
    if name == path {
      assert SegmentAt(path, name, 0);
    }
  }

  /** A segment at the start is the text before the first `/`. */
  lemma SegmentAtStart(path: string, name: string)
    requires '/' !in name
    requires SlashIndex(path) < |path|
    ensures SegmentAt(path, name, 0) <==> name == path[..SlashIndex(path)]
  {
    var k := SlashIndex(path);
    if SegmentAt(path, name, 0) {
      if |name| > k {
        assert false;
      }
      if |name| < k {
        assert false;
      }
    }
  }

  /** Segments after a `/` are the segments of the rest of the path, shifted. */
  lemma SegmentAfterSlash(path: string, name: string, k: nat, j: nat, i: nat)
    requires k < |path| && path[k] == '/' && i == k + 1 + j <= |path|
    ensures SegmentAt(path[k + 1..], name, j) <==> SegmentAt(path, name, i)
  {
    var rest := path[k + 1..];
    assert |rest| == |path| - k - 1;
    if j + |name| <= |rest| {
      assert path[i..i + |name|] == rest[j..j + |name|];
      if j + |name| < |rest| {
        assert path[i + |name|] == rest[j + |name|];
      }
    }
    if j > 0 {
      assert path[i - 1] == rest[j - 1];
    } else {
      assert path[i - 1] == '/';
    }
  }

  /** No segment other than the first starts before the first `/`. */
  lemma SegmentPastSlash(path: string, name: string, i: nat)
    requires SlashIndex(path) < |path|
    requires 0 < i && SegmentAt(path, name, i)
    ensures i >= SlashIndex(path) + 1
  {
    assert path[i - 1] == '/';
  }

  /** Some segment of `path` is `name`. */
  predicate HasSegment(path: string, name: string) {
    exists i: nat | i <= |path| :: SegmentAt(path, name, i)
  }

  /** A segment of the rest after the first `/` is a segment of the path. */
  lemma SegmentFromRest(path: string, name: string)
    requires SlashIndex(path) < |path|
    requires HasSegment(path[SlashIndex(path) + 1..], name)
    ensures HasSegment(path, name)
  {
    var k := SlashIndex(path);
    var rest := path[k + 1..];
    var j: nat :| j <= |rest| && SegmentAt(rest, name, j);
    SegmentAfterSlash(path, name, k, j, k + 1 + j);
  }

  /** A segment of the path other than the first is a segment of the rest. */
  lemma SegmentToRest(path: string, name: string, i: nat)
    requires SlashIndex(path) < |path|
    requires 0 < i <= |path| && SegmentAt(path, name, i)
    ensures HasSegment(path[SlashIndex(path) + 1..], name)
  {
    var k := SlashIndex(path);
    SegmentPastSlash(path, name, i);
    var j: nat := i - k - 1;
    SegmentAfterSlash(path, name, k, j, i);
    assert j <= |path[k + 1..]|;
  }

  /** The segments of a path with a `/` are its first field and the segments of the rest. */
  lemma SegmentsPastFirstSlash(path: string, name: string)
    requires SlashIndex(path) < |path|
    ensures HasSegment(path, name) ==>
            SegmentAt(path, name, 0) || HasSegment(path[SlashIndex(path) + 1..], name)
    ensures SegmentAt(path, name, 0) || HasSegment(path[SlashIndex(path) + 1..], name) ==>
            HasSegment(path, name)
  {
    if HasSegment(path, name) {
      var i: nat :| i <= |path| && SegmentAt(path, name, i);
      if i > 0 {
        SegmentToRest(path, name, i);
      } else {
        assert SegmentAt(path, name, 0);
      }
    }
    if SegmentAt(path, name, 0) {
      assert HasSegment(path, name);
    } else if HasSegment(path[SlashIndex(path) + 1..], name) {
      SegmentFromRest(path, name);
    }
  }

  lemma {:induction false} SplitFieldsMembership(path: string, name: string)
    requires name != [] && '/' !in name
    decreases |path|
    ensures name in SplitFields(path) <==> HasSegment(path, name)
  {
    var k := SlashIndex(path);
    if k == |path| {
      SegmentInSlashFree(path, name);
    } else {
      var rest := path[k + 1..];
      assert SplitFields(path) == [path[..k]] + SplitFields(rest);
      SplitFieldsMembership(rest, name);
      SegmentAtStart(path, name);
      SegmentsPastFirstSlash(path, name);
    }
  }

  /** For a real folder name (non-empty, without `/`), "is one of the segments" means the
      name stands in the path delimited by `/` or the ends of the path. */
  lemma SegmentMembership(path: string, name: string)
    requires name != [] && '/' !in name
    ensures name in SplitPath(path) <==> HasSegment(path, name)
  {
    DropTrailingEmptyMembership(SplitFields(path), name);
    SplitFieldsMembership(path, name);
  }

  lemma {:induction false} AnyFolderIff(path: string, names: seq<string>)
    requires forall i :: 0 <= i < |names| ==> names[i] != [] && '/' !in names[i]
    ensures AnyFolder(path, names) <==> exists i :: 0 <= i < |names| && HasSegment(path, names[i])
  {
    if names != [] {
      SegmentMembership(path, names[0]);
      AnyFolderIff(path, names[1..]);
      if exists i :: 0 <= i < |names| && HasSegment(path, names[i]) {
        var i :| 0 <= i < |names| && HasSegment(path, names[i]);
        if i > 0 {
          assert names[1..][i - 1] == names[i];
        }
      }
      if exists i :: 0 <= i < |names[1..]| && HasSegment(path, names[1..][i]) {
        var i :| 0 <= i < |names[1..]| && HasSegment(path, names[1..][i]);
        assert names[i + 1] == names[1..][i];
      }
    }
  }

  /** `third_party_path?` holds exactly when some fragment is a substring of the path or
      some folder name stands in it as a whole segment. */
  lemma ExcludedPathCharacterized(path: string, dirs: seq<string>, names: seq<string>)
    requires forall i :: 0 <= i < |names| ==> names[i] != [] && '/' !in names[i]
    ensures IsExcludedPath(path, dirs, names) <==>
      || (exists i | 0 <= i < |dirs| :: Contains(path, dirs[i]))
      || (exists i | 0 <= i < |names| :: HasSegment(path, names[i]))
  {
    IncludesAnyIff(path, dirs);
    AnyFolderIff(path, names);
  }

  /** With no folder names configured, as shipped, the filter is the substring test alone. */
  lemma ThirdPartyIsSubstringTest(path: string)
    ensures IsThirdPartyPath(path) <==>
      Contains(path, ".build/checkouts") || Contains(path, "SourcePackages/checkouts") || Contains(path, "Pods")
  {
    var dirs := ThirdPartyDirs;
    assert dirs[1..][1..][1..] == [];
    assert IncludesAny(path, dirs[1..][1..]) <==> Contains(path, "Pods");
    assert IncludesAny(path, dirs[1..]) <==> Contains(path, "SourcePackages/checkouts") || Contains(path, "Pods");
  }

  /** The test is on substrings, not folders: a first-party file whose name merely
      contains `Pods` is skipped too. */
  lemma PodsInFileNameIsSkipped()
    ensures IsThirdPartyPath("App/PodsView.swift")
  {
    assert OccursAt("App/PodsView.swift", "Pods", 4);
    ThirdPartyIsSubstringTest("App/PodsView.swift");
  }
}
