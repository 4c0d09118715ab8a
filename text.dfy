/**
  The pieces of Ruby's String API that the analysis relies on, over ASCII:
  `strip`, `start_with?`, `end_with?`, `include?`, `lines` and `join`, and the first
  occurrence of a pattern that `gsub` replaces.
  Every other module works on in-memory file contents through these.
 */
module Text {

  datatype Option<T> = None | Some(value: T)

  /** The characters `String#strip` trims and the regex class `\s` matches. */
  predicate IsSpace(c: char) {
    c == ' ' || c == '\t' || c == '\n' || c == '\r' || c == '\U{B}' || c == '\U{C}'
  }

  predicate HasNoSpace(t: string) {
    forall j :: 0 <= j < |t| ==> !IsSpace(t[j])
  }

  /** `s.start_with?(t)` */
  predicate StartsWith(s: string, t: string) {
    |t| <= |s| && s[..|t|] == t
  }

  /** `s.end_with?(t)` */
  predicate EndsWith(s: string, t: string) {
    |t| <= |s| && s[|s| - |t|..] == t
  }

  /** `t` occurs in `s` starting at index `i`. */
  predicate OccursAt(s: string, t: string, i: nat) {
    i + |t| <= |s| && s[i..i + |t|] == t
  }

  /** `s.include?(t)` */
  predicate Contains(s: string, t: string) {
    exists i: nat | i <= |s| :: OccursAt(s, t, i)
  }

  /** `ts.any? { |t| s.include?(t) }` */
  predicate IncludesAny(s: string, ts: seq<string>) {
    ts != [] && (Contains(s, ts[0]) || IncludesAny(s, ts[1..]))
  }

  lemma {:induction false} IncludesAnyIff(s: string, ts: seq<string>)
    ensures IncludesAny(s, ts) <==> exists i :: 0 <= i < |ts| && Contains(s, ts[i])
  {
    if ts != [] {
      IncludesAnyIff(s, ts[1..]);
      if exists i :: 0 <= i < |ts| && Contains(s, ts[i]) {
        var i :| 0 <= i < |ts| && Contains(s, ts[i]);
        if i > 0 {
          assert ts[1..][i - 1] == ts[i];
        }
      }
      if exists i :: 0 <= i < |ts[1..]| && Contains(s, ts[1..][i]) {
        var i :| 0 <= i < |ts[1..]| && Contains(s, ts[1..][i]);
        assert ts[i + 1] == ts[1..][i];
      }
    }
  }

  /** The leftmost occurrence of `t` in `s` at or after `p`. */
  function FindFrom(s: string, t: string, p: nat): (r: Option<nat>)
    requires p <= |s|
    decreases |s| - p
    ensures r.Some? ==> p <= r.value && OccursAt(s, t, r.value)
    ensures forall i: nat :: p <= i && (r.None? || i < r.value) ==> !OccursAt(s, t, i)
  {
    if OccursAt(s, t, p) then Some(p)
    else if p == |s| then None
    else FindFrom(s, t, p + 1)
  }

  /** The leftmost occurrence of `t` in `s`, if any: for `t == "//"`, where the `gsub`
      that removes an inline comment starts cutting the line. */
  function Find(s: string, t: string): (r: Option<nat>)
    ensures r.Some? ==> OccursAt(s, t, r.value)
    ensures forall i: nat :: (r.None? || i < r.value) ==> !OccursAt(s, t, i)
    ensures r.None? <==> !Contains(s, t)
  {
    FindFrom(s, t, 0)
  }

  // ---------------------------------------------------------------- strip

  /** Number of leading whitespace characters. */
  function LeadSpaces(s: string): (n: nat)
    ensures n <= |s|
    ensures n < |s| ==> !IsSpace(s[n])
  {
    if s == [] || !IsSpace(s[0]) then 0 else 1 + LeadSpaces(s[1..])
  }

  lemma {:induction false} LeadSpacesAreSpaces(s: string)
    ensures forall j :: 0 <= j < LeadSpaces(s) ==> IsSpace(s[j])
  {
    if s != [] && IsSpace(s[0]) {
      LeadSpacesAreSpaces(s[1..]);
      forall j | 0 < j < LeadSpaces(s) ensures IsSpace(s[j]) {
        assert s[j] == s[1..][j - 1];
      }
    }
  }

  /** Length of `s` once its trailing whitespace is removed. */
  function KeepLen(s: string): (n: nat)
    ensures n <= |s|
    ensures n > 0 ==> !IsSpace(s[n - 1])
  {
    if s == [] || !IsSpace(s[|s| - 1]) then |s| else KeepLen(s[..|s| - 1])
  }

  lemma {:induction false} TrailingSpaces(s: string)
    ensures forall j :: KeepLen(s) <= j < |s| ==> IsSpace(s[j])
  {
    if s != [] && IsSpace(s[|s| - 1]) {
      TrailingSpaces(s[..|s| - 1]);
      forall j | KeepLen(s) <= j < |s| - 1 ensures IsSpace(s[j]) {
        assert s[j] == s[..|s| - 1][j];
      }
    }
  }

  function TrimStart(s: string): string {
    s[LeadSpaces(s)..]
  }

  function TrimEnd(s: string): string {
    s[..KeepLen(s)]
  }

  /** `s.strip` */
  function Strip(s: string): string {
    TrimEnd(TrimStart(s))
  }

  /** The stripped form is the middle of `s`: only whitespace is cut, at either side, and
      it neither starts nor ends with whitespace. */
  lemma StripCharacterized(s: string)
    ensures Strip(s) == [] || (!IsSpace(Strip(s)[0]) && !IsSpace(Strip(s)[|Strip(s)| - 1]))
    ensures LeadSpaces(s) + |Strip(s)| <= |s|
    ensures Strip(s) == s[LeadSpaces(s)..LeadSpaces(s) + |Strip(s)|]
    ensures forall j :: 0 <= j < LeadSpaces(s) ==> IsSpace(s[j])
    ensures forall j :: LeadSpaces(s) + |Strip(s)| <= j < |s| ==> IsSpace(s[j])
  {
    var n := LeadSpaces(s);
    var u := s[n..];
    var m := KeepLen(u);
    LeadSpacesAreSpaces(s);
    TrailingSpaces(u);
    assert Strip(s) == u[..m] == s[n..n + m];
    forall j | n + m <= j < |s| ensures IsSpace(s[j]) {
      assert s[j] == u[j - n];
    }
  }

  /** A line strips to nothing exactly when it is all whitespace. */
  lemma StripEmpty(s: string)
    ensures Strip(s) == [] <==> forall j :: 0 <= j < |s| ==> IsSpace(s[j])
  {
    var u := TrimStart(s);
    LeadSpacesAreSpaces(s);
    TrailingSpaces(u);
    assert forall j :: LeadSpaces(s) <= j < |s| ==> s[j] == u[j - LeadSpaces(s)];
  }

  /** Cutting trailing whitespace never changes what a whitespace-free prefix test says. */
  lemma StartsWithTrimEnd(u: string, t: string)
    requires HasNoSpace(t)
    ensures StartsWith(TrimEnd(u), t) <==> StartsWith(u, t)
  {
    if StartsWith(u, t) && |t| > 0 {
      assert !IsSpace(u[|t| - 1]);
      TrailingSpaces(u);
      assert KeepLen(u) >= |t|;
      assert TrimEnd(u)[..|t|] == u[..|t|];
    }
  }

  /** Leading whitespace of a concatenation. */
  lemma {:induction false} LeadSpacesAppend(x: string, y: string)
    ensures LeadSpaces(x) < |x| ==> LeadSpaces(x + y) == LeadSpaces(x)
    ensures LeadSpaces(x) == |x| ==> LeadSpaces(x + y) == |x| + LeadSpaces(y)
  {
    if x == [] {
      assert x + y == y;
    } else if IsSpace(x[0]) {
      assert (x + y)[1..] == x[1..] + y;
      LeadSpacesAppend(x[1..], y);
    }
  }

  /** Whether the stripped form of `s` starts with a whitespace-free `t` depends only on
      `TrimStart(s)`. */
  lemma StripStartsWith(s: string, t: string)
    requires HasNoSpace(t)
    ensures StartsWith(Strip(s), t) <==> StartsWith(TrimStart(s), t)
  {
    StartsWithTrimEnd(TrimStart(s), t);
  }

  /** The characters of a prefix are those of the text. */
  lemma PrefixChar(u: string, t: string, q: nat)
    ensures StartsWith(u, t) && q < |t| ==> u[q] == t[q]
  {
    if StartsWith(u, t) && q < |t| {
      assert u[..|t|][q] == u[q];
    }
  }

  /** A trailing newline cannot help a text start with a whitespace-free `t`. */
  lemma StartsWithNewlineTail(w: string, t: string)
    requires HasNoSpace(t)
    ensures StartsWith(w + "\n", t) ==> StartsWith(w, t)
  {
    var u := w + "\n";
    PrefixChar(u, t, |w|);
    assert u[|w|] == '\n';
    if StartsWith(u, t) {
      if |t| > |w| {
        assert false;
      }
      assert u[..|t|] == w[..|t|];
    }
  }

  lemma StartsWithAppend(a: string, z: string, t: string)
    ensures StartsWith(a, t) ==> StartsWith(a + z, t)
  {
    if StartsWith(a, t) {
      assert (a + z)[..|t|] == a[..|t|];
    }
  }

  /** Once `x` holds a non-blank character, `TrimStart` cuts only inside `x`. */
  lemma TrimStartAppend(x: string, z: string)
    requires LeadSpaces(x) < |x|
    ensures TrimStart(x + z) == TrimStart(x) + z
  {
    var m := LeadSpaces(x);
    LeadSpacesAppend(x, z);
    assert LeadSpaces(x + z) == m;
    SliceOfAppend(x, z, m);
  }

  lemma SliceOfAppend(x: string, z: string, m: nat)
    requires m <= |x|
    ensures (x + z)[m..] == x[m..] + z
  {
  }

  /** Once `x` holds a non-blank character, whether the stripped form of `x + y` starts
      with a whitespace-free `t` does not depend on a tail `y` that is nothing or a
      newline: a text that starts that way after `x + y` does so after `x + z` for any `z`. */
  lemma StripStartsWithPrefix(x: string, y: string, z: string, t: string)
    requires LeadSpaces(x) < |x|
    requires HasNoSpace(t)
    requires y == [] || y == "\n"
    ensures StartsWith(Strip(x + y), t) ==> StartsWith(Strip(x + z), t)
  {
    var a := TrimStart(x);
    TrimStartAppend(x, y);
    TrimStartAppend(x, z);
    StripStartsWith(x + y, t);
    StripStartsWith(x + z, t);
    StartsWithAppend(a, z, t);
    if y == [] {
      assert a + y == a;
    } else {
      StartsWithNewlineTail(a, t);
    }
  }

  // ---------------------------------------------------------------- lines

  /** A line as `String#lines` yields it: not empty, with a newline at most at its end. */
  predicate IsLine(l: string) {
    l != [] && forall j :: 0 <= j < |l| - 1 ==> l[j] != '\n'
  }

  predicate EndsWithNewline(l: string) {
    l != [] && l[|l| - 1] == '\n'
  }

  /** What `String#lines` can return: lines, all but the last ending in a newline. */
  predicate WellFormedLines(ls: seq<string>) {
    forall i :: 0 <= i < |ls| ==> IsLine(ls[i]) && (i < |ls| - 1 ==> EndsWithNewline(ls[i]))
  }

  /** `ls.join`: plain concatenation. */
  function Concat(ls: seq<string>): string {
    if ls == [] then [] else ls[0] + Concat(ls[1..])
  }

  /** Length of the first line of `s`, its newline included. */
  function FirstLineLen(s: string): (n: nat)
    requires s != []
    ensures 1 <= n <= |s|
    ensures forall j :: 0 <= j < n - 1 ==> s[j] != '\n'
    ensures n < |s| ==> s[n - 1] == '\n'
  {
    if s[0] == '\n' || |s| == 1 then 1 else 1 + FirstLineLen(s[1..])
  }

  /** `s.lines` (also `each_line`): `s` cut after every newline. */
  function Lines(s: string): seq<string>
    decreases |s|
  {
    if s == [] then [] else [s[..FirstLineLen(s)]] + Lines(s[FirstLineLen(s)..])
  }

  /** Joining the lines of `s` gives `s` back, and they are lines as `String#lines`
      yields them. */
  lemma LinesOfText(s: string)
    ensures Concat(Lines(s)) == s
    ensures WellFormedLines(Lines(s))
  {
    LinesJoinBack(s);
    LinesWellFormed(s);
  }

  lemma {:induction false} LinesJoinBack(s: string)
    decreases |s|
    ensures Concat(Lines(s)) == s
  {
    if s != [] {
      var n := FirstLineLen(s);
      var ls, rest := Lines(s), s[n..];
      LinesJoinBack(rest);
      assert ls == [s[..n]] + Lines(rest);
      assert ls[1..] == Lines(rest);
      assert Concat(ls) == s[..n] + Concat(Lines(rest));
      assert s[..n] + rest == s;
    }
  }

  lemma {:induction false} LinesWellFormed(s: string)
    decreases |s|
    ensures WellFormedLines(Lines(s))
  {
    if s != [] {
      var n := FirstLineLen(s);
      var ls, rest := Lines(s), Lines(s[n..]);
      LinesWellFormed(s[n..]);
      assert ls == [s[..n]] + rest;
      forall i | 0 <= i < |ls|
        ensures IsLine(ls[i]) && (i < |ls| - 1 ==> EndsWithNewline(ls[i]))
      {
        if i == 0 {
          assert ls[0] == s[..n];
          if 0 < |ls| - 1 {
            assert s[n..] != [];
          }
        } else {
          assert ls[i] == rest[i - 1];
        }
      }
    }
  }

  lemma {:induction false} FirstLineLenOfConcat(x: string, y: string)
    requires IsLine(x)
    requires y != [] ==> EndsWithNewline(x)
    ensures FirstLineLen(x + y) == |x|
  {
    if |x| > 1 {
      assert (x + y)[0] == x[0] != '\n';
      assert (x + y)[1..] == x[1..] + y;
      FirstLineLenOfConcat(x[1..], y);
    }
  }

  /** Splitting joined lines gives those lines back. */
  lemma {:induction false} LinesOfConcat(ls: seq<string>)
    requires WellFormedLines(ls)
    ensures Lines(Concat(ls)) == ls
  {
    if ls != [] {
      var s := Concat(ls);
      assert IsLine(ls[0]);
      FirstLineLenOfConcat(ls[0], Concat(ls[1..]));
      assert s[..|ls[0]|] == ls[0];
      assert s[|ls[0]|..] == Concat(ls[1..]);
      assert WellFormedLines(ls[1..]) by {
        forall i | 0 <= i < |ls[1..]|
          ensures IsLine(ls[1..][i]) && (i < |ls[1..]| - 1 ==> EndsWithNewline(ls[1..][i]))
        {
          assert ls[1..][i] == ls[i + 1];
        }
      }
      LinesOfConcat(ls[1..]);
    }
  }

  /** `parts.join("\n")` */
  function JoinNewline(parts: seq<string>): string {
    if |parts| == 0 then []
    else if |parts| == 1 then parts[0]
    else parts[0] + "\n" + JoinNewline(parts[1..])
  }

  // ---------------------------------------------------------------- "//"

  /** An occurrence in a prefix is an occurrence in the whole text. */
  lemma OccursInPrefix(s: string, n: nat, t: string, i: nat)
    requires n <= |s| && OccursAt(s[..n], t, i)
    ensures OccursAt(s, t, i) && i + |t| <= n
  {
    assert s[..n][i..i + |t|] == s[i..i + |t|];
  }

  /** Inside an occurrence, each character of `s` is the matching character of `t`. */
  lemma OccurrenceChar(s: string, t: string, i: nat, q: nat)
    ensures OccursAt(s, t, i) && i <= q < i + |t| ==> s[q] == t[q - i]
  {
    if OccursAt(s, t, i) && i <= q < i + |t| {
      assert s[i..i + |t|][q - i] == s[q];
    }
  }

  /** An occurrence at `i` in the text after offset `k` is one at `k + i` in the whole. */
  lemma OccursShifted(s: string, t: string, k: nat, i: nat)
    requires k <= |s|
    ensures OccursAt(s[k..], t, i) <==> OccursAt(s, t, k + i)
  {
    if k + i + |t| <= |s| {
      assert s[k..][i..i + |t|] == s[k + i..k + i + |t|];
    }
  }

  /** An occurrence that ends by `n` is an occurrence in the prefix of length `n`. */
  lemma OccursInCut(s: string, n: nat, t: string, i: nat)
    requires n <= |s| && i + |t| <= n && OccursAt(s, t, i)
    ensures OccursAt(s[..n], t, i)
  {
    assert s[..n][i..i + |t|] == s[i..i + |t|];
  }

  /** A text without newlines occurs in two texts joined by a newline exactly when it
      occurs in one of them. */
  lemma ContainsAcrossNewline(a: string, b: string, t: string)
    requires forall j :: 0 <= j < |t| ==> t[j] != '\n'
    ensures Contains(a + "\n" + b, t) <==> Contains(a, t) || Contains(b, t)
  {
    var s := a + "\n" + b;
    assert s[..|a|] == a;
    assert s[|a| + 1..] == b;
    if Contains(a, t) {
      var i: nat :| i <= |a| && OccursAt(a, t, i);
      OccursInPrefix(s, |a|, t, i);
    }
    if Contains(b, t) {
      var i: nat :| i <= |b| && OccursAt(b, t, i);
      OccursShifted(s, t, |a| + 1, i);
    }
    if Contains(s, t) {
      var i: nat :| i <= |s| && OccursAt(s, t, i);
      OccurrenceChar(s, t, i, |a|);
      assert s[|a|] == '\n';
      if i + |t| <= |a| {
        OccursInCut(s, |a|, t, i);
      } else if i > |a| {
        OccursShifted(s, t, |a| + 1, i - |a| - 1);
        assert OccursAt(b, t, i - |a| - 1);
      } else {
        assert false;
      }
    }
  }

  /** No `//` can straddle a junction whose left side does not end in `/`. */
  lemma NoDoubleSlashAcross(x: string, y: string)
    requires !Contains(x, "//") && !Contains(y, "//")
    requires x == [] || y == [] || x[|x| - 1] != '/' || y[0] != '/'
    ensures !Contains(x + y, "//")
  {
    var s := x + y;
    forall i: nat | i <= |s|
      ensures !OccursAt(s, "//", i)
    {
      if OccursAt(s, "//", i) {
        assert s[i] == '/' && s[i + 1] == '/' by {
          assert s[i..i + 2][0] == s[i] && s[i..i + 2][1] == s[i + 1];
        }
        if i + 2 <= |x| {
          assert x[i..i + 2] == s[i..i + 2];
          assert OccursAt(x, "//", i);
        } else if i >= |x| {
          assert y[i - |x|..i - |x| + 2] == s[i..i + 2];
          assert OccursAt(y, "//", i - |x|);
        } else {
          assert false;
        }
      }
    }
  }

  /** Joining lines that have no `//`, each but the last ending in a newline, yields no `//`. */
  lemma {:induction false} ConcatNoDoubleSlash(ls: seq<string>)
    requires forall i :: 0 <= i < |ls| ==> !Contains(ls[i], "//")
    requires forall i :: 0 <= i < |ls| - 1 ==> EndsWithNewline(ls[i])
    ensures !Contains(Concat(ls), "//")
  {
    if ls == [] {
      assert !OccursAt([], "//", 0);
    } else {
      ConcatNoDoubleSlash(ls[1..]);
      if |ls| > 1 {
        NoDoubleSlashAcross(ls[0], Concat(ls[1..]));
      } else {
        assert Concat(ls) == ls[0] + [];
        assert !OccursAt([], "//", 0);
        NoDoubleSlashAcross(ls[0], []);
      }
    }
  }

  /** `"\n"` has no `//`. */
  lemma NewlineNoDoubleSlash()
    ensures !Contains("\n", "//")
  {
  }

  /** Joining texts that have no `//` with newlines yields no `//`. */
  lemma {:induction false} JoinNewlineNoDoubleSlash(parts: seq<string>)
    requires forall i :: 0 <= i < |parts| ==> !Contains(parts[i], "//")
    ensures !Contains(JoinNewline(parts), "//")
  {
    if |parts| == 0 {
      assert !OccursAt([], "//", 0);
    } else if |parts| > 1 {
      JoinNewlineNoDoubleSlash(parts[1..]);
      NewlineNoDoubleSlash();
      NoDoubleSlashAcross("\n", JoinNewline(parts[1..]));
      NoDoubleSlashAcross(parts[0], "\n" + JoinNewline(parts[1..]));
      assert parts[0] + "\n" + JoinNewline(parts[1..]) == parts[0] + ("\n" + JoinNewline(parts[1..]));
    }
  }
}
