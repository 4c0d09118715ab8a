/**
  Whole-word matching, the `\bname\b` of the tool's regular expressions, over ASCII
  word characters `[A-Za-z0-9_]`.
 */
module Words {
  import opened Text

  /** Regex `\w`. */
  predicate IsWordChar(c: char) {
    ('A' <= c <= 'Z') || ('a' <= c <= 'z') || ('0' <= c <= '9') || c == '_'
  }

  predicate IsUpper(c: char) {
    'A' <= c <= 'Z'
  }

  /** A non-empty run of word characters, such as a type name or a keyword. */
  predicate IsWord(w: string) {
    w != [] && forall j :: 0 <= j < |w| ==> IsWordChar(w[j])
  }

  /** What the declaration pattern captures as a name: `[A-Z][A-Za-z0-9_]*`. */
  predicate IsTypeName(w: string) {
    IsWord(w) && IsUpper(w[0])
  }

  /** `\bw\b` matches at index `p` of `s`, for a word `w`: `w` occurs there with no word
      character (or the edge of `s`) on either side. */
  predicate WordAt(s: string, w: string, p: nat) {
    && OccursAt(s, w, p)
    && (p == 0 || !IsWordChar(s[p - 1]))
    && (p + |w| == |s| || !IsWordChar(s[p + |w|]))
  }

  /** `s.match?(/\bw\b/)` */
  predicate ContainsWord(s: string, w: string) {
    exists p: nat | p <= |s| :: WordAt(s, w, p)
  }

  /** The number of match positions at or after `p`. */
  function CountFrom(s: string, w: string, p: nat): nat
    requires p <= |s|
    decreases |s| - p
  {
    (if WordAt(s, w, p) then 1 else 0) + (if p == |s| then 0 else CountFrom(s, w, p + 1))
  }

  /** `s.scan(/\bw\b/).length` */
  function Occurrences(s: string, w: string): nat {
    CountFrom(s, w, 0)
  }

  /** Every index at which a whole-word match starts. */
  function MatchPositions(s: string, w: string): set<nat> {
    set p: nat | p <= |s| && WordAt(s, w, p)
  }

  function MatchPositionsFrom(s: string, w: string, p: nat): set<nat> {
    set q: nat | p <= q <= |s| && WordAt(s, w, q)
  }

  /** One more position adds itself to the match positions exactly when a match starts there. */
  lemma MatchPositionsStep(s: string, w: string, p: nat)
    requires p < |s|
    ensures |MatchPositionsFrom(s, w, p)| == |MatchPositionsFrom(s, w, p + 1)| + if WordAt(s, w, p) then 1 else 0
  {
    var now, later := MatchPositionsFrom(s, w, p), MatchPositionsFrom(s, w, p + 1);
    if WordAt(s, w, p) {
      assert now == later + {p} by {
        forall q | q in now ensures q in later + {p} {
          if q != p { assert q in later; }
        }
      }
      assert p !in later;
    } else {
      assert now == later by {
        forall q | q in now ensures q in later {
          assert q != p;
        }
      }
    }
  }

  lemma {:induction false} CountFromIsCardinality(s: string, w: string, p: nat)
    requires p <= |s|
    decreases |s| - p
    ensures CountFrom(s, w, p) == |MatchPositionsFrom(s, w, p)|
  {
    if p == |s| {
      assert MatchPositionsFrom(s, w, p) == if WordAt(s, w, p) then {p} else {} by {
        forall q | q in MatchPositionsFrom(s, w, p) ensures q == p {}
      }
    } else {
      CountFromIsCardinality(s, w, p + 1);
      MatchPositionsStep(s, w, p);
    }
  }

  /** The occurrence count is the number of match positions. */
  lemma OccurrencesIsMatchCount(s: string, w: string)
    ensures Occurrences(s, w) == |MatchPositions(s, w)|
  {
    CountFromIsCardinality(s, w, 0);
    assert MatchPositions(s, w) == MatchPositionsFrom(s, w, 0);
  }

  /** Two whole-word matches of a word never overlap (nor touch), so counting positions
      is counting what a left-to-right `scan` finds. */
  lemma MatchesDoNotOverlap(s: string, w: string, p: nat, q: nat)
    requires IsWord(w)
    requires WordAt(s, w, p) && WordAt(s, w, q) && p < q
    ensures p + |w| < q
  {
    if q <= p + |w| {
      // s[q - 1] lies inside the match at p, so it is a word character
      assert false;
    }
  }

  /** A match can be witnessed exactly when the count is positive. */
  lemma {:induction false} ContainsWordFrom(s: string, w: string, p: nat)
    requires p <= |s|
    decreases |s| - p
    ensures CountFrom(s, w, p) >= 1 <==> exists q: nat | p <= q <= |s| :: WordAt(s, w, q)
  {
    if p < |s| {
      ContainsWordFrom(s, w, p + 1);
      if exists q: nat | p <= q <= |s| :: WordAt(s, w, q) {
        var q: nat :| p <= q <= |s| && WordAt(s, w, q);
        if q > p {
          assert p + 1 <= q;
        }
      }
    }
  }

  lemma ContainsWordIffCounted(s: string, w: string)
    ensures ContainsWord(s, w) <==> Occurrences(s, w) >= 1
  {
    ContainsWordFrom(s, w, 0);
  }

  // ------------------------------------- counts over a text joined with "\n"

  lemma WordAtJoinLeft(a: string, b: string, w: string, p: nat)
    requires IsWord(w) && p <= |a|
    ensures WordAt(a + "\n" + b, w, p) <==> WordAt(a, w, p)
  {
    var s := a + "\n" + b;
    assert s[|a|] == '\n';
    if p + |w| > |a| {
      if OccursAt(s, w, p) {
        // the match would have to cover the newline
        assert false;
      }
    } else {
      assert s[p..p + |w|] == a[p..p + |w|];
      if p > 0 {
        assert s[p - 1] == a[p - 1];
      }
      if p + |w| < |a| {
        assert s[p + |w|] == a[p + |w|];
      } else {
        assert s[p + |w|] == '\n';
      }
    }
  }

  lemma WordAtJoinRight(a: string, b: string, w: string, q: nat)
    requires IsWord(w) && q <= |b|
    ensures WordAt(a + "\n" + b, w, |a| + 1 + q) <==> WordAt(b, w, q)
  {
    var s := a + "\n" + b;
    var p := |a| + 1 + q;
    if q + |w| <= |b| {
      assert s[p..p + |w|] == b[q..q + |w|];
      if q + |w| < |b| {
        assert s[p + |w|] == b[q + |w|];
      }
    }
    if q > 0 {
      assert s[p - 1] == b[q - 1];
    } else {
      assert s[p - 1] == '\n';
    }
  }

  lemma {:induction false} CountFromJoinRight(a: string, b: string, w: string, q: nat)
    requires IsWord(w) && q <= |b|
    decreases |b| - q
    ensures CountFrom(a + "\n" + b, w, |a| + 1 + q) == CountFrom(b, w, q)
  {
    WordAtJoinRight(a, b, w, q);
    if q < |b| {
      CountFromJoinRight(a, b, w, q + 1);
    }
  }

  lemma {:induction false} CountFromJoinLeft(a: string, b: string, w: string, p: nat)
    requires IsWord(w) && p <= |a|
    decreases |a| - p
    ensures CountFrom(a + "\n" + b, w, p) == CountFrom(a, w, p) + CountFrom(b, w, 0)
  {
    WordAtJoinLeft(a, b, w, p);
    if p == |a| {
      CountFromJoinRight(a, b, w, 0);
    } else {
      CountFromJoinLeft(a, b, w, p + 1);
    }
  }

  /** The newline separator never joins two halves into a match: counts add up. */
  lemma OccurrencesOfJoin(a: string, b: string, w: string)
    requires IsWord(w)
    ensures Occurrences(a + "\n" + b, w) == Occurrences(a, w) + Occurrences(b, w)
  {
    CountFromJoinLeft(a, b, w, 0);
  }
}
