/** The ordinal string operations of .NET that the controller relies on:
    `String.Contains(string)`, `String.Replace(string, string)` and joining
    pieces with a separator (used to state properties of templates). */
module Text {

  /** `t` occurs in `s` at index `i`, compared character by character. */
  predicate OccursAt(s: string, t: string, i: nat)
  {
    i + |t| <= |s| && s[i..i + |t|] == t
  }

  /** The middle piece of a concatenation occurs right after the first. */
  lemma {:induction false} OccursAtMiddle(x: string, t: string, y: string)
    ensures OccursAt(x + t + y, t, |x|)
  {
    assert (x + t + y)[|x|..|x| + |t|] == t;
  }

  /** `String.Contains` with ordinal comparison. */
  predicate Contains(s: string, t: string)
  {
    exists i: nat :: i <= |s| && OccursAt(s, t, i)
  }

  /** `String.Replace(pat, rep)`: scans left to right and replaces every
      non-overlapping occurrence of `pat`; .NET rejects an empty `pat`. */
  function ReplaceAll(s: string, pat: string, rep: string): string
    requires pat != []
    decreases |s|
  {
    if |s| < |pat| then s
    else if s[..|pat|] == pat then rep + ReplaceAll(s[|pat|..], pat, rep)
    else [s[0]] + ReplaceAll(s[1..], pat, rep)
  }

  /** `parts` glued together with `sep` between neighbours. */
  function Join(parts: seq<string>, sep: string): string
    requires parts != []
    decreases |parts|
  {
    if |parts| == 1 then parts[0] else parts[0] + sep + Join(parts[1..], sep)
  }

  /** Peeling the first piece and separator off a join behind a prefix. */
  lemma {:induction false} JoinCons(pre: string, parts: seq<string>, sep: string)
    requires |parts| > 1
    ensures pre + Join(parts, sep) == (pre + parts[0]) + sep + Join(parts[1..], sep)
  {
  }

  /** A slice of a slice is a slice of the original. */
  lemma {:induction false} SliceOfSlice(s: string, a: nat, b: nat, c: nat, d: nat)
    requires a <= b <= |s| && c <= d <= b - a
    ensures s[a..b][c..d] == s[a + c..a + d]
  {
    assert forall k :: 0 <= k < d - c ==> s[a..b][c..d][k] == s[a + c..a + d][k];
  }

  /** A string that lacks the first character of `t` cannot contain `t`. */
  lemma {:induction false} NotContainsWithoutFirstChar(s: string, t: string)
    requires t != [] && t[0] !in s
    ensures !Contains(s, t)
  {
    forall i: nat | i <= |s|
      ensures !OccursAt(s, t, i)
    {
      if i + |t| <= |s| {
        assert s[i..i + |t|][0] == s[i];
      }
    }
  }

  /** Replacing a pattern that does not occur leaves the string alone. */
  lemma {:induction false} ReplaceAllWithoutOccurrence(s: string, pat: string, rep: string)
    requires pat != [] && !Contains(s, pat)
    ensures ReplaceAll(s, pat, rep) == s
    decreases |s|
  {
    if |s| >= |pat| {
      assert !OccursAt(s, pat, 0);
      if Contains(s[1..], pat) {
        var i: nat :| i <= |s[1..]| && OccursAt(s[1..], pat, i);
        assert s[i + 1..i + 1 + |pat|] == s[1..][i..i + |pat|];
        assert OccursAt(s, pat, i + 1);
      }
      ReplaceAllWithoutOccurrence(s[1..], pat, rep);
      assert [s[0]] + s[1..] == s;
    }
  }

  /** Replacing a pattern by itself is the identity. */
  lemma {:induction false} ReplaceAllIdentity(s: string, pat: string)
    requires pat != []
    ensures ReplaceAll(s, pat, pat) == s
    decreases |s|
  {
    if |s| >= |pat| {
      if s[..|pat|] == pat {
        ReplaceAllIdentity(s[|pat|..], pat);
        assert s[..|pat|] + s[|pat|..] == s;
      } else {
        ReplaceAllIdentity(s[1..], pat);
        assert [s[0]] + s[1..] == s;
      }
    }
  }

  /** A prefix without the pattern's first character is copied unchanged. */
  lemma {:induction false} ReplaceAllSkipsPrefix(a: string, t: string, pat: string, rep: string)
    requires pat != [] && pat[0] !in a
    ensures ReplaceAll(a + t, pat, rep) == a + ReplaceAll(t, pat, rep)
    decreases |a|
  {
    if a != [] {
      var s := a + t;
      assert s[0] == a[0];
      if |s| >= |pat| {
        assert s[..|pat|][0] != pat[0];
        assert ReplaceAll(s, pat, rep) == [a[0]] + ReplaceAll(s[1..], pat, rep);
        assert s[1..] == a[1..] + t;
        ReplaceAllSkipsPrefix(a[1..], t, pat, rep);
        assert [a[0]] + a[1..] == a;
        assert [a[0]] + (a[1..] + ReplaceAll(t, pat, rep)) == a + ReplaceAll(t, pat, rep);
        assert ReplaceAll(a + t, pat, rep) == a + ReplaceAll(t, pat, rep);
      } else {
        assert ReplaceAll(s, pat, rep) == s;
        assert ReplaceAll(t, pat, rep) == t;
        assert ReplaceAll(a + t, pat, rep) == a + ReplaceAll(t, pat, rep);
      }
    } else {
      assert a + t == t;
    }
  }

  /** A string that differs from `t` at some offset holds no occurrence of `t` at `i`. */
  lemma {:induction false} NoOccurrenceWhereDiffers(s: string, t: string, i: nat, j: nat)
    requires j < |t| && i + j < |s| && s[i + j] != t[j]
    ensures !OccursAt(s, t, i)
  {
    if i + |t| <= |s| {
      assert s[i..i + |t|][j] == s[i + j];
    }
  }

  /** A prefix at none of whose positions the pattern occurs is copied unchanged. */
  lemma {:induction false} ReplaceAllSkipsNoOccurrence(a: string, t: string, pat: string, rep: string)
    requires pat != []
    requires forall k :: 0 <= k < |a| ==> !OccursAt(a + t, pat, k)
    ensures ReplaceAll(a + t, pat, rep) == a + ReplaceAll(t, pat, rep)
    decreases |a|
  {
    var s := a + t;
    if a == [] {
      assert s == t;
    } else if |s| < |pat| {
      assert ReplaceAll(t, pat, rep) == t;
    } else {
      assert !OccursAt(s, pat, 0);
      assert s[1..] == a[1..] + t;
      forall k | 0 <= k < |a| - 1 ensures !OccursAt(a[1..] + t, pat, k) {
        assert !OccursAt(s, pat, k + 1);
        if k + |pat| <= |s| - 1 {
          assert s[1..][k..k + |pat|] == s[k + 1..k + 1 + |pat|];
        }
      }
      ReplaceAllSkipsNoOccurrence(a[1..], t, pat, rep);
      assert [a[0]] + a[1..] == a;
    }
  }

  /** An occurrence at the front is replaced and scanning resumes after it. */
  lemma {:induction false} ReplaceAllAtOccurrence(t: string, pat: string, rep: string)
    requires pat != []
    ensures ReplaceAll(pat + t, pat, rep) == rep + ReplaceAll(t, pat, rep)
  {
    assert (pat + t)[..|pat|] == pat;
    assert (pat + t)[|pat|..] == t;
  }

  /** Every separator of a join is replaced when the pieces cannot start an occurrence. */
  lemma {:induction false} ReplaceAllJoin(parts: seq<string>, pat: string, rep: string)
    requires parts != [] && pat != []
    requires forall j :: 0 <= j < |parts| ==> pat[0] !in parts[j]
    ensures ReplaceAll(Join(parts, pat), pat, rep) == Join(parts, rep)
    decreases |parts|
  {
    if |parts| == 1 {
      NotContainsWithoutFirstChar(parts[0], pat);
      ReplaceAllWithoutOccurrence(parts[0], pat, rep);
    } else {
      var rest := Join(parts[1..], pat);
      assert Join(parts, pat) == parts[0] + (pat + rest);
      ReplaceAllSkipsPrefix(parts[0], pat + rest, pat, rep);
      ReplaceAllAtOccurrence(rest, pat, rep);
      ReplaceAllJoin(parts[1..], pat, rep);
      assert Join(parts, rep) == parts[0] + (rep + Join(parts[1..], rep));
    }
  }

  /** A character absent from the pieces and the separator is absent from the join. */
  lemma {:induction false} JoinAvoids(parts: seq<string>, sep: string, c: char)
    requires parts != [] && c !in sep
    requires forall j :: 0 <= j < |parts| ==> c !in parts[j]
    ensures c !in Join(parts, sep)
    decreases |parts|
  {
    if |parts| > 1 {
      JoinAvoids(parts[1..], sep, c);
    }
  }
}
