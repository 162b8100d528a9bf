/** The template resolver of the controller (`ParseAndBuildEnvironmentVariable`):
    placeholders `##MessageDelivery.Tag.<key>##` in an environment-variable
    template are replaced by the value of the queue tag `<key>`.

    The placeholder pattern is the regular expression `##MessageDelivery.Tag.(\w+)##`.
    Its two dots are not escaped, so each stands for any character except a
    line feed; `\w` is a word character. Matches are found left to right
    without overlap in the ORIGINAL template, and each one whose key is a
    known tag is then applied with a replace-all on the string as it is at
    that moment. */
module TagResolver {
  import opened Wrappers
  import opened Text

  /** The literal text the resolver looks for before extracting placeholders. */
  const Marker: string := "##MessageDelivery"
  const TagWord: string := "Tag"
  const Closer: string := "##"

  /** The regular-expression class `\w`, restricted to ASCII. */
  predicate IsWordChar(c: char)
  {
    'a' <= c <= 'z' || 'A' <= c <= 'Z' || '0' <= c <= '9' || c == '_'
  }

  /** The regular-expression wildcard `.`: anything but a line feed. */
  predicate IsAnyChar(c: char)
  {
    c != '\n'
  }

  /** `text` is, as a whole, a match of the placeholder pattern whose
      captured group is `key`. This is the reference reading of the pattern. */
  predicate IsPlaceholder(text: string, key: string)
  {
    && key != []
    && |text| == |key| + 24
    && text[..17] == Marker
    && IsAnyChar(text[17])
    && text[18..21] == TagWord
    && IsAnyChar(text[21])
    && text[22..22 + |key|] == key
    && (forall c :: c in key ==> IsWordChar(c))
    && text[22 + |key|..] == Closer
  }

  /** A placeholder spelled with `dot1` and `dot2` where the pattern has `.`. */
  function PlaceholderText(dot1: char, dot2: char, key: string): string
  {
    Marker + [dot1] + TagWord + [dot2] + key + Closer
  }

  /** Every such spelling with a word key matches the pattern as a whole. */
  lemma {:induction false} PlaceholderTextMatches(dot1: char, dot2: char, key: string)
    requires IsAnyChar(dot1) && IsAnyChar(dot2)
    requires key != [] && forall c :: c in key ==> IsWordChar(c)
    ensures IsPlaceholder(PlaceholderText(dot1, dot2, key), key)
  {
    var t := PlaceholderText(dot1, dot2, key);
    assert t == Marker + ([dot1] + TagWord + [dot2]) + key + Closer;
    assert t[..17] == Marker;
    assert t[18..21] == TagWord;
    assert t[22..22 + |key|] == key;
    assert t[22 + |key|..] == Closer;
  }

  /** The pattern matches `s` at index `i` with match text `text` and group `key`. */
  predicate IsMatchAt(s: string, i: nat, text: string, key: string)
  {
    OccursAt(s, text, i) && IsPlaceholder(text, key)
  }

  /** One element of the match collection as .NET records it: the index in
      the template where the match starts (`Match.Index`) and its length
      (`Match.Length`). The matched text and the captured key are read back
      from the template. */
  datatype TagMatch = TagMatch(index: nat, length: nat)

  /** The match lies inside `s` and leaves room for a key between the fixed parts. */
  predicate Within(s: string, m: TagMatch)
  {
    24 < m.length && m.index + m.length <= |s|
  }

  /** Every match of the collection lies inside `s`. */
  predicate AllWithin(s: string, ms: seq<TagMatch>)
  {
    forall j :: 0 <= j < |ms| ==> Within(s, ms[j])
  }

  /** `Match.Value`: the matched text. */
  function Value(s: string, m: TagMatch): string
    requires Within(s, m)
  {
    s[m.index..m.index + m.length]
  }

  /** `Groups[1].Value`: the key between the fixed prefix and the closing `##`. */
  function Key(s: string, m: TagMatch): string
    requires Within(s, m)
  {
    s[m.index + 22..m.index + m.length - 2]
  }

  /** End of the longest run of word characters starting at `j`. */
  function WordRunEnd(s: string, j: nat): (e: nat)
    requires j <= |s|
    ensures j <= e <= |s|
    ensures e == |s| || !IsWordChar(s[e])
    decreases |s| - j
  {
    if j < |s| && IsWordChar(s[j]) then WordRunEnd(s, j + 1) else j
  }

  /** Everything before the end of the run is a word character. */
  lemma {:induction false} WordRunIsWord(s: string, j: nat, k: nat)
    requires j <= |s| && j <= k < WordRunEnd(s, j)
    ensures IsWordChar(s[k])
    decreases |s| - j
  {
    if k > j {
      WordRunIsWord(s, j + 1, k);
    }
  }

  /** The run, taken as a key, holds word characters only. */
  lemma {:induction false} WordRunIsKey(s: string, j: nat)
    requires j <= |s|
    ensures forall c :: c in s[j..WordRunEnd(s, j)] ==> IsWordChar(c)
  {
    var key := s[j..WordRunEnd(s, j)];
    forall c | c in key ensures IsWordChar(c) {
      var k :| 0 <= k < |key| && key[k] == c;
      WordRunIsWord(s, j, j + k);
    }
  }

  /** A run of word characters ended by a non-word character or the end of
      the string is the one `WordRunEnd` finds. */
  lemma {:induction false} WordRunEndAt(s: string, j: nat, e: nat)
    requires j <= e <= |s|
    requires forall k :: j <= k < e ==> IsWordChar(s[k])
    requires e == |s| || !IsWordChar(s[e])
    ensures WordRunEnd(s, j) == e
    decreases e - j
  {
    if j < e {
      WordRunEndAt(s, j + 1, e);
    }
  }

  /** The literal characters of the pattern's fixed part at `i`: the marker
      at offsets 0 to 16 and `Tag` at offsets 18 to 20, compared one by one. */
  predicate FixedCharsAt(s: string, i: nat)
    requires i + 22 <= |s|
  {
    && s[i] == '#' && s[i + 1] == '#' && s[i + 2] == 'M' && s[i + 3] == 'e' && s[i + 4] == 's'
    && s[i + 5] == 's' && s[i + 6] == 'a' && s[i + 7] == 'g' && s[i + 8] == 'e' && s[i + 9] == 'D'
    && s[i + 10] == 'e' && s[i + 11] == 'l' && s[i + 12] == 'i' && s[i + 13] == 'v' && s[i + 14] == 'e'
    && s[i + 15] == 'r' && s[i + 16] == 'y' && s[i + 18] == 'T' && s[i + 19] == 'a' && s[i + 20] == 'g'
  }

  /** The character-wise comparison is the comparison with the literals. */
  lemma {:induction false} FixedCharsAtIsLiterals(s: string, i: nat)
    requires i + 22 <= |s|
    ensures FixedCharsAt(s, i) <==> s[i..i + 17] == Marker && s[i + 18..i + 21] == TagWord
  {
    var m, t := s[i..i + 17], s[i + 18..i + 21];
    assert forall k :: 0 <= k < 17 ==> m[k] == s[i + k];
    assert forall k :: 0 <= k < 3 ==> t[k] == s[i + 18 + k];
    if FixedCharsAt(s, i) {
      assert m == Marker;
      assert t == TagWord;
    }
  }

  /** The match attempt at index `i`: the fixed prefix, then the greedy `\w+`
      and the closing `##`. Backtracking into `\w+` cannot help, because the
      character after a shorter run is a word character and not `#`. */
  function MatchAt(s: string, i: nat): Option<TagMatch>
  {
    if i + 22 <= |s| && FixedCharsAt(s, i) && IsAnyChar(s[i + 17]) && IsAnyChar(s[i + 21])
    then
      var e := WordRunEnd(s, i + 22);
      if e > i + 22 && e + 2 <= |s| && s[e] == '#' && s[e + 1] == '#'
      then Some(TagMatch(i, e + 2 - i))
      else None
    else None
  }

  /** What the match attempt returns starts at `i` and lies inside `s`. */
  lemma {:induction false} MatchAtBounds(s: string, i: nat)
    ensures MatchAt(s, i).Some? ==> MatchAt(s, i).value.index == i && Within(s, MatchAt(s, i).value)
  {
  }

  /** What the match attempt returns is a match of the pattern. */
  lemma {:induction false} MatchAtSound(s: string, i: nat)
    ensures MatchAt(s, i).Some? ==>
              && Within(s, MatchAt(s, i).value)
              && IsMatchAt(s, i, Value(s, MatchAt(s, i).value), Key(s, MatchAt(s, i).value))
  {
    if MatchAt(s, i).Some? {
      var m := MatchAt(s, i).value;
      var e := WordRunEnd(s, i + 22);
      assert e + 2 == i + m.length;
      var text, key := Value(s, m), Key(s, m);
      FixedCharsAtIsLiterals(s, i);
      assert s[e..e + 2] == Closer;
      SliceOfSlice(s, i, e + 2, 0, 17);
      SliceOfSlice(s, i, e + 2, 18, 21);
      SliceOfSlice(s, i, e + 2, 22, 22 + |key|);
      SliceOfSlice(s, i, e + 2, 22 + |key|, |text|);
      WordRunIsKey(s, i + 22);
      assert IsPlaceholder(text, key);
    }
  }

  /** Every match of the pattern at `i` is what the match attempt returns:
      there is at most one, and it is found whenever it exists. */
  lemma {:induction false} MatchAtComplete(s: string, i: nat, text: string, key: string)
    requires IsMatchAt(s, i, text, key)
    ensures MatchAt(s, i) == Some(TagMatch(i, |text|))
    ensures Within(s, TagMatch(i, |text|))
    ensures Value(s, TagMatch(i, |text|)) == text && Key(s, TagMatch(i, |text|)) == key
  {
    var n := |key|;
    var e := i + 22 + n;
    assert s[i..i + |text|] == text;
    SliceOfSlice(s, i, i + |text|, 0, 17);
    SliceOfSlice(s, i, i + |text|, 18, 21);
    SliceOfSlice(s, i, i + |text|, 22, 22 + n);
    SliceOfSlice(s, i, i + |text|, 22 + n, |text|);
    assert s[i + 17] == text[17];
    assert s[i + 21] == text[21];
    assert s[i + 22..e] == key;
    forall k | i + 22 <= k < e ensures IsWordChar(s[k]) {
      assert s[k] == s[i + 22..e][k - i - 22];
      assert s[k] in key;
    }
    assert s[e..e + 2] == Closer;
    assert s[e] == s[e..e + 2][0] && s[e + 1] == s[e..e + 2][1];
    WordRunEndAt(s, i + 22, e);
    FixedCharsAtIsLiterals(s, i);
  }

  /** The match attempt agrees with the reference reading of the pattern. */
  lemma {:induction false} MatchAtIsRegexMatch(s: string, i: nat)
    ensures MatchAt(s, i).Some? ==>
              && MatchAt(s, i).value.index == i && Within(s, MatchAt(s, i).value)
              && IsMatchAt(s, i, Value(s, MatchAt(s, i).value), Key(s, MatchAt(s, i).value))
    ensures forall text, key {:trigger IsMatchAt(s, i, text, key)} ::
              IsMatchAt(s, i, text, key) ==> MatchAt(s, i) == Some(TagMatch(i, |text|))
  {
    MatchAtSound(s, i);
    forall text, key | IsMatchAt(s, i, text, key)
      ensures MatchAt(s, i) == Some(TagMatch(i, |text|))
    {
      MatchAtComplete(s, i, text, key);
    }
  }

  /** `Regex.Matches(s, TAG_REGEX)` from index `i` on: try a match at each
      index, and after a match resume right behind it. */
  function Scan(s: string, i: nat): seq<TagMatch>
    requires i <= |s|
    decreases |s| - i
  {
    if i == |s| then []
    else
      MatchAtBounds(s, i);
      match MatchAt(s, i)
      case Some(m) => [m] + Scan(s, i + m.length)
      case None => Scan(s, i + 1)
  }

  /** Every reported match is what the match attempt at its own index returns. */
  lemma {:induction false} ScanSound(s: string, i: nat, j: nat)
    requires i <= |s| && j < |Scan(s, i)|
    ensures MatchAt(s, Scan(s, i)[j].index) == Some(Scan(s, i)[j])
    decreases |s| - i
  {
    MatchAtBounds(s, i);
    match MatchAt(s, i)
    case Some(m) =>
      if j > 0 {
        ScanSound(s, i + m.length, j - 1);
      }
    case None =>
      ScanSound(s, i + 1, j);
  }

  /** Every reported match is a match of the pattern at its own index. */
  lemma {:induction false} ScanMatchesPattern(s: string, i: nat, j: nat)
    requires i <= |s| && j < |Scan(s, i)|
    ensures Within(s, Scan(s, i)[j])
    ensures IsMatchAt(s, Scan(s, i)[j].index, Value(s, Scan(s, i)[j]), Key(s, Scan(s, i)[j]))
  {
    ScanSound(s, i, j);
    MatchAtSound(s, Scan(s, i)[j].index);
  }

  /** The reported matches lie inside `s`, from `i` on. */
  lemma {:induction false} ScanBounds(s: string, i: nat, j: nat)
    requires i <= |s| && j < |Scan(s, i)|
    ensures i <= Scan(s, i)[j].index && Within(s, Scan(s, i)[j])
    decreases |s| - i
  {
    MatchAtBounds(s, i);
    match MatchAt(s, i)
    case Some(m) =>
      if j > 0 {
        ScanBounds(s, i + m.length, j - 1);
      }
    case None =>
      ScanBounds(s, i + 1, j);
  }

  /** All reported matches lie inside `s`. */
  lemma {:induction false} ScanWithin(s: string, i: nat)
    requires i <= |s|
    ensures AllWithin(s, Scan(s, i))
  {
    forall j | 0 <= j < |Scan(s, i)| ensures Within(s, Scan(s, i)[j]) {
      ScanBounds(s, i, j);
    }
  }

  /** The reported matches are in increasing order and do not overlap. */
  lemma {:induction false} ScanOrdered(s: string, i: nat, j: nat, k: nat)
    requires i <= |s| && j < k < |Scan(s, i)|
    ensures Scan(s, i)[j].index + Scan(s, i)[j].length <= Scan(s, i)[k].index
    decreases |s| - i
  {
    MatchAtBounds(s, i);
    match MatchAt(s, i)
    case Some(m) =>
      if j == 0 {
        ScanBounds(s, i + m.length, k - 1);
      } else {
        ScanOrdered(s, i + m.length, j - 1, k - 1);
      }
    case None =>
      ScanOrdered(s, i + 1, j, k);
  }

  /** The whole match collection of a template. */
  function TagMatches(s: string): seq<TagMatch>
  {
    Scan(s, 0)
  }

  /** Some match of the collection contains index `p`. */
  ghost predicate Covers(ms: seq<TagMatch>, p: nat)
  {
    exists j :: 0 <= j < |ms| && ms[j].index <= p < ms[j].index + ms[j].length
  }

  /** The scan misses no match: every index where the pattern matches lies
      inside a reported match (a match is skipped only if it overlaps an
      earlier, reported one). */
  lemma {:induction false} ScanComplete(s: string, i: nat, p: nat)
    requires i <= p < |s| && MatchAt(s, p).Some?
    ensures Covers(Scan(s, i), p)
    decreases |s| - i
  {
    MatchAtBounds(s, i);
    match MatchAt(s, i)
    case Some(m) =>
      var rest := Scan(s, i + m.length);
      assert Scan(s, i) == [m] + rest;
      if p < i + m.length {
        assert Scan(s, i)[0] == m;
      } else {
        ScanComplete(s, i + m.length, p);
        var j :| 0 <= j < |rest| && rest[j].index <= p < rest[j].index + rest[j].length;
        assert Scan(s, i)[j + 1] == rest[j];
      }
    case None =>
      assert p != i;
      ScanComplete(s, i + 1, p);
  }

  /** Every match begins with the marker, so a template without the marker has none. */
  lemma {:induction false} ScanFindsMarker(s: string, i: nat)
    requires i <= |s| && Scan(s, i) != []
    ensures Contains(s, Marker)
  {
    var m := Scan(s, i)[0];
    ScanMatchesPattern(s, i, 0);
    assert s[m.index..m.index + 17] == Value(s, m)[..17];
    assert OccursAt(s, Marker, m.index);
  }

  /** One step of the foreach loop: `Replace` of the match's text on the
      current string, only when its key is a tag of the queue. */
  function ApplyMatch(cur: string, s: string, m: TagMatch, tags: map<string, string>): string
    requires Within(s, m)
  {
    if Key(s, m) in tags then ReplaceAll(cur, Value(s, m), tags[Key(s, m)]) else cur
  }

  /** The foreach loop over the matches of `s`, on the changing string `cur`. */
  function ApplyMatches(cur: string, s: string, ms: seq<TagMatch>, tags: map<string, string>): string
    requires AllWithin(s, ms)
    decreases |ms|
  {
    if ms == [] then cur else ApplyMatches(ApplyMatch(cur, s, ms[0], tags), s, ms[1..], tags)
  }

  /** What `ParseAndBuildEnvironmentVariable` returns. */
  function Resolve(template: string, tags: map<string, string>): string
  {
    if !Contains(template, Marker) then template
    else
      ScanWithin(template, 0);
      ApplyMatches(template, template, TagMatches(template), tags)
  }

  /** The resolver as the source writes it: a short-cut for templates without
      the marker, then a loop that reassigns the string once per match. */
  method ParseAndBuildEnvironmentVariable(environmentVariable: string, tags: map<string, string>)
    returns (resolved: string)
    ensures resolved == Resolve(environmentVariable, tags)
    ensures !Contains(environmentVariable, Marker) ==> resolved == environmentVariable
  {
    if !Contains(environmentVariable, Marker) {
      return environmentVariable;
    }
    var tagMatches := TagMatches(environmentVariable);
    ScanWithin(environmentVariable, 0);
    resolved := environmentVariable;
    var i := 0;
    while i < |tagMatches|
      invariant 0 <= i <= |tagMatches|
      invariant AllWithin(environmentVariable, tagMatches[i..])
      invariant ApplyMatches(resolved, environmentVariable, tagMatches[i..], tags) == Resolve(environmentVariable, tags)
    {
      var tagMatch := tagMatches[i];
      assert tagMatches[i..][1..] == tagMatches[i + 1..];
      var key := Key(environmentVariable, tagMatch);
      if key in tags {
        resolved := ReplaceAll(resolved, Value(environmentVariable, tagMatch), tags[key]);
      }
      i := i + 1;
    }
  }

  /** The marker short-cut never changes the outcome: resolving is always
      the loop over the match collection. */
  lemma {:induction false} ShortCircuitAgrees(s: string, tags: map<string, string>)
    ensures AllWithin(s, TagMatches(s))
    ensures Resolve(s, tags) == ApplyMatches(s, s, TagMatches(s), tags)
  {
    ScanWithin(s, 0);
    if TagMatches(s) != [] {
      ScanFindsMarker(s, 0);
    }
  }

  /** Matches whose key is unknown, or whose text no longer occurs, change nothing. */
  lemma {:induction false} ApplyMatchesUnchanged(cur: string, s: string, ms: seq<TagMatch>, tags: map<string, string>)
    requires AllWithin(s, ms)
    requires forall j :: 0 <= j < |ms| && Key(s, ms[j]) in tags ==> !Contains(cur, Value(s, ms[j]))
    ensures ApplyMatches(cur, s, ms, tags) == cur
    decreases |ms|
  {
    if ms != [] {
      if Key(s, ms[0]) in tags {
        ReplaceAllWithoutOccurrence(cur, Value(s, ms[0]), tags[Key(s, ms[0])]);
      }
      ApplyMatchesUnchanged(cur, s, ms[1..], tags);
    }
  }

  /** A template none of whose placeholders names a tag of the queue is returned verbatim. */
  lemma {:induction false} UnknownKeysLeaveTemplate(s: string, tags: map<string, string>)
    requires forall i: nat, text, key :: IsMatchAt(s, i, text, key) ==> key !in tags
    ensures Resolve(s, tags) == s
  {
    ShortCircuitAgrees(s, tags);
    var ms := TagMatches(s);
    forall j | 0 <= j < |ms| ensures Key(s, ms[j]) !in tags {
      ScanMatchesPattern(s, 0, j);
    }
    ApplyMatchesUnchanged(s, s, ms, tags);
  }

  /** With no tags at all, every template comes back unchanged. */
  lemma {:induction false} EmptyTagMapIsIdentity(s: string)
    ensures Resolve(s, map[]) == s
  {
    UnknownKeysLeaveTemplate(s, map[]);
  }

  /** Text without `#` holds no match, so the scan steps over it. */
  lemma {:induction false} ScanSkipsPlainText(s: string, i: nat, j: nat)
    requires i <= j <= |s|
    requires forall p :: i <= p < j ==> s[p] != '#'
    ensures Scan(s, i) == Scan(s, j)
    decreases j - i
  {
    if i < j {
      assert MatchAt(s, i) == None;
      ScanSkipsPlainText(s, i + 1, j);
    }
  }

  /** A placeholder at `i` is reported as one match and the scan resumes after it. */
  lemma {:induction false} ScanAtPlaceholder(s: string, i: nat, ph: string, key: string)
    requires i <= |s| && OccursAt(s, ph, i) && IsPlaceholder(ph, key)
    ensures Scan(s, i) == [TagMatch(i, |ph|)] + Scan(s, i + |ph|)
  {
    MatchAtComplete(s, i, ph, key);
  }

  /** The `#`-free first segment of a join is stepped over by the scan. */
  lemma {:induction false} ScanJoinSkipsSegment(pre: string, segs: seq<string>, ph: string)
    requires segs != [] && '#' !in segs[0]
    ensures |pre| + |segs[0]| <= |pre + Join(segs, ph)|
    ensures Scan(pre + Join(segs, ph), |pre|) == Scan(pre + Join(segs, ph), |pre| + |segs[0]|)
  {
    var s := pre + Join(segs, ph);
    var a, b := |pre|, |pre| + |segs[0]|;
    forall p | a <= p < b ensures s[p] != '#' {
      assert s[p] == segs[0][p - a];
    }
    ScanSkipsPlainText(s, a, b);
  }

  /** A placeholder between two pieces of text matches where it starts. */
  lemma {:induction false} MatchAtMiddle(x: string, ph: string, key: string, y: string)
    requires IsPlaceholder(ph, key)
    ensures MatchAt(x + ph + y, |x|) == Some(TagMatch(|x|, |ph|))
  {
    OccursAtMiddle(x, ph, y);
    MatchAtComplete(x + ph + y, |x|, ph, key);
  }

  /** A placeholder between two pieces of text is reported, and the scan
      resumes right after it. */
  lemma {:induction false} ScanOverPlaceholder(x: string, ph: string, key: string, y: string)
    requires IsPlaceholder(ph, key)
    ensures Scan(x + ph + y, |x|) == [TagMatch(|x|, |ph|)] + Scan(x + ph + y, |x + ph|)
  {
    MatchAtMiddle(x, ph, key, y);
  }

  /** The matches expected in `segs` joined by the placeholder `ph` when the
      join follows the text `pre`: one per separator, in order, each at the
      index where that separator starts. */
  function JoinMatches(pre: string, segs: seq<string>, ph: string): (ms: seq<TagMatch>)
    requires segs != []
    ensures |ms| == |segs| - 1
    decreases |segs|
  {
    if |segs| == 1 then []
    else [TagMatch(|pre + segs[0]|, |ph|)] + JoinMatches(pre + segs[0] + ph, segs[1..], ph)
  }

  /** Each expected match sits exactly on a copy of the placeholder. */
  lemma {:induction false} JoinMatchesOnPlaceholders(pre: string, segs: seq<string>, ph: string, j: nat)
    requires segs != [] && j < |JoinMatches(pre, segs, ph)|
    ensures JoinMatches(pre, segs, ph)[j].length == |ph|
    ensures OccursAt(pre + Join(segs, ph), ph, JoinMatches(pre, segs, ph)[j].index)
    decreases |segs|
  {
    var x, y := pre + segs[0], Join(segs[1..], ph);
    JoinCons(pre, segs, ph);
    if j == 0 {
      OccursAtMiddle(x, ph, y);
    } else {
      JoinMatchesOnPlaceholders(x + ph, segs[1..], ph, j - 1);
    }
  }

  /** One step over a join: the first segment is skipped, the placeholder
      after it is reported, and the scan goes on behind it. */
  lemma {:induction false} ScanJoinStep(pre: string, segs: seq<string>, ph: string, key: string)
    requires |segs| > 1 && IsPlaceholder(ph, key) && '#' !in segs[0]
    ensures Scan(pre + Join(segs, ph), |pre|)
            == [TagMatch(|pre + segs[0]|, |ph|)] + Scan((pre + segs[0] + ph) + Join(segs[1..], ph), |pre + segs[0] + ph|)
  {
    var s := pre + Join(segs, ph);
    ScanJoinSkipsSegment(pre, segs, ph);
    var x, y := pre + segs[0], Join(segs[1..], ph);
    assert Scan(s, |pre|) == Scan(x + ph + y, |x|) by {
      JoinCons(pre, segs, ph);
    }
    ScanOverPlaceholder(x, ph, key, y);
  }

  /** Scanning placeholders separated by `#`-free text reports each
      placeholder once, at its own position, in order. */
  lemma {:induction false} ScanJoin(pre: string, segs: seq<string>, ph: string, key: string)
    requires segs != [] && IsPlaceholder(ph, key)
    requires forall j :: 0 <= j < |segs| ==> '#' !in segs[j]
    ensures Scan(pre + Join(segs, ph), |pre|) == JoinMatches(pre, segs, ph)
    decreases |segs|
  {
    if |segs| == 1 {
      ScanJoinSkipsSegment(pre, segs, ph);
      assert |pre + Join(segs, ph)| == |pre| + |segs[0]|;
    } else {
      ScanJoinStep(pre, segs, ph, key);
      ScanJoin(pre + segs[0] + ph, segs[1..], ph, key);
    }
  }

  /** In `segs` joined by the placeholder `ph`, every match the scan reports
      is a copy of `ph` with its key. */
  lemma {:induction false} JoinMatchesArePlaceholder(segs: seq<string>, ph: string, key: string, j: nat)
    requires segs != [] && IsPlaceholder(ph, key)
    requires forall j :: 0 <= j < |segs| ==> '#' !in segs[j]
    requires j < |TagMatches(Join(segs, ph))|
    ensures TagMatches(Join(segs, ph)) == JoinMatches([], segs, ph)
    ensures Within(Join(segs, ph), TagMatches(Join(segs, ph))[j])
    ensures Value(Join(segs, ph), TagMatches(Join(segs, ph))[j]) == ph
    ensures Key(Join(segs, ph), TagMatches(Join(segs, ph))[j]) == key
  {
    var s := Join(segs, ph);
    assert [] + s == s;
    ScanJoin([], segs, ph, key);
    JoinMatchesOnPlaceholders([], segs, ph, j);
    MatchAtComplete(s, TagMatches(s)[j].index, ph, key);
  }

  /** A placeholder whose key is a tag is replaced by the tag's value at
      every occurrence, when the surrounding text and the value hold no `#`.
      The segments may be empty, so adjacent copies are covered too. */
  lemma {:induction false} PlaceholderReplacedEverywhere(segs: seq<string>, ph: string, key: string, tags: map<string, string>)
    requires segs != [] && IsPlaceholder(ph, key)
    requires forall j :: 0 <= j < |segs| ==> '#' !in segs[j]
    requires key in tags && '#' !in tags[key]
    ensures Resolve(Join(segs, ph), tags) == Join(segs, tags[key])
  {
    var s := Join(segs, ph);
    var value := tags[key];
    ShortCircuitAgrees(s, tags);
    var ms := TagMatches(s);
    forall j | 0 <= j < |ms| ensures Value(s, ms[j]) == ph && Key(s, ms[j]) == key {
      JoinMatchesArePlaceholder(segs, ph, key, j);
    }
    assert |ms| == |segs| - 1 by {
      ScanJoin([], segs, ph, key);
      assert [] + s == s;
    }
    if |segs| > 1 {
      assert ph[0] == Marker[0];
      ReplaceAllJoin(segs, ph, value);
      assert ApplyMatch(s, s, ms[0], tags) == Join(segs, value);
      JoinAvoids(segs, value, '#');
      NotContainsWithoutFirstChar(Join(segs, value), ph);
      ApplyMatchesUnchanged(Join(segs, value), s, ms[1..], tags);
    }
  }

  /** A placeholder whose key is not a tag stays verbatim at every
      occurrence, adjacent copies included. */
  lemma {:induction false} UnknownPlaceholderVerbatim(segs: seq<string>, ph: string, key: string, tags: map<string, string>)
    requires segs != [] && IsPlaceholder(ph, key)
    requires forall j :: 0 <= j < |segs| ==> '#' !in segs[j]
    requires key !in tags
    ensures Resolve(Join(segs, ph), tags) == Join(segs, ph)
  {
    var s := Join(segs, ph);
    ShortCircuitAgrees(s, tags);
    var ms := TagMatches(s);
    forall j | 0 <= j < |ms| ensures Key(s, ms[j]) == key {
      JoinMatchesArePlaceholder(segs, ph, key, j);
    }
    ApplyMatchesUnchanged(s, s, ms, tags);
  }

  /** A known key is replaced by the tag's value. */
  lemma {:induction false} ResolveKnownKeyExample()
    ensures Resolve("##MessageDelivery.Tag.env##", map["env" := "prod"]) == "prod"
  {
    var ph := PlaceholderText('.', '.', "env");
    assert ph == "##MessageDelivery.Tag.env##";
    PlaceholderTextMatches('.', '.', "env");
    var segs: seq<string> := ["", ""];
    assert Join(segs, ph) == ph && Join(segs, "prod") == "prod";
    PlaceholderReplacedEverywhere(segs, ph, "env", map["env" := "prod"]);
  }

  /** A template without placeholders is returned as it is. */
  lemma {:induction false} ResolvePlainExample()
    ensures Resolve("plain", map[]) == "plain"
  {
    EmptyTagMapIsIdentity("plain");
  }

  /** A placeholder naming no tag of the queue stays in the value. */
  lemma {:induction false} ResolveUnknownKeyExample()
    ensures Resolve("##MessageDelivery.Tag.missing##", map[]) == "##MessageDelivery.Tag.missing##"
  {
    EmptyTagMapIsIdentity("##MessageDelivery.Tag.missing##");
  }

  /** The unescaped dots of the pattern accept any character there. */
  lemma {:induction false} ResolveWildcardExample()
    ensures Resolve("##MessageDelivery-Tag-env##", map["env" := "prod"]) == "prod"
  {
    var ph := PlaceholderText('-', '-', "env");
    assert ph == "##MessageDelivery-Tag-env##";
    PlaceholderTextMatches('-', '-', "env");
    var segs: seq<string> := ["", ""];
    assert Join(segs, ph) == ph && Join(segs, "prod") == "prod";
    PlaceholderReplacedEverywhere(segs, ph, "env", map["env" := "prod"]);
  }
}
