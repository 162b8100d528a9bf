/** Templates seen as a sequence of parts: plain text and placeholders. This
    is the view under which the resolver's promise holds for any mix of
    placeholders: each placeholder whose key is a tag of the queue becomes
    the tag's value, and every other part stays as it is.

    The promise needs the parts to be kept apart. `String.Replace` works on
    the whole current string, so a copy of a placeholder can also be found
    across a boundary: the closing `##` of one placeholder followed by text
    that spells `MessageDelivery.Tag.<key>##`. The lemma
    `OverlapReplacesAcrossPlaceholders` shows such a case. For the same
    reason the values must not spell a placeholder: a value put in by one
    replace is resolved again by a later one, as `ValueResolvedAgain` shows. */
module TemplateParts {
  import opened Wrappers
  import opened Text
  import opened TagResolver

  /** One part of a template: text without a placeholder, or a placeholder
      with its key. */
  datatype Part = Literal(text: string) | Tagged(text: string, key: string)

  /** The template the parts spell. */
  function RenderParts(ps: seq<Part>): string
    decreases |ps|
  {
    if ps == [] then [] else ps[0].text + RenderParts(ps[1..])
  }

  /** The parts are kept apart: plain text holds no `#`, a placeholder is a
      match of the pattern, and a placeholder that is not last is followed by
      plain text that is not empty and does not start with `M`. */
  predicate Separated(ps: seq<Part>)
  {
    forall i :: 0 <= i < |ps| ==>
      && (ps[i].Literal? ==> '#' !in ps[i].text)
      && (ps[i].Tagged? ==> IsPlaceholder(ps[i].text, ps[i].key))
      && (ps[i].Tagged? && i + 1 < |ps| ==>
            ps[i + 1].Literal? && ps[i + 1].text != [] && ps[i + 1].text[0] != 'M')
  }

  /** The values of the tags that the placeholders name hold no `#`. */
  predicate PlainValues(ps: seq<Part>, tags: map<string, string>)
  {
    forall i :: 0 <= i < |ps| && ps[i].Tagged? && ps[i].key in tags ==> '#' !in tags[ps[i].key]
  }

  /** The intended result: every placeholder whose key is a tag is replaced
      by the tag's value, and every other part is kept. */
  function Resolved(ps: seq<Part>, tags: map<string, string>): (r: seq<Part>)
    ensures |r| == |ps|
  {
    seq(|ps|, i requires 0 <= i < |ps| =>
      if ps[i].Tagged? && ps[i].key in tags then Literal(tags[ps[i].key]) else ps[i])
  }

  /** Every copy of the placeholder text `pat` turned into the plain text `v`. */
  function Substitute(ps: seq<Part>, pat: string, v: string): (r: seq<Part>)
    ensures |r| == |ps|
  {
    seq(|ps|, i requires 0 <= i < |ps| =>
      if ps[i].Tagged? && ps[i].text == pat then Literal(v) else ps[i])
  }

  /** The placeholders whose texts are in `done` resolved, the others kept. */
  function Partial(ps: seq<Part>, done: set<string>, tags: map<string, string>): (r: seq<Part>)
    ensures |r| == |ps|
  {
    seq(|ps|, i requires 0 <= i < |ps| =>
      if ps[i].Tagged? && ps[i].text in done && ps[i].key in tags then Literal(tags[ps[i].key]) else ps[i])
  }

  /** The texts of the placeholders among the first `n` parts. */
  function TextsBefore(ps: seq<Part>, n: nat): set<string>
    requires n <= |ps|
  {
    set i | 0 <= i < n && ps[i].Tagged? :: ps[i].text
  }

  /** The matches the scan should report over the parts when they follow
      the text `pre`: one per placeholder, where it starts. */
  function PartMatches(pre: string, ps: seq<Part>): seq<TagMatch>
    decreases |ps|
  {
    if ps == [] then []
    else if ps[0].Tagged? then [TagMatch(|pre|, |ps[0].text|)] + PartMatches(pre + ps[0].text, ps[1..])
    else PartMatches(pre + ps[0].text, ps[1..])
  }

  /** The characters of a placeholder that a search for another one looks at. */
  lemma {:induction false} PlaceholderChars(t: string, key: string)
    requires IsPlaceholder(t, key)
    ensures |t| >= 25
    ensures t[0] == '#' && t[1] == '#' && t[2] == 'M' && t[18] == 'T'
    ensures t[|t| - 2] == '#' && t[|t| - 1] == '#'
    ensures forall k :: 2 <= k < 17 ==> t[k] != '#'
    ensures forall k :: 18 <= k < 21 ==> t[k] != '#'
    ensures forall k :: 22 <= k < |t| - 2 ==> IsWordChar(t[k])
  {
    assert t[..17][0] == t[0] && t[..17][1] == t[1] && t[..17][2] == t[2];
    forall k | 2 <= k < 17 ensures t[k] != '#' {
      assert t[..17][k] == t[k];
    }
    forall k | 18 <= k < 21 ensures t[k] != '#' {
      assert t[18..21][k - 18] == t[k];
    }
    assert t[18..21][0] == t[18];
    forall k | 22 <= k < |t| - 2 ensures IsWordChar(t[k]) {
      assert t[22..22 + |key|][k - 22] == t[k];
      assert t[k] in key;
    }
    assert t[22 + |key|..][0] == t[|t| - 2] && t[22 + |key|..][1] == t[|t| - 1];
  }

  /** A placeholder's text determines its key. */
  lemma {:induction false} KeyOfPlaceholder(t: string, k1: string, k2: string)
    requires IsPlaceholder(t, k1) && IsPlaceholder(t, k2)
    ensures k1 == k2
  {
  }

  /** Two placeholders that are not the same text do not start alike. */
  lemma {:induction false} OtherPlaceholderNotAtStart(t: string, tkey: string, rest: string, pat: string, key: string)
    requires IsPlaceholder(t, tkey) && IsPlaceholder(pat, key) && t != pat
    ensures !OccursAt(t + rest, pat, 0)
  {
    var u := t + rest;
    PlaceholderChars(t, tkey);
    PlaceholderChars(pat, key);
    if |pat| < |t| {
      NoOccurrenceWhereDiffers(u, pat, 0, |pat| - 2);
    } else if |pat| > |t| {
      NoOccurrenceWhereDiffers(u, pat, 0, |t| - 2);
    } else {
      assert u[0..|pat|] == t;
    }
  }

  /** Inside a placeholder followed by separating text, another placeholder
      can only start where the first one starts. */
  lemma {:induction false} NoPlaceholderInside(t: string, tkey: string, rest: string, pat: string, key: string, k: nat)
    requires IsPlaceholder(t, tkey) && IsPlaceholder(pat, key)
    requires rest == [] || (rest[0] != '#' && rest[0] != 'M')
    requires 0 < k < |t|
    ensures !OccursAt(t + rest, pat, k)
  {
    var u := t + rest;
    PlaceholderChars(t, tkey);
    PlaceholderChars(pat, key);
    if k == 1 || k == 17 || k == 21 {
      NoOccurrenceWhereDiffers(u, pat, k, 1);
    } else if k < |t| - 2 {
      NoOccurrenceWhereDiffers(u, pat, k, 0);
    } else if rest == [] {
      assert k + |pat| > |u|;
    } else if k == |t| - 2 {
      NoOccurrenceWhereDiffers(u, pat, k, 2);
    } else {
      NoOccurrenceWhereDiffers(u, pat, k, 1);
    }
  }

  /** A placeholder other than `pat` is copied unchanged by the replace. */
  lemma {:induction false} ReplaceSkipsOtherPlaceholder(t: string, tkey: string, rest: string, pat: string, key: string, v: string)
    requires IsPlaceholder(t, tkey) && IsPlaceholder(pat, key) && t != pat
    requires rest == [] || (rest[0] != '#' && rest[0] != 'M')
    ensures ReplaceAll(t + rest, pat, v) == t + ReplaceAll(rest, pat, v)
  {
    forall k | 0 <= k < |t| ensures !OccursAt(t + rest, pat, k) {
      if k == 0 {
        OtherPlaceholderNotAtStart(t, tkey, rest, pat, key);
      } else {
        NoPlaceholderInside(t, tkey, rest, pat, key, k);
      }
    }
    ReplaceAllSkipsNoOccurrence(t, rest, pat, v);
  }

  /** The parts after the first spell the rest of the template. */
  lemma {:induction false} RenderTail(ps: seq<Part>)
    requires Separated(ps) && ps != []
    ensures Separated(ps[1..])
    ensures RenderParts(ps) == ps[0].text + RenderParts(ps[1..])
    ensures |ps| > 1 && ps[1].text != [] ==> RenderParts(ps[1..]) != [] && RenderParts(ps[1..])[0] == ps[1].text[0]
  {
    if |ps| > 1 {
      assert ps[1..][0] == ps[1];
    }
    forall i | 0 <= i < |ps| - 1 ensures ps[1..][i] == ps[i + 1] { }
  }

  /** A replace-all of a placeholder text over separated parts replaces
      exactly the parts that are that placeholder. */
  lemma {:induction false} ReplaceAllParts(ps: seq<Part>, pat: string, key: string, v: string)
    requires Separated(ps) && IsPlaceholder(pat, key)
    ensures ReplaceAll(RenderParts(ps), pat, v) == RenderParts(Substitute(ps, pat, v))
    decreases |ps|
  {
    var r := Substitute(ps, pat, v);
    if ps != [] {
      RenderTail(ps);
      var rest := RenderParts(ps[1..]);
      assert r[1..] == Substitute(ps[1..], pat, v);
      assert RenderParts(r) == r[0].text + RenderParts(r[1..]);
      ReplaceAllParts(ps[1..], pat, key, v);
      if ps[0].Literal? {
        PlaceholderChars(pat, key);
        ReplaceAllSkipsPrefix(ps[0].text, rest, pat, v);
      } else if ps[0].text == pat {
        ReplaceAllAtOccurrence(rest, pat, v);
      } else {
        assert |ps| > 1 ==> ps[1].Literal? && ps[1].text != [] && ps[1].text[0] != 'M';
        assert rest == [] || (rest[0] != '#' && rest[0] != 'M');
        ReplaceSkipsOtherPlaceholder(ps[0].text, ps[0].key, rest, pat, key, v);
      }
    }
  }

  /** Resolving some placeholders keeps the parts apart. */
  lemma {:induction false} PartialSeparated(ps: seq<Part>, done: set<string>, tags: map<string, string>)
    requires Separated(ps) && PlainValues(ps, tags)
    ensures Separated(Partial(ps, done, tags))
  {
  }

  /** Applying one more placeholder text to a partial resolution. */
  lemma {:induction false} PartialStep(ps: seq<Part>, done: set<string>, tags: map<string, string>, t: string, key: string)
    requires Separated(ps) && IsPlaceholder(t, key)
    ensures key in tags ==> Substitute(Partial(ps, done, tags), t, tags[key]) == Partial(ps, done + {t}, tags)
    ensures key !in tags ==> Partial(ps, done, tags) == Partial(ps, done + {t}, tags)
  {
    forall i | 0 <= i < |ps| && ps[i].Tagged? && ps[i].text == t ensures ps[i].key == key {
      KeyOfPlaceholder(t, ps[i].key, key);
    }
  }

  /** Splitting the parts splits the template. */
  lemma {:induction false} RenderSplit(ps: seq<Part>, n: nat)
    requires n <= |ps|
    ensures RenderParts(ps) == RenderParts(ps[..n]) + RenderParts(ps[n..])
    decreases n
  {
    if n == 0 {
      assert ps[n..] == ps;
    } else {
      assert ps[..n][1..] == ps[1..][..n - 1];
      assert ps[n..] == ps[1..][n - 1..];
      RenderSplit(ps[1..], n - 1);
    }
  }

  /** One more part at the end adds its text to the template. */
  lemma {:induction false} RenderSnoc(ps: seq<Part>, n: nat)
    requires n < |ps|
    ensures RenderParts(ps[..n + 1]) == RenderParts(ps[..n]) + ps[n].text
  {
    var q := ps[..n + 1];
    RenderSplit(q, n);
    assert q[..n] == ps[..n];
    assert q[n..] == [ps[n]];
    assert RenderParts([ps[n]]) == ps[n].text + RenderParts([]);
  }

  /** Plain text without `#` is stepped over by the scan. */
  lemma {:induction false} ScanSkipsLiteral(pre: string, x: string, y: string)
    requires '#' !in x
    ensures Scan(pre + x + y, |pre|) == Scan(pre + x + y, |pre + x|)
  {
    var s := pre + x + y;
    forall p | |pre| <= p < |pre| + |x| ensures s[p] != '#' {
      assert s[p] == x[p - |pre|];
    }
    ScanSkipsPlainText(s, |pre|, |pre| + |x|);
  }

  /** The scan over separated parts reports one match per placeholder. */
  lemma {:induction false} ScanParts(pre: string, ps: seq<Part>)
    requires Separated(ps)
    ensures Scan(pre + RenderParts(ps), |pre|) == PartMatches(pre, ps)
    decreases |ps|
  {
    var s := pre + RenderParts(ps);
    if ps == [] {
      assert |s| == |pre|;
    } else {
      RenderTail(ps);
      var x, y := ps[0].text, RenderParts(ps[1..]);
      assert s == pre + x + y;
      if ps[0].Tagged? {
        ScanOverPlaceholder(pre, x, ps[0].key, y);
      } else {
        ScanSkipsLiteral(pre, x, y);
      }
      ScanParts(pre + x, ps[1..]);
    }
  }

  /** The expected matches lie in the template. */
  lemma {:induction false} PartMatchesWithin(pre: string, ps: seq<Part>)
    requires Separated(ps)
    ensures AllWithin(pre + RenderParts(ps), PartMatches(pre, ps))
    decreases |ps|
  {
    if ps != [] {
      RenderTail(ps);
      var x, y := ps[0].text, RenderParts(ps[1..]);
      assert pre + RenderParts(ps) == (pre + x) + y;
      PartMatchesWithin(pre + x, ps[1..]);
      if ps[0].Tagged? {
        var ms := PartMatches(pre, ps);
        assert ms == [TagMatch(|pre|, |x|)] + PartMatches(pre + x, ps[1..]);
        forall j | 0 <= j < |ms| ensures Within(pre + RenderParts(ps), ms[j]) {
          if j > 0 {
            assert ms[j] == PartMatches(pre + x, ps[1..])[j - 1];
          }
        }
      }
    }
  }

  /** The match of a placeholder at the front reads back as its text and key. */
  lemma {:induction false} FirstPartMatchRead(pre: string, ps: seq<Part>)
    requires Separated(ps) && ps != [] && ps[0].Tagged?
    ensures Within(pre + RenderParts(ps), TagMatch(|pre|, |ps[0].text|))
    ensures Value(pre + RenderParts(ps), TagMatch(|pre|, |ps[0].text|)) == ps[0].text
    ensures Key(pre + RenderParts(ps), TagMatch(|pre|, |ps[0].text|)) == ps[0].key
  {
    RenderTail(ps);
    var x, y := ps[0].text, RenderParts(ps[1..]);
    var s := pre + RenderParts(ps);
    assert s == pre + x + y;
    assert s[|pre|..|pre| + |x|] == x;
    assert s[|pre| + 22..|pre| + |x| - 2] == x[22..|x| - 2];
  }

  /** The parts from the `n`th on, split into the `n`th and the rest:
      its text extends the prefix, and a placeholder adds one match. */
  lemma {:induction false} PartsStep(ps: seq<Part>, n: nat)
    requires Separated(ps) && n < |ps|
    ensures RenderParts(ps[..n + 1]) == RenderParts(ps[..n]) + ps[n].text
    ensures RenderParts(ps) == RenderParts(ps[..n]) + RenderParts(ps[n..])
    ensures Separated(ps[n..]) && ps[n..][0] == ps[n]
    ensures TextsBefore(ps, n + 1) ==
      if ps[n].Tagged? then TextsBefore(ps, n) + {ps[n].text} else TextsBefore(ps, n)
    ensures PartMatches(RenderParts(ps[..n]), ps[n..]) ==
      (if ps[n].Tagged? then [TagMatch(|RenderParts(ps[..n])|, |ps[n].text|)] else [])
      + PartMatches(RenderParts(ps[..n + 1]), ps[n + 1..])
  {
    var q := ps[n..];
    RenderSplit(ps, n);
    RenderSnoc(ps, n);
    assert q[0] == ps[n] && q[1..] == ps[n + 1..];
    assert Separated(q) by {
      forall i | 0 <= i < |q| ensures q[i] == ps[n + i] { }
    }
  }

  /** The match of the `n`th part, a placeholder, lies in the template, and
      applying it to the partial resolution resolves that placeholder's text too. */
  lemma {:induction false} ApplyOnePart(ps: seq<Part>, tags: map<string, string>, n: nat)
    requires Separated(ps) && PlainValues(ps, tags) && n < |ps| && ps[n].Tagged?
    ensures Within(RenderParts(ps), TagMatch(|RenderParts(ps[..n])|, |ps[n].text|))
    ensures ApplyMatch(RenderParts(Partial(ps, TextsBefore(ps, n), tags)), RenderParts(ps),
                       TagMatch(|RenderParts(ps[..n])|, |ps[n].text|), tags)
            == RenderParts(Partial(ps, TextsBefore(ps, n) + {ps[n].text}, tags))
  {
    var pre, done := RenderParts(ps[..n]), TextsBefore(ps, n);
    var t, key := ps[n].text, ps[n].key;
    PartsStep(ps, n);
    FirstPartMatchRead(pre, ps[n..]);
    PartialStep(ps, done, tags, t, key);
    if key in tags {
      PartialSeparated(ps, done, tags);
      ReplaceAllParts(Partial(ps, done, tags), t, key, tags[key]);
    }
  }

  /** The loop over the matches, from the `n`th part on, turns the partial
      resolution of the parts before it into the full resolution. */
  lemma {:induction false} ApplyParts(ps: seq<Part>, tags: map<string, string>, n: nat)
    requires Separated(ps) && PlainValues(ps, tags) && n <= |ps|
    requires AllWithin(RenderParts(ps), PartMatches(RenderParts(ps[..n]), ps[n..]))
    ensures ApplyMatches(RenderParts(Partial(ps, TextsBefore(ps, n), tags)), RenderParts(ps),
                         PartMatches(RenderParts(ps[..n]), ps[n..]), tags)
            == RenderParts(Resolved(ps, tags))
    decreases |ps| - n
  {
    var s, done := RenderParts(ps), TextsBefore(ps, n);
    var ms := PartMatches(RenderParts(ps[..n]), ps[n..]);
    if n == |ps| {
      assert Partial(ps, done, tags) == Resolved(ps, tags);
    } else {
      PartsStep(ps, n);
      var rest := PartMatches(RenderParts(ps[..n + 1]), ps[n + 1..]);
      if ps[n].Literal? {
        assert ms == rest;
      } else {
        assert ms[1..] == rest;
        ApplyOnePart(ps, tags, n);
      }
      ApplyParts(ps, tags, n + 1);
    }
  }

  /** The resolver's promise for any mix of placeholders kept apart by
      separating text: each placeholder whose key is a tag becomes the tag's
      value, and every other part, known or not, stays as it is. */
  lemma {:induction false} PlaceholdersResolved(ps: seq<Part>, tags: map<string, string>)
    requires Separated(ps) && PlainValues(ps, tags)
    ensures Resolve(RenderParts(ps), tags) == RenderParts(Resolved(ps, tags))
  {
    var s := RenderParts(ps);
    ShortCircuitAgrees(s, tags);
    assert ps[..0] == [] && ps[0..] == ps;
    assert [] + s == s;
    ScanParts([], ps);
    assert Partial(ps, TextsBefore(ps, 0), tags) == ps;
    ApplyParts(ps, tags, 0);
  }

  /** Two placeholders with `-` between them: kept apart, and spelling the template. */
  lemma {:induction false} TwoPartsRender(pa: string, ka: string, pb: string, kb: string)
    requires IsPlaceholder(pa, ka) && IsPlaceholder(pb, kb)
    ensures Separated([Tagged(pa, ka), Literal("-"), Tagged(pb, kb)])
    ensures RenderParts([Tagged(pa, ka), Literal("-"), Tagged(pb, kb)]) == pa + "-" + pb
  {
    var ps := [Tagged(pa, ka), Literal("-"), Tagged(pb, kb)];
    assert ps[1..] == [Literal("-"), Tagged(pb, kb)] && ps[1..][1..] == [Tagged(pb, kb)];
    assert RenderParts([Tagged(pb, kb)]) == pb + RenderParts([]);
  }

  /** The same parts resolved with both keys known, and with `a` only. */
  lemma {:induction false} TwoPartsResolved(pa: string, pb: string)
    ensures RenderParts(Resolved([Tagged(pa, "a"), Literal("-"), Tagged(pb, "b")], map["a" := "1", "b" := "2"])) == "1-2"
    ensures RenderParts(Resolved([Tagged(pa, "a"), Literal("-"), Tagged(pb, "b")], map["a" := "1"])) == "1-" + pb
  {
    var ps := [Tagged(pa, "a"), Literal("-"), Tagged(pb, "b")];
    var r1, r2 := Resolved(ps, map["a" := "1", "b" := "2"]), Resolved(ps, map["a" := "1"]);
    assert r1 == [Literal("1"), Literal("-"), Literal("2")];
    assert r2 == [Literal("1"), Literal("-"), Tagged(pb, "b")];
    assert r1[1..] == [Literal("-"), Literal("2")] && r1[1..][1..] == [Literal("2")];
    assert r2[1..] == [Literal("-"), Tagged(pb, "b")] && r2[1..][1..] == [Tagged(pb, "b")];
    assert RenderParts([Literal("2")]) == "2" + RenderParts([]);
    assert RenderParts([Tagged(pb, "b")]) == pb + RenderParts([]);
  }

  /** Resolving `a`, `-`, `b` with both keys known, and with `a` only. */
  lemma {:induction false} TwoPlaceholdersResolve(pa: string, pb: string)
    requires IsPlaceholder(pa, "a") && IsPlaceholder(pb, "b")
    ensures Resolve(pa + "-" + pb, map["a" := "1", "b" := "2"]) == "1-2"
    ensures Resolve(pa + "-" + pb, map["a" := "1"]) == "1-" + pb
  {
    var ps := [Tagged(pa, "a"), Literal("-"), Tagged(pb, "b")];
    TwoPartsRender(pa, "a", pb, "b");
    TwoPartsResolved(pa, pb);
    PlaceholdersResolved(ps, map["a" := "1", "b" := "2"]);
    PlaceholdersResolved(ps, map["a" := "1"]);
  }

  /** Two different placeholders, `##MessageDelivery.Tag.a##-##MessageDelivery.Tag.b##`:
      with both keys known the result is `1-2`; with `a` alone it is
      `1-##MessageDelivery.Tag.b##`. */
  lemma {:induction false} TwoPlaceholdersExample()
    ensures Resolve(PlaceholderText('.', '.', "a") + "-" + PlaceholderText('.', '.', "b"),
                    map["a" := "1", "b" := "2"]) == "1-2"
    ensures Resolve(PlaceholderText('.', '.', "a") + "-" + PlaceholderText('.', '.', "b"),
                    map["a" := "1"]) == "1-" + PlaceholderText('.', '.', "b")
  {
    PlaceholderTextMatches('.', '.', "a");
    PlaceholderTextMatches('.', '.', "b");
    TwoPlaceholdersResolve(PlaceholderText('.', '.', "a"), PlaceholderText('.', '.', "b"));
  }

  /** The scan over the overlap case: `x` at 0, `b` at 49, nothing between. */
  lemma {:induction false} OverlapScan(px: string, pb: string, mid: string)
    requires IsPlaceholder(px, "x") && IsPlaceholder(pb, "b") && mid == "MessageDelivery.Tag.b## "
    ensures TagMatches(px + mid + pb) == [TagMatch(0, 25), TagMatch(49, 25)]
  {
    var s := px + mid + pb;
    assert s == [] + px + (mid + pb);
    ScanOverPlaceholder([], px, "x", mid + pb);
    forall p | 25 <= p < 46 ensures s[p] != '#' {
      assert s[p] == mid[p - 25];
    }
    ScanSkipsPlainText(s, 25, 46);
    assert s[46] == '#' && s[47] == '#' && s[48] == ' ' by {
      assert s[46] == mid[21] && s[47] == mid[22] && s[48] == mid[23];
    }
    assert MatchAt(s, 46) == None;
    assert Scan(s, 46) == Scan(s, 47);
    assert MatchAt(s, 47) == None;
    assert Scan(s, 47) == Scan(s, 48);
    assert MatchAt(s, 48) == None;
    assert Scan(s, 48) == Scan(s, 49);
    assert s == (px + mid) + pb + [];
    ScanOverPlaceholder(px + mid, pb, "b", []);
  }

  /** The replace in the overlap case: the first copy of `b` is found at the
      closing `##` of `x`. */
  lemma {:induction false} OverlapReplace(a: string, pb: string)
    requires IsPlaceholder(pb, "b") && a == "##MessageDelivery.Tag.x"
    ensures ReplaceAll(a + (pb + " " + pb), pb, "V") == a + "V V"
  {
    var t := pb + " " + pb;
    PlaceholderChars(pb, "b");
    forall k | 0 <= k < |a| ensures !OccursAt(a + t, pb, k) {
      if k == 0 {
        assert pb[22..23] == "b";
        NoOccurrenceWhereDiffers(a + t, pb, 0, 22);
      } else if k == 1 {
        NoOccurrenceWhereDiffers(a + t, pb, 1, 1);
      } else {
        NoOccurrenceWhereDiffers(a + t, pb, k, 0);
      }
    }
    ReplaceAllSkipsNoOccurrence(a, t, pb, "V");
    ReplaceAllAtOccurrence(" " + pb, pb, "V");
    ReplaceAllSkipsPrefix(" ", pb, pb, "V");
    assert pb == pb + [];
    ReplaceAllAtOccurrence([], pb, "V");
    assert "V" + (" " + ("V" + [])) == "V V";
  }

  /** How the text of the overlap case splits: the closing `##` of `x`
      and the text after it spell `b`. */
  lemma {:induction false} OverlapPieces(px: string, pb: string, mid: string, a: string)
    requires px == PlaceholderText('.', '.', "x") && pb == PlaceholderText('.', '.', "b")
    requires mid == "MessageDelivery.Tag.b## " && a == "##MessageDelivery.Tag.x"
    ensures px + mid + pb == a + (pb + " " + pb)
    ensures px[22..23] == "x" && pb[22..23] == "b"
  {
    OverlapHead(px, a);
    OverlapMiddle(pb, mid);
    assert px + mid + pb == a + ("##" + mid) + pb;
  }

  /** The placeholder of `x` is its text up to the closing `##`, then `##`. */
  lemma {:induction false} OverlapHead(px: string, a: string)
    requires px == PlaceholderText('.', '.', "x") && a == "##MessageDelivery.Tag.x"
    ensures px == a + "##" && px[22..23] == "x"
  {
  }

  /** The closing `##` of `x` and the text after it spell `b`, then a space. */
  lemma {:induction false} OverlapMiddle(pb: string, mid: string)
    requires pb == PlaceholderText('.', '.', "b") && mid == "MessageDelivery.Tag.b## "
    ensures "##" + mid == pb + " " && pb[22..23] == "b"
  {
  }

  /** What the two matches of the overlap case read: `x` at 0, `b` at 49. */
  lemma {:induction false} OverlapKeys(s: string, a: string, pb: string)
    requires IsPlaceholder(pb, "b") && a == "##MessageDelivery.Tag.x"
    requires s == a + (pb + " " + pb)
    ensures Within(s, TagMatch(0, 25)) && Key(s, TagMatch(0, 25)) == "x"
    ensures Within(s, TagMatch(49, 25)) && Key(s, TagMatch(49, 25)) == "b"
    ensures Value(s, TagMatch(49, 25)) == pb
  {
    assert s[22..23] == a[22..23];
    assert s[71..72] == pb[22..23];
    assert s[49..74] == pb;
  }

  /** The loop over the two matches of the overlap case: `x` is unknown,
      and the replace of `b` starts at the closing `##` of `x`. */
  lemma {:induction false} OverlapLoop(s: string, a: string, pb: string)
    requires IsPlaceholder(pb, "b") && a == "##MessageDelivery.Tag.x"
    requires s == a + (pb + " " + pb)
    requires TagMatches(s) == [TagMatch(0, 25), TagMatch(49, 25)]
    ensures Resolve(s, map["b" := "V"]) == a + "V V"
  {
    var tags := map["b" := "V"];
    var ms := TagMatches(s);
    ShortCircuitAgrees(s, tags);
    OverlapKeys(s, a, pb);
    OverlapReplace(a, pb);
    assert ApplyMatch(s, s, ms[0], tags) == s;
    assert ApplyMatch(s, s, ms[1], tags) == a + "V V";
    assert ms[1..] == [ms[1]] && ms[1..][1..] == [];
    assert ApplyMatches(s, s, ms[1..], tags) == a + "V V";
    assert ApplyMatches(s, s, ms, tags) == ApplyMatches(s, s, ms[1..], tags);
  }

  /** Why the parts must be kept apart: in
      `##MessageDelivery.Tag.x##MessageDelivery.Tag.b## ##MessageDelivery.Tag.b##`
      the closing `##` of the unknown placeholder `x`, followed by text that
      spells the rest of placeholder `b`, is taken for a copy of `b` by
      `String.Replace`. The value `V` of `b` then lands inside the
      placeholder of `x`, which loses its closing `##`: the result is
      `##MessageDelivery.Tag.xV V`. */
  lemma {:induction false} OverlapReplacesAcrossPlaceholders()
    ensures Resolve(PlaceholderText('.', '.', "x") + "MessageDelivery.Tag.b## " + PlaceholderText('.', '.', "b"),
                    map["b" := "V"])
            == "##MessageDelivery.Tag.x" + "V V"
  {
    var px, pb := PlaceholderText('.', '.', "x"), PlaceholderText('.', '.', "b");
    PlaceholderTextMatches('.', '.', "x");
    PlaceholderTextMatches('.', '.', "b");
    var mid, a := "MessageDelivery.Tag.b## ", "##MessageDelivery.Tag.x";
    OverlapPieces(px, pb, mid, a);
    OverlapScan(px, pb, mid);
    OverlapLoop(px + mid + pb, a, pb);
  }

  /** The expected matches of a placeholder, a text and a placeholder. */
  lemma {:induction false} PartMatchesOfThree(x: Part, y: Part, z: Part)
    requires x.Tagged? && y.Literal? && z.Tagged?
    ensures PartMatches([], [x, y, z]) == [TagMatch(0, |x.text|), TagMatch(|x.text| + |y.text|, |z.text|)]
  {
    var ps := [x, y, z];
    assert ps[1..] == [y, z] && ps[1..][1..] == [z] && [z][1..] == [];
    assert [] + x.text == x.text;
    assert PartMatches([], ps) == [TagMatch(0, |x.text|)] + PartMatches(x.text, [y, z]);
    assert PartMatches(x.text, [y, z]) == PartMatches(x.text + y.text, [z]);
    assert PartMatches(x.text + y.text, [z]) == [TagMatch(|x.text| + |y.text|, |z.text|)];
  }

  /** The scan over `a`, `-`, `b`: one match per placeholder. */
  lemma {:induction false} ValueAgainMatches(pa: string, pb: string)
    requires IsPlaceholder(pa, "a") && IsPlaceholder(pb, "b")
    ensures TagMatches(pa + "-" + pb) == [TagMatch(0, |pa|), TagMatch(|pa| + 1, |pb|)]
  {
    var ps := [Tagged(pa, "a"), Literal("-"), Tagged(pb, "b")];
    TwoPartsRender(pa, "a", pb, "b");
    assert [] + (pa + "-" + pb) == pa + "-" + pb;
    ScanParts([], ps);
    PartMatchesOfThree(ps[0], ps[1], ps[2]);
  }

  /** The first match over `a`, `-`, `b` reads back as `a`'s text and key. */
  lemma {:induction false} ValueAgainReadsFirst(pa: string, pb: string)
    requires IsPlaceholder(pa, "a") && IsPlaceholder(pb, "b")
    ensures Within(pa + "-" + pb, TagMatch(0, |pa|))
    ensures Value(pa + "-" + pb, TagMatch(0, |pa|)) == pa && Key(pa + "-" + pb, TagMatch(0, |pa|)) == "a"
  {
    var ps := [Tagged(pa, "a"), Literal("-"), Tagged(pb, "b")];
    TwoPartsRender(pa, "a", pb, "b");
    assert [] + (pa + "-" + pb) == pa + "-" + pb;
    FirstPartMatchRead([], ps);
  }

  /** The second match over `a`, `-`, `b` reads back as `b`'s text and key. */
  lemma {:induction false} ValueAgainReadsSecond(pa: string, pb: string)
    requires IsPlaceholder(pb, "b")
    ensures Within(pa + "-" + pb, TagMatch(|pa| + 1, |pb|))
    ensures Value(pa + "-" + pb, TagMatch(|pa| + 1, |pb|)) == pb && Key(pa + "-" + pb, TagMatch(|pa| + 1, |pb|)) == "b"
  {
    var qs := [Tagged(pb, "b")];
    assert RenderParts(qs) == pb + RenderParts([]);
    assert Separated(qs);
    assert (pa + "-") + RenderParts(qs) == pa + "-" + pb;
    FirstPartMatchRead(pa + "-", qs);
  }

  /** The placeholders of `a` and `b` are different texts. */
  lemma {:induction false} PlaceholdersOfOtherKeysDiffer(pa: string, pb: string)
    requires IsPlaceholder(pa, "a") && IsPlaceholder(pb, "b")
    ensures pa != pb
  {
    assert pa[22..23] == "a" && pb[22..23] == "b";
  }

  /** The replace for `a` turns it into the placeholder of `b`. */
  lemma {:induction false} ValueAgainFirstReplace(pa: string, pb: string)
    requires IsPlaceholder(pa, "a") && IsPlaceholder(pb, "b")
    ensures ReplaceAll(pa + "-" + pb, pa, pb) == pb + "-" + pb
  {
    PlaceholdersOfOtherKeysDiffer(pa, pb);
    var ps := [Tagged(pa, "a"), Literal("-"), Tagged(pb, "b")];
    TwoPartsRender(pa, "a", pb, "b");
    ReplaceAllParts(ps, pa, "a", pb);
    var r := Substitute(ps, pa, pb);
    assert r == [Literal(pb), Literal("-"), Tagged(pb, "b")];
    assert r[1..] == [Literal("-"), Tagged(pb, "b")] && r[1..][1..] == [Tagged(pb, "b")];
    assert RenderParts([Tagged(pb, "b")]) == pb + RenderParts([]);
  }

  /** The replace for `b` then turns both copies of `b` into `X`. */
  lemma {:induction false} ValueAgainSecondReplace(pb: string)
    requires IsPlaceholder(pb, "b")
    ensures ReplaceAll(pb + "-" + pb, pb, "X") == "X-X"
  {
    var qs := [Tagged(pb, "b"), Literal("-"), Tagged(pb, "b")];
    TwoPartsRender(pb, "b", pb, "b");
    ReplaceAllParts(qs, pb, "b", "X");
    var r := Substitute(qs, pb, "X");
    assert r == [Literal("X"), Literal("-"), Literal("X")];
    assert r[1..] == [Literal("-"), Literal("X")] && r[1..][1..] == [Literal("X")];
    assert RenderParts([Literal("X")]) == "X" + RenderParts([]);
  }

  /** What the parts reading promises when the value of `a` is the
      placeholder of `b`: that value is kept as it is. */
  lemma {:induction false} ValueAgainIntended(pa: string, pb: string)
    ensures RenderParts(Resolved([Tagged(pa, "a"), Literal("-"), Tagged(pb, "b")], map["a" := pb, "b" := "X"]))
            == pb + "-X"
  {
    var r := Resolved([Tagged(pa, "a"), Literal("-"), Tagged(pb, "b")], map["a" := pb, "b" := "X"]);
    assert r == [Literal(pb), Literal("-"), Literal("X")];
    assert r[1..] == [Literal("-"), Literal("X")] && r[1..][1..] == [Literal("X")];
    assert RenderParts([Literal("X")]) == "X" + RenderParts([]);
  }

  /** Why the values must not hold `#`: in
      `##MessageDelivery.Tag.a##-##MessageDelivery.Tag.b##` with `a` mapped to
      `##MessageDelivery.Tag.b##` and `b` to `X`, the replace for `a` puts a
      new copy of `b` into the string, and the replace for `b`, which runs on
      the whole current string, resolves it too. The result is `X-X`, where
      reading the template as parts gives `##MessageDelivery.Tag.b##-X`. */
  lemma {:induction false} ValueResolvedAgain()
    ensures Resolve(PlaceholderText('.', '.', "a") + "-" + PlaceholderText('.', '.', "b"),
                    map["a" := PlaceholderText('.', '.', "b"), "b" := "X"]) == "X-X"
    ensures RenderParts(Resolved([Tagged(PlaceholderText('.', '.', "a"), "a"), Literal("-"),
                             Tagged(PlaceholderText('.', '.', "b"), "b")],
                            map["a" := PlaceholderText('.', '.', "b"), "b" := "X"]))
            == PlaceholderText('.', '.', "b") + "-X"
  {
    PlaceholderTextMatches('.', '.', "a");
    PlaceholderTextMatches('.', '.', "b");
    ValueAgainLoop(PlaceholderText('.', '.', "a"), PlaceholderText('.', '.', "b"));
    ValueAgainIntended(PlaceholderText('.', '.', "a"), PlaceholderText('.', '.', "b"));
  }

  /** The loop over `a`, `-`, `b` when the value of `a` is the placeholder of `b`. */
  lemma {:induction false} ValueAgainLoop(pa: string, pb: string)
    requires IsPlaceholder(pa, "a") && IsPlaceholder(pb, "b")
    ensures Resolve(pa + "-" + pb, map["a" := pb, "b" := "X"]) == "X-X"
  {
    var s, tags := pa + "-" + pb, map["a" := pb, "b" := "X"];
    ShortCircuitAgrees(s, tags);
    ValueAgainMatches(pa, pb);
    ValueAgainReadsFirst(pa, pb);
    ValueAgainReadsSecond(pa, pb);
    ValueAgainFirstReplace(pa, pb);
    ValueAgainSecondReplace(pb);
    var ms := TagMatches(s);
    assert ApplyMatch(s, s, ms[0], tags) == pb + "-" + pb;
    assert ApplyMatch(pb + "-" + pb, s, ms[1], tags) == "X-X";
    assert ms[1..] == [ms[1]] && ms[1..][1..] == [];
    assert ApplyMatches(pb + "-" + pb, s, ms[1..], tags) == "X-X";
    assert ApplyMatches(s, s, ms, tags) == ApplyMatches(pb + "-" + pb, s, ms[1..], tags);
  }
}
