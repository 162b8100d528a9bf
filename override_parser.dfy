/** The parser of the container-override setting (`ParseEnvironmentVariables`
    and `GetCorrectMatch`): a value `K1=V1:K2=V2` becomes an ordered
    dictionary of environment variables.

    Two regular expressions cut it up. `'(.+?)'|[^:]+` cuts the value into
    pairs; single quotes protect a whole pair. `"(.+?)"|[^=]+` cuts a pair
    into key and value; double quotes protect either one. Both have the shape
    `Q(.+?)Q|[^D]+` for a quote character `Q` and a delimiter `D`, so one
    scanner serves both. Neither alternative can match the empty string, so
    the next match is searched for right behind the previous one. */
module OverrideParser {
  import opened Wrappers

  const PairQuote: char := '\''
  const PairDelimiter: char := ':'
  const KeyQuote: char := '"'
  const KeyDelimiter: char := '='

  /** A match of `Q(.+?)Q|[^D]+` as positions in the scanned string, and
      whether the quoted alternative produced it. */
  datatype Span = Span(start: nat, end: nat, quoted: bool)

  /** The span lies inside `s`; a quoted span holds two quotes and at least one character between them. */
  predicate SpanWithin(s: string, t: Span)
  {
    t.start < t.end <= |s| && (t.quoted ==> t.start + 3 <= t.end)
  }

  /** The lazy `(.+?)Q` after an opening quote, from its second character on:
      the first `Q` at or after `k`, unless a line feed, which `.` does not
      match, comes first. */
  function CloseQuote(s: string, k: nat, q: char): (c: Option<nat>)
    requires k <= |s|
    ensures c.Some? ==> k <= c.value < |s| && s[c.value] == q
    decreases |s| - k
  {
    if k == |s| then None
    else if s[k] == q then Some(k)
    else if s[k] == '\n' then None
    else CloseQuote(s, k + 1, q)
  }

  /** Before the closing quote there is neither a quote nor a line feed. */
  lemma {:induction false} CloseQuoteIsFirst(s: string, k: nat, q: char, m: nat)
    requires k <= |s| && CloseQuote(s, k, q).Some? && k <= m < CloseQuote(s, k, q).value
    ensures s[m] != q && s[m] != '\n'
    decreases |s| - k
  {
    if m > k {
      CloseQuoteIsFirst(s, k + 1, q, m);
    }
  }

  /** A quote with neither a quote nor a line feed before it is the one found. */
  lemma {:induction false} CloseQuoteAt(s: string, k: nat, q: char, c: nat)
    requires k <= c < |s| && s[c] == q
    requires forall m :: k <= m < c ==> s[m] != q && s[m] != '\n'
    ensures CloseQuote(s, k, q) == Some(c)
    decreases c - k
  {
    if k < c {
      CloseQuoteAt(s, k + 1, q, c);
    }
  }

  /** The greedy `[^D]+`: the end of the run of non-delimiters from `k`. */
  function RunEnd(s: string, k: nat, d: char): (e: nat)
    requires k <= |s|
    ensures k <= e <= |s| && (e == |s| || s[e] == d)
    ensures k < |s| && s[k] != d ==> k < e
    decreases |s| - k
  {
    if k < |s| && s[k] != d then RunEnd(s, k + 1, d) else k
  }

  /** No delimiter lies inside the run. */
  lemma {:induction false} RunEndHasNoDelimiter(s: string, k: nat, d: char, m: nat)
    requires k <= |s| && k <= m < RunEnd(s, k, d)
    ensures s[m] != d
    decreases |s| - k
  {
    if m > k {
      RunEndHasNoDelimiter(s, k + 1, d, m);
    }
  }

  /** A run of non-delimiters ended by a delimiter or the end of `s` is the one found. */
  lemma {:induction false} RunEndAt(s: string, k: nat, d: char, e: nat)
    requires k <= e <= |s| && (e == |s| || s[e] == d)
    requires forall m :: k <= m < e ==> s[m] != d
    ensures RunEnd(s, k, d) == e
    decreases e - k
  {
    if k < e {
      RunEndAt(s, k + 1, d, e);
    }
  }

  /** One match attempt of `Q(.+?)Q|[^D]+` at index `p`: the quoted
      alternative first, then the run of non-delimiters. */
  function TokenAt(s: string, p: nat, q: char, d: char): (r: Option<Span>)
    requires p < |s|
    ensures r.Some? ==> r.value.start == p && SpanWithin(s, r.value)
  {
    if s[p] == q && p + 1 < |s| && s[p + 1] != '\n' && CloseQuote(s, p + 2, q).Some?
    then Some(Span(p, CloseQuote(s, p + 2, q).value + 1, true))
    else if s[p] != d then Some(Span(p, RunEnd(s, p, d), false))
    else None
  }

  /** The quoted alternative can match `s[p..e]`: a quote at both ends and
      at least one character between them, none of which is a line feed. */
  predicate QuotedCandidate(s: string, p: nat, e: nat, q: char)
  {
    && p + 3 <= e <= |s| && s[p] == q && s[e - 1] == q
    && forall m :: p + 1 <= m < e - 1 ==> s[m] != '\n'
  }

  /** A quoted match is a candidate and, the quantifier being lazy, the shortest one. */
  lemma {:induction false} QuotedTokenIsShortest(s: string, p: nat, q: char, d: char, e: nat)
    requires p < |s| && TokenAt(s, p, q, d).Some? && TokenAt(s, p, q, d).value.quoted
    ensures QuotedCandidate(s, p, TokenAt(s, p, q, d).value.end, q)
    ensures QuotedCandidate(s, p, e, q) ==> TokenAt(s, p, q, d).value.end <= e
  {
    var c := CloseQuote(s, p + 2, q).value;
    forall m | p + 2 <= m < c ensures s[m] != q && s[m] != '\n' {
      CloseQuoteIsFirst(s, p + 2, q, m);
    }
  }

  /** Whenever the quoted alternative can match, it is the one taken. */
  lemma {:induction false} QuotedCandidateIsTaken(s: string, p: nat, q: char, d: char, e: nat)
    requires QuotedCandidate(s, p, e, q)
    ensures TokenAt(s, p, q, d).Some? && TokenAt(s, p, q, d).value.quoted
  {
    var c :| p + 2 <= c <= e - 1 && s[c] == q && (forall m :: p + 2 <= m < c ==> s[m] != q)
           && (forall m :: p + 2 <= m < c ==> s[m] != '\n') by {
      FirstQuote(s, p + 2, e - 1, q);
    }
    CloseQuoteAt(s, p + 2, q, c);
  }

  /** Between `k` and a quote at `c` there is a first quote. */
  lemma {:induction false} FirstQuote(s: string, k: nat, c: nat, q: char)
    requires k <= c < |s| && s[c] == q
    requires forall m :: k <= m < c ==> s[m] != '\n'
    ensures exists f :: k <= f <= c && s[f] == q && (forall m :: k <= m < f ==> s[m] != q)
                        && (forall m :: k <= m < f ==> s[m] != '\n')
    decreases c - k
  {
    if s[k] != q {
      FirstQuote(s, k + 1, c, q);
    }
  }

  /** An unquoted match is the longest run of non-delimiters at `p`, and
      there is no match at `p` exactly when `p` holds the delimiter. */
  lemma {:induction false} PlainTokenIsRun(s: string, p: nat, q: char, d: char, m: nat)
    requires p < |s| && q != d
    ensures TokenAt(s, p, q, d) == None <==> s[p] == d
    ensures TokenAt(s, p, q, d).Some? && !TokenAt(s, p, q, d).value.quoted ==>
              var e := TokenAt(s, p, q, d).value.end;
              (e == |s| || s[e] == d) && (p <= m < e ==> s[m] != d)
  {
    if TokenAt(s, p, q, d).Some? && !TokenAt(s, p, q, d).value.quoted && p <= m < RunEnd(s, p, d) {
      RunEndHasNoDelimiter(s, p, d, m);
    }
  }

  /** What `Regex.Matches` offers for one match: `Match.Value` and
      `Groups[1].Value`, which is empty when the quoted alternative did not
      take part. */
  datatype RegexMatch = RegexMatch(value: string, group: string)

  function MatchOf(s: string, t: Span): RegexMatch
    requires SpanWithin(s, t)
  {
    RegexMatch(s[t.start..t.end], if t.quoted then s[t.start + 1..t.end - 1] else [])
  }

  /** `Regex.Matches(s, Q(.+?)Q|[^D]+)`. Neither alternative looks behind the
      index it starts at, so after a match the scan goes on with the rest of
      the string, and after a failed attempt one character further on. */
  function Matches(s: string, q: char, d: char): (r: seq<RegexMatch>)
    ensures |r| <= |s|
    decreases |s|
  {
    if s == [] then []
    else
      match TokenAt(s, 0, q, d)
      case Some(t) => [MatchOf(s, t)] + Matches(s[t.end..], q, d)
      case None => Matches(s[1..], q, d)
  }

  /** The shape of a single match: a quoted one is its group between two
      quotes, with no line feed in the group; any other has an empty group
      and is a non-empty run without the delimiter. */
  predicate WellShaped(m: RegexMatch, q: char, d: char)
  {
    if m.group != [] then m.value == [q] + m.group + [q] && '\n' !in m.group
    else m.value != [] && d !in m.value
  }

  /** The match found at the front of `s` is well shaped. */
  lemma {:induction false} FirstMatchShaped(s: string, q: char, d: char)
    requires s != [] && TokenAt(s, 0, q, d).Some?
    ensures WellShaped(MatchOf(s, TokenAt(s, 0, q, d).value), q, d)
  {
    var t := TokenAt(s, 0, q, d).value;
    var m := MatchOf(s, t);
    if t.quoted {
      var c := CloseQuote(s, 2, q).value;
      forall k | 0 <= k < |m.group| ensures m.group[k] != '\n' {
        if k > 0 {
          CloseQuoteIsFirst(s, 2, q, k + 1);
        }
      }
      assert m.value == [q] + m.group + [q];
    } else {
      forall k | 0 <= k < |m.value| ensures m.value[k] != d {
        RunEndHasNoDelimiter(s, 0, d, k);
      }
    }
  }

  /** Every reported match is well shaped. */
  lemma {:induction false} MatchesShaped(s: string, q: char, d: char, j: nat)
    requires j < |Matches(s, q, d)|
    ensures WellShaped(Matches(s, q, d)[j], q, d)
    decreases |s|
  {
    match TokenAt(s, 0, q, d)
    case Some(t) =>
      if j == 0 {
        FirstMatchShaped(s, q, d);
      } else {
        MatchesShaped(s[t.end..], q, d, j - 1);
      }
    case None =>
      MatchesShaped(s[1..], q, d, j);
  }

  /** A string made only of delimiters holds no match. */
  lemma {:induction false} DelimitersOnlyHaveNoMatches(s: string, q: char, d: char)
    requires q != d && forall m :: 0 <= m < |s| ==> s[m] == d
    ensures Matches(s, q, d) == []
    decreases |s|
  {
    if s != [] {
      DelimitersOnlyHaveNoMatches(s[1..], q, d);
    }
  }

  /** `GetCorrectMatch`: the captured group when it is not empty, the whole match otherwise. */
  function GetCorrectMatch(m: RegexMatch): (r: string)
    ensures r == m.group || r == m.value
    ensures r == [] <==> m.group == [] && m.value == []
  {
    if m.group != [] then m.group else m.value
  }

  /** A well-shaped match reads as the text between its quotes when quoted,
      as all of its text otherwise; either way the reading is not empty. */
  lemma {:induction false} CorrectMatchReading(m: RegexMatch, q: char, d: char)
    requires WellShaped(m, q, d)
    ensures GetCorrectMatch(m) != []
    ensures m.value == [q] + GetCorrectMatch(m) + [q] || m.value == GetCorrectMatch(m)
  {
  }

  /** The texts of a match collection, each read through `GetCorrectMatch`. */
  function CorrectTexts(ms: seq<RegexMatch>): seq<string>
  {
    seq(|ms|, j requires 0 <= j < |ms| => GetCorrectMatch(ms[j]))
  }

  /** The exceptions `ParseEnvironmentVariables` throws: the format message of
      `ArgumentException`, the index failure of a missing key or value, and
      the duplicate-key message. */
  datatype OverrideError = FormattedIncorrectly | MissingPiece | AlreadyDefined

  /** An insertion-ordered dictionary of environment variables. */
  type Dictionary = seq<(string, string)>

  function Keys(dict: Dictionary): set<string>
  {
    set j | 0 <= j < |dict| :: dict[j].0
  }

  predicate DistinctKeys(dict: Dictionary)
  {
    forall i, j :: 0 <= i < j < |dict| ==> dict[i].0 != dict[j].0
  }

  /** One pair: split into key and value, each read through `GetCorrectMatch`. */
  function ParsePair(part: string): Result<(string, string), OverrideError>
  {
    var variables := Matches(part, KeyQuote, KeyDelimiter);
    if |variables| > 2 then Err(FormattedIncorrectly)
    else if |variables| < 2 then Err(MissingPiece)
    else Ok((GetCorrectMatch(variables[0]), GetCorrectMatch(variables[1])))
  }

  /** Every pair parsed, in order. */
  function ParsedParts(parts: seq<string>): seq<Result<(string, string), OverrideError>>
  {
    seq(|parts|, j requires 0 <= j < |parts| => ParsePair(parts[j]))
  }

  /** The loop over the parsed pairs: `TryAdd` of each, stopping at the first error. */
  function AddPairs(results: seq<Result<(string, string), OverrideError>>, dict: Dictionary)
    : Result<Dictionary, OverrideError>
    decreases |results|
  {
    if results == [] then Ok(dict)
    else
      match results[0]
      case Err(e) => Err(e)
      case Ok(kv) => if kv.0 in Keys(dict) then Err(AlreadyDefined) else AddPairs(results[1..], dict + [kv])
  }

  /** What `ParseEnvironmentVariables` leaves in the override dictionary, or
      the exception it throws; `None` is a missing setting (a C# null). */
  function ParseOverrides(overrides: Option<string>): Result<Dictionary, OverrideError>
  {
    if overrides.None? || overrides.value == [] then Ok([])
    else
      var parts := Matches(overrides.value, PairQuote, PairDelimiter);
      if parts == [] then Err(FormattedIncorrectly)
      else AddPairs(ParsedParts(CorrectTexts(parts)), [])
  }

  /** The parser as the source writes it: a loop that fills the dictionary
      with `TryAdd` and throws at the first malformed or repeated pair. */
  method ParseEnvironmentVariables(environmentVariableOverrides: Option<string>)
    returns (result: Result<Dictionary, OverrideError>)
    ensures result == ParseOverrides(environmentVariableOverrides)
    ensures result.Ok? ==> DistinctKeys(result.value)
  {
    var environmentDictionary: Dictionary := [];
    if environmentVariableOverrides.Some? && environmentVariableOverrides.value != [] {
      var parts := Matches(environmentVariableOverrides.value, PairQuote, PairDelimiter);
      if |parts| == 0 {
        return Err(FormattedIncorrectly);
      }
      ghost var results := ParsedParts(CorrectTexts(parts));
      for i := 0 to |parts|
        invariant DistinctKeys(environmentDictionary)
        invariant AddPairs(results[i..], environmentDictionary) == ParseOverrides(environmentVariableOverrides)
      {
        assert results[i..][1..] == results[i + 1..];
        var part := GetCorrectMatch(parts[i]);
        var variables := Matches(part, KeyQuote, KeyDelimiter);
        if |variables| > 2 {
          return Err(FormattedIncorrectly);
        }
        if |variables| < 2 {
          return Err(MissingPiece);
        }
        var key := GetCorrectMatch(variables[0]);
        var val := GetCorrectMatch(variables[1]);
        if key in Keys(environmentDictionary) {
          return Err(AlreadyDefined);
        }
        AddKeepsDistinct(environmentDictionary, (key, val));
        environmentDictionary := environmentDictionary + [(key, val)];
      }
    }
    result := Ok(environmentDictionary);
  }

  /** Adding a new key keeps the keys distinct. */
  lemma {:induction false} AddKeepsDistinct(dict: Dictionary, kv: (string, string))
    requires DistinctKeys(dict) && kv.0 !in Keys(dict)
    ensures DistinctKeys(dict + [kv])
  {
    forall i | 0 <= i < |dict| ensures dict[i].0 != kv.0 {
      assert dict[i].0 in Keys(dict);
    }
  }

  /** The loop only ever adds keys it has not seen, so a parsed dictionary has distinct keys. */
  lemma {:induction false} AddPairsDistinct(results: seq<Result<(string, string), OverrideError>>, dict: Dictionary)
    requires DistinctKeys(dict)
    ensures AddPairs(results, dict).Ok? ==> DistinctKeys(AddPairs(results, dict).value)
    decreases |results|
  {
    if results != [] && results[0].Ok? {
      var kv := results[0].value;
      if kv.0 !in Keys(dict) {
        AddKeepsDistinct(dict, kv);
        AddPairsDistinct(results[1..], dict + [kv]);
      }
    }
  }

  /** Whatever the parser returns has one entry per key. */
  lemma {:induction false} ParsedKeysDistinct(overrides: Option<string>)
    ensures ParseOverrides(overrides).Ok? ==> DistinctKeys(ParseOverrides(overrides).value)
  {
    if overrides.Some? && overrides.value != [] {
      var parts := Matches(overrides.value, PairQuote, PairDelimiter);
      if parts != [] {
        AddPairsDistinct(ParsedParts(CorrectTexts(parts)), []);
      }
    }
  }

  /** Pairs that each parse cleanly are added in order, unless a key repeats. */
  lemma {:induction false} AddPairsParsed(results: seq<Result<(string, string), OverrideError>>, dict: Dictionary, pairs: Dictionary)
    requires |results| == |pairs| && DistinctKeys(dict)
    requires forall j :: 0 <= j < |results| ==> results[j] == Ok(pairs[j])
    ensures AddPairs(results, dict) == if DistinctKeys(dict + pairs) then Ok(dict + pairs) else Err(AlreadyDefined)
    decreases |results|
  {
    if results == [] {
      assert dict + pairs == dict;
    } else {
      var kv := pairs[0];
      assert results[0] == Ok(kv);
      if kv.0 in Keys(dict) {
        var i :| 0 <= i < |dict| && dict[i].0 == kv.0;
        assert (dict + pairs)[i].0 == (dict + pairs)[|dict|].0;
      } else {
        AddKeepsDistinct(dict, kv);
        AddPairsParsed(results[1..], dict + [kv], pairs[1..]);
        assert dict + [kv] + pairs[1..] == dict + pairs;
      }
    }
  }

  /** A missing or empty setting configures no overrides. */
  lemma {:induction false} NoOverrides(overrides: Option<string>)
    requires overrides.None? || overrides.value == []
    ensures ParseOverrides(overrides) == Ok([])
  {
  }

  /** A non-empty setting without anything but `:` holds no pair and is rejected. */
  lemma {:induction false} SeparatorsOnlyRejected(s: string)
    requires s != [] && forall m :: 0 <= m < |s| ==> s[m] == PairDelimiter
    ensures ParseOverrides(Some(s)) == Err(FormattedIncorrectly)
  {
    DelimitersOnlyHaveNoMatches(s, PairQuote, PairDelimiter);
  }

  /** How a piece of text is written in the setting: as it is, or between quotes. */
  datatype Piece = Plain(text: string) | Quoted(inner: string)

  function PieceText(pc: Piece, q: char): string
  {
    match pc
    case Plain(t) => t
    case Quoted(inner) => [q] + inner + [q]
  }

  /** What `GetCorrectMatch` should give back for the piece. */
  function Reading(pc: Piece): string
  {
    match pc
    case Plain(t) => t
    case Quoted(inner) => inner
  }

  /** The match a piece is expected to give. */
  function PieceMatch(pc: Piece, q: char): RegexMatch
  {
    RegexMatch(PieceText(pc, q), if pc.Quoted? then pc.inner else [])
  }

  /** The piece is read back as one match: plain text is not empty, holds no
      delimiter and does not open with a quote; quoted text is not empty and
      holds neither the quote nor a line feed. */
  predicate GoodPiece(pc: Piece, q: char, d: char)
  {
    match pc
    case Plain(t) => t != [] && d !in t && t[0] != q
    case Quoted(inner) => inner != [] && q !in inner && '\n' !in inner
  }

  predicate GoodPieces(pcs: seq<Piece>, q: char, d: char)
  {
    forall j :: 0 <= j < |pcs| ==> GoodPiece(pcs[j], q, d)
  }

  /** The pieces written out with the delimiter between neighbours. */
  function RenderPieces(pcs: seq<Piece>, q: char, d: char): string
    requires pcs != []
    decreases |pcs|
  {
    if |pcs| == 1 then PieceText(pcs[0], q)
    else PieceText(pcs[0], q) + [d] + RenderPieces(pcs[1..], q, d)
  }

  function PieceMatches(pcs: seq<Piece>, q: char): seq<RegexMatch>
  {
    seq(|pcs|, j requires 0 <= j < |pcs| => PieceMatch(pcs[j], q))
  }

  function Readings(pcs: seq<Piece>): seq<string>
  {
    seq(|pcs|, j requires 0 <= j < |pcs| => Reading(pcs[j]))
  }

  /** A well-formed piece followed by a delimiter or by nothing is matched
      as a whole. */
  lemma {:induction false} TokenAtPiece(pc: Piece, rest: string, q: char, d: char)
    requires GoodPiece(pc, q, d) && q != d && (rest == [] || rest[0] == d)
    ensures TokenAt(PieceText(pc, q) + rest, 0, q, d) == Some(Span(0, |PieceText(pc, q)|, pc.Quoted?))
  {
    var t := PieceText(pc, q);
    var s := t + rest;
    match pc
    case Plain(text) =>
      assert s[0] == text[0];
      forall m | 0 <= m < |t| ensures s[m] != d {
        assert s[m] == text[m];
      }
      RunEndAt(s, 0, d, |t|);
    case Quoted(inner) =>
      assert s[0] == q && s[1] == inner[0];
      forall m | 2 <= m < 1 + |inner| ensures s[m] != q && s[m] != '\n' {
        assert s[m] == inner[m - 1];
      }
      assert s[1 + |inner|] == q;
      CloseQuoteAt(s, 2, q, 1 + |inner|);
  }

  /** A well-formed piece in front of a delimiter or of nothing is the first
      match, and the scan goes on with what follows it. */
  lemma {:induction false} MatchesPiece(pc: Piece, rest: string, q: char, d: char)
    requires GoodPiece(pc, q, d) && q != d && (rest == [] || rest[0] == d)
    ensures Matches(PieceText(pc, q) + rest, q, d) == [PieceMatch(pc, q)] + Matches(rest, q, d)
  {
    var t := PieceText(pc, q);
    var s := t + rest;
    TokenAtPiece(pc, rest, q, d);
    assert s[0..|t|] == t;
    assert s[|t|..] == rest;
    if pc.Quoted? {
      assert s[1..|t| - 1] == pc.inner;
    }
  }

  /** A delimiter in front is skipped. */
  lemma {:induction false} MatchesSkipDelimiter(rest: string, q: char, d: char)
    requires q != d
    ensures Matches([d] + rest, q, d) == Matches(rest, q, d)
  {
    assert ([d] + rest)[1..] == rest;
  }

  /** Scanning rendered pieces reports each piece as one match, in order. */
  lemma {:induction false} MatchesRender(pcs: seq<Piece>, q: char, d: char)
    requires pcs != [] && GoodPieces(pcs, q, d) && q != d
    ensures Matches(RenderPieces(pcs, q, d), q, d) == PieceMatches(pcs, q)
    decreases |pcs|
  {
    if |pcs| == 1 {
      var t := PieceText(pcs[0], q);
      MatchesPiece(pcs[0], [], q, d);
      assert t + [] == t;
    } else {
      MatchesRenderStep(pcs, q, d);
      MatchesRender(pcs[1..], q, d);
      PieceMatchesCons(pcs, q);
    }
  }

  lemma {:induction false} PieceMatchesCons(pcs: seq<Piece>, q: char)
    requires pcs != []
    ensures PieceMatches(pcs, q) == [PieceMatch(pcs[0], q)] + PieceMatches(pcs[1..], q)
  {
    assert forall j :: 1 <= j < |pcs| ==> PieceMatches(pcs, q)[j] == PieceMatches(pcs[1..], q)[j - 1];
  }

  /** The first of several rendered pieces is one match, and the scan goes
      on with the pieces behind the delimiter. */
  lemma {:induction false} MatchesRenderStep(pcs: seq<Piece>, q: char, d: char)
    requires |pcs| > 1 && GoodPiece(pcs[0], q, d) && q != d
    ensures Matches(RenderPieces(pcs, q, d), q, d) == [PieceMatch(pcs[0], q)] + Matches(RenderPieces(pcs[1..], q, d), q, d)
  {
    var t, y := PieceText(pcs[0], q), RenderPieces(pcs[1..], q, d);
    assert RenderPieces(pcs, q, d) == t + ([d] + y);
    MatchesPiece(pcs[0], [d] + y, q, d);
    MatchesSkipDelimiter(y, q, d);
  }

  /** Rendered pieces come back, through the scanner and `GetCorrectMatch`, as their readings. */
  lemma {:induction false} RenderedReadings(pcs: seq<Piece>, q: char, d: char)
    requires pcs != [] && GoodPieces(pcs, q, d) && q != d
    ensures |Matches(RenderPieces(pcs, q, d), q, d)| == |pcs|
    ensures CorrectTexts(Matches(RenderPieces(pcs, q, d), q, d)) == Readings(pcs)
  {
    MatchesRender(pcs, q, d);
    forall j | 0 <= j < |pcs| ensures GetCorrectMatch(PieceMatch(pcs[j], q)) == Reading(pcs[j]) {
      assert GoodPiece(pcs[j], q, d);
    }
  }

  /** A pair written as pieces parses by the number of pieces: two give the
      key and the value, more are badly formatted, fewer leave a piece missing. */
  lemma {:induction false} ParsePairRendered(pcs: seq<Piece>)
    requires pcs != [] && GoodPieces(pcs, KeyQuote, KeyDelimiter)
    ensures ParsePair(RenderPieces(pcs, KeyQuote, KeyDelimiter))
            == if |pcs| > 2 then Err(FormattedIncorrectly)
               else if |pcs| < 2 then Err(MissingPiece)
               else Ok((Reading(pcs[0]), Reading(pcs[1])))
  {
    RenderedReadings(pcs, KeyQuote, KeyDelimiter);
    var ms := Matches(RenderPieces(pcs, KeyQuote, KeyDelimiter), KeyQuote, KeyDelimiter);
    if |pcs| == 2 {
      assert CorrectTexts(ms)[0] == Reading(pcs[0]);
      assert CorrectTexts(ms)[1] == Reading(pcs[1]);
    }
  }

  /** A setting written as pieces is the loop over the pairs their readings parse to. */
  lemma {:induction false} ParseRendered(pcs: seq<Piece>)
    requires pcs != [] && GoodPieces(pcs, PairQuote, PairDelimiter)
    ensures ParseOverrides(Some(RenderPieces(pcs, PairQuote, PairDelimiter))) == AddPairs(ParsedParts(Readings(pcs)), [])
  {
    RenderedReadings(pcs, PairQuote, PairDelimiter);
    assert RenderPieces(pcs, PairQuote, PairDelimiter) != [] by {
      assert |PieceText(pcs[0], PairQuote)| > 0;
    }
  }

  /** How one pair is written: a key piece and a value piece joined by `=`,
      the pair as it is or between single quotes. */
  datatype Entry = Entry(key: Piece, value: Piece, wrapped: bool)

  function EntryPiece(e: Entry): Piece
  {
    var t := RenderPieces([e.key, e.value], KeyQuote, KeyDelimiter);
    if e.wrapped then Quoted(t) else Plain(t)
  }

  /** Both pieces of the pair, and the pair itself, are read back whole. */
  predicate GoodEntry(e: Entry)
  {
    && GoodPiece(e.key, KeyQuote, KeyDelimiter)
    && GoodPiece(e.value, KeyQuote, KeyDelimiter)
    && GoodPiece(EntryPiece(e), PairQuote, PairDelimiter)
  }

  function EntryPair(e: Entry): (string, string)
  {
    (Reading(e.key), Reading(e.value))
  }

  function Pairs(es: seq<Entry>): Dictionary
  {
    seq(|es|, j requires 0 <= j < |es| => EntryPair(es[j]))
  }

  /** The setting written from its entries, separated by `:`. */
  function Format(es: seq<Entry>): string
  {
    if es == [] then []
    else RenderPieces(seq(|es|, j requires 0 <= j < |es| => EntryPiece(es[j])), PairQuote, PairDelimiter)
  }

  /** Parsing a written setting gives back its pairs in order, or rejects a repeated key. */
  lemma {:induction false} RoundTrip(es: seq<Entry>)
    requires forall j :: 0 <= j < |es| ==> GoodEntry(es[j])
    ensures ParseOverrides(Some(Format(es)))
            == if DistinctKeys(Pairs(es)) then Ok(Pairs(es)) else Err(AlreadyDefined)
  {
    if es != [] {
      var pcs := seq(|es|, j requires 0 <= j < |es| => EntryPiece(es[j]));
      ParseRendered(pcs);
      var results := ParsedParts(Readings(pcs));
      forall j | 0 <= j < |es| ensures results[j] == Ok(Pairs(es)[j]) {
        assert Readings(pcs)[j] == RenderPieces([es[j].key, es[j].value], KeyQuote, KeyDelimiter);
        ParsePairRendered([es[j].key, es[j].value]);
      }
      AddPairsParsed(results, [], Pairs(es));
      assert [] + Pairs(es) == Pairs(es);
    }
  }

  /** A pair that can be written as `K=V` without any quotes: both sides
      non-empty, free of `=` and `:`, and not opening with a quote. */
  predicate PlainPair(kv: (string, string))
  {
    && kv.0 != [] && kv.1 != []
    && KeyDelimiter !in kv.0 && KeyDelimiter !in kv.1
    && PairDelimiter !in kv.0 && PairDelimiter !in kv.1
    && kv.0[0] != PairQuote && kv.0[0] != KeyQuote && kv.1[0] != KeyQuote
  }

  function PlainEntry(kv: (string, string)): Entry
  {
    Entry(Plain(kv.0), Plain(kv.1), false)
  }

  lemma {:induction false} PlainEntryGood(kv: (string, string))
    requires PlainPair(kv)
    ensures GoodEntry(PlainEntry(kv)) && EntryPair(PlainEntry(kv)) == kv
  {
    var t := RenderPieces([Plain(kv.0), Plain(kv.1)], KeyQuote, KeyDelimiter);
    assert [Plain(kv.0), Plain(kv.1)][1..] == [Plain(kv.1)];
    assert RenderPieces([Plain(kv.1)], KeyQuote, KeyDelimiter) == kv.1;
    assert t == kv.0 + [KeyDelimiter] + kv.1;
    assert t[0] == kv.0[0];
  }

  /** `K1=V1:K2=V2` is parsed back into the pairs it was written from. */
  lemma {:induction false} PlainRoundTrip(pairs: Dictionary)
    requires forall j :: 0 <= j < |pairs| ==> PlainPair(pairs[j])
    ensures ParseOverrides(Some(Format(seq(|pairs|, j requires 0 <= j < |pairs| => PlainEntry(pairs[j])))))
            == if DistinctKeys(pairs) then Ok(pairs) else Err(AlreadyDefined)
  {
    var es := seq(|pairs|, j requires 0 <= j < |pairs| => PlainEntry(pairs[j]));
    forall j | 0 <= j < |es| ensures GoodEntry(es[j]) && Pairs(es)[j] == pairs[j] {
      PlainEntryGood(pairs[j]);
    }
    assert Pairs(es) == pairs;
    RoundTrip(es);
  }

  /** A pair that can be written as `'K="V"'`: the value may then hold `:`
      and `=`; neither side holds a quote or a line feed, and the key holds
      no `=`. */
  predicate QuotablePair(kv: (string, string))
  {
    && kv.0 != [] && kv.1 != []
    && KeyDelimiter !in kv.0
    && PairQuote !in kv.0 && PairQuote !in kv.1
    && KeyQuote !in kv.0 && KeyQuote !in kv.1
    && '\n' !in kv.0 && '\n' !in kv.1
  }

  function QuotedEntry(kv: (string, string)): Entry
  {
    Entry(Plain(kv.0), Quoted(kv.1), true)
  }

  lemma {:induction false} QuotedEntryGood(kv: (string, string))
    requires QuotablePair(kv)
    ensures GoodEntry(QuotedEntry(kv)) && EntryPair(QuotedEntry(kv)) == kv
  {
    var t := RenderPieces([Plain(kv.0), Quoted(kv.1)], KeyQuote, KeyDelimiter);
    assert [Plain(kv.0), Quoted(kv.1)][1..] == [Quoted(kv.1)];
    assert RenderPieces([Quoted(kv.1)], KeyQuote, KeyDelimiter) == [KeyQuote] + kv.1 + [KeyQuote];
    assert t == kv.0 + [KeyDelimiter] + ([KeyQuote] + kv.1 + [KeyQuote]);
  }

  /** `'K1="V1"':'K2="V2"'` is parsed back into the pairs it was written
      from, whatever `:` and `=` the values hold. */
  lemma {:induction false} QuotedRoundTrip(pairs: Dictionary)
    requires forall j :: 0 <= j < |pairs| ==> QuotablePair(pairs[j])
    ensures ParseOverrides(Some(Format(seq(|pairs|, j requires 0 <= j < |pairs| => QuotedEntry(pairs[j])))))
            == if DistinctKeys(pairs) then Ok(pairs) else Err(AlreadyDefined)
  {
    var es := seq(|pairs|, j requires 0 <= j < |pairs| => QuotedEntry(pairs[j]));
    forall j | 0 <= j < |es| ensures GoodEntry(es[j]) && Pairs(es)[j] == pairs[j] {
      QuotedEntryGood(pairs[j]);
    }
    assert Pairs(es) == pairs;
    RoundTrip(es);
  }

  /** The setting written from one entry, and the pair it holds. */
  lemma {:induction false} SingleEntry(e: Entry, text: string, kv: (string, string))
    requires GoodEntry(e) && Format([e]) == text && EntryPair(e) == kv
    ensures ParseOverrides(Some(text)) == Ok([kv])
  {
    RoundTrip([e]);
    assert Pairs([e]) == [kv];
  }

  lemma {:induction false} QuotedPairWritten()
    ensures GoodEntry(Entry(Plain("A"), Plain("x:y"), true))
    ensures Format([Entry(Plain("A"), Plain("x:y"), true)]) == "'A=x:y'"
  {
    var e := Entry(Plain("A"), Plain("x:y"), true);
    assert [e.key, e.value][1..] == [e.value];
    assert EntryPiece(e) == Quoted("A=x:y");
  }

  /** `'A=x:y'`: single quotes keep the `:` inside the value. */
  lemma {:induction false} QuotedPairExample()
    ensures ParseOverrides(Some("'A=x:y'")) == Ok([("A", "x:y")])
  {
    QuotedPairWritten();
    SingleEntry(Entry(Plain("A"), Plain("x:y"), true), "'A=x:y'", ("A", "x:y"));
  }

  lemma {:induction false} QuotedValueWritten()
    ensures GoodEntry(Entry(Plain("A"), Quoted("x=y"), false))
    ensures Format([Entry(Plain("A"), Quoted("x=y"), false)]) == "A=\"x=y\""
  {
    var e := Entry(Plain("A"), Quoted("x=y"), false);
    assert [e.key, e.value][1..] == [e.value];
    assert EntryPiece(e) == Plain("A=\"x=y\"");
  }

  /** `A="x=y"`: double quotes keep the `=` inside the value. */
  lemma {:induction false} QuotedValueExample()
    ensures ParseOverrides(Some("A=\"x=y\"")) == Ok([("A", "x=y")])
  {
    QuotedValueWritten();
    SingleEntry(Entry(Plain("A"), Quoted("x=y"), false), "A=\"x=y\"", ("A", "x=y"));
  }

  lemma {:induction false} ThreePiecesPair()
    ensures ParsePair("a=b=c") == Err(FormattedIncorrectly)
  {
    var pcs := [Plain("a"), Plain("b"), Plain("c")];
    assert pcs[1..][1..] == [Plain("c")];
    assert RenderPieces(pcs, KeyQuote, KeyDelimiter) == "a=b=c";
    ParsePairRendered(pcs);
  }

  /** `a=b=c` has three pieces and is badly formatted. */
  lemma {:induction false} ThreePiecesExample()
    ensures ParseOverrides(Some("a=b=c")) == Err(FormattedIncorrectly)
  {
    var pcs := [Plain("a=b=c")];
    ThreePiecesPair();
    ParseRendered(pcs);
    assert RenderPieces(pcs, PairQuote, PairDelimiter) == "a=b=c";
    assert ParsedParts(Readings(pcs)) == [Err(FormattedIncorrectly)];
  }

  /** `abc` has no value. */
  lemma {:induction false} MissingValueExample()
    ensures ParseOverrides(Some("abc")) == Err(MissingPiece)
  {
    ParsePairRendered([Plain("abc")]);
    ParseRendered([Plain("abc")]);
  }

  lemma {:induction false} RepeatedKeyWritten()
    ensures Format([PlainEntry(("a", "1")), PlainEntry(("a", "2"))]) == "a=1:a=2"
  {
    var es := [PlainEntry(("a", "1")), PlainEntry(("a", "2"))];
    assert [Plain("a"), Plain("1")][1..] == [Plain("1")];
    assert [Plain("a"), Plain("2")][1..] == [Plain("2")];
    var pcs := seq(|es|, j requires 0 <= j < |es| => EntryPiece(es[j]));
    assert RenderPieces([Plain("a"), Plain("1")], KeyQuote, KeyDelimiter) == "a=1";
    assert RenderPieces([Plain("a"), Plain("2")], KeyQuote, KeyDelimiter) == "a=2";
    assert pcs[0] == Plain("a=1") && pcs[1] == Plain("a=2");
    assert pcs[1..] == [Plain("a=2")];
    assert RenderPieces(pcs, PairQuote, PairDelimiter) == "a=1" + [PairDelimiter] + "a=2";
  }

  /** `a=1:a=2` defines `a` twice. */
  lemma {:induction false} RepeatedKeyExample()
    ensures ParseOverrides(Some("a=1:a=2")) == Err(AlreadyDefined)
  {
    var pairs := [("a", "1"), ("a", "2")];
    assert PlainPair(pairs[0]) && PlainPair(pairs[1]);
    PlainRoundTrip(pairs);
    var es := seq(|pairs|, j requires 0 <= j < |pairs| => PlainEntry(pairs[j]));
    assert es == [PlainEntry(("a", "1")), PlainEntry(("a", "2"))];
    RepeatedKeyWritten();
    assert !DistinctKeys(pairs);
  }
}
