/** The risk engine: it matches the catalog against a text, scores the hits, fuses in the
    optional external jailbreak signal and maps the score to an action. */
module Detector {

  import opened Wrappers
  import opened Rules
  import opened PyStr

  function Min(a: int, b: int): int { if a <= b then a else b }
  function Max(a: int, b: int): int { if a >= b then a else b }

  // ---------------------------------------------------------------------------------------
  // Injected collaborators
  // ---------------------------------------------------------------------------------------

  /** The half-open range `[start, end)` a regular-expression match covers. */
  datatype Span = Span(start: int, end: int)

  predicate SpanWithin(m: Option<Span>, text: string) {
    m.Some? ==> 0 <= m.value.start <= m.value.end <= |text|
  }

  /** A case-insensitive, dot-matches-newline regular-expression search: given a pattern and a
      text it reports the leftmost match, if any. Its internals are not modelled; all the
      engine relies on is that a reported span lies inside the text. */
  type Searcher = f: (string, string) -> Option<Span> | forall p, t :: SpanWithin(f(p, t), t)
    witness (p: string, t: string) => None

  /** What the external jailbreak detector reports for a text. */
  datatype Verdict =
    | Unavailable             // the guardrails library is not installed
    | Passed                  // validation passed
    | Flagged                 // validation failed: the text looks like a jailbreak
    | Undecided               // validation ran but reported neither outcome
    | Raised(message: string) // validation raised an exception

  /** The diagnostic record returned under "guardrails". */
  datatype GuardrailsDetail =
    | Disabled                          // {"enabled": False}: the feature flag is off
    | NotInstalled                      // {"enabled": False, "reason": "guardrails-ai not available"}
    | Validated(passed: Option<bool>)   // {"enabled": True, "passed": True / False / None}
    | Errored(error: string)            // {"enabled": True, "error": <message>}
  {
    predicate Enabled() { Validated? || Errored? }
  }

  /** The external signal as an integer percent (0.0, 0.6 and 0.4 in the source) and its
      detail record. Only a validation that ran contributes; a missing library or an error
      degrades to 0. */
  function GuardrailsSignal(v: Verdict): (r: (int, GuardrailsDetail))
    ensures r.0 == 0 || r.0 == 40 || r.0 == 60
    ensures r.0 == 60 <==> v == Flagged
    ensures r.0 == 40 <==> v == Undecided
    ensures r.1.Enabled() <==> !v.Unavailable?
    ensures r.1 != Disabled
    ensures r.1 == NotInstalled <==> v == Unavailable
    ensures r.1 == Validated(Some(true)) <==> v == Passed
    ensures r.1 == Validated(Some(false)) <==> v == Flagged
    ensures r.1 == Validated(None) <==> v == Undecided
    ensures r.1.Errored? <==> v.Raised?
    ensures v.Raised? ==> r.1.error == v.message
  {
    match v
    case Unavailable => (0, NotInstalled)
    case Passed => (0, Validated(Some(true)))
    case Flagged => (60, Validated(Some(false)))
    case Undecided => (40, Validated(None))
    case Raised(msg) => (0, Errored(msg))
  }

  // ---------------------------------------------------------------------------------------
  // Decision boundary
  // ---------------------------------------------------------------------------------------

  datatype Action = Allow | Confirm | Reject {
    /** The label the result carries. */
    function Label(): string {
      match this
      case Allow => "允许"
      case Confirm => "二次确认"
      case Reject => "拒绝"
    }
  }

  /** Fixed thresholds: 70 and above rejects, 40 to 69 asks for confirmation, below 40 allows. */
  function ScoreToAction(score: int): (a: Action)
    ensures a == Reject <==> score >= 70
    ensures a == Confirm <==> 40 <= score < 70
    ensures a == Allow <==> score < 40
  {
    if score >= 70 then Reject
    else if score >= 40 then Confirm
    else Allow
  }

  /** How strongly an action restricts the request: allowing, then confirming, then rejecting. */
  function Severity(a: Action): nat {
    match a
    case Allow => 0
    case Confirm => 1
    case Reject => 2
  }

  /** A higher score never leads to a milder action. */
  lemma ActionMonotone(lo: int, hi: int)
    requires lo <= hi
    ensures Severity(ScoreToAction(lo)) <= Severity(ScoreToAction(hi))
  {
  }

  // ---------------------------------------------------------------------------------------
  // Snippets
  // ---------------------------------------------------------------------------------------

  /** The radius `_extract_snippet` is called with. */
  const SnippetRadius: nat := 32

  /** The window `[max(start - radius, 0), min(end + radius, |text|))` around a match. */
  function Window(text: string, m: Span, radius: nat): (w: (nat, nat))
    requires 0 <= m.start <= m.end <= |text|
    ensures w.0 <= w.1 <= |text|
  {
    (Max(m.start - radius, 0), Min(m.end + radius, |text|))
  }

  /** The window contains the match, stays inside the text, and reaches at most `radius`
      characters beyond the match on each side, stopping early only at the text's ends. */
  lemma WindowSpec(text: string, m: Span, radius: nat)
    requires 0 <= m.start <= m.end <= |text|
    ensures var w := Window(text, m, radius);
      && w.0 <= m.start <= m.end <= w.1
      && m.start - radius <= w.0 && w.1 <= m.end + radius
      && (w.0 == 0 || w.0 == m.start - radius)
      && (w.1 == |text| || w.1 == m.end + radius)
  {
  }

  /** The excerpt reported for a match: the window around it, whitespace-stripped. */
  function ExtractSnippet(text: string, m: Span, radius: nat): string
    requires 0 <= m.start <= m.end <= |text|
  {
    var w := Window(text, m, radius);
    Strip(text[w.0..w.1])
  }

  /** A snippet is never longer than the match plus `radius` characters on each side. */
  lemma SnippetLength(text: string, m: Span, radius: nat)
    requires 0 <= m.start <= m.end <= |text|
    ensures |ExtractSnippet(text, m, radius)| <= m.end - m.start + 2 * radius
  {
    WindowSpec(text, m, radius);
  }

  // ---------------------------------------------------------------------------------------
  // Matching
  // ---------------------------------------------------------------------------------------

  /** The first pattern, by position, that the search finds in the text, and where. */
  datatype Hit = Hit(index: nat, span: Span)

  /** Tries the patterns in declared order and stops at the first that matches. */
  function FirstHit(patterns: seq<string>, text: string, search: Searcher): (h: Option<Hit>)
    ensures h.Some? ==>
      && h.value.index < |patterns|
      && search(patterns[h.value.index], text) == Some(h.value.span)
      && forall j :: 0 <= j < h.value.index ==> search(patterns[j], text).None?
    ensures h.None? <==> forall j :: 0 <= j < |patterns| ==> search(patterns[j], text).None?
  {
    if patterns == [] then None
    else
      match search(patterns[0], text)
      case Some(s) => Some(Hit(0, s))
      case None =>
        match FirstHit(patterns[1..], text, search)
        case None => None
        case Some(h) => Some(Hit(h.index + 1, h.span))
  }

  /** One firing rule in the report: the rule's fields, the pattern that fired and a snippet. */
  datatype RuleMatch = RuleMatch(
    ruleId: string,
    name: string,
    description: string,
    weight: int,
    tags: seq<string>,
    pattern: string,
    snippet: string)

  /** The report entry a rule produces on a text, if any of its patterns matches. */
  function MatchRule(rule: Rule, text: string, search: Searcher): (m: Option<RuleMatch>)
    ensures m.None? <==> forall j :: 0 <= j < |rule.patterns| ==> search(rule.patterns[j], text).None?
    ensures m.Some? ==>
      && m.value.ruleId == rule.id && m.value.name == rule.name
      && m.value.description == rule.description
      && m.value.weight == rule.weight && m.value.tags == rule.tags
      && m.value.pattern == rule.patterns[FirstHit(rule.patterns, text, search).value.index]
      && m.value.snippet == ExtractSnippet(text, FirstHit(rule.patterns, text, search).value.span, SnippetRadius)
  {
    match FirstHit(rule.patterns, text, search)
    case None => None
    case Some(h) =>
      Some(RuleMatch(rule.id, rule.name, rule.description, rule.weight, rule.tags,
                     rule.patterns[h.index], ExtractSnippet(text, h.span, SnippetRadius)))
  }

  function OptionToSeq<T>(o: Option<T>): seq<T> {
    if o.Some? then [o.value] else []
  }

  /** The report entries of `rules`, in the order the rules are walked. */
  function MatchAll(rules: seq<Rule>, text: string, search: Searcher): (ms: seq<RuleMatch>)
    ensures |ms| <= |rules|
    decreases |rules|
  {
    if rules == [] then []
    else MatchAll(rules[..|rules| - 1], text, search) + OptionToSeq(MatchRule(rules[|rules| - 1], text, search))
  }

  /** The positions of the rules of `rules` that fire, in increasing order. */
  function Fired(rules: seq<Rule>, text: string, search: Searcher): (idx: seq<nat>)
    ensures forall k :: 0 <= k < |idx| ==> idx[k] < |rules|
    decreases |rules|
  {
    if rules == [] then []
    else
      var n := |rules| - 1;
      var init := Fired(rules[..n], text, search);
      if MatchRule(rules[n], text, search).Some? then init + [n] else init
  }

  // ---------------------------------------------------------------------------------------
  // Scoring
  // ---------------------------------------------------------------------------------------

  /** The sum of the weights of the report entries. */
  function BaseScore(ms: seq<RuleMatch>): int
    decreases |ms|
  {
    if ms == [] then 0 else BaseScore(ms[..|ms| - 1]) + ms[|ms| - 1].weight
  }

  /** The distinct tags over all report entries. */
  function MatchedTags(ms: seq<RuleMatch>): set<string> {
    set k, t | 0 <= k < |ms| && t in ms[k].tags :: t
  }

  /** The tag-diversity bonus for `distinct` distinct tags. */
  function TagBonus(distinct: nat): int {
    if distinct > 0 then Max(0, (distinct - 1) * 3) else 0
  }

  /** Matched weights plus the tag-diversity bonus, before the clamp. */
  function PreClampScore(ms: seq<RuleMatch>): int {
    BaseScore(ms) + TagBonus(|MatchedTags(ms)|)
  }

  /** The rule-based score, clamped to 100. */
  function LocalScore(ms: seq<RuleMatch>): int {
    Min(100, PreClampScore(ms))
  }

  /** The floating-point blend `int(min(100, local * 0.5 + g * 100 * 0.5))` in exact integers;
      `percent` is `g * 100`, which is exactly 0, 40 or 60 in binary floating point. */
  function Blend(local: int, percent: int): (b: int)
    requires 0 <= local && 0 <= percent
    ensures 0 <= b <= 100
    ensures b == 100 || 2 * b <= local + percent < 2 * b + 2
    ensures local + percent >= 200 <==> b == 100
  {
    Min(100, (local + percent) / 2)
  }

  /** The final score: with the feature on, the larger of the local score and the blend. */
  function FusedScore(local: int, useGuardrails: bool, percent: int): (f: int)
    requires 0 <= local <= 100 && 0 <= percent <= 100
    ensures local <= f <= 100
    ensures !useGuardrails ==> f == local
    ensures f > local ==> useGuardrails && percent > local && f == (local + percent) / 2
    ensures useGuardrails ==> f >= Blend(local, percent)
  {
    if useGuardrails then Max(local, Blend(local, percent)) else local
  }

  // ---------------------------------------------------------------------------------------
  // The analysis
  // ---------------------------------------------------------------------------------------

  /** The short recap: no input, `count` rules matched (the "命中" form), or none matched. */
  datatype Summary =
    | EmptyInput
    | Matched(count: nat, score: int)
    | NoMatch(score: int)

  datatype AnalysisResult = AnalysisResult(
    riskScore: int,
    action: Action,
    matchedRules: seq<RuleMatch>,
    guardrails: Option<GuardrailsDetail>,  // None: the key is absent (empty input)
    summary: Summary)

  /** Every report entry over well-formed rules carries a positive weight and some tag. */
  lemma {:induction false} MatchAllWellFormed(rules: seq<Rule>, text: string, search: Searcher)
    requires forall i :: 0 <= i < |rules| ==> WellFormed(rules[i])
    ensures forall k :: 0 <= k < |MatchAll(rules, text, search)| ==>
      MatchAll(rules, text, search)[k].weight > 0 && |MatchAll(rules, text, search)[k].tags| > 0
    decreases |rules|
  {
    if rules != [] {
      MatchAllWellFormed(rules[..|rules| - 1], text, search);
    }
  }

  /** Weights that are not negative give a base score that is not negative. */
  lemma {:induction false} BaseScoreNonNegative(ms: seq<RuleMatch>)
    requires forall k :: 0 <= k < |ms| ==> ms[k].weight >= 0
    ensures BaseScore(ms) >= 0
    decreases |ms|
  {
    if ms != [] {
      BaseScoreNonNegative(ms[..|ms| - 1]);
    }
  }

  /** What `analyze` computes for `text` over the catalog `rules`, with the feature flag, the
      regular-expression search and the external detector given explicitly. */
  function Analysis(rules: seq<Rule>, text: string, useGuardrails: bool, search: Searcher,
                    guard: string -> Verdict): AnalysisResult
    requires forall i :: 0 <= i < |rules| ==> WellFormed(rules[i])
  {
    var cleaned := Strip(text);
    if cleaned == [] then AnalysisResult(0, Allow, [], None, EmptyInput)
    else
      var ms := MatchAll(rules, cleaned, search);
      MatchAllWellFormed(rules, cleaned, search);
      BaseScoreNonNegative(ms);
      var local := LocalScore(ms);
      var signal := if useGuardrails then GuardrailsSignal(guard(cleaned)) else (0, Disabled);
      var fused := FusedScore(local, useGuardrails, signal.0);
      AnalysisResult(fused, ScoreToAction(fused), ms, Some(signal.1),
                     if |ms| > 0 then Matched(|ms|, fused) else NoMatch(fused))
  }

  /** The shape every result has: a score in [0, 100], the action its threshold gives, no more
      entries than rules, the "guardrails" key absent exactly on the empty-input path, and a
      summary that uses the matched form exactly when something matched and reports the
      number of entries and the final score. */
  lemma AnalysisShape(rules: seq<Rule>, text: string, useGuardrails: bool, search: Searcher,
                      guard: string -> Verdict)
    requires forall i :: 0 <= i < |rules| ==> WellFormed(rules[i])
    ensures var res := Analysis(rules, text, useGuardrails, search, guard);
      && 0 <= res.riskScore <= 100
      && res.action == ScoreToAction(res.riskScore)
      && |res.matchedRules| <= |rules|
      && (res.summary == EmptyInput <==> Strip(text) == [])
      && (res.guardrails == None <==> Strip(text) == [])
      && (res.summary.Matched? <==> |res.matchedRules| > 0)
      && (res.summary.Matched? ==> res.summary.count == |res.matchedRules|)
      && (!res.summary.EmptyInput? ==> res.summary.score == res.riskScore)
  {
    var cleaned := Strip(text);
    if cleaned != [] {
      var ms := MatchAll(rules, cleaned, search);
      MatchAllWellFormed(rules, cleaned, search);
      BaseScoreNonNegative(ms);
      assert 0 <= LocalScore(ms) <= 100;
    }
  }

  /** What `analyze` returns for `text`. */
  function AnalysisOf(text: string, useGuardrails: bool, search: Searcher, guard: string -> Verdict)
    : (res: AnalysisResult)
    ensures 0 <= res.riskScore <= 100
    ensures res.action == ScoreToAction(res.riskScore)
    ensures |res.matchedRules| <= 12
  {
    AnalysisShape(GetRules(), text, useGuardrails, search, guard);
    Analysis(GetRules(), text, useGuardrails, search, guard)
  }

  /** The rule walk of `analyze`: each rule's patterns are tried in declared order, the first
      hit appends one report entry and adds the rule's weight, and the rule's remaining
      patterns are skipped. */
  method MatchRules(rules: seq<Rule>, cleaned: string, search: Searcher)
    returns (matches: seq<RuleMatch>, score: int)
    ensures matches == MatchAll(rules, cleaned, search)
    ensures score == BaseScore(matches)
  {
    matches := [];
    score := 0;
    for i := 0 to |rules|
      invariant matches == MatchAll(rules[..i], cleaned, search)
      invariant score == BaseScore(matches)
    {
      var rule := rules[i];
      var entry := FirstPatternHit(rule, cleaned, search);
      WalkStep(rules, i, cleaned, search, matches, score);
      if entry.Some? {
        matches := matches + [entry.value];
        score := score + rule.weight;
      }
    }
    assert rules[..|rules|] == rules;
  }

  lemma WalkStep(rules: seq<Rule>, i: nat, text: string, search: Searcher, ms: seq<RuleMatch>, score: int)
    requires i < |rules|
    requires ms == MatchAll(rules[..i], text, search) && score == BaseScore(ms)
    ensures MatchRule(rules[i], text, search).Some? ==>
      var e := MatchRule(rules[i], text, search).value;
      && ms + [e] == MatchAll(rules[..i + 1], text, search)
      && score + rules[i].weight == BaseScore(ms + [e])
    ensures MatchRule(rules[i], text, search).None? ==> ms == MatchAll(rules[..i + 1], text, search)
  {
    MatchAllPrefixStep(rules, i, text, search);
    var e := MatchRule(rules[i], text, search);
    if e.Some? {
      BaseScoreSnoc(ms, e.value);
    }
  }

  lemma MatchAllPrefixStep(rules: seq<Rule>, i: nat, text: string, search: Searcher)
    requires i < |rules|
    ensures MatchAll(rules[..i + 1], text, search)
         == MatchAll(rules[..i], text, search) + OptionToSeq(MatchRule(rules[i], text, search))
  {
    assert rules[..i + 1][..i] == rules[..i];
  }

  lemma BaseScoreSnoc(ms: seq<RuleMatch>, m: RuleMatch)
    ensures BaseScore(ms + [m]) == BaseScore(ms) + m.weight
  {
    assert (ms + [m])[..|ms|] == ms;
  }

  /** The inner loop of the rule walk: the patterns of one rule in declared order, stopping
      at the first that matches and building its report entry. */
  method FirstPatternHit(rule: Rule, cleaned: string, search: Searcher) returns (entry: Option<RuleMatch>)
    ensures entry == MatchRule(rule, cleaned, search)
  {
    var j := 0;
    while j < |rule.patterns|
      invariant j <= |rule.patterns|
      invariant forall k :: 0 <= k < j ==> search(rule.patterns[k], cleaned).None?
    {
      var m := search(rule.patterns[j], cleaned);
      if m.Some? {
        assert FirstHit(rule.patterns, cleaned, search) == Some(Hit(j, m.value));
        return Some(RuleMatch(rule.id, rule.name, rule.description, rule.weight, rule.tags,
                              rule.patterns[j], ExtractSnippet(cleaned, m.value, SnippetRadius)));
      }
      j := j + 1;
    }
    return None;
  }

  /** The tag-diversity bonus and the clamp: 3 points for every distinct matched tag beyond
      the first, then at most 100. */
  method AddTagBonus(matches: seq<RuleMatch>, base: int) returns (score: int)
    requires base == BaseScore(matches) && base >= 0
    ensures score == LocalScore(matches)
    ensures 0 <= score <= 100
  {
    score := base;
    var uniqueTags := MatchedTags(matches);
    if |uniqueTags| > 0 {
      score := score + Max(0, (|uniqueTags| - 1) * 3);
    }
    score := Min(100, score);
  }

  /** The body of `analyze` over a given catalog: the strip and its fast path, the rule walk,
      the tag bonus, the clamp, the optional fusion and the summary. */
  method AnalyzeWith(rules: seq<Rule>, text: string, useGuardrails: bool, search: Searcher,
                     guard: string -> Verdict) returns (result: AnalysisResult)
    requires forall i :: 0 <= i < |rules| ==> WellFormed(rules[i])
    ensures result == Analysis(rules, text, useGuardrails, search, guard)
  {
    var cleaned := Strip(text);
    if cleaned == [] {
      return AnalysisResult(0, Allow, [], None, EmptyInput);
    }

    var matches, score := MatchRules(rules, cleaned, search);
    MatchAllWellFormed(rules, cleaned, search);
    BaseScoreNonNegative(matches);

    score := AddTagBonus(matches, score);

    var percent := 0;
    var detail := Disabled;
    if useGuardrails {
      var signal := GuardrailsSignal(guard(cleaned));
      percent, detail := signal.0, signal.1;
    }
    var fused;
    if useGuardrails {
      var blended := Min(100, (score + percent) / 2);
      fused := Max(score, blended);
    } else {
      fused := score;
    }
    assert fused == FusedScore(score, useGuardrails, percent);

    var action := ScoreToAction(fused);
    var summary := if |matches| > 0 then Matched(|matches|, fused) else NoMatch(fused);
    result := AnalysisResult(fused, action, matches, Some(detail), summary);
  }

  /** `analyze(text)`: the engine run over the catalog. */
  method Analyze(text: string, useGuardrails: bool, search: Searcher, guard: string -> Verdict)
    returns (result: AnalysisResult)
    ensures result == AnalysisOf(text, useGuardrails, search, guard)
    ensures 0 <= result.riskScore <= 100
    ensures result.action == ScoreToAction(result.riskScore)
  {
    var rules := GetRules();
    result := AnalyzeWith(rules, text, useGuardrails, search, guard);
  }

}
