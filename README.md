# PromptDetector risk engine in Dafny

PromptDetector scores a piece of text for prompt-injection and jailbreak risk. Its engine works in seven steps:

1. It strips the input.
2. It walks a fixed catalog of twelve weighted rules in order. Each rule's regular-expression patterns are tried in declared order, and only the first hit counts.
3. It adds a bonus of 3 for every distinct matched tag beyond the first.
4. It clamps the score to 100.
5. It can optionally fuse in an external jailbreak detector's verdict, as `max(local, blend)`.
6. It maps the final score to one of three actions: 允许 (allow), 二次确认 (confirm) or 拒绝 (reject).
7. It reports the matched rules, each with a whitespace-trimmed snippet around the hit, and a summary.

The project models this engine in five modules:

- `Wrappers` (`wrappers.dfy`) holds the `Option` type.
- `PyStr` (`pystr.dfy`) models Python's `str.strip()`. The whitespace set of `str.isspace` is written out.
- `Rules` (`rules.dfy`) holds the `Rule` record and the catalog `GetRules`, with its ids, weights, tags and patterns as in the source.
- `Detector` (`detector.dfy`) is the engine:
  - the verdict-to-signal mapping, the action thresholds and the snippet window;
  - the specification functions `MatchRule`, `MatchAll`, `LocalScore`, `FusedScore` and `Analysis`;
  - an imperative `Analyze` method over sequences. Its rule walk (`MatchRules`), its pattern loop with early exit (`FirstPatternHit`) and its tag bonus (`AddTagBonus`) are each proved equal to those functions.
- `Properties` (`properties.dfy`) holds the lemmas:
  - catalog order and at most one entry per rule;
  - the score formula and the reachability of the clamp;
  - the empty-input fast path and the effect of the external signal;
  - snippet containment;
  - the two scenarios of the repository's tests.

The code takes three inputs that the model receives as parameters:

- **Regular-expression search.** `re.search(pattern, text, IGNORECASE | DOTALL)` is a parameter `search` of type `Searcher`, a function whose reported span always lies inside the text.
- **External detector.** It is a parameter `guard: string -> Verdict`.
- **Feature flag.** The `PROMPTDETECTOR_USE_GUARDRAILS` flag is a boolean parameter.

The floating-point blend `int(min(100, score*0.5 + g*100*0.5))` becomes the exact integer `min(100, (score + p) / 2)`. Here p is 0, 40 or 60: the value of `g*100` for g = 0.0, 0.4 and 0.6 in binary floating point is exactly one of these. Halving a non-negative integer is exact, and `int()` truncates.

With the external detector off, a text that fires only "override-system" scores 28, not its weight 25: the rule carries two tags, so the bonus adds 3 (`OverrideOnlyScenario`).

## Model

| member | source | states |
|---|---|---|
| PyStr.Strip | src/prompt_detector/detector.py:35 | the result is never longer than the input; `StripSpec`, `StripBoundsSpec` and `StripIdempotent` state what it keeps |
| PyStr.StripSpec | src/prompt_detector/detector.py:66 | `strip()` gives the empty string exactly when every character is whitespace; a non-empty result begins and ends with a non-whitespace character |
| PyStr.StripBoundsSpec | src/prompt_detector/detector.py:35 | strip keeps the slice between a whitespace-only prefix and a whitespace-only suffix; the slice's first and last characters are not whitespace, and an empty slice means the whole string is whitespace |
| PyStr.StripKeepsNonSpace | src/prompt_detector/detector.py:35 | any stretch that begins and ends with non-whitespace stays inside what strip keeps |
| PyStr.StripOfTrimmed | src/prompt_detector/detector.py:66 | a string with no whitespace at either end is unchanged by strip |
| PyStr.StripIdempotent | src/prompt_detector/detector.py:66 | stripping twice gives the same result as stripping once |
| Rules.GetRules | src/prompt_detector/rules.py:15-171 | the catalog has 12 rules; each has a positive weight, a non-empty tag list without duplicates and a non-empty pattern list |
| Rules.CatalogIdsDistinct | src/prompt_detector/rules.py:18-160 | the 12 rule ids are pairwise distinct |
| Rules.CatalogWeights | src/prompt_detector/rules.py:21-163 | the weights are 25, 22, 20, 18, 18, 16, 20, 12, 14, 10, 12 and 15, in catalog order, and they sum to 202 |
| Rules.CatalogTags | src/prompt_detector/rules.py:22-162 | the per-rule tag lists are as declared, and their union is exactly the nine tags injection, override, exfiltration, system, evasion, jailbreak, tooling, policy and social |
| Detector.GuardrailsSignal | src/prompt_detector/detector.py:46-62 | the signal is 0, 40 or 60: 60 exactly for a flagged text, 40 exactly when validation reports neither outcome, otherwise 0; the detail is "not available" for a missing library, `passed` True for a passed validation, False for a flagged text, None for neither, and the exception's message for a raised exception; it is never the flag-off record |
| Detector.ScoreToAction | src/prompt_detector/detector.py:38-43 | reject iff score >= 70, confirm iff 40 <= score < 70, allow iff score < 40; the three cases are exhaustive and mutually exclusive |
| Detector.Action.Label | src/prompt_detector/detector.py:39-43 | the label of each action: 拒绝, 二次确认, 允许; `ScoreToAction` states which score gives which |
| Detector.ActionMonotone | src/prompt_detector/detector.py:38-43 | a higher score never gives a milder action |
| Detector.Window | src/prompt_detector/detector.py:33-34 | the snippet window lies within the text bounds |
| Detector.WindowSpec | src/prompt_detector/detector.py:32-34 | the window contains the match and reaches at most `radius` characters beyond it on each side; it stops short only at the start or end of the text |
| Detector.ExtractSnippet | src/prompt_detector/detector.py:32-35 | the window around the match, stripped; `SnippetIsTextRange`, `SnippetCutBefore`, `SnippetCutAfter`, `SnippetCoversMatch` and `SnippetLength` state what it is |
| Detector.SnippetLength | src/prompt_detector/detector.py:32-35 | a snippet is at most the match's length plus twice the radius |
| Detector.FirstHit | src/prompt_detector/detector.py:80-82 | patterns are tried in declared order: a reported hit is at a pattern the search finds, no earlier pattern is found, and there is no hit exactly when no pattern is found |
| Detector.MatchRule | src/prompt_detector/detector.py:80-95 | a rule yields no entry exactly when none of its patterns matches; otherwise it yields one entry carrying the rule's id, name, description, weight and tags, the first matching pattern, and as snippet the stripped window reaching 32 characters beyond that pattern's match on each side |
| Detector.MatchAll | src/prompt_detector/detector.py:79-95 | the report has no more entries than there are rules; `ReportInCatalogOrder` and `MatchedRulesDistinct` give its contents |
| Detector.Fired | src/prompt_detector/detector.py:79-95 | the firing positions are positions of the catalog |
| Detector.MatchAllWellFormed | src/prompt_detector/detector.py:83-93 | every entry produced by well-formed rules has a positive weight and at least one tag |
| Detector.BaseScoreNonNegative | src/prompt_detector/detector.py:94 | the running score is never negative when the weights are not negative |
| Detector.BaseScore | src/prompt_detector/detector.py:94 | the running score, the weights of the report's entries; `BaseScoreIsFiredWeight`, `BaseScoreAppend` and `BaseScoreNonNegative` state its value |
| Detector.MatchedTags | src/prompt_detector/detector.py:97 | the distinct tags of the report's entries; `MatchedTagsAppend`, `MatchedTagsEmpty` and `EveryRuleFiresTags` state its value |
| Detector.TagBonus | src/prompt_detector/detector.py:98-99 | 3 for every distinct tag beyond the first, 0 with no tags; `PreClampScoreFormula` states it |
| Detector.PreClampScore | src/prompt_detector/detector.py:94-99 | running score plus bonus; `PreClampScoreFormula`, `EveryRuleFiresScore` and `ClampReachable` state its value |
| Detector.LocalScore | src/prompt_detector/detector.py:101 | the pre-clamp score clamped to 100; `AddTagBonus` states it lies in 0..100 and `ClampReachable` that the clamp is reached |
| Detector.Blend | src/prompt_detector/detector.py:109 | the blend lies in 0..100; it is 100 exactly when local + percent >= 200, and otherwise the halved sum truncated toward zero |
| Detector.FusedScore | src/prompt_detector/detector.py:103-112 | exactly `max(local, blend)` with the flag on: local <= fused <= 100, fused >= the blend, and a fused score above the local score is the average of the two signals; with the flag off, fused == local |
| Detector.Analysis | src/prompt_detector/detector.py:65-127 | the result of `analyze` for a given rule list; `AnalysisShape`, `EmptyInputFastPath`, `DisabledIsLocal`, `GuardrailsOnlyRaise`, `RejectDecidedByRules` and `NoMatchScore` state its properties, and `AnalyzeWith` is proved equal to it |
| Detector.AnalysisShape | src/prompt_detector/detector.py:65-127 | every result has score 0..100, the threshold action for that score and no more entries than rules; the "guardrails" key and the summary mark empty input exactly; the summary uses the 命中 form exactly when something matched, with the entry count and the final score |
| Detector.AnalysisOf | src/prompt_detector/detector.py:65-127 | on the catalog: score 0..100, the threshold action, at most 12 entries |
| Detector.MatchRules | src/prompt_detector/detector.py:76-95 | the imperative rule walk, with its early `break`, builds exactly `MatchAll` and a running score equal to the entries' weight sum |
| Detector.FirstPatternHit | src/prompt_detector/detector.py:80-95 | the pattern loop that stops at the first hit returns exactly the entry `MatchRule` specifies |
| Detector.AddTagBonus | src/prompt_detector/detector.py:97-101 | the bonus and clamp yield exactly `LocalScore`, a value in 0..100 |
| Detector.AnalyzeWith | src/prompt_detector/detector.py:65-127 | the imperative analysis returns exactly `Analysis` for any rule list |
| Detector.Analyze | src/prompt_detector/detector.py:65-127 | `analyze` over the catalog returns exactly `AnalysisOf` |
| Properties.NothingFires | src/prompt_detector/detector.py:79-95 | when no rule fires the report is empty |
| Properties.MatchAllAppend | src/prompt_detector/detector.py:79-95 | walking two rule lists in turn reports the first list's entries followed by the second's |
| Properties.ReportInCatalogOrder | src/prompt_detector/detector.py:79-95 | entry k is what the k-th firing rule produces; a rule is among the firing ones exactly when one of its patterns matches |
| Properties.FiredIncreasing | src/prompt_detector/detector.py:79 | the firing positions strictly increase, so the report is a subsequence of the catalog in catalog order |
| Properties.MatchedRulesDistinct | src/prompt_detector/detector.py:79-95 | with distinct ids, no rule id appears twice in the report |
| Properties.CatalogRulesReportedOnce | src/prompt_detector/detector.py:79-95 | on the catalog no rule is reported twice |
| Properties.BaseScoreIsFiredWeight | src/prompt_detector/detector.py:94 | the running score is the sum of the weights of the firing rules, each counted once |
| Properties.BaseScoreAppend | src/prompt_detector/detector.py:94 | the running score over two reports in turn is the sum of their scores |
| Properties.MatchedTagsAppend | src/prompt_detector/detector.py:97 | the tag set of two reports in turn is the union of their tag sets |
| Properties.MatchedTagsEmpty | src/prompt_detector/detector.py:97-98 | the tag set is empty exactly when there are no entries, given entries that carry tags |
| Properties.PreClampScoreFormula | src/prompt_detector/detector.py:94-99 | the pre-clamp score is 0 when nothing matched; otherwise it is the weights of the firing rules plus 3 x (k - 1), where k >= 1 is the number of distinct matched tags |
| Properties.EveryRuleFiresWeight | src/prompt_detector/detector.py:94 | when every rule fires, the running score is the total weight |
| Properties.EveryRuleFiresTags | src/prompt_detector/detector.py:97 | when every rule fires, every tag of the catalog is matched |
| Properties.EveryRuleFiresScore | src/prompt_detector/detector.py:94-99 | when every rule fires, the pre-clamp score is the total weight plus 3 for each tag beyond the first |
| Properties.MatchEverythingFiresAll | src/prompt_detector/detector.py:80-82 | under a search that matches every pattern, every well-formed rule fires |
| Properties.ClampReachable | src/prompt_detector/detector.py:101 | when every pattern matches, the catalog's pre-clamp score is 202 + 24 = 226 and the result is clamped to 100, 拒绝 |
| Properties.EmptyInputFastPath | src/prompt_detector/detector.py:66-73 | whitespace-only input gives score 0, 允许, no entries, no "guardrails" key and the empty-input summary; neither search nor detector influences it |
| Properties.DisabledIsLocal | src/prompt_detector/detector.py:103-112 | with the flag off the score is the local score, the detail is `{"enabled": False}` and the detector does not influence the result |
| Properties.GuardrailsOnlyRaise | src/prompt_detector/detector.py:105-114 | turning the flag on keeps the entries and never lowers the score or softens the action; on non-empty input the score with the flag on is the larger of the flag-off score and its blend with the signal |
| Properties.RejectDecidedByRules | src/prompt_detector/detector.py:108-114 | the fused action is 拒绝 exactly when the local action is: the external signal alone never causes a rejection |
| Properties.NoMatchScore | src/prompt_detector/detector.py:97-119 | with no match the summary is the 未命中 form, the score is 30 for a flagged text, 20 for an undecided one and 0 otherwise (and 0 with the flag off), and the action is 允许 |
| Properties.BenignScenario | tests/test_detector.py:9-12 | a text on which no catalog pattern matches scores below 40 and is allowed |
| Properties.OnlyFirstFires | src/prompt_detector/detector.py:79-99 | when only the first rule fires, the report is its entry alone and the pre-clamp score is its weight plus 3 per extra distinct tag |
| Properties.OverrideOnlyScenario | src/prompt_detector/detector.py:79-114 | with the external detector off, a text firing only "override-system" scores 28 and is allowed |
| Properties.FirstTwoFire | src/prompt_detector/detector.py:79-99 | when the first two rules fire, the report has at least two entries, the running score at least their weights, and the tag set at least their tags |
| Properties.AttackTextIsStripped | tests/test_detector.py:16 | the attack prompt has no whitespace to strip |
| Properties.AttackScenario | tests/test_detector.py:15-19 | the attack prompt, on which the first patterns of "override-system" and "reveal-system" match, yields at least two entries, a score of at least 56 and an action other than 允许 |
| Properties.SnippetRange | src/prompt_detector/detector.py:32-35 | the kept range lies inside the window |
| Properties.SnippetCutBefore | src/prompt_detector/detector.py:35 | only whitespace of the window is cut before the snippet |
| Properties.SnippetCutAfter | src/prompt_detector/detector.py:35 | only whitespace of the window is cut after the snippet |
| Properties.SnippetCoversMatch | src/prompt_detector/detector.py:32-35 | a match that begins and ends with non-whitespace lies wholly inside its snippet's range |
| Properties.SnippetIsTextRange | src/prompt_detector/detector.py:32-35 | the snippet is exactly the text between the kept bounds, a contiguous slice of the window |

## Left out

- app.py is the user interface: the Streamlit page, file upload, document readers, speech transcription and temporary files. It is I/O around `analyze` and is not part of this model.
- The internals of `re.search` are not modelled: IGNORECASE, DOTALL, Unicode case folding and leftmost-match choice. The search is a parameter that only promises in-bounds spans, so properties that depend on which texts a pattern matches take the search results as premises.
- AttackScenario: assumes that the search finds the two patterns in the attack prompt instead of deriving it, because the regular-expression engine is not modelled. The test's benign prompt is treated the same way in BenignScenario, which assumes that no pattern matches.
- The guardrails library is not modelled: the import, `Guard().use(...).validate` and the exception handler. Its outcome is the injected `Verdict`. The message of a raised exception is the `Raised` payload, and the "not available" reason string is implied by the `NotInstalled` detail.
- Floating point is replaced by the exact integer encoding of the blend described above.
- The environment variable is not read at import time. The flag is a parameter.
- `text or ""`: the model takes a string, so a `None` input is not represented.
- The summary's formatted Chinese sentences are a structured `Summary` value: the empty form, the matched form with count and score, and the unmatched form with score. Action labels are kept as `Action.Label()`.
- `RuleMatch.__dict__` conversion to a dictionary is not modelled; entries are `RuleMatch` values with the same fields.
- Python strings may hold lone surrogate code points, which Dafny's `char` excludes. The catalog's literals and the whitespace set need none.
- "The same rules on every call" and the records' immutability are not separate lemmas: `GetRules` is a function, so it is the same value on every call, and `Rule` is an immutable datatype.
