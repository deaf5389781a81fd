/** The moderation verdict and the summary with its truncation fallback, as
    `moderateContent` and `summarizeText` compute them once the Hugging Face call has
    produced an outcome. The network step is an input: `ClassifierOutcome` and
    `SummaryOutcome` say what the call came back with. */
module Moderation {
  import opened Wrappers
  import opened Text

  /** What the classification call produced. `Threw`: `fetch` or `response.json()`
      raised, or the body parsed to `null` so that reading `result[0]` raised. `Parsed`: the body parsed; `firstLabel` is `result[0]?.label` (None when
      element 0 or its label is missing) and `score` is `result[0].score`. */
  datatype ClassifierOutcome =
    | Threw
    | Parsed(firstLabel: Option<string>, score: real)

  /** The verdict object `{flagged, sentiment, confidence}`. */
  datatype Verdict = Verdict(flagged: bool, sentiment: string, confidence: real)

  /** The keyword fallback's deny-list, in the order `some` visits it. */
  const BadWords: seq<string> := ["gali", "abuse", "spam"]

  /** The label that makes a classified text flagged. */
  const HateLabel: string := "hate"

  /** Confidence reported by the keyword fallback. */
  const FallbackConfidence: real := 0.5

  /** `badWords.some(word => s.includes(word))`. */
  function SomeIncluded(s: string, words: seq<string>): bool
  {
    words != [] && (Includes(s, words[0]) || SomeIncluded(s, words[1..]))
  }

  /** Some word of the list occurs in `s` at some index. */
  ghost predicate SomeOccurs(s: string, words: seq<string>)
  {
    exists k, i :: 0 <= k < |words| && OccursAt(s, words[k], i)
  }

  lemma {:induction false} SomeIncludedIffOccurs(s: string, words: seq<string>)
    ensures SomeIncluded(s, words) <==> SomeOccurs(s, words)
  {
    if words != [] {
      IncludesIffOccurs(s, words[0]);
      SomeIncludedIffOccurs(s, words[1..]);
      if SomeOccurs(s, words[1..]) {
        var k, i :| 0 <= k < |words[1..]| && OccursAt(s, words[1..][k], i);
        assert OccursAt(s, words[k + 1], i);
      }
      if SomeOccurs(s, words) {
        var k, i :| 0 <= k < |words| && OccursAt(s, words[k], i);
        if k > 0 {
          assert OccursAt(s, words[1..][k - 1], i);
        }
      }
    }
  }

  /** The keyword fallback: a deny-list word occurs in the lower-cased text. */
  function KeywordFlagged(text: string): (flagged: bool)
    ensures flagged <==> SomeOccurs(ToLower(text), BadWords)
  {
    SomeIncludedIffOccurs(ToLower(text), BadWords);
    SomeIncluded(ToLower(text), BadWords)
  }

  /** A truthy label: present and not the empty string. */
  predicate HasLabel(outcome: ClassifierOutcome)
  {
    outcome.Parsed? && outcome.firstLabel.Some? && outcome.firstLabel.value != ""
  }

  /** `moderateContent(text)`, given what the classification call produced. */
  function ModerateContent(text: string, outcome: ClassifierOutcome): (v: Verdict)
    // the exception path: keyword fallback, fixed sentiment and confidence
    ensures outcome.Threw? ==>
      v == Verdict(KeywordFlagged(text), "neutral", FallbackConfidence)
    // element 0 has a label: the verdict is that label and its score
    ensures HasLabel(outcome) ==>
      && v.flagged == (outcome.firstLabel.value == HateLabel)
      && v.sentiment == outcome.firstLabel.value
      && v.confidence == outcome.score
    // parsed but no label: the fixed verdict, the text is not consulted
    ensures outcome.Parsed? && !HasLabel(outcome) ==> v == Verdict(false, "unknown", 0.0)
  {
    match outcome
    case Threw => Verdict(KeywordFlagged(text), "neutral", FallbackConfidence)
    case Parsed(first, score) =>
      if HasLabel(outcome) then Verdict(first.value == HateLabel, first.value, score)
      else Verdict(false, "unknown", 0.0)
  }

  /** On the exception path the text is flagged exactly when one of the deny-list
      words occurs in it, ignoring ASCII case. */
  lemma FallbackFlagsIffDenyWordOccurs(text: string)
    ensures ModerateContent(text, Threw).flagged <==> SomeOccurs(ToLower(text), BadWords)
  {
    SomeIncludedIffOccurs(ToLower(text), BadWords);
  }

  /** The fallback is case-insensitive: two texts that agree once lower-cased get
      the same verdict. */
  lemma FallbackIgnoresCase(text: string, other: string)
    requires ToLower(text) == ToLower(other)
    ensures ModerateContent(text, Threw) == ModerateContent(other, Threw)
  {
  }

  /** Once the response parsed, the text plays no part: the deny-list is consulted
      only on the exception path. */
  lemma ParsedIgnoresText(text: string, other: string, outcome: ClassifierOutcome)
    requires outcome.Parsed?
    ensures ModerateContent(text, outcome) == ModerateContent(other, outcome)
  {
  }

  /** A flagged verdict has one of exactly two causes: the classifier said "hate", or
      the call threw and a deny-list word occurs in the lower-cased text. */
  lemma FlaggedCauses(text: string, outcome: ClassifierOutcome)
    ensures ModerateContent(text, outcome).flagged <==>
      (HasLabel(outcome) && outcome.firstLabel.value == HateLabel) ||
      (outcome.Threw? && SomeOccurs(ToLower(text), BadWords))
  {
    SomeIncludedIffOccurs(ToLower(text), BadWords);
  }

  /** The deny-list words, upper-cased in the text, still trip the fallback. */
  lemma UpperCaseSpamIsFlagged()
    ensures ModerateContent("Buy SPAM now", Threw).flagged
  {
    var lowered := ToLower("Buy SPAM now");
    assert lowered == "buy spam now";
    assert OccursAt(lowered, BadWords[2], 4);
    FallbackFlagsIffDenyWordOccurs("Buy SPAM now");
  }

  // ---------------------------------------------------------------------------
  // Summary

  /** What the summarization call produced. `SummaryThrew`: `fetch` or
      `response.json()` raised, or the body parsed to `null` so that reading
      `result[0]` raised. `SummaryParsed`: the body parsed and
      `summaryText` is `result[0]?.summary_text`. */
  datatype SummaryOutcome =
    | SummaryThrew
    | SummaryParsed(summaryText: Option<string>)

  /** The default `maxLength` of `summarizeText`. */
  const DefaultMaxLength: int := 100

  /** The marker appended to a truncated text. */
  const Ellipsis: string := "..."

  /** `text.substring(0, maxLength) + '...'`: a prefix of the input of the clamped
      length, then the ellipsis. */
  function Truncation(text: string, maxLength: int): (r: string)
    ensures |r| == ClampIndex(maxLength, |text|) + 3
    ensures maxLength >= 0 ==> |r| == Min(maxLength, |text|) + 3
    ensures r[..|r| - 3] == text[..|r| - 3]
    ensures r[|r| - 3..] == Ellipsis
  {
    Prefix(text, maxLength) + Ellipsis
  }

  /** A remote summary is used only when it is present and non-empty (truthy). */
  predicate UsableSummary(outcome: SummaryOutcome)
  {
    outcome.SummaryParsed? && outcome.summaryText.Some? && outcome.summaryText.value != ""
  }

  /** `summarizeText(text, maxLength)`, given what the summarization call produced:
      the remote summary when it is usable, the truncation otherwise and on any
      exception. */
  function SummarizeText(text: string, maxLength: int, outcome: SummaryOutcome): (r: string)
    ensures UsableSummary(outcome) ==> r == outcome.summaryText.value
    ensures !UsableSummary(outcome) ==> r == Truncation(text, maxLength)
    ensures r != ""
  {
    match outcome
    case SummaryThrew => Truncation(text, maxLength)
    case SummaryParsed(summary) =>
      if UsableSummary(outcome) then summary.value else Truncation(text, maxLength)
  }

  /** With the default length, a failed summary is at most 103 characters: the
      first 100 of the text and the ellipsis. */
  lemma DefaultFallbackBound(text: string, outcome: SummaryOutcome)
    requires !UsableSummary(outcome)
    ensures |SummarizeText(text, DefaultMaxLength, outcome)| <= 103
    ensures |text| >= 100 ==> SummarizeText(text, DefaultMaxLength, outcome) == text[..100] + Ellipsis
  {
  }
}
