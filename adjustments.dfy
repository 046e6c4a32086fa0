/** One stem rewrite of the rule language (the `StemAdjustment` record and
    its `apply`, morpheus.py:13-45), and chains of rewrites applied left to
    right, which is how a named stem is computed from an infinitive. */
module Adjustments {
  import opened Wrappers
  import opened Text

  /** The replacement that marks a deletion. */
  const DeletionMarker: string := "∅"

  /** The one adjustment condition the interpreter acts on. */
  const FinalSyllable: string := "in final syllable"

  datatype StemAdjustment = StemAdjustment(pattern: string, replacement: string, condition: Option<string>)

  /** The four ways `apply` can rewrite, in the order it tests for them. */
  datatype Kind = Deletion | SuffixReplacement | FinalSyllableSubstitution | GlobalReplacement

  function KindOf(a: StemAdjustment): Kind {
    if a.replacement == DeletionMarker then Deletion
    else if StartsWith(a.pattern, "-") then SuffixReplacement
    else if a.condition == Some(FinalSyllable) then FinalSyllableSubstitution
    else GlobalReplacement
  }

  /** The rightmost index holding `c`, if any. */
  function LastIndexOf(s: string, c: char): (r: Option<nat>)
    ensures r.Some? ==> r.value < |s| && s[r.value] == c
    ensures forall k :: 0 <= k < |s| && (r.None? || r.value < k) ==> s[k] != c
  {
    if s == [] then None
    else if s[|s| - 1] == c then Some(|s| - 1)
    else LastIndexOf(s[..|s| - 1], c)
  }

  /** What `apply` returns for `text`. */
  function Adjusted(a: StemAdjustment, text: string): string {
    match KindOf(a)
    case Deletion =>
      var suffix := LStripChar(a.pattern, '-');
      if EndsWith(text, suffix) then text[..|text| - |suffix|] else text
    case SuffixReplacement =>
      var ending := LStripChar(a.pattern, '-');
      // Python's text[:-0] is empty, so an empty ending drops the whole text
      if EndsWith(text, ending) then (if ending == [] then [] else text[..|text| - |ending|]) + a.replacement
      else text
    case FinalSyllableSubstitution =>
      // a one-character string is compared with a pattern; only a
      // one-character pattern can be equal to it
      if |a.pattern| != 1 then text
      else
        (match LastIndexOf(text, a.pattern[0])
         case None => text
         case Some(i) => text[..i] + a.replacement + text[i + 1..])
    case GlobalReplacement =>
      ReplaceAll(text, a.pattern, a.replacement)
  }

  /** `StemAdjustment.apply`, scanning backwards for the final-syllable case. */
  method Apply(a: StemAdjustment, text: string) returns (r: string)
    ensures r == Adjusted(a, text)
  {
    if a.replacement == DeletionMarker {
      var suffix := LStripChar(a.pattern, '-');
      if EndsWith(text, suffix) {
        return text[..|text| - |suffix|];
      }
      return text;
    }
    if StartsWith(a.pattern, "-") {
      var ending := LStripChar(a.pattern, '-');
      if EndsWith(text, ending) {
        var kept := if ending == [] then [] else text[..|text| - |ending|];
        return kept + a.replacement;
      }
      return text;
    }
    if a.condition == Some(FinalSyllable) {
      var i := |text|;
      while i > 0
        invariant 0 <= i <= |text|
        invariant forall k :: i <= k < |text| ==> [text[k]] != a.pattern
      {
        i := i - 1;
        if [text[i]] == a.pattern {
          assert a.pattern == [text[i]];
          return text[..i] + a.replacement + text[i + 1..];
        }
      }
      assert |a.pattern| == 1 ==> a.pattern == [a.pattern[0]];
      return text;
    }
    return ReplaceAll(text, a.pattern, a.replacement);
  }

  /** Deletion (replacement `∅`, whatever the condition): a text that ends
      with the pattern, its leading dashes stripped, loses exactly that
      suffix; any other text is unchanged. */
  lemma DeletionRemovesSuffix(a: StemAdjustment, text: string)
    requires a.replacement == DeletionMarker
    ensures var suffix := LStripChar(a.pattern, '-');
      && (EndsWith(text, suffix) ==> Adjusted(a, text) + suffix == text
                                     && |Adjusted(a, text)| == |text| - |suffix|)
      && (!EndsWith(text, suffix) ==> Adjusted(a, text) == text)
  {
    var suffix := LStripChar(a.pattern, '-');
    if EndsWith(text, suffix) {
      assert text == text[..|text| - |suffix|] + text[|text| - |suffix|..];
    }
  }

  /** Suffix replacement (pattern starting with `-`, replacement not `∅`):
      a text ending with the stripped ending keeps what precedes the ending
      and gets the replacement verbatim, dashes included; a text not ending
      with it is unchanged. An empty ending drops the whole text. */
  lemma SuffixReplacementSpec(a: StemAdjustment, text: string, front: string)
    requires a.replacement != DeletionMarker && StartsWith(a.pattern, "-")
    ensures var ending := LStripChar(a.pattern, '-');
      && (ending != [] && text == front + ending ==> Adjusted(a, text) == front + a.replacement)
      && (ending == [] ==> Adjusted(a, text) == a.replacement)
      && (!EndsWith(text, ending) ==> Adjusted(a, text) == text)
  {
    var ending := LStripChar(a.pattern, '-');
    if ending != [] && text == front + ending {
      assert text[..|text| - |ending|] == front;
      assert text[|text| - |ending|..] == ending;
    }
  }

  /** Final-syllable substitution (condition "in final syllable", pattern
      without a leading `-`): only the rightmost occurrence of the pattern
      character is replaced, everything before and after it is kept. */
  lemma FinalSyllableReplacesRightmost(a: StemAdjustment, text: string, i: nat)
    requires KindOf(a) == FinalSyllableSubstitution && |a.pattern| == 1
    requires i < |text| && text[i] == a.pattern[0]
    requires forall k :: i < k < |text| ==> text[k] != a.pattern[0]
    ensures Adjusted(a, text) == text[..i] + a.replacement + text[i + 1..]
  {
    var r := LastIndexOf(text, a.pattern[0]);
    assert r.Some?;
    assert r.value == i;
  }

  /** Without a one-character pattern that occurs in the text, the
      final-syllable substitution leaves the text alone. */
  lemma FinalSyllableNoMatch(a: StemAdjustment, text: string)
    requires KindOf(a) == FinalSyllableSubstitution
    requires |a.pattern| != 1 || a.pattern[0] !in text
    ensures Adjusted(a, text) == text
  {
  }

  /** The default branch replaces every occurrence: it splits on the
      pattern and joins with the replacement, and leaves a text without
      the pattern unchanged. */
  lemma GlobalReplacementSpec(a: StemAdjustment, text: string)
    requires KindOf(a) == GlobalReplacement && a.pattern != []
    ensures Adjusted(a, text) == Join(Split(text, a.pattern), a.replacement)
    ensures !Contains(text, a.pattern) ==> Adjusted(a, text) == text
  {
    ReplaceIsJoinOfSplit(text, a.pattern, a.replacement);
    ReplaceIdentities(text, a.pattern, a.replacement);
  }

  /** A chain of adjustments applied left to right, each to the previous result. */
  function ChainAdjusted(text: string, chain: seq<StemAdjustment>): string
    decreases |chain|
  {
    if chain == [] then text else ChainAdjusted(Adjusted(chain[0], text), chain[1..])
  }

  /** Running two chains one after the other is running their concatenation. */
  lemma {:induction false} ChainAppend(text: string, first: seq<StemAdjustment>, second: seq<StemAdjustment>)
    decreases |first|
    ensures ChainAdjusted(text, first + second) == ChainAdjusted(ChainAdjusted(text, first), second)
  {
    if first == [] {
      assert first + second == second;
    } else {
      assert (first + second)[1..] == first[1..] + second;
      ChainAppend(Adjusted(first[0], text), first[1..], second);
    }
  }

  /** A chain extended by one adjustment applies it to the chain's result. */
  lemma ChainSnoc(text: string, chain: seq<StemAdjustment>, a: StemAdjustment)
    ensures ChainAdjusted(text, chain + [a]) == Adjusted(a, ChainAdjusted(text, chain))
  {
    ChainAppend(text, chain, [a]);
  }

  /** The stem named `name` in a pattern's stem table, computed from the
      infinitive; an undeclared name gives the infinitive itself. */
  function StemOf(infinitive: string, name: string, stems: map<string, seq<StemAdjustment>>): string {
    if name !in stems then infinitive else ChainAdjusted(infinitive, stems[name])
  }
}
