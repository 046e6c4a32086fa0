/** When a pattern applies to a verb (`_pattern_matches` and
    `_check_single_condition`, morpheus.py:252-285). */
module Conditions {
  import opened Text
  import opened StemLines
  import opened Lexicon
  import opened Patterns

  const InfinitiveLike: string := "infinitive like"
  const StemChange: string := "stem-change"
  const AndKeyword: string := " and "

  /* ---------- Quoted endings ---------- */

  /** The endings quoted in a condition, left to right, as the regular
      expression `"(-\w+)"` finds them: a quote, a hyphen, a run of word
      characters and a closing quote; the ending keeps its hyphen. */
  function QuotedEndings(s: string): seq<string>
    decreases |s|
  {
    if |s| < 2 then []
    else if s[0] == '"' && s[1] == '-' && 2 < WordEnd(s, 2) < |s| && s[WordEnd(s, 2)] == '"' then
      [s[1..WordEnd(s, 2)]] + QuotedEndings(s[WordEnd(s, 2) + 1..])
    else QuotedEndings(s[1..])
  }

  /** Text without a quote contributes no ending. */
  lemma {:induction false} QuotedEndingsSkip(t: string, rest: string)
    requires '"' !in t
    ensures QuotedEndings(t + rest) == QuotedEndings(rest)
    decreases |t|
  {
    if t == [] {
      assert t + rest == rest;
    } else {
      assert t[0] in t;
      assert (t + rest)[1..] == t[1..] + rest;
      if |t + rest| >= 2 {
        assert (t + rest)[0] == t[0];
        assert QuotedEndings(t + rest) == QuotedEndings(t[1..] + rest);
      }
      QuotedEndingsSkip(t[1..], rest);
    }
  }

  /** How a condition quotes an ending `-w`. */
  function Quoted(w: string): string {
    "\"-" + w + "\""
  }

  /** A quoted ending is found, with its hyphen. */
  lemma QuotedEndingsOfQuoted(w: string, rest: string)
    requires IsWord(w)
    ensures QuotedEndings(Quoted(w) + rest) == ["-" + w] + QuotedEndings(rest)
  {
    var s := Quoted(w) + rest;
    assert s[2..2 + |w|] == w;
    assert s[2 + |w|] == '"';
    WordEndOfWord(s, 2, w);
    assert s[1..2 + |w|] == "-" + w;
    assert s[2 + |w| + 1..] == rest;
  }

  /** The quoted endings of a list `"-a" or "-b" ...`. */
  function QuotedList(ws: seq<string>): string {
    Join(seq(|ws|, k requires 0 <= k < |ws| => Quoted(ws[k])), " or ")
  }

  function Dashed(ws: seq<string>): (ds: seq<string>)
    ensures |ds| == |ws|
    ensures forall k :: 0 <= k < |ws| ==> ds[k] == "-" + ws[k]
  {
    seq(|ws|, k requires 0 <= k < |ws| => "-" + ws[k])
  }

  /** Every ending of a list of quoted endings is found, in order. */
  lemma {:induction false} QuotedEndingsOfList(ws: seq<string>)
    requires forall k :: 0 <= k < |ws| ==> IsWord(ws[k])
    ensures QuotedEndings(QuotedList(ws)) == Dashed(ws)
    decreases |ws|
  {
    var qs := seq(|ws|, k requires 0 <= k < |ws| => Quoted(ws[k]));
    if |ws| == 1 {
      QuotedEndingsOfQuoted(ws[0], []);
      assert Quoted(ws[0]) + [] == Quoted(ws[0]);
    } else if |ws| > 1 {
      var tail := ws[1..];
      assert qs[1..] == seq(|tail|, k requires 0 <= k < |tail| => Quoted(tail[k]));
      QuotedEndingsOfList(tail);
      assert QuotedList(ws) == Quoted(ws[0]) + (" or " + QuotedList(tail));
      QuotedEndingsOfQuoted(ws[0], " or " + QuotedList(tail));
      QuotedEndingsSkip(" or ", QuotedList(tail));
      assert Dashed(ws) == ["-" + ws[0]] + Dashed(tail);
    }
  }

  /* ---------- Conditions ---------- */

  /** The infinitive ends with the ending, hyphens dropped. */
  predicate EndingMatches(infinitive: string, ending: string) {
    EndsWith(infinitive, LStripChar(ending, '-'))
  }

  predicate SomeEndingMatches(infinitive: string, endings: seq<string>) {
    exists k :: 0 <= k < |endings| && EndingMatches(infinitive, endings[k])
  }

  predicate SomePropertyOccurs(condition: string, properties: seq<string>) {
    exists k :: 0 <= k < |properties| && Contains(condition, properties[k])
  }

  /** Whether one condition holds for a verb: an `infinitive like` condition
      holds when the infinitive ends with one of its quoted endings (hyphen
      dropped); otherwise a `stem-change` condition holds when one of the
      verb's properties occurs in it; anything else never holds. */
  predicate ConditionHolds(condition: string, verb: Verb) {
    if Contains(condition, InfinitiveLike) then SomeEndingMatches(verb.infinitive, QuotedEndings(condition))
    else if Contains(condition, StemChange) then SomePropertyOccurs(condition, verb.properties)
    else false
  }

  /** Whether a pattern's condition lets it apply to a verb: a blank
      condition always does; one with ` and ` needs every stripped piece
      to hold; any other must hold as written. */
  predicate Applies(condition: string, verb: Verb) {
    if condition == [] || Strip(condition) == [] then true
    else if Contains(condition, AndKeyword) then
      forall c :: c in Split(condition, AndKeyword) ==> ConditionHolds(Strip(c), verb)
    else ConditionHolds(condition, verb)
  }

  method CheckSingleCondition(condition: string, verb: Verb) returns (b: bool)
    ensures b == ConditionHolds(condition, verb)
  {
    if Contains(condition, InfinitiveLike) {
      var endings := QuotedEndings(condition);
      var i := 0;
      while i < |endings|
        invariant 0 <= i <= |endings|
        invariant forall k :: 0 <= k < i ==> !EndingMatches(verb.infinitive, endings[k])
      {
        if EndingMatches(verb.infinitive, endings[i]) {
          return true;
        }
        i := i + 1;
      }
      return false;
    }
    if Contains(condition, StemChange) {
      var i := 0;
      while i < |verb.properties|
        invariant 0 <= i <= |verb.properties|
        invariant forall k :: 0 <= k < i ==> !Contains(condition, verb.properties[k])
      {
        if Contains(condition, verb.properties[i]) {
          return true;
        }
        i := i + 1;
      }
      return false;
    }
    return false;
  }

  method PatternMatches(pattern: Pattern, verb: Verb) returns (b: bool)
    ensures b == Applies(pattern.condition, verb)
  {
    var condition := pattern.condition;
    if condition == [] || Strip(condition) == [] {
      return true;
    }
    if Contains(condition, AndKeyword) {
      var pieces := Split(condition, AndKeyword);
      var i := 0;
      while i < |pieces|
        invariant 0 <= i <= |pieces|
        invariant forall k :: 0 <= k < i ==> ConditionHolds(Strip(pieces[k]), verb)
      {
        var holds := CheckSingleCondition(Strip(pieces[i]), verb);
        if !holds {
          return false;
        }
        i := i + 1;
      }
      return true;
    }
    b := CheckSingleCondition(condition, verb);
  }

  /* ---------- What the conditions mean ---------- */

  lemma ContainsAt(s: string, p: string, i: nat)
    requires OccursAt(s, p, i)
    ensures Contains(s, p)
  {
    ContainsIff(s, p);
  }

  /** `infinitive like "-a" or "-b" ...` holds exactly for the verbs whose
      infinitive ends with one of the listed endings. */
  lemma InfinitiveLikeHolds(ws: seq<string>, verb: Verb)
    requires |ws| >= 1
    requires forall k :: 0 <= k < |ws| ==> IsWord(ws[k])
    ensures ConditionHolds(InfinitiveLike + " " + QuotedList(ws), verb) <==>
      exists k :: 0 <= k < |ws| && EndsWith(verb.infinitive, ws[k])
  {
    var condition := InfinitiveLike + " " + QuotedList(ws);
    assert condition[..|InfinitiveLike|] == InfinitiveLike;
    ContainsAt(condition, InfinitiveLike, 0);
    QuotedEndingsOfList(ws);
    QuotedEndingsSkip(InfinitiveLike + " ", QuotedList(ws));
    var endings := QuotedEndings(condition);
    assert endings == Dashed(ws);
    forall k | 0 <= k < |ws|
      ensures LStripChar(endings[k], '-') == ws[k]
    {
      assert endings[k][1..] == ws[k];
      assert ws[k][0] != '-';
    }
    if exists k :: 0 <= k < |ws| && EndsWith(verb.infinitive, ws[k]) {
      var k :| 0 <= k < |ws| && EndsWith(verb.infinitive, ws[k]);
      assert EndingMatches(verb.infinitive, endings[k]);
    }
  }

  /** An `infinitive like` condition that quotes no ending holds for no
      verb, whatever the verb's properties: the `stem-change` test is never
      reached. */
  lemma InfinitiveLikeWithoutEndings(condition: string, verb: Verb)
    requires Contains(condition, InfinitiveLike) && '"' !in condition
    ensures !ConditionHolds(condition, verb)
  {
    QuotedEndingsSkip(condition, []);
    assert condition + [] == condition;
  }

  /** A `stem-change` condition (one not mentioning `infinitive like`) holds
      for a verb that lists the condition itself among its properties. */
  lemma StemChangeHoldsForOwnProperty(condition: string, verb: Verb)
    requires Contains(condition, StemChange) && !Contains(condition, InfinitiveLike)
    requires condition in verb.properties
    ensures ConditionHolds(condition, verb)
  {
    assert condition[0..|condition|] == condition;
    ContainsAt(condition, condition, 0);
    var k :| 0 <= k < |verb.properties| && verb.properties[k] == condition;
  }

  /** A verb with an empty property satisfies every `stem-change` condition
      (one not mentioning `infinitive like`), since the empty text occurs in
      any text. A lexicon entry whose property list ends with a comma, or is
      blank, has such a property. */
  lemma EmptyPropertyMatchesEveryStemChange(condition: string, verb: Verb)
    requires Contains(condition, StemChange) && !Contains(condition, InfinitiveLike)
    requires [] in verb.properties
    ensures ConditionHolds(condition, verb)
  {
    ContainsAt(condition, [], 0);
    var k :| 0 <= k < |verb.properties| && verb.properties[k] == [];
  }

  /** A blank condition applies to every verb. */
  lemma BlankApplies(condition: string, verb: Verb)
    requires AllSpace(condition)
    ensures Applies(condition, verb)
  {
    StripBlank(condition);
  }

  /** `A and B` applies exactly when both `A` and `B` hold. */
  lemma AndApplies(a: string, b: string, verb: Verb)
    requires Trimmed(a) && Trimmed(b)
    requires !Contains(a + " ", AndKeyword) && !Contains(b, AndKeyword)
    ensures Applies(a + AndKeyword + b, verb) <==> ConditionHolds(a, verb) && ConditionHolds(b, verb)
  {
    var condition := a + AndKeyword + b;
    assert condition[0] == a[0] && condition[|condition| - 1] == b[|b| - 1];
    StripTrimmed(condition);
    StripTrimmed(a);
    StripTrimmed(b);
    assert condition[|a|..|a| + |AndKeyword|] == AndKeyword;
    ContainsAt(condition, AndKeyword, |a|);
    SplitAround(a, AndKeyword, b);
    var pieces := Split(condition, AndKeyword);
    assert pieces == [a, b];
    assert a in pieces && b in pieces;
  }
}
