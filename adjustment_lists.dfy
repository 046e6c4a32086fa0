/** The adjustment-list parser (`_parse_adjustments`, morpheus.py:192-209):
    a comma-separated list such as `-ar → ∅, e → ie in final syllable`
    becomes a list of stem adjustments. */
module AdjustmentLists {
  import opened Wrappers
  import opened Text
  import opened Adjustments

  const ArrowChar: char := '→'
  const Arrow: string := [ArrowChar]
  const FinalSyllableMarker: string := " in final syllable"

  /** The parser's only failure: a part with more than one arrow cannot be
      unpacked into a pattern and a replacement (Python's `ValueError`). */
  datatype ParseError = UnpackError(part: string)

  /** One comma-separated part: `None` when it has no arrow (it is skipped),
      otherwise the adjustment it spells. */
  function ParsePart(raw: string): Result<Option<StemAdjustment>, ParseError> {
    var part := Strip(raw);
    if !Contains(part, Arrow) then Success(None)
    else
      var pieces := Split(part, Arrow);
      if |pieces| != 2 then Failure(UnpackError(part))
      else
        var pattern := Strip(pieces[0]);
        var replacement := Strip(pieces[1]);
        if Contains(replacement, FinalSyllableMarker) then
          Success(Some(StemAdjustment(pattern, Strip(ReplaceAll(replacement, FinalSyllableMarker, "")), Some(FinalSyllable))))
        else
          Success(Some(StemAdjustment(pattern, replacement, None)))
  }

  type PartResult = Result<Option<StemAdjustment>, ParseError>

  /** The outcomes of the parts, in order, collected: the adjustments of
      the parts that have one, or the first error. */
  function Collect(rs: seq<PartResult>): Result<seq<StemAdjustment>, ParseError>
    decreases |rs|
  {
    if rs == [] then Success([])
    else
      match Collect(rs[..|rs| - 1])
      case Failure(e) => Failure(e)
      case Success(adjs) =>
        match rs[|rs| - 1]
        case Failure(e) => Failure(e)
        case Success(None) => Success(adjs)
        case Success(Some(a)) => Success(adjs + [a])
  }

  function PartResults(parts: seq<string>): (rs: seq<PartResult>)
    ensures |rs| == |parts|
    ensures forall k :: 0 <= k < |parts| ==> rs[k] == ParsePart(parts[k])
  {
    seq(|parts|, k requires 0 <= k < |parts| => ParsePart(parts[k]))
  }

  /** `_parse_adjustments` on a text already cut at its commas. */
  function AdjustmentsOf(parts: seq<string>): Result<seq<StemAdjustment>, ParseError> {
    Collect(PartResults(parts))
  }

  method ParseAdjustments(text: string) returns (r: Result<seq<StemAdjustment>, ParseError>)
    ensures r == AdjustmentsOf(Split(text, ","))
  {
    var parts := Split(text, ",");
    ghost var rs := PartResults(parts);
    var adjs: seq<StemAdjustment> := [];
    var i := 0;
    while i < |parts|
      invariant 0 <= i <= |parts|
      invariant Collect(rs[..i]) == Success(adjs)
    {
      assert rs[..i + 1][..i] == rs[..i];
      var res := ParsePart(parts[i]);
      assert rs[..i + 1][i] == res;
      match res {
        case Failure(e) =>
          CollectStopsAtFailure(rs, i + 1);
          return Failure(e);
        case Success(None) =>
        case Success(Some(a)) =>
          adjs := adjs + [a];
      }
      i := i + 1;
    }
    assert rs[..i] == rs;
    return Success(adjs);
  }

  /** Once the outcomes collected so far have failed, the rest do not
      matter. */
  lemma {:induction false} CollectStopsAtFailure(rs: seq<PartResult>, n: nat)
    requires n <= |rs| && Collect(rs[..n]).Failure?
    ensures Collect(rs) == Collect(rs[..n])
    decreases |rs| - n
  {
    if n == |rs| {
      assert rs[..n] == rs;
    } else {
      var init := rs[..|rs| - 1];
      assert init[..n] == rs[..n];
      CollectStopsAtFailure(init, n);
    }
  }

  /** The adjustments of a list of outcomes none of which failed. */
  function Parsed(rs: seq<PartResult>): seq<StemAdjustment>
    requires forall k :: 0 <= k < |rs| ==> rs[k].Success?
  {
    if rs == [] then []
    else
      var last := rs[|rs| - 1].value;
      Parsed(rs[..|rs| - 1]) + (if last.Some? then [last.value] else [])
  }

  /** Collecting fails exactly when one of the outcomes is a failure, with
      the error of the leftmost one; otherwise it gives every adjustment in
      order. */
  lemma {:induction false} CollectSpec(rs: seq<PartResult>)
    ensures Collect(rs).Success? <==> forall k :: 0 <= k < |rs| ==> rs[k].Success?
    ensures Collect(rs).Success? ==> Collect(rs).value == Parsed(rs)
    ensures Collect(rs).Failure? ==>
      exists k :: 0 <= k < |rs| && rs[k].Failure? && Collect(rs).error == rs[k].error &&
        forall j :: 0 <= j < k ==> rs[j].Success?
    decreases |rs|
  {
    if rs != [] {
      var init := rs[..|rs| - 1];
      var n := |rs| - 1;
      CollectSpec(init);
      assert forall k :: 0 <= k < n ==> init[k] == rs[k];
      if Collect(init).Failure? {
        var k :| 0 <= k < |init| && init[k].Failure? && Collect(init).error == init[k].error &&
          forall j :: 0 <= j < k ==> init[j].Success?;
        assert rs[k].Failure?;
      } else if rs[n].Failure? {
        assert forall j :: 0 <= j < n ==> rs[j].Success?;
      }
    }
  }

  /** The parser stops at the first part that cannot be unpacked and
      reports it; otherwise it returns the adjustments of all parts with an
      arrow, in order. */
  lemma AdjustmentsOfSpec(parts: seq<string>)
    ensures AdjustmentsOf(parts).Success? <==> forall k :: 0 <= k < |parts| ==> ParsePart(parts[k]).Success?
    ensures AdjustmentsOf(parts).Success? ==> AdjustmentsOf(parts).value == Parsed(PartResults(parts))
    ensures AdjustmentsOf(parts).Failure? ==>
      exists k :: 0 <= k < |parts| && ParsePart(parts[k]).Failure? &&
        AdjustmentsOf(parts).error == ParsePart(parts[k]).error &&
        forall j :: 0 <= j < k ==> ParsePart(parts[j]).Success?
  {
    CollectSpec(PartResults(parts));
  }

  /** Outcomes that are all adjustments collect to exactly those. */
  lemma {:induction false} CollectAllSome(rs: seq<PartResult>, adjs: seq<StemAdjustment>)
    requires |rs| == |adjs|
    requires forall k :: 0 <= k < |rs| ==> rs[k] == Success(Some(adjs[k]))
    ensures Collect(rs) == Success(adjs)
    decreases |rs|
  {
    if rs != [] {
      var n := |rs| - 1;
      CollectAllSome(rs[..n], adjs[..n]);
      assert adjs[..n] + [adjs[n]] == adjs;
    }
  }

  /** An adjustment that the textual form can carry: pattern and
      replacement are single runs without whitespace, commas or arrows, and
      the only condition is the final-syllable one. */
  predicate Writable(a: StemAdjustment) {
    IsToken(a.pattern) && IsToken(a.replacement) &&
    ',' !in a.pattern && ',' !in a.replacement &&
    ArrowChar !in a.pattern && ArrowChar !in a.replacement &&
    (a.condition.None? || a.condition == Some(FinalSyllable))
  }

  /** The textual form of one adjustment, as the morphology files write it. */
  function Render(a: StemAdjustment): string {
    a.pattern + " " + Arrow + " " + a.replacement + (if a.condition.Some? then FinalSyllableMarker else "")
  }

  function RenderAll(adjs: seq<StemAdjustment>): (parts: seq<string>)
    ensures |parts| == |adjs|
    ensures forall k :: 0 <= k < |adjs| ==> parts[k] == Render(adjs[k])
  {
    if adjs == [] then [] else RenderAll(adjs[..|adjs| - 1]) + [Render(adjs[|adjs| - 1])]
  }

  /** The textual form of an adjustment list. */
  function RenderList(adjs: seq<StemAdjustment>): string {
    Join(RenderAll(adjs), ",")
  }

  /** A leftmost occurrence: nothing before `i` starts with the pattern's
      first character. */
  lemma FindAfterFirstChar(s: string, p: string, i: nat)
    requires p != [] && OccursAt(s, p, i)
    requires p[0] !in s[..i]
    ensures Find(s, p) == Some(i)
  {
    forall j | 0 <= j < i
      ensures !OccursAt(s, p, j)
    {
      assert s[j] == s[..i][j];
      if j + |p| <= |s| {
        assert s[j..j + |p|][0] == s[j];
      }
    }
    FindIsLeftmost(s, p, i);
  }

  lemma NoSpaceHasNoBlank(w: string)
    requires IsToken(w)
    ensures ' ' !in w
  {
    assert IsSpace(' ');
  }

  /** Removing the final-syllable marker from the end of a replacement
      gives the replacement back. */
  lemma MarkerRemoved(q: string)
    requires IsToken(q)
    ensures Contains(q + FinalSyllableMarker, FinalSyllableMarker)
    ensures Strip(ReplaceAll(q + FinalSyllableMarker, FinalSyllableMarker, "")) == q
  {
    var s := q + FinalSyllableMarker;
    assert s[|q|..] == FinalSyllableMarker;
    assert OccursAt(s, FinalSyllableMarker, |q|);
    assert FinalSyllableMarker[0] !in s[..|q|] by {
      assert s[..|q|] == q;
      NoSpaceHasNoBlank(q);
    }
    FindAfterFirstChar(s, FinalSyllableMarker, |q|);
    assert s[..|q|] == q;
    assert s[|q| + |FinalSyllableMarker|..] == [];
    assert ReplaceAll([], FinalSyllableMarker, "") == [];
    assert ReplaceAll(s, FinalSyllableMarker, "") == q + "" + [];
    assert q + "" + [] == q;
    StripTrimmed(q);
  }

  /** A replacement without the marker is not mistaken for one with it. */
  lemma NoMarker(q: string)
    requires IsToken(q)
    ensures !Contains(q, FinalSyllableMarker)
  {
    NoSpaceHasNoBlank(q);
    NotContainsWithoutFirst(q, FinalSyllableMarker);
  }

  /** The text of a rendered adjustment has no surrounding whitespace. */
  lemma RenderTrimmed(a: StemAdjustment)
    requires Writable(a)
    ensures Strip(Render(a)) == Render(a)
  {
    var s := Render(a);
    var q := a.replacement;
    assert s[0] == a.pattern[0];
    assert s[|s| - 1] == (if a.condition.Some? then 'e' else q[|q| - 1]);
    assert !IsSpace('e');
    StripTrimmed(s);
  }

  /** The text of a rendered adjustment splits at its one arrow. */
  lemma RenderSplits(a: StemAdjustment)
    requires Writable(a)
    ensures var tail := a.replacement + (if a.condition.Some? then FinalSyllableMarker else "");
      Strip(Render(a)) == Render(a) &&
      Contains(Render(a), Arrow) &&
      Split(Render(a), Arrow) == [a.pattern + " ", " " + tail]
  {
    RenderTrimmed(a);
    var p := a.pattern;
    var tail := a.replacement + (if a.condition.Some? then FinalSyllableMarker else "");
    var s := Render(a);
    var n := |p| + 1;
    assert s == (p + " ") + [ArrowChar] + (" " + tail);
    assert s[..n] == p + " " && s[n] == ArrowChar && s[n + 1..] == " " + tail;
    assert ArrowChar !in " " + tail by {
      assert ArrowChar !in FinalSyllableMarker && ArrowChar !in " ";
    }
    SplitAtOnly(s, ArrowChar, n);
    assert OccursAt(s, Arrow, n) by {
      assert s[n..n + 1] == [s[n]];
    }
    ContainsIff(s, Arrow);
  }

  /** Parsing the textual form of an adjustment gives the adjustment back. */
  lemma ParsePartOfRender(a: StemAdjustment)
    requires Writable(a)
    ensures ParsePart(Render(a)) == Success(Some(a))
  {
    var p := a.pattern;
    var q := a.replacement;
    var m := if a.condition.Some? then FinalSyllableMarker else "";
    RenderSplits(a);
    assert Strip(p + " ") == p by {
      assert !IsSpace(p[0]) && !IsSpace(p[|p| - 1]);
      StripPadded([], p, " ");
      assert [] + p + " " == p + " ";
    }
    assert Strip(" " + (q + m)) == q + m by {
      assert !IsSpace('e');
      assert !IsSpace((q + m)[0]) && !IsSpace((q + m)[|q + m| - 1]);
      StripPadded(" ", q + m, []);
      assert " " + (q + m) + [] == " " + (q + m);
    }
    if a.condition.Some? {
      MarkerRemoved(q);
    } else {
      NoMarker(q);
      assert q + m == q;
    }
  }

  /** A part `p → q` (parts are cut at commas, so they hold none) whose
      replacement lacks the final-syllable phrase reads back with that
      pattern and replacement and no condition. */
  lemma PlainPartHasNoCondition(p: string, q: string)
    requires IsToken(p) && IsToken(q) && ArrowChar !in p && ArrowChar !in q
    requires ',' !in p && ',' !in q
    ensures ParsePart(p + " → " + q) == Success(Some(StemAdjustment(p, q, None)))
  {
    var a := StemAdjustment(p, q, None);
    assert Render(a) == p + " → " + q;
    ParsePartOfRender(a);
  }

  /** No rendered adjustment holds a comma. */
  lemma RenderHasNoComma(a: StemAdjustment)
    requires Writable(a)
    ensures ',' !in Render(a)
  {
    assert ',' !in FinalSyllableMarker && ',' !in " " + Arrow + " ";
  }

  lemma ParsedRenderAll(adjs: seq<StemAdjustment>)
    requires forall k :: 0 <= k < |adjs| ==> Writable(adjs[k])
    ensures AdjustmentsOf(RenderAll(adjs)) == Success(adjs)
  {
    var rs := PartResults(RenderAll(adjs));
    forall k | 0 <= k < |adjs|
      ensures rs[k] == Success(Some(adjs[k]))
    {
      ParsePartOfRender(adjs[k]);
    }
    CollectAllSome(rs, adjs);
  }

  /** Parsing the textual form of an adjustment list gives the list back. */
  lemma ParseRenderList(adjs: seq<StemAdjustment>)
    requires forall k :: 0 <= k < |adjs| ==> Writable(adjs[k])
    ensures AdjustmentsOf(Split(RenderList(adjs), ",")) == Success(adjs)
  {
    if adjs == [] {
      assert Find("", ",") == None;
      assert Split("", ",") == [""];
      assert AdjustmentsOf([""]) == Success([]) by {
        assert Strip("") == "";
        assert !Contains("", Arrow);
        assert [""][..0] == [];
      }
    } else {
      var parts := RenderAll(adjs);
      forall k | 0 <= k < |parts|
        ensures ',' !in parts[k]
      {
        RenderHasNoComma(adjs[k]);
      }
      SplitJoin(parts, ',');
      ParsedRenderAll(adjs);
    }
  }

  /** A part with two arrows cannot be unpacked into a pattern and a
      replacement, so it is an error. */
  lemma TwoArrowsFail(a: string, b: string, c: string)
    requires Trimmed(a) && Trimmed(c)
    requires ArrowChar !in a && ArrowChar !in b && ArrowChar !in c
    ensures ParsePart(a + Arrow + b + Arrow + c) == Failure(UnpackError(a + Arrow + b + Arrow + c))
  {
    var part := a + Arrow + b + Arrow + c;
    assert Join([a, b, c], Arrow) == part by {
      assert [b, c][1..] == [c];
      assert Join([b, c], Arrow) == b + Arrow + c;
      assert [a, b, c][1..] == [b, c];
      assert Join([a, b, c], Arrow) == a + Arrow + (b + Arrow + c);
    }
    assert part[0] == a[0] && part[|part| - 1] == c[|c| - 1];
    StripTrimmed(part);
    assert part[|a|..|a| + 1] == Arrow;
    ContainsIff(part, Arrow);
    SplitJoin([a, b, c], ArrowChar);
  }
}
