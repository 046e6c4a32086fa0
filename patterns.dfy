/** Conjugation patterns and how a morphology block becomes one
    (`_parse_conjugation_pattern`, morpheus.py:134-190, and the participle
    part of `load_morphology`, morpheus.py:113-132). The blocks arrive
    already cut out of the file: the header, the forms text and the stems
    text of a conjugation, or the four pieces of a participle. */
module Patterns {
  import opened Wrappers
  import opened Text
  import opened Adjustments
  import opened AdjustmentLists
  import opened StemLines

  /** One row of a pattern: `1sg stem -o`. */
  datatype Form = Form(person: string, stemName: string, ending: string)

  type Stems = map<string, seq<StemAdjustment>>

  datatype Pattern = Pattern(name: string, condition: string, forms: seq<Form>, stems: Stems)

  const ForKeyword: string := " for "

  /* ---------- Form lines ---------- */

  /** A line of the forms text: blank lines and `#` comments give nothing,
      nor does a line with fewer than three fields once trailing commas are
      dropped; otherwise its first three fields are person, stem name and
      ending. */
  function FormOfLine(raw: string): Option<Form> {
    var line := Strip(raw);
    if line == [] || line[0] == '#' then None
    else
      var fields := Tokens(RStripChar(line, ','));
      if |fields| >= 3 then Some(Form(fields[0], fields[1], fields[2])) else None
  }

  /** The values present in a list of options, in order. */
  function Present(os: seq<Option<Form>>): (r: seq<Form>)
    ensures |r| <= |os|
  {
    if os == [] then []
    else
      var last := os[|os| - 1];
      Present(os[..|os| - 1]) + (if last.Some? then [last.value] else [])
  }

  function FormResults(lines: seq<string>): (os: seq<Option<Form>>)
    ensures |os| == |lines|
    ensures forall k :: 0 <= k < |lines| ==> os[k] == FormOfLine(lines[k])
  {
    seq(|lines|, k requires 0 <= k < |lines| => FormOfLine(lines[k]))
  }

  /** The forms of the lines of a forms text, in the order of the lines. */
  function FormsOf(lines: seq<string>): seq<Form> {
    Present(FormResults(lines))
  }

  /** Keeping the present values respects concatenation, so the forms
      keep the order of their lines. */
  lemma {:induction false} PresentAppend(a: seq<Option<Form>>, b: seq<Option<Form>>)
    ensures Present(a + b) == Present(a) + Present(b)
    decreases |b|
  {
    if b == [] {
      assert a + b == a;
    } else {
      var init := b[..|b| - 1];
      PresentAppend(a, init);
      assert (a + b)[..|a + b| - 1] == a + init;
      assert (a + b)[|a + b| - 1] == b[|b| - 1];
    }
  }

  /** Every form comes from a line, and a line that gives a form gives it
      in place. */
  lemma {:induction false} PresentAllSome(os: seq<Option<Form>>)
    requires forall k :: 0 <= k < |os| ==> os[k].Some?
    ensures |Present(os)| == |os|
    ensures forall k :: 0 <= k < |os| ==> Present(os)[k] == os[k].value
    decreases |os|
  {
    if os != [] {
      PresentAllSome(os[..|os| - 1]);
    }
  }

  lemma FormsOfAppend(a: seq<string>, b: seq<string>)
    ensures FormsOf(a + b) == FormsOf(a) + FormsOf(b)
  {
    assert FormResults(a + b) == FormResults(a) + FormResults(b);
    PresentAppend(FormResults(a), FormResults(b));
  }

  /** Blank lines and comment lines add no form and leave the others in
      place. */
  lemma FormsOfSkipsIgnored(a: seq<string>, raw: string, b: seq<string>)
    requires Strip(raw) == [] || Strip(raw)[0] == '#'
    ensures FormsOf(a + [raw] + b) == FormsOf(a + b)
  {
    FormsOfAppend(a + [raw], b);
    FormsOfAppend(a, [raw]);
    FormsOfAppend(a, b);
    var none: seq<Option<Form>> := [None];
    assert FormResults([raw]) == none;
    assert none[..0] == [];
  }

  /** A form as the morphology files write it. */
  function FormLine(f: Form): string {
    f.person + " " + f.stemName + " " + f.ending + ","
  }

  /** A form the forms text can carry. */
  predicate WritableForm(f: Form) {
    IsToken(f.person) && IsToken(f.stemName) && IsToken(f.ending) &&
    f.person[0] != '#' && f.ending[|f.ending| - 1] != ','
  }

  lemma RStripCharOnce(s: string, c: char)
    requires s != [] && s[|s| - 1] != c
    ensures RStripChar(s + [c], c) == s
  {
    assert (s + [c])[..|s + [c]| - 1] == s;
  }

  /** Reading the line of a form gives the form back. */
  lemma FormOfFormLine(f: Form)
    requires WritableForm(f)
    ensures FormOfLine(FormLine(f)) == Some(f)
  {
    var words := [f.person, f.stemName, f.ending];
    var body := f.person + " " + f.stemName + " " + f.ending;
    var line := FormLine(f);
    assert Join(words, " ") == body by {
      assert words[1..] == [f.stemName, f.ending];
      assert Join([f.stemName, f.ending], " ") == f.stemName + " " + f.ending by {
        assert [f.stemName, f.ending][1..] == [f.ending];
      }
    }
    assert line == body + [','];
    assert body[|body| - 1] == f.ending[|f.ending| - 1];
    assert line[0] == f.person[0] && line[|line| - 1] == ',';
    assert !IsSpace(',');
    StripTrimmed(line);
    RStripCharOnce(body, ',');
    TokensOfJoin(words);
  }

  /** Reading the lines of a list of forms gives the list back. */
  lemma FormsOfFormLines(fs: seq<Form>, lines: seq<string>)
    requires |lines| == |fs|
    requires forall k :: 0 <= k < |fs| ==> WritableForm(fs[k]) && lines[k] == FormLine(fs[k])
    ensures FormsOf(lines) == fs
  {
    var os := FormResults(lines);
    forall k | 0 <= k < |fs|
      ensures os[k] == Some(fs[k])
    {
      FormOfFormLine(fs[k]);
    }
    PresentAllSome(os);
  }

  /* ---------- Stem lines ---------- */

  /** A stems line as the parser looks at it: stripped, then trailing
      commas, then trailing semicolons removed. */
  function CleanStemLine(raw: string): string {
    RStripChar(RStripChar(Strip(raw), ','), ';')
  }

  /** The effect of one line of the stems text on the stems defined so far:
      a base definition (re)defines its stem; a derived definition extends
      a known base, or starts from the infinitive when the base is called
      `infinitive`; every other line leaves the stems as they are. */
  function StemLine(stems: Stems, raw: string): Result<Stems, ParseError> {
    var line := CleanStemLine(raw);
    if line == [] || line[0] == '#' then Success(stems)
    else
      match InfinitiveDefAt(line, 0, true)
      case Some(d) =>
        (match AdjustmentsOf(Split(d.adjustments, ","))
         case Failure(e) => Failure(e)
         case Success(adjs) => Success(stems[d.name := adjs]))
      case None =>
        match DerivedDefAt(line)
        case None => Success(stems)
        case Some(d) =>
          if d.base in stems then
            match AdjustmentsOf(Split(d.adjustments, ","))
            case Failure(e) => Failure(e)
            case Success(adjs) => Success(stems[d.name := stems[d.base] + adjs])
          else if d.base == "infinitive" then
            match AdjustmentsOf(Split(d.adjustments, ","))
            case Failure(e) => Failure(e)
            case Success(adjs) => Success(stems[d.name := adjs])
          else Success(stems)
  }

  /** The stems defined by the lines of a stems text, in order; the first
      line whose list cannot be parsed decides the error. */
  function StemsOf(lines: seq<string>): Result<Stems, ParseError>
    decreases |lines|
  {
    if lines == [] then Success(map[])
    else
      match StemsOf(lines[..|lines| - 1])
      case Failure(e) => Failure(e)
      case Success(stems) => StemLine(stems, lines[|lines| - 1])
  }

  /** Once a line has failed, the lines after it do not matter. */
  lemma {:induction false} StemsOfStopsAtFailure(lines: seq<string>, n: nat)
    requires n <= |lines| && StemsOf(lines[..n]).Failure?
    ensures StemsOf(lines) == StemsOf(lines[..n])
    decreases |lines| - n
  {
    if n == |lines| {
      assert lines[..n] == lines;
    } else {
      var init := lines[..|lines| - 1];
      assert init[..n] == lines[..n];
      StemsOfStopsAtFailure(init, n);
    }
  }

  method StemLineStep(stems: Stems, raw: string) returns (r: Result<Stems, ParseError>)
    ensures r == StemLine(stems, raw)
  {
    var line := CleanStemLine(raw);
    if line == [] || line[0] == '#' {
      return Success(stems);
    }
    match InfinitiveDefAt(line, 0, true) {
      case Some(d) =>
        var parsed := ParseAdjustments(d.adjustments);
        if parsed.Failure? {
          return Failure(parsed.error);
        }
        return Success(stems[d.name := parsed.value]);
      case None =>
        match DerivedDefAt(line) {
          case None =>
            return Success(stems);
          case Some(d) =>
            if d.base in stems {
              var parsed := ParseAdjustments(d.adjustments);
              if parsed.Failure? {
                return Failure(parsed.error);
              }
              return Success(stems[d.name := stems[d.base] + parsed.value]);
            } else if d.base == "infinitive" {
              var parsed := ParseAdjustments(d.adjustments);
              if parsed.Failure? {
                return Failure(parsed.error);
              }
              return Success(stems[d.name := parsed.value]);
            }
            return Success(stems);
        }
    }
  }

  /** A rendered line does not change when it is cleaned up: it starts with
      a name and ends with `)`. */
  lemma CleanRendered(line: string, x: string)
    requires IsStemName(x) && |x| < |line| && line[..|x|] == x
    requires line[|line| - 1] == ')'
    ensures CleanStemLine(line) == line
  {
    assert line[0] == x[0];
    StemNameNoSpace(x);
    assert !IsSpace(')');
    StripTrimmed(line);
  }

  /** A base definition line defines its stem as its adjustments, replacing
      any earlier definition of that name. */
  lemma StemLineBase(stems: Stems, x: string, list: string, adjs: seq<StemAdjustment>)
    requires IsStemName(x)
    requires ')' !in list && '\n' !in list
    requires AdjustmentsOf(Split(list, ",")) == Success(adjs)
    ensures StemLine(stems, InfinitiveLine(x, list)) == Success(stems[x := adjs])
  {
    var line := InfinitiveLine(x, list);
    assert line[..|x|] == x;
    CleanRendered(line, x);
    InfinitiveDefOfLine(x, list, [], true);
    assert line + [] == line;
  }

  /** A derived definition line extends a base stem that is already
      defined, and is ignored when the base is neither defined nor
      `infinitive` (its list is then not even read). */
  lemma StemLineDerived(stems: Stems, x: string, base: string, list: string)
    requires IsStemName(x) && IsStemName(base) && base != "infinitive"
    requires ')' !in list && '\n' !in list
    ensures base in stems ==>
      StemLine(stems, DerivedLine(x, base, list)) ==
        (match AdjustmentsOf(Split(list, ","))
         case Failure(e) => Failure(e)
         case Success(adjs) => Success(stems[x := stems[base] + adjs]))
    ensures base in stems && x != base && StemLine(stems, DerivedLine(x, base, list)).Success? ==>
      var r := StemLine(stems, DerivedLine(x, base, list)).value;
      base in r && r[base] == stems[base]
    ensures base !in stems ==> StemLine(stems, DerivedLine(x, base, list)) == Success(stems)
  {
    var line := DerivedLine(x, base, list);
    assert line[..|x|] == x;
    CleanRendered(line, x);
    DerivedDefOfLine(x, base, list);
    assert line[0] == x[0];
    assert line[0] != '#' by {
      StemNameNoSpace(x);
      assert IsStemName(x) ==> IsWordChar(x[0]) by {
        if !IsWord(x) {
          var k :| 0 < k < |x| - 1 && x[k] == '-' && IsWord(x[..k]) && IsWord(x[k + 1..]);
          assert x[..k][0] == x[0];
        }
      }
    }
    StemLineOfDerived(stems, line, DerivedDef(x, base, list));
  }

  /** The effect of a clean line the derived pattern recognizes, with a base
      other than `infinitive`. */
  lemma StemLineOfDerived(stems: Stems, line: string, d: DerivedDef)
    requires CleanStemLine(line) == line && line != [] && line[0] != '#'
    requires InfinitiveDefAt(line, 0, true).None? && DerivedDefAt(line) == Some(d) && d.base != "infinitive"
    ensures d.base in stems ==>
      StemLine(stems, line) ==
        (match AdjustmentsOf(Split(d.adjustments, ","))
         case Failure(e) => Failure(e)
         case Success(adjs) => Success(stems[d.name := stems[d.base] + adjs]))
    ensures d.base !in stems ==> StemLine(stems, line) == Success(stems)
  {
  }

  /** Comment lines leave the stems as they are. */
  lemma CommentStemLine(stems: Stems, raw: string)
    requires Strip(raw) != [] && Strip(raw)[0] == '#'
    ensures StemLine(stems, raw) == Success(stems)
  {
    var s := Strip(raw);
    var t := RStripChar(s, ',');
    var line := RStripChar(t, ';');
    if line != [] {
      assert line[0] == t[0] == s[0];
    }
  }

  /** A stem derived from a defined base is the base stem with the new
      adjustments applied after it; every other stem is unchanged. */
  lemma DerivedStemOf(infinitive: string, stems: Stems, x: string, base: string, adjs: seq<StemAdjustment>, y: string)
    requires base in stems
    ensures StemOf(infinitive, x, stems[x := stems[base] + adjs]) == ChainAdjusted(StemOf(infinitive, base, stems), adjs)
    ensures y != x ==> StemOf(infinitive, y, stems[x := stems[base] + adjs]) == StemOf(infinitive, y, stems)
  {
    ChainAppend(infinitive, stems[base], adjs);
  }

  /* ---------- Conjugation blocks ---------- */

  /** The name and condition of a header `NAME for CONDITION`: the text
      before the first ` for `, and the text between it and the next one
      (or the end). */
  function HeaderOf(header: string): (string, string) {
    var parts := Split(Strip(header), ForKeyword);
    (Strip(parts[0]), if |parts| > 1 then Strip(parts[1]) else "")
  }

  /** The pattern a conjugation block defines. */
  function PatternOf(header: string, formsText: string, stemsText: string): Result<Pattern, ParseError> {
    var (name, condition) := HeaderOf(header);
    var forms := FormsOf(Split(Strip(formsText), "\n"));
    match StemsOf(Split(Strip(stemsText), "\n"))
    case Failure(e) => Failure(e)
    case Success(stems) => Success(Pattern(name, condition, forms, stems))
  }

  /** The forms loop of the parser. */
  method ParseForms(lines: seq<string>) returns (forms: seq<Form>)
    ensures forms == FormsOf(lines)
  {
    ghost var os := FormResults(lines);
    forms := [];
    var i := 0;
    while i < |lines|
      invariant 0 <= i <= |lines|
      invariant forms == Present(os[..i])
    {
      assert os[..i + 1][..i] == os[..i];
      var f := FormOfLine(lines[i]);
      assert os[..i + 1][i] == f;
      if f.Some? {
        forms := forms + [f.value];
      }
      i := i + 1;
    }
    assert os[..i] == os;
  }

  /** The stems loop of the parser. */
  method ParseStems(lines: seq<string>) returns (r: Result<Stems, ParseError>)
    ensures r == StemsOf(lines)
  {
    var stems: Stems := map[];
    var j := 0;
    while j < |lines|
      invariant 0 <= j <= |lines|
      invariant StemsOf(lines[..j]) == Success(stems)
    {
      assert lines[..j + 1][..j] == lines[..j];
      var step := StemLineStep(stems, lines[j]);
      if step.Failure? {
        StemsOfStopsAtFailure(lines, j + 1);
        return Failure(step.error);
      }
      stems := step.value;
      j := j + 1;
    }
    assert lines[..j] == lines;
    return Success(stems);
  }

  method ParseConjugationPattern(header: string, formsText: string, stemsText: string) returns (r: Result<Pattern, ParseError>)
    ensures r == PatternOf(header, formsText, stemsText)
  {
    var (name, condition) := HeaderOf(header);
    var forms := ParseForms(Split(Strip(formsText), "\n"));
    var stems := ParseStems(Split(Strip(stemsText), "\n"));
    if stems.Failure? {
      return Failure(stems.error);
    }
    return Success(Pattern(name, condition, forms, stems.value));
  }

  /** A header without ` for ` is all name, and the condition is empty. */
  lemma HeaderOfName(name: string)
    requires Trimmed(name) && !Contains(name, ForKeyword)
    ensures HeaderOf(name) == (name, "")
  {
    StripTrimmed(name);
  }

  /** `NAME for CONDITION` gives that name and that condition. */
  lemma HeaderOfFor(name: string, condition: string)
    requires Trimmed(name) && Trimmed(condition)
    requires !Contains(name + " ", ForKeyword) && !Contains(condition, ForKeyword)
    ensures HeaderOf(name + ForKeyword + condition) == (name, condition)
  {
    var header := name + ForKeyword + condition;
    assert header[0] == name[0] && header[|header| - 1] == condition[|condition| - 1];
    StripTrimmed(header);
    StripTrimmed(name);
    StripTrimmed(condition);
    SplitAround(name, ForKeyword, condition);
  }

  /** With a second ` for `, only the text between the first two is the
      condition: what follows the second is dropped. */
  lemma HeaderDropsAfterSecondFor(name: string, condition: string, more: string)
    requires Trimmed(name) && Trimmed(condition) && Trimmed(more)
    requires !Contains(name + " ", ForKeyword) && !Contains(condition + " ", ForKeyword)
    ensures HeaderOf(name + ForKeyword + condition + ForKeyword + more) == (name, condition)
  {
    var tail := condition + ForKeyword + more;
    var header := name + ForKeyword + tail;
    assert header == name + ForKeyword + condition + ForKeyword + more;
    assert header[0] == name[0] && header[|header| - 1] == more[|more| - 1];
    StripTrimmed(header);
    StripTrimmed(name);
    StripTrimmed(condition);
    SplitAround(name, ForKeyword, tail);
    SplitAround(condition, ForKeyword, more);
  }

  /** The forms text of a list of forms: one line per form. */
  function FormsText(fs: seq<Form>): string {
    Join(seq(|fs|, k requires 0 <= k < |fs| => FormLine(fs[k])), "\n")
  }

  lemma NoNewlineInToken(w: string)
    requires NoSpace(w)
    ensures '\n' !in w
  {
    assert IsSpace('\n');
    forall k | 0 <= k < |w|
      ensures w[k] != '\n'
    {
    }
  }

  lemma FormLineShape(f: Form)
    requires WritableForm(f)
    ensures FormLine(f) != [] && FormLine(f)[0] == f.person[0]
    ensures '\n' !in FormLine(f)
  {
    NoNewlineInToken(f.person);
    NoNewlineInToken(f.stemName);
    NoNewlineInToken(f.ending);
  }

  /** The lines of the forms text of a list of forms. */
  lemma FormsTextLines(fs: seq<Form>)
    requires |fs| >= 1 && forall k :: 0 <= k < |fs| ==> WritableForm(fs[k])
    ensures Split(Strip(FormsText(fs)), "\n") == seq(|fs|, k requires 0 <= k < |fs| => FormLine(fs[k]))
  {
    var lines := seq(|fs|, k requires 0 <= k < |fs| => FormLine(fs[k]));
    forall k | 0 <= k < |fs|
      ensures lines[k] != [] && '\n' !in lines[k]
    {
      FormLineShape(fs[k]);
    }
    JoinEnds(lines, "\n");
    var last := FormLine(fs[|fs| - 1]);
    assert last[|last| - 1] == ',';
    FormLineShape(fs[0]);
    assert !IsSpace(',');
    StripTrimmed(FormsText(fs));
    SplitJoin(lines, '\n');
  }

  /** The forms text of a list of forms reads back as that list. */
  lemma FormsOfFormsText(fs: seq<Form>)
    requires |fs| >= 1 && forall k :: 0 <= k < |fs| ==> WritableForm(fs[k])
    ensures FormsOf(Split(Strip(FormsText(fs)), "\n")) == fs
  {
    FormsTextLines(fs);
    FormsOfFormLines(fs, seq(|fs|, k requires 0 <= k < |fs| => FormLine(fs[k])));
  }

  /** A stems text of one line is that line. */
  lemma SplitOneLine(line: string)
    requires Trimmed(line) && '\n' !in line
    ensures Split(Strip(line), "\n") == [line]
  {
    StripTrimmed(line);
    NotContainsWithoutFirst(line, "\n");
  }

  lemma InfinitiveLineShape(x: string, list: string)
    requires IsStemName(x) && '\n' !in list
    ensures Trimmed(InfinitiveLine(x, list)) && '\n' !in InfinitiveLine(x, list)
  {
    StemNameNoSpace(x);
    NoNewlineInToken(x);
    assert InfinitiveLine(x, list)[0] == x[0];
    assert !IsSpace(')');
  }

  /** A conjugation block written from a name, a condition, a list of forms
      and one stem definition parses back to the pattern they describe. */
  lemma PatternOfRendered(name: string, condition: string, fs: seq<Form>, x: string, list: string, adjs: seq<StemAdjustment>)
    requires Trimmed(name) && Trimmed(condition)
    requires !Contains(name + " ", ForKeyword) && !Contains(condition, ForKeyword)
    requires |fs| >= 1 && forall k :: 0 <= k < |fs| ==> WritableForm(fs[k])
    requires IsStemName(x) && ')' !in list && '\n' !in list
    requires AdjustmentsOf(Split(list, ",")) == Success(adjs)
    ensures PatternOf(name + ForKeyword + condition, FormsText(fs), InfinitiveLine(x, list)) ==
      Success(Pattern(name, condition, fs, map[x := adjs]))
  {
    HeaderOfFor(name, condition);
    FormsOfFormsText(fs);
    StemsOfBaseLine(x, list, adjs);
  }

  /** A stems text holding one base definition defines that one stem. */
  lemma StemsOfBaseLine(x: string, list: string, adjs: seq<StemAdjustment>)
    requires IsStemName(x) && ')' !in list && '\n' !in list
    requires AdjustmentsOf(Split(list, ",")) == Success(adjs)
    ensures StemsOf(Split(Strip(InfinitiveLine(x, list)), "\n")) == Success(map[x := adjs])
  {
    var line := InfinitiveLine(x, list);
    InfinitiveLineShape(x, list);
    SplitOneLine(line);
    assert [line][..0] == [];
    StemLineBase(map[], x, list, adjs);
  }

  /* ---------- Participle blocks ---------- */

  /** The pattern a participle block defines: the block's type as its name,
      at most one form (when the form text has exactly two fields), and at
      most one stem (the first base definition found in the stem text). */
  function ParticiplePattern(participleType: string, condition: string, formText: string, stemText: string): Result<Pattern, ParseError> {
    var fields := Tokens(Strip(formText));
    var forms := if |fields| == 2 then [Form("", fields[0], fields[1])] else [];
    match SearchInfinitiveDef(stemText, 0)
    case None => Success(Pattern(participleType, Strip(condition), forms, map[]))
    case Some(d) =>
      match AdjustmentsOf(Split(d.adjustments, ","))
      case Failure(e) => Failure(e)
      case Success(adjs) => Success(Pattern(participleType, Strip(condition), forms, map[d.name := adjs]))
  }

  method ParseParticiple(participleType: string, condition: string, formText: string, stemText: string) returns (r: Result<Pattern, ParseError>)
    ensures r == ParticiplePattern(participleType, condition, formText, stemText)
  {
    var fields := Tokens(Strip(formText));
    var forms: seq<Form> := [];
    if |fields| == 2 {
      forms := forms + [Form("", fields[0], fields[1])];
    }
    assert forms == if |fields| == 2 then [Form("", fields[0], fields[1])] else [];
    var stems: Stems := map[];
    var found := SearchInfinitiveDef(stemText, 0);
    if found.Some? {
      var parsed := ParseAdjustments(found.value.adjustments);
      if parsed.Failure? {
        return Failure(parsed.error);
      }
      stems := stems[found.value.name := parsed.value];
      assert stems == map[found.value.name := parsed.value];
    }
    return Success(Pattern(participleType, Strip(condition), forms, stems));
  }

  /** A participle block written the usual way (`stem -ado`, then
      `stem = infinitive adjusted: (...)`) gives its one form and its one
      stem. */
  lemma ParticipleOfRendered(participleType: string, condition: string, stem: string, ending: string,
                             x: string, list: string, rest: string, adjs: seq<StemAdjustment>)
    requires IsToken(stem) && IsToken(ending)
    requires IsWord(x) && ')' !in list && '\n' !in list
    requires AdjustmentsOf(Split(list, ",")) == Success(adjs)
    ensures ParticiplePattern(participleType, condition, stem + " " + ending, InfinitiveLine(x, list) + rest) ==
      Success(Pattern(participleType, Strip(condition), [Form("", stem, ending)], map[x := adjs]))
  {
    var formText := stem + " " + ending;
    assert Join([stem, ending], " ") == formText by {
      assert [stem, ending][1..] == [ending];
    }
    assert formText[0] == stem[0] && formText[|formText| - 1] == ending[|ending| - 1];
    StripTrimmed(formText);
    TokensOfJoin([stem, ending]);
    SearchFindsLine(x, list, rest);
  }

  /* ---------- Loading a morphology ---------- */

  /** A block of a morphology file, already cut out of it. */
  datatype Block =
    | ConjugationBlock(header: string, formsText: string, stemsText: string)
    | ParticipleBlock(participleType: string, condition: string, formText: string, stemText: string)

  function BlockPattern(b: Block): Result<Pattern, ParseError> {
    match b
    case ConjugationBlock(h, f, s) => PatternOf(h, f, s)
    case ParticipleBlock(t, c, f, s) => ParticiplePattern(t, c, f, s)
  }

  method ParseBlock(b: Block) returns (r: Result<Pattern, ParseError>)
    ensures r == BlockPattern(b)
  {
    match b {
      case ConjugationBlock(h, f, s) =>
        r := ParseConjugationPattern(h, f, s);
      case ParticipleBlock(t, c, f, s) =>
        r := ParseParticiple(t, c, f, s);
    }
  }

  /** What loading a run of blocks leaves: the patterns added before the
      first error, and that error if there was one. */
  datatype Loaded = Loaded(patterns: seq<Pattern>, error: Option<ParseError>)

  type BlockResult = Result<Pattern, ParseError>

  /** Adding the outcomes of blocks in order, stopping at the first error. */
  function LoadResults(rs: seq<BlockResult>): (l: Loaded)
    ensures |l.patterns| <= |rs|
    decreases |rs|
  {
    if rs == [] then Loaded([], None)
    else
      var before := LoadResults(rs[..|rs| - 1]);
      if before.error.Some? then before
      else
        match rs[|rs| - 1]
        case Failure(e) => Loaded(before.patterns, Some(e))
        case Success(p) => Loaded(before.patterns + [p], None)
  }

  function BlockResults(blocks: seq<Block>): (rs: seq<BlockResult>)
    ensures |rs| == |blocks|
    ensures forall k :: 0 <= k < |blocks| ==> rs[k] == BlockPattern(blocks[k])
  {
    seq(|blocks|, k requires 0 <= k < |blocks| => BlockPattern(blocks[k]))
  }

  /** Loading a run of blocks. */
  function LoadBlocks(blocks: seq<Block>): Loaded {
    LoadResults(BlockResults(blocks))
  }

  /** Loading one more block after an error-free run. */
  lemma LoadBlocksStep(blocks: seq<Block>, i: nat)
    requires i < |blocks| && LoadBlocks(blocks[..i]).error.None?
    ensures LoadBlocks(blocks[..i + 1]) ==
      match BlockPattern(blocks[i])
      case Failure(e) => Loaded(LoadBlocks(blocks[..i]).patterns, Some(e))
      case Success(p) => Loaded(LoadBlocks(blocks[..i]).patterns + [p], None)
  {
    var rs := BlockResults(blocks[..i + 1]);
    assert rs[..i] == BlockResults(blocks[..i]);
  }

  /** The blocks of a morphology file in the order the loader takes them:
      every conjugation block first, then every participle block. */
  function MorphologyBlocks(conjugations: seq<(string, string, string)>, participles: seq<(string, string, string, string)>): (bs: seq<Block>)
    ensures |bs| == |conjugations| + |participles|
  {
    seq(|conjugations|, k requires 0 <= k < |conjugations| =>
      ConjugationBlock(conjugations[k].0, conjugations[k].1, conjugations[k].2)) +
    seq(|participles|, k requires 0 <= k < |participles| =>
      ParticipleBlock(participles[k].0, participles[k].1, participles[k].2, participles[k].3))
  }

  /** The patterns loaded are those of the leading outcomes, in order; the
      loading stops short exactly at the first failed outcome. */
  lemma {:induction false} LoadResultsPrefix(rs: seq<BlockResult>)
    ensures forall k :: 0 <= k < |LoadResults(rs).patterns| ==> rs[k] == Success(LoadResults(rs).patterns[k])
    ensures LoadResults(rs).error.None? ==> |LoadResults(rs).patterns| == |rs|
    ensures LoadResults(rs).error.Some? ==>
      |LoadResults(rs).patterns| < |rs| && rs[|LoadResults(rs).patterns|] == Failure(LoadResults(rs).error.value)
    decreases |rs|
  {
    if rs != [] {
      var init := rs[..|rs| - 1];
      LoadResultsPrefix(init);
      assert forall k :: 0 <= k < |init| ==> init[k] == rs[k];
    }
  }

  /** Loading succeeds exactly when every block gives a pattern, and then
      gives one pattern per block, in order; otherwise the error is that of
      the first block that fails, and the patterns are those of the blocks
      before it. */
  lemma LoadBlocksSpec(blocks: seq<Block>)
    ensures LoadBlocks(blocks).error.None? <==> forall k :: 0 <= k < |blocks| ==> BlockPattern(blocks[k]).Success?
    ensures LoadBlocks(blocks).error.None? ==>
      |LoadBlocks(blocks).patterns| == |blocks| &&
      forall k :: 0 <= k < |blocks| ==> LoadBlocks(blocks).patterns[k] == BlockPattern(blocks[k]).value
    ensures LoadBlocks(blocks).error.Some? ==>
      |LoadBlocks(blocks).patterns| < |blocks| &&
      BlockPattern(blocks[|LoadBlocks(blocks).patterns|]) == Failure(LoadBlocks(blocks).error.value) &&
      forall k :: 0 <= k < |LoadBlocks(blocks).patterns| ==> BlockPattern(blocks[k]) == Success(LoadBlocks(blocks).patterns[k])
  {
    LoadResultsPrefix(BlockResults(blocks));
  }

  /** An error stops the loading: outcomes after it add nothing. */
  lemma {:induction false} LoadResultsStops(first: seq<BlockResult>, second: seq<BlockResult>)
    requires LoadResults(first).error.Some?
    ensures LoadResults(first + second) == LoadResults(first)
    decreases |second|
  {
    if second == [] {
      assert first + second == first;
    } else {
      LoadResultsStops(first, second[..|second| - 1]);
      assert (first + second)[..|first + second| - 1] == first + second[..|second| - 1];
    }
  }

  /** An error stops the loading: blocks after it add nothing. */
  lemma LoadBlocksStops(first: seq<Block>, second: seq<Block>)
    requires LoadBlocks(first).error.Some?
    ensures LoadBlocks(first + second) == LoadBlocks(first)
  {
    assert BlockResults(first + second) == BlockResults(first) + BlockResults(second);
    LoadResultsStops(BlockResults(first), BlockResults(second));
  }
}
