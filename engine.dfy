/** The morphology engine: the patterns and the verbs it has loaded, and
    the conjugation of a verb (`MorphologyEngine`, morpheus.py:72-300). */
module Engine {
  import opened Wrappers
  import opened Text
  import opened Tables
  import opened Adjustments
  import opened AdjustmentLists
  import opened Patterns
  import opened Lexicon
  import opened Conditions

  /* ---------- Display order of persons ---------- */

  /** The conventional order in which persons are displayed. */
  const PersonOrder: seq<string> := ["1sg", "2sg", "3sg", "1pl", "2pl", "3pl", "form"]

  /** The sort key of a person missing from `PersonOrder`. */
  const UnknownRank: nat := 999

  /** The first position of `x` in `xs`, or `|xs|` when it is absent. */
  function IndexOf(xs: seq<string>, x: string): (r: nat)
    ensures r <= |xs|
    ensures r < |xs| ==> xs[r] == x
    ensures forall k :: 0 <= k < r ==> xs[k] != x
    decreases |xs|
  {
    if xs == [] then 0 else if xs[0] == x then 0 else 1 + IndexOf(xs[1..], x)
  }

  /** The sort key of a person: its position in the conventional order, or
      999 for a person outside it. */
  function SortKey(person: string): (r: nat)
    ensures person in PersonOrder ==> r < |PersonOrder| && PersonOrder[r] == person
    ensures person !in PersonOrder ==> r == UnknownRank
  {
    var i := IndexOf(PersonOrder, person);
    if i < |PersonOrder| then i else UnknownRank
  }

  /** Sorting by the key lists the persons in the conventional order, and
      every unknown person after all of them. */
  lemma SortKeyOrder(i: nat, j: nat)
    requires i < j < |PersonOrder|
    ensures SortKey(PersonOrder[i]) == i && SortKey(PersonOrder[j]) == j
    ensures SortKey(PersonOrder[j]) < UnknownRank
  {
    assert forall a, b :: 0 <= a < b < |PersonOrder| ==> PersonOrder[a] != PersonOrder[b];
  }

  /* ---------- Stems ---------- */

  /** The stem a pattern's stem table gives for `name`: the infinitive run
      through the stem's adjustments in order, or the infinitive itself
      when the pattern does not declare the stem. */
  method ComputeStem(infinitive: string, name: string, stems: Stems) returns (stem: string)
    ensures stem == StemOf(infinitive, name, stems)
  {
    if name !in stems {
      return infinitive;
    }
    var adjustments := stems[name];
    stem := infinitive;
    var i := 0;
    while i < |adjustments|
      invariant 0 <= i <= |adjustments|
      invariant ChainAdjusted(stem, adjustments[i..]) == ChainAdjusted(infinitive, adjustments)
    {
      assert adjustments[i..][1..] == adjustments[i + 1..];
      stem := Apply(adjustments[i], stem);
      i := i + 1;
    }
  }

  /* ---------- Conjugation ---------- */

  datatype ConjugateError = VerbNotFound(infinitive: string)

  /** The key a form is listed under: its person, or `form` for the
      person-less form of a participle. */
  function PersonKey(f: Form): string {
    if f.person == [] then "form" else f.person
  }

  /** A conjugated form: the stem it names followed by its ending without
      the leading hyphens. */
  function Conjugated(infinitive: string, f: Form, stems: Stems): string {
    StemOf(infinitive, f.stemName, stems) + LStripChar(f.ending, '-')
  }

  function FormUpdates(infinitive: string, p: Pattern): (us: seq<Update<string>>)
    ensures |us| == |p.forms|
    ensures forall k :: 0 <= k < |p.forms| ==> us[k] == Put(PersonKey(p.forms[k]), Conjugated(infinitive, p.forms[k], p.stems))
  {
    seq(|p.forms|, k requires 0 <= k < |p.forms| => Put(PersonKey(p.forms[k]), Conjugated(infinitive, p.forms[k], p.stems)))
  }

  /** The forms one pattern gives a verb, by person. */
  function FormTable(infinitive: string, p: Pattern): map<string, string> {
    Assign(FormUpdates(infinitive, p))
  }

  function PatternUpdates(patterns: seq<Pattern>, verb: Verb, infinitive: string): (us: seq<Update<map<string, string>>>)
    ensures |us| == |patterns|
    ensures forall k :: 0 <= k < |patterns| ==>
      us[k] == if Applies(patterns[k].condition, verb) then Put(patterns[k].name, FormTable(infinitive, patterns[k])) else Keep
  {
    seq(|patterns|, k requires 0 <= k < |patterns| =>
      if Applies(patterns[k].condition, verb) then Put(patterns[k].name, FormTable(infinitive, patterns[k])) else Keep)
  }

  /** The conjugation of a verb: for every pattern that applies to it, by
      pattern name, the forms of that pattern; a verb missing from the
      lexicon is an error. */
  function Conjugation(patterns: seq<Pattern>, verbs: map<string, Verb>, infinitive: string): Result<map<string, map<string, string>>, ConjugateError> {
    if infinitive !in verbs then Failure(VerbNotFound(infinitive))
    else Success(Assign(PatternUpdates(patterns, verbs[infinitive], infinitive)))
  }

  /** The forms loop of `conjugate`. */
  method ConjugatePattern(infinitive: string, p: Pattern) returns (forms: map<string, string>)
    ensures forms == FormTable(infinitive, p)
  {
    ghost var us := FormUpdates(infinitive, p);
    forms := map[];
    var j := 0;
    while j < |p.forms|
      invariant 0 <= j <= |p.forms|
      invariant forms == Assign(us[..j])
    {
      AssignSnoc(us, j);
      var f := p.forms[j];
      var stem := ComputeStem(infinitive, f.stemName, p.stems);
      forms := forms[PersonKey(f) := stem + LStripChar(f.ending, '-')];
      j := j + 1;
    }
    assert us[..j] == us;
  }

  /** The tenses of a conjugation are the names of the patterns that apply
      to the verb. */
  lemma ConjugationTenses(patterns: seq<Pattern>, verbs: map<string, Verb>, infinitive: string, name: string)
    requires infinitive in verbs
    ensures Conjugation(patterns, verbs, infinitive).Success?
    ensures name in Conjugation(patterns, verbs, infinitive).value <==>
      exists i :: 0 <= i < |patterns| && patterns[i].name == name && Applies(patterns[i].condition, verbs[infinitive])
  {
    var us := PatternUpdates(patterns, verbs[infinitive], infinitive);
    AssignKeys(us, name);
    if exists i :: 0 <= i < |us| && us[i].Put? && us[i].key == name {
      var i :| 0 <= i < |us| && us[i].Put? && us[i].key == name;
      assert patterns[i].name == name && Applies(patterns[i].condition, verbs[infinitive]);
    }
    if exists i :: 0 <= i < |patterns| && patterns[i].name == name && Applies(patterns[i].condition, verbs[infinitive]) {
      var i :| 0 <= i < |patterns| && patterns[i].name == name && Applies(patterns[i].condition, verbs[infinitive]);
      assert us[i].Put? && us[i].key == name;
    }
  }

  /** The forms of a conjugation under a pattern's name are those of the
      last applying pattern of that name. */
  lemma ConjugatedPattern(patterns: seq<Pattern>, verbs: map<string, Verb>, infinitive: string, i: nat)
    requires infinitive in verbs
    requires i < |patterns| && Applies(patterns[i].condition, verbs[infinitive])
    requires forall k :: i < k < |patterns| && patterns[k].name == patterns[i].name ==> !Applies(patterns[k].condition, verbs[infinitive])
    ensures Conjugation(patterns, verbs, infinitive).Success?
    ensures var table := Conjugation(patterns, verbs, infinitive).value;
      patterns[i].name in table && table[patterns[i].name] == FormTable(infinitive, patterns[i])
  {
    var us := PatternUpdates(patterns, verbs[infinitive], infinitive);
    forall k | i < k < |us|
      ensures !(us[k].Put? && us[k].key == us[i].key)
    {
    }
    AssignLast(us, i);
  }

  /** The form a pattern gives a person is that of its last form for the
      person. */
  lemma FormTableEntry(infinitive: string, p: Pattern, j: nat)
    requires j < |p.forms|
    requires forall k :: j < k < |p.forms| ==> PersonKey(p.forms[k]) != PersonKey(p.forms[j])
    ensures PersonKey(p.forms[j]) in FormTable(infinitive, p)
    ensures FormTable(infinitive, p)[PersonKey(p.forms[j])] == Conjugated(infinitive, p.forms[j], p.stems)
  {
    AssignLast(FormUpdates(infinitive, p), j);
  }

  /** A form of a conjugation is the form's stem followed by its ending
      without hyphens, taken from the last applying pattern of that name
      and, within it, from the last form for that person. */
  lemma ConjugatedForm(patterns: seq<Pattern>, verbs: map<string, Verb>, infinitive: string, i: nat, j: nat)
    requires infinitive in verbs
    requires i < |patterns| && Applies(patterns[i].condition, verbs[infinitive])
    requires forall k :: i < k < |patterns| && patterns[k].name == patterns[i].name ==> !Applies(patterns[k].condition, verbs[infinitive])
    requires j < |patterns[i].forms|
    requires forall k :: j < k < |patterns[i].forms| ==> PersonKey(patterns[i].forms[k]) != PersonKey(patterns[i].forms[j])
    ensures Conjugation(patterns, verbs, infinitive).Success?
    ensures var table := Conjugation(patterns, verbs, infinitive).value;
      patterns[i].name in table && PersonKey(patterns[i].forms[j]) in table[patterns[i].name] &&
      table[patterns[i].name][PersonKey(patterns[i].forms[j])] ==
        StemOf(infinitive, patterns[i].forms[j].stemName, patterns[i].stems) + LStripChar(patterns[i].forms[j].ending, '-')
  {
    ConjugatedPattern(patterns, verbs, infinitive, i);
    FormTableEntry(infinitive, patterns[i], j);
  }

  /* ---------- The engine ---------- */

  class MorphologyEngine {
    var patterns: seq<Pattern>
    var verbs: map<string, Verb>

    /** Every verb is filed under its own infinitive. */
    ghost predicate Valid()
      reads this
    {
      FiledByName(verbs)
    }

    constructor()
      ensures Valid()
      ensures patterns == [] && verbs == map[]
    {
      patterns := [];
      verbs := map[];
    }

    /** Adds the patterns of a morphology file's blocks (conjugations first,
        then participles), stopping at the first block that cannot be
        parsed; the patterns added before it stay. */
    method LoadMorphology(conjugations: seq<(string, string, string)>, participles: seq<(string, string, string, string)>)
      returns (error: Option<ParseError>)
      requires Valid()
      modifies this
      ensures Valid()
      ensures patterns == old(patterns) + LoadBlocks(MorphologyBlocks(conjugations, participles)).patterns
      ensures error == LoadBlocks(MorphologyBlocks(conjugations, participles)).error
      ensures verbs == old(verbs)
    {
      error := AddBlocks(MorphologyBlocks(conjugations, participles));
    }

    /** The loading loop: appends the pattern of each block in turn. */
    method AddBlocks(blocks: seq<Block>) returns (error: Option<ParseError>)
      requires Valid()
      modifies this
      ensures Valid()
      ensures patterns == old(patterns) + LoadBlocks(blocks).patterns
      ensures error == LoadBlocks(blocks).error
      ensures verbs == old(verbs)
    {
      var i := 0;
      while i < |blocks|
        invariant 0 <= i <= |blocks|
        invariant verbs == old(verbs)
        invariant LoadBlocks(blocks[..i]).error.None?
        invariant patterns == old(patterns) + LoadBlocks(blocks[..i]).patterns
      {
        LoadBlocksStep(blocks, i);
        var parsed := ParseBlock(blocks[i]);
        if parsed.Failure? {
          assert blocks[..i + 1] + blocks[i + 1..] == blocks;
          LoadBlocksStops(blocks[..i + 1], blocks[i + 1..]);
          return Some(parsed.error);
        }
        patterns := patterns + [parsed.value];
        i := i + 1;
      }
      assert blocks[..i] == blocks;
      return None;
    }

    /** Enters the verbs of a lexicon's entries in order; a later entry for
        the same verb replaces an earlier one. */
    method LoadLexicon(entries: seq<Entry>)
      requires Valid()
      modifies this
      ensures Valid()
      ensures verbs == Entered(old(verbs), entries)
      ensures patterns == old(patterns)
    {
      var i := 0;
      while i < |entries|
        invariant 0 <= i <= |entries|
        invariant patterns == old(patterns)
        invariant verbs == Entered(old(verbs), entries[..i])
      {
        EnteredSnoc(old(verbs), entries, i);
        var e := entries[i];
        verbs := verbs[e.infinitive := Verb(e.infinitive, PropertiesOf(e.properties))];
        i := i + 1;
      }
      assert entries[..i] == entries;
      EnteredFiledByName(old(verbs), entries);
    }

    /** The conjugation of a verb of the lexicon by every loaded pattern
        that applies to it. */
    method Conjugate(infinitive: string) returns (r: Result<map<string, map<string, string>>, ConjugateError>)
      ensures r == Conjugation(patterns, verbs, infinitive)
    {
      if infinitive !in verbs {
        return Failure(VerbNotFound(infinitive));
      }
      var verb := verbs[infinitive];
      ghost var us := PatternUpdates(patterns, verb, infinitive);
      var result: map<string, map<string, string>> := map[];
      var i := 0;
      while i < |patterns|
        invariant 0 <= i <= |patterns|
        invariant result == Assign(us[..i])
      {
        AssignSnoc(us, i);
        var applies := PatternMatches(patterns[i], verb);
        if applies {
          var forms := ConjugatePattern(infinitive, patterns[i]);
          result := result[patterns[i].name := forms];
        }
        i := i + 1;
      }
      assert us[..i] == us;
      return Success(result);
    }
  }
}
