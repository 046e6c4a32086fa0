/** The lexicon: verb entries `verb NAME;` or `verb NAME (PROPERTIES);`
    and the verb table they fill (`load_lexicon`, morpheus.py:211-224).
    The entries arrive already cut out of the file. */
module Lexicon {
  import opened Text
  import opened Tables

  datatype Verb = Verb(infinitive: string, properties: seq<string>)

  /** An entry as the lexicon file writes it: the verb, and the text between
      its parentheses (empty when it has none). */
  datatype Entry = Entry(infinitive: string, properties: string)

  /** The properties of an entry: none for an empty list, otherwise the
      comma-separated pieces, stripped. */
  function PropertiesOf(text: string): (ps: seq<string>)
    ensures text == [] <==> ps == []
  {
    if text == [] then []
    else
      var pieces := Split(text, ",");
      seq(|pieces|, k requires 0 <= k < |pieces| => Strip(pieces[k]))
  }

  function VerbOf(e: Entry): Verb {
    Verb(e.infinitive, PropertiesOf(e.properties))
  }

  function EntryUpdates(entries: seq<Entry>): (us: seq<Update<Verb>>)
    ensures |us| == |entries|
    ensures forall k :: 0 <= k < |entries| ==> us[k] == Put(entries[k].infinitive, VerbOf(entries[k]))
  {
    seq(|entries|, k requires 0 <= k < |entries| => Put(entries[k].infinitive, VerbOf(entries[k])))
  }

  /** The verb table after the entries are entered, in order, into `verbs`. */
  function Entered(verbs: map<string, Verb>, entries: seq<Entry>): map<string, Verb> {
    verbs + Assign(EntryUpdates(entries))
  }

  /** Every verb is filed under its own infinitive. */
  ghost predicate FiledByName(verbs: map<string, Verb>) {
    forall k :: k in verbs ==> verbs[k].infinitive == k
  }

  /** A property list as the lexicon writes it: the properties joined by
      commas. */
  function PropertyList(ps: seq<string>): string {
    Join(ps, ",")
  }

  /** A property the lexicon can carry: non-empty, no comma, no blank at
      either end. */
  predicate WritableProperty(p: string) {
    p != [] && ',' !in p && !IsSpace(p[0]) && !IsSpace(p[|p| - 1])
  }

  /** Reading a written property list gives the properties back. */
  lemma PropertiesOfList(ps: seq<string>)
    requires forall k :: 0 <= k < |ps| ==> WritableProperty(ps[k])
    ensures PropertiesOf(PropertyList(ps)) == ps
  {
    if ps != [] {
      SplitJoin(ps, ',');
      assert Join(ps, ",") != [] by {
        JoinNonEmpty(ps);
      }
      forall k | 0 <= k < |ps|
        ensures Strip(ps[k]) == ps[k]
      {
        StripTrimmed(ps[k]);
      }
    }
  }

  lemma {:induction false} JoinNonEmpty(ps: seq<string>)
    requires |ps| >= 1 && ps[0] != []
    ensures Join(ps, ",") != []
  {
  }

  /** A property list ending with a comma has an empty last property. */
  lemma TrailingCommaGivesEmptyProperty(p: string)
    requires WritableProperty(p)
    ensures PropertiesOf(p + ",") == [p, ""]
  {
    assert Join([p, ""], ",") == p + "," by {
      assert [p, ""][1..] == [""];
    }
    SplitJoin([p, ""], ',');
    StripTrimmed(p);
    StripTrimmed("");
  }

  /** Entering one more entry files its verb under its infinitive. */
  lemma EnteredSnoc(verbs: map<string, Verb>, entries: seq<Entry>, i: nat)
    requires i < |entries|
    ensures Entered(verbs, entries[..i + 1]) == Entered(verbs, entries[..i])[entries[i].infinitive := VerbOf(entries[i])]
  {
    var us := EntryUpdates(entries[..i + 1]);
    assert us[..i] == EntryUpdates(entries[..i]);
    AssignSnoc(us, i);
  }

  /** Entering a verb files it under its infinitive, which keeps every verb
      filed under its own name. */
  lemma EnteredFiledByName(verbs: map<string, Verb>, entries: seq<Entry>)
    requires FiledByName(verbs)
    ensures FiledByName(Entered(verbs, entries))
  {
    var us := EntryUpdates(entries);
    forall k | k in Entered(verbs, entries)
      ensures Entered(verbs, entries)[k].infinitive == k
    {
      if k in Assign(us) {
        AssignKeys(us, k);
        var i :| 0 <= i < |us| && us[i].Put? && us[i].key == k;
        var last := LastFor(us, k, i);
        AssignLast(us, last);
      }
    }
  }

  /** After entering, a name is known exactly when it was known before or
      some entry names it. */
  lemma EnteredKeys(verbs: map<string, Verb>, entries: seq<Entry>, name: string)
    ensures name in Entered(verbs, entries) <==>
      name in verbs || exists i :: 0 <= i < |entries| && entries[i].infinitive == name
  {
    AssignKeys(EntryUpdates(entries), name);
  }

  /** An entry's verb is the one filed under its name unless a later entry
      has the same name. */
  lemma EnteredLast(verbs: map<string, Verb>, entries: seq<Entry>, i: nat)
    requires i < |entries|
    requires forall j :: i < j < |entries| ==> entries[j].infinitive != entries[i].infinitive
    ensures entries[i].infinitive in Entered(verbs, entries)
    ensures Entered(verbs, entries)[entries[i].infinitive] == VerbOf(entries[i])
  {
    AssignLast(EntryUpdates(entries), i);
  }

  /** Loading two lexicons one after the other is loading their entries
      together. */
  lemma EnteredTwice(verbs: map<string, Verb>, first: seq<Entry>, second: seq<Entry>)
    ensures Entered(Entered(verbs, first), second) == Entered(verbs, first + second)
  {
    assert EntryUpdates(first + second) == EntryUpdates(first) + EntryUpdates(second);
    AssignAppend(EntryUpdates(first), EntryUpdates(second));
  }
}
