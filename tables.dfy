/** Dictionaries filled by a sequence of assignments `d[key] = value`, the
    way the engine fills its verb table, the forms of a tense and the
    tenses of a conjugation: a later assignment to a key overwrites an
    earlier one. */
module Tables {
  /** One step of filling a dictionary: leave it, or assign a key. */
  datatype Update<V> = Keep | Put(key: string, value: V)

  /** The dictionary the updates fill, starting from an empty one. */
  function Assign<V>(us: seq<Update<V>>): map<string, V>
    decreases |us|
  {
    if us == [] then map[]
    else
      var m := Assign(us[..|us| - 1]);
      var u := us[|us| - 1];
      if u.Put? then m[u.key := u.value] else m
  }

  /** One more update applied to the dictionary filled so far. */
  lemma AssignSnoc<V>(us: seq<Update<V>>, i: nat)
    requires i < |us|
    ensures Assign(us[..i + 1]) == if us[i].Put? then Assign(us[..i])[us[i].key := us[i].value] else Assign(us[..i])
  {
    assert us[..i + 1][..i] == us[..i];
  }

  /** The keys are exactly the keys some update assigns. */
  lemma {:induction false} AssignKeys<V>(us: seq<Update<V>>, key: string)
    ensures key in Assign(us) <==> exists i :: 0 <= i < |us| && us[i].Put? && us[i].key == key
    decreases |us|
  {
    if us != [] {
      var init := us[..|us| - 1];
      AssignKeys(init, key);
      if key in Assign(init) {
        var i :| 0 <= i < |init| && init[i].Put? && init[i].key == key;
        assert us[i] == init[i];
      }
      if exists i :: 0 <= i < |us| && us[i].Put? && us[i].key == key {
        var i :| 0 <= i < |us| && us[i].Put? && us[i].key == key;
        if i < |init| {
          assert init[i] == us[i];
        }
      }
    }
  }

  /** The last position at or after `i` whose update assigns `key`. */
  ghost function LastFor<V>(us: seq<Update<V>>, key: string, i: nat): (j: nat)
    requires i < |us| && us[i].Put? && us[i].key == key
    ensures i <= j < |us| && us[j].Put? && us[j].key == key
    ensures forall k :: j < k < |us| ==> !(us[k].Put? && us[k].key == key)
    decreases |us| - i
  {
    if exists k :: i < k < |us| && us[k].Put? && us[k].key == key then
      var k :| i < k < |us| && us[k].Put? && us[k].key == key;
      LastFor(us, key, k)
    else i
  }

  /** A key holds the value of the last update that assigns it. */
  lemma {:induction false} AssignLast<V>(us: seq<Update<V>>, i: nat)
    requires i < |us| && us[i].Put?
    requires forall j :: i < j < |us| ==> !(us[j].Put? && us[j].key == us[i].key)
    ensures us[i].key in Assign(us) && Assign(us)[us[i].key] == us[i].value
    decreases |us|
  {
    if i < |us| - 1 {
      var init := us[..|us| - 1];
      assert init[i] == us[i];
      forall j | i < j < |init|
        ensures !(init[j].Put? && init[j].key == init[i].key)
      {
        assert init[j] == us[j];
      }
      AssignLast(init, i);
    }
  }

  /** Filling from two runs of updates is filling from the first and then
      letting the second overwrite. */
  lemma {:induction false} AssignAppend<V>(us: seq<Update<V>>, vs: seq<Update<V>>)
    ensures Assign(us + vs) == Assign(us) + Assign(vs)
    decreases |vs|
  {
    if vs == [] {
      assert us + vs == us;
    } else {
      var init := vs[..|vs| - 1];
      AssignAppend(us, init);
      assert (us + vs)[..|us + vs| - 1] == us + init;
      assert (us + vs)[|us + vs| - 1] == vs[|vs| - 1];
    }
  }
}
