/** Recognizers for the stem-definition shapes that the parser finds with
    regular expressions (morpheus.py:127, 165 and 173):

      NAME \s* = \s* infinitive adjusted: \s* ( LIST )
      NAME \s* = \s* BASE \s+ adjusted: \s* ( LIST )

    where NAME and BASE are `\w+(?:-\w+)?` (just `\w+` for the participle
    search at line 127) and LIST is the text up to the first `)`, which may
    not cross a newline. None of these patterns can gain anything by
    backtracking (each repeated class is followed by a character outside
    it), so scanning greedily from left to right decides them. */
module StemLines {
  import opened Wrappers
  import opened Text

  const InfinitiveKeyword: string := "infinitive adjusted:"
  const AdjustedKeyword: string := "adjusted:"

  datatype InfinitiveDef = InfinitiveDef(name: string, adjustments: string)
  datatype DerivedDef = DerivedDef(name: string, base: string, adjustments: string)

  /** A stem name as `\w+(?:-\w+)?` spells it. */
  predicate IsStemName(x: string) {
    IsWord(x) || exists k :: 0 < k < |x| - 1 && x[k] == '-' && IsWord(x[..k]) && IsWord(x[k + 1..])
  }

  /** The end of the run of `\w` characters starting at `i`. */
  function WordEnd(s: string, i: nat): (j: nat)
    requires i <= |s|
    decreases |s| - i
    ensures i <= j <= |s|
  {
    if i == |s| || !IsWordChar(s[i]) then i else WordEnd(s, i + 1)
  }

  /** The end of the run of whitespace starting at `i` (`\s*`). */
  function SpaceEnd(s: string, i: nat): (j: nat)
    requires i <= |s|
    decreases |s| - i
    ensures i <= j <= |s|
  {
    if i == |s| || !IsSpace(s[i]) then i else SpaceEnd(s, i + 1)
  }

  /** Where a name starting at `i` ends: `\w+`, or `\w+(?:-\w+)?` when
      `hyphenated`. */
  function NameEnd(s: string, i: nat, hyphenated: bool): (r: Option<nat>)
    requires i <= |s|
    ensures r.Some? ==> i < r.value <= |s|
  {
    var w := WordEnd(s, i);
    if w == i then None
    else if hyphenated && w < |s| && s[w] == '-' && WordEnd(s, w + 1) > w + 1 then Some(WordEnd(s, w + 1))
    else Some(w)
  }

  /** The first `)` at or after `i`, unless a newline comes first (the
      lazy `(.*?)\)`, whose `.` does not match a newline). */
  function CloseParen(s: string, i: nat): (r: Option<nat>)
    requires i <= |s|
    decreases |s| - i
    ensures r.Some? ==> i <= r.value < |s| && s[r.value] == ')'
  {
    if i == |s| || s[i] == '\n' then None
    else if s[i] == ')' then Some(i)
    else CloseParen(s, i + 1)
  }

  /** `\s*=\s*` matched at `n`: where what follows the `=` starts. */
  function AfterEquals(s: string, n: nat): (r: Option<nat>)
    requires n <= |s|
    ensures r.Some? ==> n < r.value <= |s|
  {
    var eq := SpaceEnd(s, n);
    if eq == |s| || s[eq] != '=' then None else Some(SpaceEnd(s, eq + 1))
  }

  /** `\s*\((.*?)\)` matched at `k`: the text between the parentheses. */
  function ParenList(s: string, k: nat): Option<string>
    requires k <= |s|
  {
    var paren := SpaceEnd(s, k);
    if paren == |s| || s[paren] != '(' then None
    else
      match CloseParen(s, paren + 1)
      case None => None
      case Some(close) => Some(s[paren + 1..close])
  }

  /** `NAME\s*=\s*infinitive adjusted:\s*\((.*?)\)` matched at `i`. */
  function InfinitiveDefAt(s: string, i: nat, hyphenated: bool): Option<InfinitiveDef>
    requires i <= |s|
  {
    match NameEnd(s, i, hyphenated)
    case None => None
    case Some(n) =>
      match AfterEquals(s, n)
      case None => None
      case Some(kw) =>
        if !OccursAt(s, InfinitiveKeyword, kw) then None
        else
          match ParenList(s, kw + |InfinitiveKeyword|)
          case None => None
          case Some(list) => Some(InfinitiveDef(s[i..n], list))
  }

  /** `re.search` of `(\w+)\s*=\s*infinitive adjusted:\s*\((.*?)\)`: the
      match at the leftmost position, at or after `i`, where there is one. */
  function SearchInfinitiveDef(s: string, i: nat): Option<InfinitiveDef>
    requires i <= |s|
    decreases |s| - i
  {
    match InfinitiveDefAt(s, i, false)
    case Some(d) => Some(d)
    case None => if i == |s| then None else SearchInfinitiveDef(s, i + 1)
  }

  /** `re.match` of `NAME\s*=\s*BASE\s+adjusted:\s*\((.*?)\)`. */
  function DerivedDefAt(s: string): Option<DerivedDef> {
    match NameEnd(s, 0, true)
    case None => None
    case Some(n) =>
      match AfterEquals(s, n)
      case None => None
      case Some(b) =>
        match NameEnd(s, b, true)
        case None => None
        case Some(bEnd) =>
          var kw := SpaceEnd(s, bEnd);
          if kw == bEnd || !OccursAt(s, AdjustedKeyword, kw) then None
          else
            match ParenList(s, kw + |AdjustedKeyword|)
            case None => None
            case Some(list) => Some(DerivedDef(s[..n], s[b..bEnd], list))
  }

  lemma {:induction false} WordEndIs(s: string, i: nat, j: nat)
    requires i <= j <= |s|
    requires forall k :: i <= k < j ==> IsWordChar(s[k])
    requires j == |s| || !IsWordChar(s[j])
    ensures WordEnd(s, i) == j
    decreases j - i
  {
    if i < j {
      WordEndIs(s, i + 1, j);
    }
  }

  lemma {:induction false} SpaceEndIs(s: string, i: nat, j: nat)
    requires i <= j <= |s|
    requires forall k :: i <= k < j ==> IsSpace(s[k])
    requires j == |s| || !IsSpace(s[j])
    ensures SpaceEnd(s, i) == j
    decreases j - i
  {
    if i < j {
      SpaceEndIs(s, i + 1, j);
    }
  }

  /** A word followed by a character that cannot continue it ends there. */
  lemma WordEndOfWord(s: string, i: nat, w: string)
    requires IsWord(w)
    requires i + |w| <= |s| && s[i..i + |w|] == w
    requires i + |w| == |s| || !IsWordChar(s[i + |w|])
    ensures WordEnd(s, i) == i + |w|
  {
    forall k | i <= k < i + |w|
      ensures IsWordChar(s[k])
    {
      assert s[k] == s[i..i + |w|][k - i];
    }
    WordEndIs(s, i, i + |w|);
  }

  lemma NameEndOfWord(s: string, i: nat, x: string, hyphenated: bool)
    requires IsWord(x)
    requires i + |x| <= |s| && s[i..i + |x|] == x
    requires i + |x| == |s| || (!IsWordChar(s[i + |x|]) && s[i + |x|] != '-')
    ensures NameEnd(s, i, hyphenated) == Some(i + |x|)
  {
    WordEndOfWord(s, i, x);
  }

  lemma NameEndOfHyphenated(s: string, i: nat, x: string, k: nat)
    requires 0 < k < |x| - 1 && x[k] == '-' && IsWord(x[..k]) && IsWord(x[k + 1..])
    requires i + |x| <= |s| && s[i..i + |x|] == x
    requires i + |x| == |s| || (!IsWordChar(s[i + |x|]) && s[i + |x|] != '-')
    ensures NameEnd(s, i, true) == Some(i + |x|)
  {
    assert s[i..i + k] == x[..k];
    assert s[i + k] == x[k];
    WordEndOfWord(s, i, x[..k]);
    assert s[i + k + 1..i + |x|] == x[k + 1..];
    WordEndOfWord(s, i + k + 1, x[k + 1..]);
  }

  /** A stem name followed by a character that cannot continue it is read
      back whole. */
  lemma NameEndOfStemName(s: string, i: nat, x: string, hyphenated: bool)
    requires if hyphenated then IsStemName(x) else IsWord(x)
    requires i + |x| <= |s| && s[i..i + |x|] == x
    requires i + |x| == |s| || (!IsWordChar(s[i + |x|]) && s[i + |x|] != '-')
    ensures NameEnd(s, i, hyphenated) == Some(i + |x|)
  {
    if IsWord(x) {
      NameEndOfWord(s, i, x, hyphenated);
    } else {
      var k :| 0 < k < |x| - 1 && x[k] == '-' && IsWord(x[..k]) && IsWord(x[k + 1..]);
      NameEndOfHyphenated(s, i, x, k);
    }
  }

  /** The rendered line `x = infinitive adjusted: (list)`, then anything. */
  function InfinitiveLine(x: string, list: string): string {
    x + " = " + InfinitiveKeyword + " (" + list + ")"
  }

  /** The rendered line `x = base adjusted: (list)`. */
  function DerivedLine(x: string, base: string, list: string): string {
    x + " = " + base + " " + AdjustedKeyword + " (" + list + ")"
  }

  lemma {:induction false} CloseParenIs(s: string, i: nat, j: nat)
    requires i <= j < |s| && s[j] == ')'
    requires forall k :: i <= k < j ==> s[k] != ')' && s[k] != '\n'
    decreases j - i
    ensures CloseParen(s, i) == Some(j)
  {
    if i < j {
      CloseParenIs(s, i + 1, j);
    }
  }

  /** A list without `)` or newline, closed by `)`, is read back whole. */
  lemma CloseParenOfList(s: string, i: nat, list: string)
    requires ')' !in list && '\n' !in list
    requires i + |list| < |s| && s[i..i + |list|] == list && s[i + |list|] == ')'
    ensures CloseParen(s, i) == Some(i + |list|)
  {
    forall k | i <= k < i + |list|
      ensures s[k] != ')' && s[k] != '\n'
    {
      assert s[k] == list[k - i];
    }
    CloseParenIs(s, i, i + |list|);
  }

  /** The steps of the base pattern, taken one at a time. */
  lemma InfinitiveDefAtIs(s: string, i: nat, hyphenated: bool, n: nat, kw: nat, list: string)
    requires i <= |s|
    requires NameEnd(s, i, hyphenated) == Some(n)
    requires AfterEquals(s, n) == Some(kw)
    requires OccursAt(s, InfinitiveKeyword, kw)
    requires ParenList(s, kw + |InfinitiveKeyword|) == Some(list)
    ensures InfinitiveDefAt(s, i, hyphenated) == Some(InfinitiveDef(s[i..n], list))
  {
  }

  /** A name at the start of a text, followed by a space, ends there. */
  lemma NameBeforeSpace(s: string, x: string, hyphenated: bool)
    requires if hyphenated then IsStemName(x) else IsWord(x)
    requires |x| < |s| && s[..|x|] == x && s[|x|] == ' '
    ensures NameEnd(s, 0, hyphenated) == Some(|x|)
  {
    assert s[0..|x|] == x;
    assert !IsWordChar(' ');
    NameEndOfStemName(s, 0, x, hyphenated);
  }

  /** A spaced `=` after position `n`, followed by a non-space. */
  lemma AfterEqualsOf(s: string, n: nat)
    requires n + 4 <= |s|
    requires s[n] == ' ' && s[n + 1] == '=' && s[n + 2] == ' ' && !IsSpace(s[n + 3])
    ensures AfterEquals(s, n) == Some(n + 3)
  {
    assert !IsSpace('=');
    SpaceEndIs(s, n, n + 1);
    SpaceEndIs(s, n + 2, n + 3);
  }

  /** ` (list)` at position `k`, where the list holds no `)` and no newline. */
  lemma ParenListOf(s: string, k: nat, list: string)
    requires ')' !in list && '\n' !in list
    requires k + 3 + |list| <= |s|
    requires s[k] == ' ' && s[k + 1] == '('
    requires s[k + 2..k + 2 + |list|] == list && s[k + 2 + |list|] == ')'
    ensures ParenList(s, k) == Some(list)
  {
    assert !IsSpace('(');
    SpaceEndIs(s, k, k + 1);
    CloseParenOfList(s, k + 2, list);
  }

  /** A text laid out as `x = infinitive adjusted: (list)` character by
      character, where the name `x` ends at `n`, is recognized. */
  lemma InfinitiveDefOfLayout(s: string, n: nat, list: string, hyphenated: bool)
    requires NameEnd(s, 0, hyphenated) == Some(n)
    requires ')' !in list && '\n' !in list
    requires n + 26 + |list| <= |s|
    requires s[n] == ' ' && s[n + 1] == '=' && s[n + 2] == ' ' && s[n + 3] == 'i'
    requires OccursAt(s, InfinitiveKeyword, n + 3)
    requires s[n + 23] == ' ' && s[n + 24] == '('
    requires s[n + 25..n + 25 + |list|] == list && s[n + 25 + |list|] == ')'
    ensures InfinitiveDefAt(s, 0, hyphenated) == Some(InfinitiveDef(s[..n], list))
  {
    assert !IsSpace(s[n + 3]) by {
      assert !IsSpace('i');
    }
    AfterEqualsOf(s, n);
    ParenListOf(s, n + 23, list);
    InfinitiveDefAtIs(s, 0, hyphenated, n, n + 3, list);
    assert s[0..n] == s[..n];
  }

  /** Where the pieces of a rendered base definition sit: the name and the
      keyword. */
  lemma InfinitiveLineHead(x: string, list: string, rest: string)
    ensures var s := InfinitiveLine(x, list) + rest; var n := |x|;
      n + 26 + |list| <= |s| && s[..n] == x &&
      s[n] == ' ' && s[n + 1] == '=' && s[n + 2] == ' ' && s[n + 3] == 'i' &&
      OccursAt(s, InfinitiveKeyword, n + 3)
  {
    var s := InfinitiveLine(x, list) + rest;
    var n := |x|;
    var mid := " = " + InfinitiveKeyword + " (";
    assert s == x + (mid + list + ")" + rest);
    assert s[n..n + 25] == mid by {
      assert s == (x + mid) + (list + ")" + rest);
      assert s[..n + 25] == x + mid;
    }
    assert s[n] == mid[0] && s[n + 1] == mid[1] && s[n + 2] == mid[2] && s[n + 3] == mid[3];
    assert s[n + 3..n + 23] == mid[3..23];
  }

  /** Where the pieces of a rendered base definition sit: the list. */
  lemma InfinitiveLineList(x: string, list: string, rest: string)
    ensures var s := InfinitiveLine(x, list) + rest; var n := |x|;
      n + 26 + |list| <= |s| && s[n + 23] == ' ' && s[n + 24] == '(' &&
      s[n + 25..n + 25 + |list|] == list && s[n + 25 + |list|] == ')'
  {
    var s := InfinitiveLine(x, list) + rest;
    var n := |x|;
    var mid := " = " + InfinitiveKeyword + " (";
    var close := n + 25 + |list|;
    assert s == (x + mid + list + ")") + rest;
    assert s[..close + 1] == (x + mid) + list + ")";
    assert s[n + 23] == mid[23] && s[n + 24] == mid[24];
  }

  /** A rendered base definition is recognized, with its name and list. */
  lemma InfinitiveDefOfLine(x: string, list: string, rest: string, hyphenated: bool)
    requires if hyphenated then IsStemName(x) else IsWord(x)
    requires ')' !in list && '\n' !in list
    ensures InfinitiveDefAt(InfinitiveLine(x, list) + rest, 0, hyphenated) == Some(InfinitiveDef(x, list))
  {
    var s := InfinitiveLine(x, list) + rest;
    InfinitiveLineHead(x, list, rest);
    InfinitiveLineList(x, list, rest);
    NameBeforeSpace(s, x, hyphenated);
    InfinitiveDefOfLayout(s, |x|, list, hyphenated);
  }

  /** A leftmost search finds a rendered base definition at the start. */
  lemma SearchFindsLine(x: string, list: string, rest: string)
    requires IsWord(x)
    requires ')' !in list && '\n' !in list
    ensures SearchInfinitiveDef(InfinitiveLine(x, list) + rest, 0) == Some(InfinitiveDef(x, list))
  {
    InfinitiveDefOfLine(x, list, rest, false);
  }

  lemma WordCharNotSpace(c: char)
    requires IsWordChar(c)
    ensures !IsSpace(c)
  {
  }

  lemma StemNameNoSpace(b: string)
    requires IsStemName(b)
    ensures NoSpace(b)
  {
    forall m | 0 <= m < |b|
      ensures !IsSpace(b[m])
    {
      if IsWord(b) {
        WordCharNotSpace(b[m]);
      } else {
        var k :| 0 < k < |b| - 1 && b[k] == '-' && IsWord(b[..k]) && IsWord(b[k + 1..]);
        if m < k {
          assert b[m] == b[..k][m];
          WordCharNotSpace(b[m]);
        } else if m > k {
          assert b[m] == b[k + 1..][m - k - 1];
          WordCharNotSpace(b[m]);
        } else {
          assert !IsSpace('-');
        }
      }
    }
  }

  /** A stem name other than `infinitive` does not start the keyword
      `infinitive adjusted:` when a space follows it. */
  lemma NotInfinitiveKeyword(s: string, i: nat, b: string)
    requires IsStemName(b) && b != "infinitive"
    requires i + |b| < |s| && s[i..i + |b|] == b && s[i + |b|] == ' '
    ensures !OccursAt(s, InfinitiveKeyword, i)
  {
    StemNameNoSpace(b);
    var lit := InfinitiveKeyword;
    if |b| < 10 {
      assert lit[|b|] != ' ';
      assert !OccursAt(s, lit, i) by {
        if i + |lit| <= |s| {
          assert s[i..i + |lit|][|b|] == s[i + |b|];
        }
      }
    } else if |b| > 10 {
      assert lit[10] == ' ' && !IsSpace(b[10]);
      assert !OccursAt(s, lit, i) by {
        if i + |lit| <= |s| {
          assert s[i..i + |lit|][10] == s[i + 10] == b[10];
        }
      }
    } else {
      assert lit[..10] == "infinitive";
      assert !OccursAt(s, lit, i) by {
        if i + |lit| <= |s| {
          assert s[i..i + |lit|][..10] == s[i..i + 10] == b;
        }
      }
    }
  }

  lemma DerivedDefAtIs(s: string, n: nat, b: nat, bEnd: nat, list: string)
    requires NameEnd(s, 0, true) == Some(n)
    requires AfterEquals(s, n) == Some(b)
    requires NameEnd(s, b, true) == Some(bEnd)
    requires bEnd < |s| && SpaceEnd(s, bEnd) == bEnd + 1
    requires OccursAt(s, AdjustedKeyword, bEnd + 1)
    requires ParenList(s, bEnd + 1 + |AdjustedKeyword|) == Some(list)
    ensures DerivedDefAt(s) == Some(DerivedDef(s[..n], s[b..bEnd], list))
  {
  }

  /** The base pattern gives up on a text whose `=` is not followed by its
      keyword. */
  lemma InfinitiveDefAtRejects(s: string, n: nat, kw: nat)
    requires NameEnd(s, 0, true) == Some(n)
    requires AfterEquals(s, n) == Some(kw)
    requires !OccursAt(s, InfinitiveKeyword, kw)
    ensures InfinitiveDefAt(s, 0, true).None?
  {
  }

  /** A stem name inside a text, followed by a space, ends there. */
  lemma StemNameAt(s: string, b: nat, base: string)
    requires IsStemName(base)
    requires b + |base| < |s| && s[b..b + |base|] == base && s[b + |base|] == ' '
    ensures NameEnd(s, b, true) == Some(b + |base|)
    ensures !IsSpace(s[b])
  {
    StemNameNoSpace(base);
    assert s[b] == base[0];
    assert !IsWordChar(' ');
    NameEndOfStemName(s, b, base, true);
  }

  /** A text laid out as `x = base adjusted: (list)` character by character,
      where the name `x` ends at `n`, is recognized. */
  lemma DerivedDefOfLayout(s: string, n: nat, base: string, list: string)
    requires NameEnd(s, 0, true) == Some(n)
    requires IsStemName(base)
    requires ')' !in list && '\n' !in list
    requires n + |base| + 16 + |list| <= |s|
    requires s[n] == ' ' && s[n + 1] == '=' && s[n + 2] == ' '
    requires s[n + 3..n + 3 + |base|] == base
    requires s[n + 3 + |base|] == ' ' && s[n + 4 + |base|] == 'a'
    requires OccursAt(s, AdjustedKeyword, n + 4 + |base|)
    requires s[n + 13 + |base|] == ' ' && s[n + 14 + |base|] == '('
    requires s[n + 15 + |base|..n + 15 + |base| + |list|] == list && s[n + 15 + |base| + |list|] == ')'
    ensures DerivedDefAt(s) == Some(DerivedDef(s[..n], base, list))
    ensures base != "infinitive" ==> InfinitiveDefAt(s, 0, true).None?
  {
    var b := n + 3;
    var e := b + |base|;
    StemNameAt(s, b, base);
    AfterEqualsOf(s, n);
    assert SpaceEnd(s, e) == e + 1 by {
      assert !IsSpace('a');
      SpaceEndIs(s, e, e + 1);
    }
    ParenListOf(s, e + 10, list);
    DerivedDefAtIs(s, n, b, e, list);
    if base != "infinitive" {
      NotInfinitiveKeyword(s, b, base);
      InfinitiveDefAtRejects(s, n, b);
    }
  }

  /** A rendered derived definition is recognized by the derived pattern,
      and not by the base pattern unless its base is `infinitive`. */
  lemma DerivedDefOfLine(x: string, base: string, list: string)
    requires IsStemName(x) && IsStemName(base)
    requires ')' !in list && '\n' !in list
    ensures DerivedDefAt(DerivedLine(x, base, list)) == Some(DerivedDef(x, base, list))
    ensures base != "infinitive" ==> InfinitiveDefAt(DerivedLine(x, base, list), 0, true).None?
  {
    var s := DerivedLine(x, base, list);
    var n := |x|;
    var b := n + 3;
    var e := b + |base|;
    var tail := " " + AdjustedKeyword + " (";
    var close := e + 12 + |list|;
    assert |tail| == 12;
    assert s == (x + " = ") + base + tail + list + ")";
    assert s[..n] == x && s[n] == ' ' && s[n + 1] == '=' && s[n + 2] == ' ' by {
      assert s[..b] == x + " = ";
    }
    assert s[b..e] == base by {
      assert s[..e] == x + " = " + base;
    }
    assert s[e..e + 12] == tail by {
      assert s[..e + 12] == x + " = " + base + tail;
    }
    assert s[e + 12..close] == list && s[close] == ')' by {
      assert s[..close + 1] == x + " = " + base + tail + list + ")";
    }
    assert s[e] == ' ' && s[e + 10] == ' ' && s[e + 11] == '(' && s[e + 1] == 'a' by {
      assert s[e] == tail[0] && s[e + 10] == tail[10] && s[e + 11] == tail[11] && s[e + 1] == tail[1];
    }
    assert OccursAt(s, AdjustedKeyword, e + 1) by {
      assert s[e + 1..e + 10] == tail[1..10];
    }
    NameBeforeSpace(s, x, true);
    DerivedDefOfLayout(s, n, base, list);
  }

  /* ---------- What the recognizers accept ---------- */

  /** `NAME \s* = \s* KEY \s* ( LIST )` followed by anything, with the list
      stopping at the first `)` on its line. */
  predicate DefLayout(t: string, name: string, key: string, list: string, sp1: string, sp2: string, sp3: string, rest: string) {
    AllSpace(sp1) && AllSpace(sp2) && AllSpace(sp3) && ')' !in list && '\n' !in list &&
    t == name + (sp1 + ("=" + (sp2 + (key + (sp3 + ("(" + (list + (")" + rest))))))))
  }

  /** `NAME \s* = \s* infinitive adjusted: \s* ( LIST )` followed by anything. */
  predicate InfinitiveLayout(t: string, name: string, list: string, sp1: string, sp2: string, sp3: string, rest: string) {
    DefLayout(t, name, InfinitiveKeyword, list, sp1, sp2, sp3, rest)
  }

  /** `NAME \s* = \s* BASE \s+ adjusted: \s* ( LIST )` followed by anything. */
  predicate DerivedLayout(t: string, name: string, base: string, list: string,
                          sp1: string, sp2: string, sp3: string, sp4: string, rest: string) {
    sp3 != [] && AllSpace(sp3) && DefLayout(t, name, base + sp3 + AdjustedKeyword, list, sp1, sp2, sp4, rest)
  }

  lemma {:induction false} WordEndSound(s: string, i: nat)
    requires i <= |s|
    ensures forall k :: i <= k < WordEnd(s, i) ==> IsWordChar(s[k])
    decreases |s| - i
  {
    if i < |s| && IsWordChar(s[i]) {
      WordEndSound(s, i + 1);
    }
  }

  lemma {:induction false} SpaceEndSound(s: string, i: nat)
    requires i <= |s|
    ensures forall k :: i <= k < SpaceEnd(s, i) ==> IsSpace(s[k])
    decreases |s| - i
  {
    if i < |s| && IsSpace(s[i]) {
      SpaceEndSound(s, i + 1);
    }
  }

  lemma {:induction false} CloseParenSound(s: string, i: nat)
    requires i <= |s|
    ensures CloseParen(s, i).Some? ==>
      forall k :: i <= k < CloseParen(s, i).value ==> s[k] != ')' && s[k] != '\n'
    decreases |s| - i
  {
    if i < |s| && s[i] != '\n' && s[i] != ')' {
      CloseParenSound(s, i + 1);
    }
  }

  /** The name a name step reads is a `\w+`, or a `\w+(?:-\w+)?` when
      `hyphenated`. */
  lemma NameEndSound(s: string, i: nat, hyphenated: bool)
    requires i <= |s| && NameEnd(s, i, hyphenated).Some?
    ensures var n := NameEnd(s, i, hyphenated).value;
      if hyphenated then IsStemName(s[i..n]) else IsWord(s[i..n])
  {
    var w := WordEnd(s, i);
    WordEndSound(s, i);
    assert IsWord(s[i..w]) by {
      forall k | 0 <= k < w - i
        ensures IsWordChar(s[i..w][k])
      {
        assert s[i..w][k] == s[i + k];
      }
    }
    if hyphenated && w < |s| && s[w] == '-' && WordEnd(s, w + 1) > w + 1 {
      var v := WordEnd(s, w + 1);
      WordEndSound(s, w + 1);
      var x := s[i..v];
      var k := w - i;
      assert x[..k] == s[i..w];
      assert x[k] == '-';
      var tail := x[k + 1..];
      forall m | 0 <= m < |tail|
        ensures IsWordChar(tail[m])
      {
        assert tail[m] == s[w + 1 + m];
      }
      assert IsWord(x[..k]);
      assert |tail| == v - w - 1 > 0;
      assert IsWord(tail);
      assert 0 < k < |x| - 1 && x[k] == '-' && IsWord(x[..k]) && IsWord(x[k + 1..]);
    }
  }

  /** The steps a base definition recognized at `i` went through. */
  lemma InfinitiveDefSteps(s: string, i: nat, hyphenated: bool)
    requires i <= |s| && InfinitiveDefAt(s, i, hyphenated).Some?
    ensures NameEnd(s, i, hyphenated).Some?
    ensures var n := NameEnd(s, i, hyphenated).value;
      AfterEquals(s, n).Some? && OccursAt(s, InfinitiveKeyword, AfterEquals(s, n).value) &&
      ParenList(s, AfterEquals(s, n).value + |InfinitiveKeyword|).Some? &&
      InfinitiveDefAt(s, i, hyphenated).value ==
        InfinitiveDef(s[i..n], ParenList(s, AfterEquals(s, n).value + |InfinitiveKeyword|).value)
  {
  }

  /** The steps a derived definition went through. */
  lemma DerivedDefSteps(s: string)
    requires DerivedDefAt(s).Some?
    ensures NameEnd(s, 0, true).Some?
    ensures var n := NameEnd(s, 0, true).value;
      AfterEquals(s, n).Some? && NameEnd(s, AfterEquals(s, n).value, true).Some? &&
      var b := AfterEquals(s, n).value;
      var bEnd := NameEnd(s, b, true).value;
      var kw := SpaceEnd(s, bEnd);
      kw != bEnd && OccursAt(s, AdjustedKeyword, kw) &&
      ParenList(s, kw + |AdjustedKeyword|).Some? &&
      DerivedDefAt(s).value == DerivedDef(s[..n], s[b..bEnd], ParenList(s, kw + |AdjustedKeyword|).value)
  {
  }

  /** What an `=` step reads: blanks, `=`, blanks. */
  lemma AfterEqualsSound(s: string, n: nat)
    requires n <= |s| && AfterEquals(s, n).Some?
    ensures var eq := SpaceEnd(s, n);
      eq < |s| && s[eq] == '=' && AfterEquals(s, n).value == SpaceEnd(s, eq + 1) &&
      (forall k :: n <= k < eq ==> IsSpace(s[k])) &&
      (forall k :: eq + 1 <= k < SpaceEnd(s, eq + 1) ==> IsSpace(s[k]))
  {
    SpaceEndSound(s, n);
    SpaceEndSound(s, SpaceEnd(s, n) + 1);
  }

  /** What a parenthesised-list step reads: blanks, `(`, a list without `)`
      or newline, and `)`. */
  lemma ParenListSound(s: string, k: nat)
    requires k <= |s| && ParenList(s, k).Some?
    ensures var paren := SpaceEnd(s, k);
      paren < |s| && s[paren] == '(' && CloseParen(s, paren + 1).Some? &&
      var close := CloseParen(s, paren + 1).value;
      ParenList(s, k).value == s[paren + 1..close] && close < |s| && s[close] == ')' &&
      (forall m :: k <= m < paren ==> IsSpace(s[m])) &&
      (forall m :: paren + 1 <= m < close ==> s[m] != ')' && s[m] != '\n')
  {
    SpaceEndSound(s, k);
    CloseParenSound(s, SpaceEnd(s, k) + 1);
  }

  /** A text from `a` on is the piece up to `b` followed by the rest. */
  lemma PieceAt(t: string, a: nat, b: nat, p: string)
    requires a <= b <= |t| && t[a..b] == p
    ensures t[a..] == p + t[b..]
  {
  }

  /** The list and what follows it: `( LIST ) rest`. */
  lemma ListAssembly(t: string, paren: nat, close: nat)
    requires paren < close < |t| && t[paren] == '(' && t[close] == ')'
    ensures t[paren..] == "(" + (t[paren + 1..close] + (")" + t[close + 1..]))
  {
    assert t[close..close + 1] == ")";
    PieceAt(t, close, close + 1, ")");
    PieceAt(t, paren + 1, close, t[paren + 1..close]);
    assert t[paren..paren + 1] == "(";
    PieceAt(t, paren, paren + 1, "(");
  }

  /** `KEY \s* ( LIST ) rest` from `kw` on. */
  lemma KeyAssembly(t: string, kw: nat, key: string, paren: nat, close: nat)
    requires kw + |key| <= paren < close < |t|
    requires t[kw..kw + |key|] == key && t[paren] == '(' && t[close] == ')'
    ensures t[kw..] == key + (t[kw + |key|..paren] + ("(" + (t[paren + 1..close] + (")" + t[close + 1..]))))
  {
    var after := kw + |key|;
    ListAssembly(t, paren, close);
    PieceAt(t, after, paren, t[after..paren]);
    PieceAt(t, kw, after, key);
  }

  /** `NAME \s* = \s* KEY \s* ( LIST ) rest` from `i` on, cut at the
      positions the recognizers reach. */
  lemma DefAssembly(t: string, i: nat, n: nat, eq: nat, kw: nat, key: string, paren: nat, close: nat)
    requires i <= n <= eq && eq + 1 <= kw && kw + |key| <= paren < close < |t|
    requires t[eq] == '=' && t[kw..kw + |key|] == key && t[paren] == '(' && t[close] == ')'
    ensures t[i..] == t[i..n] + (t[n..eq] + ("=" + (t[eq + 1..kw] + (key +
      (t[kw + |key|..paren] + ("(" + (t[paren + 1..close] + (")" + t[close + 1..]))))))))
  {
    KeyAssembly(t, kw, key, paren, close);
    PieceAt(t, eq + 1, kw, t[eq + 1..kw]);
    assert t[eq..eq + 1] == "=";
    PieceAt(t, eq, eq + 1, "=");
    PieceAt(t, n, eq, t[n..eq]);
    PieceAt(t, i, n, t[i..n]);
  }

  lemma SpaceSlice(t: string, a: nat, b: nat)
    requires a <= b <= |t| && forall k :: a <= k < b ==> IsSpace(t[k])
    ensures AllSpace(t[a..b])
  {
    forall k | 0 <= k < b - a
      ensures IsSpace(t[a..b][k])
    {
      assert t[a..b][k] == t[a + k];
    }
  }

  lemma ListSlice(t: string, a: nat, b: nat)
    requires a <= b <= |t| && forall k :: a <= k < b ==> t[k] != ')' && t[k] != '\n'
    ensures ')' !in t[a..b] && '\n' !in t[a..b]
  {
    forall m | 0 <= m < b - a
      ensures t[a..b][m] != ')' && t[a..b][m] != '\n'
    {
      assert t[a..b][m] == t[a + m];
    }
  }

  /** A text cut where the recognizers cut it has the layout of a
      definition. */
  lemma LayoutOfCuts(t: string, i: nat, n: nat, eq: nat, kw: nat, key: string, paren: nat, close: nat)
    requires i <= n <= eq && eq + 1 <= kw && kw + |key| <= paren < close < |t|
    requires forall k :: n <= k < eq ==> IsSpace(t[k])
    requires t[eq] == '=' && forall k :: eq + 1 <= k < kw ==> IsSpace(t[k])
    requires t[kw..kw + |key|] == key
    requires forall k :: kw + |key| <= k < paren ==> IsSpace(t[k])
    requires t[paren] == '(' && t[close] == ')'
    requires forall k :: paren + 1 <= k < close ==> t[k] != ')' && t[k] != '\n'
    ensures DefLayout(t[i..], t[i..n], key, t[paren + 1..close], t[n..eq], t[eq + 1..kw], t[kw + |key|..paren], t[close + 1..])
  {
    SpaceSlice(t, n, eq);
    SpaceSlice(t, eq + 1, kw);
    SpaceSlice(t, kw + |key|, paren);
    ListSlice(t, paren + 1, close);
    DefAssembly(t, i, n, eq, kw, key, paren, close);
  }

  /** Where an `=` step at `n` and a list after a key cut the text. */
  lemma DefCuts(s: string, n: nat, key: string) returns (eq: nat, kw: nat, paren: nat, close: nat)
    requires n <= |s| && AfterEquals(s, n).Some? && OccursAt(s, key, AfterEquals(s, n).value)
    requires ParenList(s, AfterEquals(s, n).value + |key|).Some?
    ensures n <= eq && eq + 1 <= kw && kw + |key| <= paren < close < |s|
    ensures forall k :: n <= k < eq ==> IsSpace(s[k])
    ensures s[eq] == '=' && forall k :: eq + 1 <= k < kw ==> IsSpace(s[k])
    ensures s[kw..kw + |key|] == key
    ensures forall k :: kw + |key| <= k < paren ==> IsSpace(s[k])
    ensures s[paren] == '(' && s[close] == ')'
    ensures forall k :: paren + 1 <= k < close ==> s[k] != ')' && s[k] != '\n'
    ensures AfterEquals(s, n) == Some(kw)
    ensures ParenList(s, AfterEquals(s, n).value + |key|) == Some(s[paren + 1..close])
  {
    eq := SpaceEnd(s, n);
    kw := AfterEquals(s, n).value;
    AfterEqualsSound(s, n);
    ParenListSound(s, kw + |key|);
    paren := SpaceEnd(s, kw + |key|);
    close := CloseParen(s, paren + 1).value;
  }

  /** A name, an `=` step and a parenthesised list around a key that
      occurs where the `=` step ends have the layout of a definition. */
  lemma DefLayoutOfSteps(s: string, i: nat, hyphenated: bool, key: string)
    returns (list: string, sp1: string, sp2: string, sp3: string, rest: string)
    requires i <= |s| && NameEnd(s, i, hyphenated).Some?
    requires var n := NameEnd(s, i, hyphenated).value;
      AfterEquals(s, n).Some? && OccursAt(s, key, AfterEquals(s, n).value) &&
      ParenList(s, AfterEquals(s, n).value + |key|).Some?
    ensures ParenList(s, AfterEquals(s, NameEnd(s, i, hyphenated).value).value + |key|) == Some(list)
    ensures DefLayout(s[i..], s[i..NameEnd(s, i, hyphenated).value], key, list, sp1, sp2, sp3, rest)
  {
    var n := NameEnd(s, i, hyphenated).value;
    var eq, kw, paren, close := DefCuts(s, n, key);
    LayoutOfCuts(s, i, n, eq, kw, key, paren, close);
    list, sp1, sp2, sp3, rest := s[paren + 1..close], s[n..eq], s[eq + 1..kw], s[kw + |key|..paren], s[close + 1..];
  }

  /** Whatever the base pattern recognizes has its shape: a name, optional
      blanks, `=`, optional blanks, the keyword, optional blanks, and the
      parenthesised list, which holds no `)` and no newline. */
  lemma InfinitiveDefSound(s: string, i: nat, hyphenated: bool)
    requires i <= |s| && InfinitiveDefAt(s, i, hyphenated).Some?
    ensures var d := InfinitiveDefAt(s, i, hyphenated).value;
      (if hyphenated then IsStemName(d.name) else IsWord(d.name)) &&
      exists sp1, sp2, sp3, rest :: InfinitiveLayout(s[i..], d.name, d.adjustments, sp1, sp2, sp3, rest)
  {
    InfinitiveDefSteps(s, i, hyphenated);
    NameEndSound(s, i, hyphenated);
    var list, sp1, sp2, sp3, rest := DefLayoutOfSteps(s, i, hyphenated, InfinitiveKeyword);
    var d := InfinitiveDefAt(s, i, hyphenated).value;
    assert InfinitiveLayout(s[i..], d.name, d.adjustments, sp1, sp2, sp3, rest);
  }

  /** The base name and the blanks after it, with the keyword that follows. */
  lemma KeyOfBase(s: string, b: nat, bEnd: nat, kw: nat)
    requires b <= bEnd <= kw && OccursAt(s, AdjustedKeyword, kw)
    ensures s[b..kw + |AdjustedKeyword|] == s[b..bEnd] + s[bEnd..kw] + AdjustedKeyword
  {
    assert s[b..kw + |AdjustedKeyword|] == s[b..bEnd] + s[bEnd..kw] + s[kw..kw + |AdjustedKeyword|];
  }

  /** The steps of a derived definition give its layout. */
  lemma DerivedLayoutOfSteps(s: string, n: nat, b: nat, bEnd: nat)
    returns (sp1: string, sp2: string, sp3: string, sp4: string, rest: string)
    requires NameEnd(s, 0, true) == Some(n) && AfterEquals(s, n) == Some(b) && NameEnd(s, b, true) == Some(bEnd)
    requires var kw := SpaceEnd(s, bEnd);
      kw != bEnd && OccursAt(s, AdjustedKeyword, kw) && ParenList(s, kw + |AdjustedKeyword|).Some?
    ensures var kw := SpaceEnd(s, bEnd);
      DerivedLayout(s, s[..n], s[b..bEnd], ParenList(s, kw + |AdjustedKeyword|).value, sp1, sp2, sp3, sp4, rest)
  {
    var kw := SpaceEnd(s, bEnd);
    SpaceEndSound(s, bEnd);
    SpaceSlice(s, bEnd, kw);
    var after := kw + |AdjustedKeyword|;
    KeyOfBase(s, b, bEnd, kw);
    var key := s[b..after];
    assert OccursAt(s, key, b);
    var list;
    list, sp1, sp2, sp4, rest := DefLayoutOfSteps(s, 0, true, key);
    sp3 := s[bEnd..kw];
    assert s[0..] == s && s[0..n] == s[..n];
  }

  /** Whatever the derived pattern recognizes has its shape: a name,
      optional blanks, `=`, optional blanks, a base name, at least one
      blank, `adjusted:`, optional blanks and the parenthesised list. */
  lemma DerivedDefSound(s: string)
    requires DerivedDefAt(s).Some?
    ensures var d := DerivedDefAt(s).value;
      IsStemName(d.name) && IsStemName(d.base) &&
      exists sp1, sp2, sp3, sp4, rest :: DerivedLayout(s, d.name, d.base, d.adjustments, sp1, sp2, sp3, sp4, rest)
  {
    DerivedDefSteps(s);
    NameEndSound(s, 0, true);
    var n := NameEnd(s, 0, true).value;
    var b := AfterEquals(s, n).value;
    NameEndSound(s, b, true);
    var bEnd := NameEnd(s, b, true).value;
    var sp1, sp2, sp3, sp4, rest := DerivedLayoutOfSteps(s, n, b, bEnd);
    var d := DerivedDefAt(s).value;
    assert DerivedLayout(s, d.name, d.base, d.adjustments, sp1, sp2, sp3, sp4, rest);
  }

  /** A search that finds a definition finds it at the leftmost position
      where the base pattern matches. */
  lemma {:induction false} SearchFindsLeftmost(s: string, i: nat)
    requires i <= |s| && SearchInfinitiveDef(s, i).Some?
    ensures exists j ::
      i <= j <= |s| && InfinitiveDefAt(s, j, false) == SearchInfinitiveDef(s, i) &&
      forall k :: i <= k < j ==> InfinitiveDefAt(s, k, false).None?
    decreases |s| - i
  {
    if InfinitiveDefAt(s, i, false).None? {
      SearchFindsLeftmost(s, i + 1);
      var j :| i + 1 <= j <= |s| && InfinitiveDefAt(s, j, false) == SearchInfinitiveDef(s, i + 1) &&
        forall k :: i + 1 <= k < j ==> InfinitiveDefAt(s, k, false).None?;
      assert forall k :: i <= k < j ==> InfinitiveDefAt(s, k, false).None?;
    } else {
      assert InfinitiveDefAt(s, i, false) == SearchInfinitiveDef(s, i);
    }
  }

  /** A search that finds nothing finds nothing at any position. */
  lemma {:induction false} SearchFailsEverywhere(s: string, i: nat)
    requires i <= |s| && SearchInfinitiveDef(s, i).None?
    ensures forall k :: i <= k <= |s| ==> InfinitiveDefAt(s, k, false).None?
    decreases |s| - i
  {
    if i < |s| {
      SearchFailsEverywhere(s, i + 1);
    }
  }

  /** The search finds the leftmost position at or after `i` where the base
      pattern matches, and finds nothing exactly when it matches nowhere. */
  lemma SearchInfinitiveDefSound(s: string, i: nat)
    requires i <= |s|
    ensures SearchInfinitiveDef(s, i).Some? ==>
      exists j :: i <= j <= |s| && InfinitiveDefAt(s, j, false) == SearchInfinitiveDef(s, i) &&
        forall k :: i <= k < j ==> InfinitiveDefAt(s, k, false).None?
    ensures SearchInfinitiveDef(s, i).None? ==> forall k :: i <= k <= |s| ==> InfinitiveDefAt(s, k, false).None?
  {
    if SearchInfinitiveDef(s, i).Some? {
      SearchFindsLeftmost(s, i);
    } else {
      SearchFailsEverywhere(s, i);
    }
  }

}
