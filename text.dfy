/** The Python string builtins the rule interpreter relies on, as functions
    on `seq<char>`: `str.isspace`, the regular-expression classes `\s` and
    `\w`, `in`, `startswith`, `endswith`, `strip`, `lstrip(c)`, `rstrip(c)`,
    `split(sep)`, `split()`, `join` and `replace`. */
module Text {
  import opened Wrappers

  /** The characters Python's `str.isspace` accepts; also what `\s` and the
      argument-less `strip()`/`split()` treat as whitespace. */
  const Whitespace: set<char> := {
    ' ', '\t', '\n', '\r', '\U{B}', '\U{C}', '\U{1C}', '\U{1D}', '\U{1E}', '\U{1F}',
    '\U{85}', '\U{A0}', '\U{1680}', '\U{2000}', '\U{2001}', '\U{2002}', '\U{2003}',
    '\U{2004}', '\U{2005}', '\U{2006}', '\U{2007}', '\U{2008}', '\U{2009}', '\U{200A}',
    '\U{2028}', '\U{2029}', '\U{202F}', '\U{205F}', '\U{3000}'
  }

  predicate IsSpace(c: char) {
    c in Whitespace
  }

  /** The regular-expression class `\w`, approximated by ASCII letters,
      digits and underscore plus the Latin-1 and Latin Extended-A letters. */
  predicate IsWordChar(c: char) {
    ('a' <= c <= 'z') || ('A' <= c <= 'Z') || ('0' <= c <= '9') || c == '_'
    || c == '\U{AA}' || c == '\U{B5}' || c == '\U{BA}'
    || ('\U{C0}' <= c <= '\U{FF}' && c != '\U{D7}' && c != '\U{F7}')
    || ('\U{100}' <= c <= '\U{17F}')
  }

  /** A non-empty run of `\w` characters. */
  predicate IsWord(w: string) {
    w != [] && forall k :: 0 <= k < |w| ==> IsWordChar(w[k])
  }

  /** A non-empty run of characters none of which is whitespace. */
  predicate IsToken(w: string) {
    w != [] && forall k :: 0 <= k < |w| ==> !IsSpace(w[k])
  }

  predicate NoSpace(s: string) {
    forall k :: 0 <= k < |s| ==> !IsSpace(s[k])
  }

  predicate AllSpace(s: string) {
    forall k :: 0 <= k < |s| ==> IsSpace(s[k])
  }

  predicate StartsWith(s: string, p: string) {
    |p| <= |s| && s[..|p|] == p
  }

  predicate EndsWith(s: string, p: string) {
    |p| <= |s| && s[|s| - |p|..] == p
  }

  /** `p` occurs in `s` starting at index `i`. */
  predicate OccursAt(s: string, p: string, i: int) {
    0 <= i && i + |p| <= |s| && s[i..i + |p|] == p
  }

  /** The leftmost occurrence of `p` in `s` at or after `i` (`str.find`). */
  function FindFrom(s: string, p: string, i: nat): (r: Option<nat>)
    requires i <= |s|
    decreases |s| - i
    ensures r.Some? ==> i <= r.value && OccursAt(s, p, r.value)
  {
    if i + |p| > |s| then None
    else if s[i..i + |p|] == p then Some(i)
    else FindFrom(s, p, i + 1)
  }

  /** `FindFrom` skips no occurrence: there is none between `i` and what it
      reports (or the end, when it reports none). */
  lemma {:induction false} FindFromLeftmost(s: string, p: string, i: nat)
    requires i <= |s|
    decreases |s| - i
    ensures forall j :: i <= j && (FindFrom(s, p, i).None? || j < FindFrom(s, p, i).value) ==> !OccursAt(s, p, j)
  {
    if i + |p| <= |s| && s[i..i + |p|] != p {
      FindFromLeftmost(s, p, i + 1);
    }
  }

  function Find(s: string, p: string): Option<nat> {
    FindFrom(s, p, 0)
  }

  /** Python's `p in s`. */
  predicate Contains(s: string, p: string) {
    Find(s, p).Some?
  }

  /** An occurrence with none to its left is the one `Find` reports. */
  lemma FindIsLeftmost(s: string, p: string, i: nat)
    requires OccursAt(s, p, i)
    requires forall j :: 0 <= j < i ==> !OccursAt(s, p, j)
    ensures Find(s, p) == Some(i)
  {
    FindFromLeftmost(s, p, 0);
  }

  lemma ContainsIff(s: string, p: string)
    ensures Contains(s, p) <==> exists j :: OccursAt(s, p, j)
  {
    FindFromLeftmost(s, p, 0);
  }

  /** Every occurrence of a pattern that starts with `c` begins at a `c`,
      so a text without `c` does not contain it. */
  lemma NotContainsWithoutFirst(s: string, p: string)
    requires p != [] && p[0] !in s
    ensures !Contains(s, p)
  {
    forall j
      ensures !OccursAt(s, p, j)
    {
      if 0 <= j && j + |p| <= |s| {
        assert s[j..j + |p|][0] == s[j];
      }
    }
    FindFromLeftmost(s, p, 0);
  }

  /** Python's `s.lstrip()`: leading whitespace removed. */
  function LStrip(s: string): (r: string)
    ensures |r| <= |s|
  {
    if |s| > 0 && IsSpace(s[0]) then LStrip(s[1..]) else s
  }

  /** `lstrip` drops a prefix made only of whitespace, and what is left does
      not start with whitespace. */
  lemma {:induction false} LStripSpec(s: string)
    ensures var r := LStrip(s);
      r == s[|s| - |r|..] && (r == [] || !IsSpace(r[0])) && AllSpace(s[..|s| - |r|])
  {
    if |s| > 0 && IsSpace(s[0]) {
      LStripSpec(s[1..]);
      var r := LStrip(s);
      assert s[..|s| - |r|] == [s[0]] + s[1..][..|s| - 1 - |r|];
    }
  }

  /** Python's `s.rstrip()`: trailing whitespace removed. */
  function RStrip(s: string): (r: string)
    ensures |r| <= |s|
  {
    if |s| > 0 && IsSpace(s[|s| - 1]) then RStrip(s[..|s| - 1]) else s
  }

  /** `rstrip` drops a suffix made only of whitespace, and what is left does
      not end with whitespace. */
  lemma {:induction false} RStripSpec(s: string)
    ensures var r := RStrip(s);
      r == s[..|r|] && (r == [] || !IsSpace(r[|r| - 1])) && AllSpace(s[|r|..])
  {
    if |s| > 0 && IsSpace(s[|s| - 1]) {
      RStripSpec(s[..|s| - 1]);
      var r := RStrip(s);
      assert s[|r|..] == s[..|s| - 1][|r|..] + [s[|s| - 1]];
    }
  }

  /** Python's `s.strip()`. */
  function Strip(s: string): string {
    RStrip(LStrip(s))
  }

  lemma {:induction false} LStripPadded(a: string, s: string)
    requires AllSpace(a)
    requires s == [] || !IsSpace(s[0])
    ensures LStrip(a + s) == s
  {
    if a != [] {
      assert (a + s)[1..] == a[1..] + s;
      LStripPadded(a[1..], s);
    }
  }

  lemma {:induction false} RStripPadded(s: string, b: string)
    requires AllSpace(b)
    requires s == [] || !IsSpace(s[|s| - 1])
    ensures RStrip(s + b) == s
  {
    if b != [] {
      assert (s + b)[..|s + b| - 1] == s + b[..|b| - 1];
      RStripPadded(s, b[..|b| - 1]);
    } else {
      assert s + b == s;
    }
  }

  /** `strip` removes exactly the whitespace padding around a text whose
      first and last characters are not whitespace. */
  lemma StripPadded(a: string, s: string, b: string)
    requires AllSpace(a) && AllSpace(b)
    requires s == [] || (!IsSpace(s[0]) && !IsSpace(s[|s| - 1]))
    ensures Strip(a + s + b) == s
  {
    if s == [] {
      assert a + s + b == a + b;
      LStripPadded(a + b, []);
      assert a + b + [] == a + b;
    } else {
      assert a + s + b == a + (s + b);
      LStripPadded(a, s + b);
      RStripPadded(s, b);
    }
  }

  lemma StripTrimmed(s: string)
    requires s == [] || (!IsSpace(s[0]) && !IsSpace(s[|s| - 1]))
    ensures Strip(s) == s
  {
    StripPadded([], s, []);
    assert [] + s + [] == s;
  }

  /** Python's `s.lstrip(c)`. */
  function LStripChar(s: string, c: char): (r: string)
    ensures |r| <= |s| && r == s[|s| - |r|..]
    ensures r == [] || r[0] != c
    ensures forall k :: 0 <= k < |s| - |r| ==> s[k] == c
  {
    if |s| > 0 && s[0] == c then LStripChar(s[1..], c) else s
  }

  /** Python's `s.rstrip(c)`. */
  function RStripChar(s: string, c: char): (r: string)
    ensures |r| <= |s| && r == s[..|r|]
    ensures r == [] || r[|r| - 1] != c
    ensures forall k :: |r| <= k < |s| ==> s[k] == c
  {
    if |s| > 0 && s[|s| - 1] == c then RStripChar(s[..|s| - 1], c) else s
  }

  /** Python's `s.split(sep)` for a non-empty separator: the pieces between
      the non-overlapping occurrences found from the left. */
  function Split(s: string, sep: string): (r: seq<string>)
    requires sep != []
    decreases |s|
    ensures |r| >= 1
  {
    match Find(s, sep)
    case None => [s]
    case Some(i) => [s[..i]] + Split(s[i + |sep|..], sep)
  }

  /** Python's `sep.join(xs)`. */
  function Join(xs: seq<string>, sep: string): string {
    if |xs| == 0 then []
    else if |xs| == 1 then xs[0]
    else xs[0] + sep + Join(xs[1..], sep)
  }

  lemma JoinCons(x: string, tail: seq<string>, sep: string)
    requires |tail| >= 1
    ensures Join([x] + tail, sep) == x + sep + Join(tail, sep)
  {
    assert ([x] + tail)[1..] == tail;
  }

  /** A text is what comes before an occurrence, the occurrence, and what follows. */
  lemma AroundOccurrence(s: string, p: string, i: int)
    requires OccursAt(s, p, i)
    ensures s == s[..i] + p + s[i + |p|..]
  {
    assert s == s[..i] + s[i..i + |p|] + s[i + |p|..];
  }

  /** Joining the pieces of a split with the same separator gives the text back. */
  lemma {:induction false} JoinSplit(s: string, sep: string)
    requires sep != []
    decreases |s|
    ensures Join(Split(s, sep), sep) == s
  {
    match Find(s, sep)
    case None =>
    case Some(i) =>
      var rest := s[i + |sep|..];
      JoinSplit(rest, sep);
      JoinCons(s[..i], Split(rest, sep), sep);
      AroundOccurrence(s, sep, i);
  }

  /** No piece of a split contains the separator. */
  lemma {:induction false} SplitPiecesFree(s: string, sep: string)
    requires sep != []
    decreases |s|
    ensures forall k :: 0 <= k < |Split(s, sep)| ==> !Contains(Split(s, sep)[k], sep)
  {
    match Find(s, sep)
    case None =>
    case Some(i) =>
      var rest := s[i + |sep|..];
      SplitPiecesFree(rest, sep);
      FindFromLeftmost(s, sep, 0);
      var head := s[..i];
      forall j | OccursAt(head, sep, j)
        ensures OccursAt(s, sep, j)
      {
        assert head[j..j + |sep|] == s[j..j + |sep|];
      }
      assert Split(s, sep) == [head] + Split(rest, sep);
  }

  /** For a one-character separator absent from every piece, splitting a
      join gives the pieces back. */
  lemma {:induction false} SplitJoin(xs: seq<string>, c: char)
    requires |xs| >= 1
    requires forall k :: 0 <= k < |xs| ==> c !in xs[k]
    ensures Split(Join(xs, [c]), [c]) == xs
  {
    if |xs| == 1 {
      NotContainsWithoutFirst(xs[0], [c]);
    } else {
      var tail := Join(xs[1..], [c]);
      var s := Join(xs, [c]);
      assert s == xs[0] + [c] + tail;
      var n := |xs[0]|;
      assert s[n..n + 1] == [c];
      forall j | 0 <= j < n
        ensures !OccursAt(s, [c], j)
      {
        assert s[j] == xs[0][j];
        assert j + 1 <= |s| && s[j..j + 1][0] == s[j];
      }
      FindIsLeftmost(s, [c], n);
      assert s[..n] == xs[0];
      assert s[n + 1..] == tail;
      SplitJoin(xs[1..], c);
      assert Split(s, [c]) == [xs[0]] + xs[1..];
    }
  }

  /** A text with exactly one `c` splits on it into what comes before and
      what comes after. */
  lemma SplitAtOnly(s: string, c: char, i: nat)
    requires i < |s| && s[i] == c
    requires c !in s[..i] && c !in s[i + 1..]
    ensures Split(s, [c]) == [s[..i], s[i + 1..]]
  {
    FindFirstChar(s, c, i);
    NotContainsWithoutFirst(s[i + 1..], [c]);
    SplitAt(s, [c], i);
  }

  /** The first `c` in a text is where `Find` locates `[c]`. */
  lemma FindFirstChar(s: string, c: char, i: nat)
    requires i < |s| && s[i] == c && c !in s[..i]
    ensures Find(s, [c]) == Some(i)
  {
    assert s[i..i + 1] == [c];
    forall j | 0 <= j < i
      ensures !OccursAt(s, [c], j)
    {
      assert s[j] == s[..i][j];
      assert s[j..j + 1][0] == s[j];
    }
    FindIsLeftmost(s, [c], i);
  }

  lemma SplitAt(s: string, sep: string, i: nat)
    requires sep != [] && Find(s, sep) == Some(i)
    requires Find(s[i + |sep|..], sep) == None
    ensures Split(s, sep) == [s[..i], s[i + |sep|..]]
  {
  }

  /** A separator that starts and ends with a blank and has none inside,
      put after a text that does not hold it (not even with a blank after
      it), splits off that text first. */
  lemma SplitAround(a: string, sep: string, b: string)
    requires |sep| >= 2 && sep[0] == ' ' && sep[|sep| - 1] == ' '
    requires forall k :: 0 < k < |sep| - 1 ==> sep[k] != ' '
    requires !Contains(a + " ", sep)
    ensures Split(a + sep + b, sep) == [a] + Split(b, sep)
    ensures !Contains(b, sep) ==> Split(a + sep + b, sep) == [a, b]
  {
    var s := a + sep + b;
    var n := |a|;
    assert s[n..n + |sep|] == sep;
    ContainsIff(a + " ", sep);
    forall j | 0 <= j < n
      ensures !OccursAt(s, sep, j)
    {
      if j + |sep| <= n + 1 {
        assert (a + " ")[j..j + |sep|] == s[j..j + |sep|];
        assert !OccursAt(a + " ", sep, j);
      } else {
        assert s[j..j + |sep|][n - j] == s[n] == ' ' != sep[n - j];
      }
    }
    FindIsLeftmost(s, sep, n);
    assert s[..n] == a;
    assert s[n + |sep|..] == b;
  }

  /** A text without whitespace at either end. */
  predicate Trimmed(s: string) {
    s != [] && !IsSpace(s[0]) && !IsSpace(s[|s| - 1])
  }

  /** A join of non-empty texts starts where the first starts and ends
      where the last ends. */
  lemma {:induction false} JoinEnds(xs: seq<string>, sep: string)
    requires |xs| >= 1 && forall k :: 0 <= k < |xs| ==> xs[k] != []
    ensures Join(xs, sep) != []
    ensures Join(xs, sep)[0] == xs[0][0]
    ensures Join(xs, sep)[|Join(xs, sep)| - 1] == xs[|xs| - 1][|xs[|xs| - 1]| - 1]
    decreases |xs|
  {
    if |xs| > 1 {
      JoinEnds(xs[1..], sep);
    }
  }

  /** A text of blanks strips to nothing. */
  lemma StripBlank(s: string)
    requires AllSpace(s)
    ensures Strip(s) == []
  {
    LStripSpec(s);
  }

  /** The end of the run of non-whitespace characters starting at `i`. */
  function TokenEnd(s: string, i: nat): (j: nat)
    requires i <= |s|
    decreases |s| - i
    ensures i <= j <= |s|
    ensures j == |s| || IsSpace(s[j])
  {
    if i == |s| || IsSpace(s[i]) then i else TokenEnd(s, i + 1)
  }

  /** Python's argument-less `s.split()`: the maximal runs of
      non-whitespace characters, left to right. */
  function Tokens(s: string): seq<string>
    decreases |s|
  {
    if s == [] then []
    else if IsSpace(s[0]) then Tokens(s[1..])
    else
      var e := TokenEnd(s, 0);
      [s[..e]] + Tokens(s[e..])
  }

  lemma {:induction false} TokensSkipsSpace(a: string, s: string)
    requires AllSpace(a)
    ensures Tokens(a + s) == Tokens(s)
  {
    if a != [] {
      assert (a + s)[0] == a[0];
      assert (a + s)[1..] == a[1..] + s;
      TokensSkipsSpace(a[1..], s);
    } else {
      assert a + s == s;
    }
  }

  /** The tokens of a word followed by text that starts with whitespace
      are that word and the tokens of the text. */
  lemma TokensOfPrefixed(w: string, rest: string)
    requires IsToken(w)
    requires rest == [] || IsSpace(rest[0])
    ensures Tokens(w + rest) == [w] + Tokens(rest)
  {
    var s := w + rest;
    assert s[0] == w[0];
    TokenEndIs(s, 0, |w|);
    assert s[..|w|] == w;
    assert s[|w|..] == rest;
  }

  lemma TokensOfToken(w: string)
    requires IsToken(w)
    ensures Tokens(w) == [w]
  {
    TokensOfPrefixed(w, []);
    assert w + [] == w;
  }

  /** Splitting words joined by single spaces on whitespace gives the words back. */
  lemma {:induction false} TokensOfJoin(ws: seq<string>)
    requires forall k :: 0 <= k < |ws| ==> IsToken(ws[k])
    ensures Tokens(Join(ws, " ")) == ws
  {
    if |ws| == 1 {
      TokensOfToken(ws[0]);
    } else if |ws| > 1 {
      var tail := Join(ws[1..], " ");
      assert Join(ws, " ") == ws[0] + (" " + tail) by {
        assert Join(ws, " ") == ws[0] + " " + tail;
      }
      assert Tokens(ws[0] + (" " + tail)) == [ws[0]] + Tokens(" " + tail) by {
        assert IsSpace((" " + tail)[0]);
        TokensOfPrefixed(ws[0], " " + tail);
      }
      assert Tokens(" " + tail) == Tokens(tail) by {
        assert AllSpace(" ");
        TokensSkipsSpace(" ", tail);
      }
      TokensOfJoin(ws[1..]);
      assert [ws[0]] + ws[1..] == ws;
    }
  }

  lemma {:induction false} TokenEndIs(s: string, i: nat, j: nat)
    requires i <= j <= |s|
    requires forall k :: i <= k < j ==> !IsSpace(s[k])
    requires j == |s| || IsSpace(s[j])
    ensures TokenEnd(s, i) == j
    decreases j - i
  {
    if i < j {
      TokenEndIs(s, i + 1, j);
    }
  }

  /** Python's `s.replace("", r)`: `r` before every character and at the end. */
  function Interleave(s: string, r: string): (t: string)
    ensures |t| == |s| + (|s| + 1) * |r|
  {
    if s == [] then r else r + [s[0]] + Interleave(s[1..], r)
  }

  /** Python's `s.replace(p, r)`: every non-overlapping occurrence of `p`,
      found from the left, replaced by `r`. */
  function ReplaceAll(s: string, p: string, r: string): string
    decreases |s|
  {
    if p == [] then Interleave(s, r)
    else
      match Find(s, p)
      case None => s
      case Some(i) => s[..i] + r + ReplaceAll(s[i + |p|..], p, r)
  }

  /** Replacing is splitting on the pattern and joining with the replacement. */
  lemma {:induction false} ReplaceIsJoinOfSplit(s: string, p: string, r: string)
    requires p != []
    decreases |s|
    ensures ReplaceAll(s, p, r) == Join(Split(s, p), r)
  {
    match Find(s, p)
    case None =>
    case Some(i) =>
      var rest := s[i + |p|..];
      ReplaceIsJoinOfSplit(rest, p, r);
      assert Split(s, p)[1..] == Split(rest, p);
  }

  /** A text without the pattern comes back unchanged, and replacing a
      pattern by itself changes nothing. */
  lemma ReplaceIdentities(s: string, p: string, r: string)
    requires p != []
    ensures !Contains(s, p) ==> ReplaceAll(s, p, r) == s
    ensures ReplaceAll(s, p, p) == s
  {
    ReplaceIsJoinOfSplit(s, p, p);
    JoinSplit(s, p);
  }
}
