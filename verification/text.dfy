/**
 The JavaScript string operations the search engine relies on:
 `toLowerCase`, `trim`, `split(/\s+/)` and `includes`.

 White space is the full set that ECMAScript's `\s` and `trim` share
 (WhiteSpace and LineTerminator code points). Lower-casing is modelled for
 ASCII letters only.
 */
module Text {

  /** A code point matched by `\s` and removed by `trim`. */
  predicate IsSpace(c: char) {
    || c == '\t' || c == '\n' || c == '\U{000B}' || c == '\U{000C}' || c == '\r'
    || c == ' ' || c == '\U{00A0}' || c == '\U{1680}'
    || ('\U{2000}' <= c <= '\U{200A}')
    || c == '\U{2028}' || c == '\U{2029}' || c == '\U{202F}' || c == '\U{205F}'
    || c == '\U{3000}' || c == '\U{FEFF}'
  }

  predicate IsBlank(s: string) {
    forall i :: 0 <= i < |s| ==> IsSpace(s[i])
  }

  predicate NoSpace(s: string) {
    forall i :: 0 <= i < |s| ==> !IsSpace(s[i])
  }

  /** Neither starts nor ends with white space. */
  predicate Trimmed(s: string) {
    |s| == 0 || (!IsSpace(s[0]) && !IsSpace(s[|s| - 1]))
  }

  // ---------------------------------------------------------------- lowering

  function LowerChar(c: char): char {
    if 'A' <= c <= 'Z' then (c as int + 32) as char else c
  }

  /** `toLowerCase` on ASCII: no upper-case letter is left, each one becomes
      its lower-case partner, and every other character is kept. */
  function Lower(s: string): (r: string)
    ensures |r| == |s|
    ensures forall i :: 0 <= i < |r| ==> !('A' <= r[i] <= 'Z')
    ensures forall i :: 0 <= i < |s| && 'A' <= s[i] <= 'Z' ==> r[i] as int == s[i] as int + 32
    ensures forall i :: 0 <= i < |s| && !('A' <= s[i] <= 'Z') ==> r[i] == s[i]
  {
    seq(|s|, i requires 0 <= i < |s| => LowerChar(s[i]))
  }

  /** Lowering twice is lowering once. */
  lemma LowerIdempotent(s: string)
    ensures Lower(Lower(s)) == Lower(s)
  {
  }

  /** Lowering never creates or removes white space. */
  lemma LowerKeepsSpaces(s: string)
    ensures forall i :: 0 <= i < |s| ==> (IsSpace(Lower(s)[i]) <==> IsSpace(s[i]))
    ensures IsBlank(Lower(s)) <==> IsBlank(s)
  {
  }

  // ---------------------------------------------------------------- trimming

  function TrimStart(s: string): (r: string)
    ensures |r| <= |s| && r == s[|s| - |r|..]
    ensures IsBlank(s[..|s| - |r|])
    ensures |r| == 0 || !IsSpace(r[0])
    decreases |s|
  {
    if |s| > 0 && IsSpace(s[0]) then
      var r := TrimStart(s[1..]);
      assert IsBlank(s[1..][..|s| - 1 - |r|]);
      assert s[..|s| - |r|] == [s[0]] + s[1..][..|s| - 1 - |r|];
      r
    else s
  }

  function TrimEnd(s: string): (r: string)
    ensures |r| <= |s| && r == s[..|r|]
    ensures IsBlank(s[|r|..])
    ensures |r| == 0 || !IsSpace(r[|r| - 1])
    decreases |s|
  {
    if |s| > 0 && IsSpace(s[|s| - 1]) then
      var r := TrimEnd(s[..|s| - 1]);
      assert s[|r|..] == s[..|s| - 1][|r|..] + [s[|s| - 1]];
      r
    else s
  }

  /** `String.prototype.trim`: drop leading and trailing white space. The
      result has no outer white space, and a blank input trims to "". */
  function Trim(s: string): (r: string)
    ensures |r| <= |s|
    ensures Trimmed(r)
    ensures IsBlank(s) ==> r == []
  {
    var t := TrimStart(s);
    var r := TrimEnd(t);
    assert |r| > 0 ==> r[0] == t[0];
    BlankTrimStart(s);
    r
  }

  /**
   What `trim` means: its result is a slice of the input, everything cut away
   is white space, the result neither starts nor ends with white space, and it
   is empty exactly when the input is all white space.
   */
  lemma TrimSpec(s: string)
    ensures exists i, j :: 0 <= i <= j <= |s| && Trim(s) == s[i..j] && IsBlank(s[..i]) && IsBlank(s[j..])
    ensures Trimmed(Trim(s))
    ensures Trim(s) == [] <==> IsBlank(s)
  {
    var i, j := TrimSlice(s);
    TrimIsTrimmed(s);
    TrimEmptyIffBlank(s);
  }

  /** The bounds of the slice that `trim` keeps. */
  lemma TrimSlice(s: string) returns (i: nat, j: nat)
    ensures i <= j <= |s| && Trim(s) == s[i..j] && IsBlank(s[..i]) && IsBlank(s[j..])
  {
    var t := TrimStart(s);
    var r := TrimEnd(t);
    i := |s| - |t|;
    j := i + |r|;
    assert t == s[i..];
    assert r == s[i..j];
    assert s[j..] == t[|r|..];
  }

  lemma TrimIsTrimmed(s: string)
    ensures Trimmed(Trim(s))
  {
    var t := TrimStart(s);
    var r := TrimEnd(t);
    assert |r| > 0 ==> r[0] == t[0];
  }

  lemma TrimEmptyIffBlank(s: string)
    ensures Trim(s) == [] <==> IsBlank(s)
  {
    var t := TrimStart(s);
    var i := |s| - |t|;
    assert t == s[i..];
    if IsBlank(s) {
      BlankTrimStart(s);
    }
    if Trim(s) == [] {
      assert IsBlank(t) by { assert t[0..] == t; }
      assert |t| == 0;
      assert s[..i] == s;
    }
  }

  lemma {:induction false} BlankTrimStart(s: string)
    ensures IsBlank(s) ==> TrimStart(s) == []
    decreases |s|
  {
    if |s| > 0 && IsBlank(s) {
      assert IsBlank(s[1..]);
      BlankTrimStart(s[1..]);
    }
  }

  /** A string that is already trimmed is left alone. */
  lemma TrimTrimmed(s: string)
    requires Trimmed(s)
    ensures Trim(s) == s
  {
  }

  // --------------------------------------------------------------- splitting

  /** The first index at or after `i` that holds white space, or |s|. */
  function NextSpace(s: string, i: nat): (j: nat)
    requires i <= |s|
    ensures i <= j <= |s|
    ensures forall k :: i <= k < j ==> !IsSpace(s[k])
    ensures j < |s| ==> IsSpace(s[j])
    decreases |s| - i
  {
    if i == |s| || IsSpace(s[i]) then i else NextSpace(s, i + 1)
  }

  /** The first index at or after `i` that holds no white space, or |s|. */
  function NextNonSpace(s: string, i: nat): (j: nat)
    requires i <= |s|
    ensures i <= j <= |s|
    ensures forall k :: i <= k < j ==> IsSpace(s[k])
    ensures j < |s| ==> !IsSpace(s[j])
    decreases |s| - i
  {
    if i == |s| || !IsSpace(s[i]) then i else NextNonSpace(s, i + 1)
  }

  /**
   `s.split(/\s+/)`: the pieces between maximal runs of white space. Leading or
   trailing white space yields an empty first or last piece, and the empty
   string splits into the single piece "".
   */
  function Split(s: string): (pieces: seq<string>)
    ensures |pieces| >= 1
    ensures forall k :: 0 <= k < |pieces| ==> NoSpace(pieces[k])
    decreases |s|
  {
    var i := NextSpace(s, 0);
    if i == |s| then
      assert s[..i] == s;
      [s]
    else
      var j := NextNonSpace(s, i);
      [s[..i]] + Split(s[j..])
  }

  /** The characters of `s` that are not white space, in order. */
  function RemoveSpaces(s: string): string
    decreases |s|
  {
    if |s| == 0 then []
    else (if IsSpace(s[0]) then [] else [s[0]]) + RemoveSpaces(s[1..])
  }

  function Concat(pieces: seq<string>): string
    decreases |pieces|
  {
    if |pieces| == 0 then [] else pieces[0] + Concat(pieces[1..])
  }

  lemma {:induction false} RemoveSpacesAppend(a: string, b: string)
    ensures RemoveSpaces(a + b) == RemoveSpaces(a) + RemoveSpaces(b)
    decreases |a|
  {
    if |a| == 0 {
      assert a + b == b;
    } else {
      assert (a + b)[1..] == a[1..] + b;
      RemoveSpacesAppend(a[1..], b);
    }
  }

  lemma {:induction false} RemoveSpacesBlank(s: string)
    requires IsBlank(s)
    ensures RemoveSpaces(s) == []
    decreases |s|
  {
    if |s| > 0 {
      RemoveSpacesBlank(s[1..]);
    }
  }

  lemma {:induction false} RemoveSpacesNoSpace(s: string)
    requires NoSpace(s)
    ensures RemoveSpaces(s) == s
    decreases |s|
  {
    if |s| > 0 {
      RemoveSpacesNoSpace(s[1..]);
      assert s == [s[0]] + s[1..];
    }
  }

  /**
   Splitting loses exactly the white space: gluing the pieces back together
   gives the input with its white space removed.
   */
  lemma {:induction false} SplitConcat(s: string)
    ensures Concat(Split(s)) == RemoveSpaces(s)
    decreases |s|
  {
    var i := NextSpace(s, 0);
    if i == |s| {
      SplitWhole(s);
    } else {
      var j := NextNonSpace(s, i);
      SplitConcat(s[j..]);
      SplitStep(s, i, j);
      SplitPieces(s, i, j);
    }
  }

  lemma SplitWhole(s: string)
    requires NextSpace(s, 0) == |s|
    ensures Concat(Split(s)) == RemoveSpaces(s)
  {
    assert s[..|s|] == s;
    RemoveSpacesNoSpace(s);
    assert Split(s) == [s];
    assert Concat([s]) == s + Concat([]);
  }

  /** The three parts of a cut: a white-space-free head, a non-empty
      white-space run, and the rest. */
  lemma CutParts(s: string, i: nat, j: nat)
    requires i == NextSpace(s, 0) && i < |s| && j == NextNonSpace(s, i)
    ensures NoSpace(s[..i]) && |s[i..j]| > 0 && IsBlank(s[i..j])
    ensures s == s[..i] + s[i..j] + s[j..]
  {
  }

  lemma RemoveSpacesCut(head: string, gap: string, rest: string)
    requires NoSpace(head) && IsBlank(gap)
    ensures RemoveSpaces(head + gap + rest) == head + RemoveSpaces(rest)
  {
    var hg := head + gap;
    RemoveSpacesAppend(head, gap);
    RemoveSpacesNoSpace(head);
    RemoveSpacesBlank(gap);
    assert RemoveSpaces(hg) == head;
    RemoveSpacesAppend(hg, rest);
  }

  lemma SplitPieces(s: string, i: nat, j: nat)
    requires i == NextSpace(s, 0) && i < |s| && j == NextNonSpace(s, i)
    ensures RemoveSpaces(s) == s[..i] + RemoveSpaces(s[j..])
  {
    CutParts(s, i, j);
    RemoveSpacesCut(s[..i], s[i..j], s[j..]);
  }

  /** One step of `Split`, as a concatenation of the first piece and the rest. */
  lemma SplitStep(s: string, i: nat, j: nat)
    requires i == NextSpace(s, 0) && i < |s| && j == NextNonSpace(s, i)
    ensures Concat(Split(s)) == s[..i] + Concat(Split(s[j..]))
  {
    var pieces := Split(s);
    assert pieces == [s[..i]] + Split(s[j..]);
    assert pieces[1..] == Split(s[j..]);
  }

  /**
   A non-empty string without leading or trailing white space splits into
   non-empty pieces only: this is the one case where `split(/\s+/)` yields no
   "" word.
   */
  lemma {:induction false} SplitTrimmedNoEmptyPiece(s: string)
    requires |s| > 0 && Trimmed(s)
    ensures forall k :: 0 <= k < |Split(s)| ==> |Split(s)[k]| > 0
    decreases |s|
  {
    var i := NextSpace(s, 0);
    if i < |s| {
      var j := NextNonSpace(s, i);
      assert j < |s|;
      var rest := s[j..];
      assert rest[0] == s[j] && rest[|rest| - 1] == s[|s| - 1];
      SplitTrimmedNoEmptyPiece(rest);
      assert Split(s) == [s[..i]] + Split(rest);
      assert i > 0;
    }
  }

  /** Pieces glued together with a gap between each neighbouring pair. */
  function Join(pieces: seq<string>, gaps: seq<string>): string
    requires |pieces| == |gaps| + 1
    decreases |gaps|
  {
    if |gaps| == 0 then pieces[0] else pieces[0] + gaps[0] + Join(pieces[1..], gaps[1..])
  }

  /**
   The shape `split(/\s+/)` cuts a string into: pieces without white space,
   separated by non-empty runs of white space. Only the first and the last
   piece may be empty (a leading or trailing run); an empty piece in the middle
   would merge its two neighbouring runs into one.
   */
  predicate SplitShape(pieces: seq<string>, gaps: seq<string>) {
    && |pieces| == |gaps| + 1
    && (forall k :: 0 <= k < |pieces| ==> NoSpace(pieces[k]))
    && (forall k :: 0 < k < |pieces| - 1 ==> |pieces[k]| > 0)
    && (forall k :: 0 <= k < |gaps| ==> |gaps[k]| > 0 && IsBlank(gaps[k]))
  }

  /** A string of white-space-free characters has no white space before its end. */
  lemma NoSpaceNextSpace(s: string, i: nat)
    requires i <= |s| && NoSpace(s[i..])
    ensures NextSpace(s, i) == |s|
  {
  }

  lemma ShapeTail(pieces: seq<string>, gaps: seq<string>)
    requires SplitShape(pieces, gaps) && |gaps| > 0
    ensures SplitShape(pieces[1..], gaps[1..])
    ensures |pieces[1..]| > 1 ==> |pieces[1..][0]| > 0
  {
    assert forall k :: 0 <= k < |pieces| - 1 ==> pieces[1..][k] == pieces[k + 1];
    assert forall k :: 0 <= k < |gaps| - 1 ==> gaps[1..][k] == gaps[k + 1];
  }

  /** A join whose first piece is non-empty, or is the only piece, starts with
      no white space. */
  lemma JoinStart(pieces: seq<string>, gaps: seq<string>)
    requires SplitShape(pieces, gaps) && (|pieces| > 1 ==> |pieces[0]| > 0)
    ensures |Join(pieces, gaps)| > 0 ==> !IsSpace(Join(pieces, gaps)[0])
  {
    if |gaps| > 0 {
      assert Join(pieces, gaps)[0] == pieces[0][0];
    }
  }

  /** Splitting a white-space-free head, a white-space run and a rest that does
      not start with white space cuts off exactly the head. */
  lemma SplitCut(p: string, g: string, rest: string)
    requires NoSpace(p) && |g| > 0 && IsBlank(g)
    requires |rest| > 0 ==> !IsSpace(rest[0])
    ensures Split(p + g + rest) == [p] + Split(rest)
  {
    var s := p + g + rest;
    var i := NextSpace(s, 0);
    assert forall k :: 0 <= k < |p| ==> s[k] == p[k];
    assert s[|p|] == g[0];
    assert i == |p|;
    var j := NextNonSpace(s, i);
    assert forall k :: |p| <= k < |p| + |g| ==> s[k] == g[k - |p|];
    assert |rest| > 0 ==> s[|p| + |g|] == rest[0];
    assert j == |p| + |g|;
    assert s[..i] == p;
    assert s[j..] == rest;
  }

  /**
   Splitting undoes joining: whatever pieces and gaps of that shape build a
   string, `split(/\s+/)` gives back exactly those pieces. With `SplitGaps`
   this pins down where the pieces of every string break.
   */
  lemma {:induction false} SplitJoin(pieces: seq<string>, gaps: seq<string>)
    requires SplitShape(pieces, gaps)
    ensures Split(Join(pieces, gaps)) == pieces
    decreases |gaps|
  {
    var s := Join(pieces, gaps);
    if |gaps| == 0 {
      assert s[0..] == s;
      NoSpaceNextSpace(s, 0);
      assert s[..|s|] == s;
    } else {
      var ps, gs := pieces[1..], gaps[1..];
      ShapeTail(pieces, gaps);
      JoinStart(ps, gs);
      SplitCut(pieces[0], gaps[0], Join(ps, gs));
      SplitJoin(ps, gs);
      assert pieces == [pieces[0]] + ps;
    }
  }

  /** One cut of `split(/\s+/)`: a white-space-free head, a non-empty white-space
      run, and the rest, which splits on its own. */
  lemma SplitHead(s: string, i: nat, j: nat)
    requires i == NextSpace(s, 0) && i < |s| && j == NextNonSpace(s, i)
    ensures Split(s) == [s[..i]] + Split(s[j..])
    ensures NoSpace(s[..i]) && |s[i..j]| > 0 && IsBlank(s[i..j])
    ensures s == s[..i] + s[i..j] + s[j..]
    ensures |Split(s[j..])| > 1 ==> |Split(s[j..])[0]| > 0
  {
    CutParts(s, i, j);
    var rest := s[j..];
    if NextSpace(rest, 0) < |rest| {
      assert !IsSpace(rest[0]);
    }
  }

  lemma JoinCons(p: string, g: string, pieces: seq<string>, gaps: seq<string>)
    requires |pieces| == |gaps| + 1
    ensures Join([p] + pieces, [g] + gaps) == p + g + Join(pieces, gaps)
  {
    assert ([p] + pieces)[1..] == pieces && ([g] + gaps)[1..] == gaps;
  }

  lemma ShapeCons(p: string, g: string, pieces: seq<string>, gaps: seq<string>)
    requires SplitShape(pieces, gaps) && NoSpace(p) && |g| > 0 && IsBlank(g)
    requires |pieces| > 1 ==> |pieces[0]| > 0
    ensures SplitShape([p] + pieces, [g] + gaps)
  {
    var ps, gs := [p] + pieces, [g] + gaps;
    assert forall k :: 1 <= k < |ps| ==> ps[k] == pieces[k - 1];
    assert forall k :: 1 <= k < |gs| ==> gs[k] == gaps[k - 1];
  }

  /** Every string is the join of its own split pieces with the white-space
      runs between them, and those pieces and runs have the shape above. */
  lemma {:induction false} SplitGaps(s: string) returns (gaps: seq<string>)
    ensures SplitShape(Split(s), gaps)
    ensures Join(Split(s), gaps) == s
    decreases |s|
  {
    var i := NextSpace(s, 0);
    if i == |s| {
      assert s[..i] == s;
      gaps := [];
    } else {
      var j := NextNonSpace(s, i);
      var rest := s[j..];
      var restGaps := SplitGaps(rest);
      SplitHead(s, i, j);
      JoinCons(s[..i], s[i..j], Split(rest), restGaps);
      ShapeCons(s[..i], s[i..j], Split(rest), restGaps);
      gaps := [s[i..j]] + restGaps;
    }
  }

  // -------------------------------------------------------------- containment

  predicate StartsWith(s: string, p: string) {
    |p| <= |s| && s[..|p|] == p
  }

  /** `text.includes(word)`: substring search; every text includes "". */
  predicate Contains(text: string, word: string)
    ensures |word| == 0 ==> Contains(text, word)
    ensures Contains(text, word) ==> |word| <= |text|
    decreases |text|
  {
    StartsWith(text, word) || (|text| > 0 && Contains(text[1..], word))
  }

  /** `word` occurs in `text` at position `i`. */
  predicate OccursAt(text: string, word: string, i: int) {
    0 <= i && i + |word| <= |text| && text[i..i + |word|] == word
  }

  /** `Contains` is substring occurrence at some position. */
  lemma {:induction false} ContainsIffOccurs(text: string, word: string)
    ensures Contains(text, word) <==> exists i :: OccursAt(text, word, i)
    decreases |text|
  {
    if StartsWith(text, word) {
      assert OccursAt(text, word, 0);
    } else if |text| > 0 {
      ContainsIffOccurs(text[1..], word);
      if Contains(text[1..], word) {
        var i :| OccursAt(text[1..], word, i);
        assert text[i + 1..i + 1 + |word|] == text[1..][i..i + |word|];
        assert OccursAt(text, word, i + 1);
      }
      if i :| OccursAt(text, word, i) {
        assert 1 <= i && i + |word| <= |text|;
        assert text[i..i + |word|] == text[1..][i - 1..i - 1 + |word|];
        assert OccursAt(text[1..], word, i - 1);
      }
    }
  }

  /** Every text includes the empty word. */
  lemma ContainsEmpty(text: string)
    ensures Contains(text, [])
  {
    assert text[..0] == [];
  }

  /** A word can only occur in a text that holds the word's first character. */
  lemma ContainsFirstChar(text: string, word: string)
    requires |word| > 0 && Contains(text, word)
    ensures exists k :: 0 <= k < |text| && text[k] == word[0]
  {
    ContainsIffOccurs(text, word);
    var i :| OccursAt(text, word, i);
    assert text[i] == text[i..i + |word|][0];
  }

  /** A word of two or more characters cannot occur in a text where its first
      two characters never appear side by side. */
  lemma NotContainsPair(text: string, word: string)
    requires |word| >= 2
    requires forall k :: 0 <= k < |text| - 1 ==> !(text[k] == word[0] && text[k + 1] == word[1])
    ensures !Contains(text, word)
  {
    ContainsIffOccurs(text, word);
  }

  /** A text includes each of its suffixes. */
  lemma ContainsSuffix(a: string, b: string)
    ensures Contains(a + b, b)
  {
    ContainsIffOccurs(a + b, b);
    assert (a + b)[|a|..|a| + |b|] == b;
    assert OccursAt(a + b, b, |a|);
  }

  /** A text includes each of its prefixes. */
  lemma ContainsPrefix(a: string, b: string)
    ensures Contains(a + b, a)
  {
    assert (a + b)[..|a|] == a;
  }

}
