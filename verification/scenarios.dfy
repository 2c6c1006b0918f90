/**
 Queries against one- and two-item catalogs: a single word found in the
 title, two words of which the title holds one, and the order of a stronger
 and a weaker hit.
 */
module Scenarios {

  import opened Search
  import Text

  /** Lowering distributes over concatenation. */
  lemma LowerAppend(a: string, b: string)
    ensures Text.Lower(a + b) == Text.Lower(a) + Text.Lower(b)
  {
  }

  /** A space-free word splits into itself. */
  lemma SplitOne(a: string)
    requires Text.NoSpace(a)
    ensures Text.Split(a) == [a]
  {
    assert Text.NextSpace(a, 0) == |a|;
  }

  /** Two space-free words joined by one space split back into the two. */
  lemma SplitTwo(a: string, b: string)
    requires |a| > 0 && |b| > 0 && Text.NoSpace(a) && Text.NoSpace(b)
    ensures Text.Split(a + " " + b) == [a, b]
  {
    var s := a + " " + b;
    assert s[|a|] == ' ';
    assert forall k :: 0 <= k < |a| ==> s[k] == a[k];
    var i := Text.NextSpace(s, 0);
    assert i == |a|;
    assert s[|a| + 1] == b[0];
    var j := Text.NextNonSpace(s, i);
    assert j == |a| + 1;
    assert s[..i] == a && s[j..] == b;
    SplitOne(b);
  }

  /** Lowering a space-free word leaves it space-free. */
  lemma LowerNoSpace(a: string)
    requires Text.NoSpace(a)
    ensures Text.NoSpace(Text.Lower(a))
  {
    Text.LowerKeepsSpaces(a);
  }

  /** A one-word query has its lowered self as its only word. */
  lemma OneWordQuery(a: string)
    requires |a| > 0 && Text.NoSpace(a)
    ensures Words(a) == [Text.Lower(a)]
  {
    var l := Text.Lower(a);
    LowerNoSpace(a);
    Text.TrimTrimmed(l);
    assert Words(a) == Text.Split(l);
    SplitOne(l);
  }

  /** A query of two words separated by one space has their lowered forms as
      its words. */
  lemma TwoWordQuery(a: string, b: string)
    requires |a| > 0 && |b| > 0 && Text.NoSpace(a) && Text.NoSpace(b)
    ensures Words(a + " " + b) == [Text.Lower(a), Text.Lower(b)]
  {
    var la, lb := Text.Lower(a), Text.Lower(b);
    LowerNoSpace(a);
    LowerNoSpace(b);
    LowerAppend(a + " ", b);
    LowerAppend(a, " ");
    assert Text.Lower(" ") == " ";
    var l := la + " " + lb;
    assert Text.Lower(a + " " + b) == l;
    assert l[0] == la[0] && l[|l| - 1] == lb[|lb| - 1];
    Text.TrimTrimmed(l);
    assert Words(a + " " + b) == Text.Split(l);
    SplitTwo(la, lb);
  }

  /** The search of a one-item catalog keeps the item exactly when it scores. */
  lemma SingleItemSearch(query: string, it: Item)
    requires query != []
    ensures SearchContent(query, [it]) ==
      if Best(Words(query), it) > 0 then [Hit(it, MatchOf(Words(query), it), Key(it))] else []
  {
    assert [it][1..] == [];
  }

  /** One word, found in the title: the doubled title score 2/1 wins. */
  lemma OneWordTitleScore(ws: seq<string>, it: Item)
    requires |ws| == 1 && Text.Contains(Text.Lower(it.record.title), ws[0])
    ensures Best(ws, it) == 2 && MatchOf(ws, it) == 200
  {
    assert ws[1..] == [];
    assert Overlap(ws, it.record.title) == 1;
  }

  /** Two words, the title holding only the first: the doubled title score
      2/2 is as high as any other field can reach. */
  lemma HalfTitleScore(ws: seq<string>, it: Item)
    requires |ws| == 2
    requires Text.Contains(Text.Lower(it.record.title), ws[0])
    requires !Text.Contains(Text.Lower(it.record.title), ws[1])
    ensures Best(ws, it) == 2 && MatchOf(ws, it) == 100
  {
    var t := Text.Lower(it.record.title);
    assert ws[1..][0] == ws[1] && ws[1..][1..] == [];
    assert CountMatched(ws[1..], t) == 0;
    assert Overlap(ws, it.record.title) == 1;
  }

  /** A one-word query found in an item's title gives that item the match
      200, whatever its other fields hold. */
  lemma TitleWordScores200(a: string, it: Item)
    requires |a| > 0 && Text.NoSpace(a)
    requires Text.Contains(Text.Lower(it.record.title), Text.Lower(a))
    ensures SearchContent(a, [it]) == [Hit(it, 200, Key(it))]
  {
    OneWordQuery(a);
    OneWordTitleScore(Words(a), it);
    SingleItemSearch(a, it);
  }

  /** A two-word query of which the title holds only the first word gives
      the match 100, whatever the description and content hold. */
  lemma HalfTitleScores100(a: string, b: string, it: Item)
    requires |a| > 0 && |b| > 0 && Text.NoSpace(a) && Text.NoSpace(b)
    requires Text.Contains(Text.Lower(it.record.title), Text.Lower(a))
    requires !Text.Contains(Text.Lower(it.record.title), Text.Lower(b))
    ensures SearchContent(a + " " + b, [it]) == [Hit(it, 100, Key(it))]
  {
    TwoWordQuery(a, b);
    HalfTitleScore(Words(a + " " + b), it);
    SingleItemSearch(a + " " + b, it);
  }

  /** An item that scores nothing has the match 0. */
  lemma NoScoreNoMatch(ws: seq<string>, it: Item)
    requires |ws| > 0 && Best(ws, it) == 0
    ensures MatchOf(ws, it) == 0
  {
    var n, r := |ws|, MatchOf(ws, it);
    assert 2 * n * r <= n;
  }

  /** Both items of a two-item catalog score, so both are kept in order. */
  lemma TwoItemCollect(ws: seq<string>, x: Item, y: Item)
    requires |ws| > 0 && Best(ws, x) > 0 && Best(ws, y) > 0
    ensures Collect(ws, [x, y]) == [Hit(x, MatchOf(ws, x), Key(x)), Hit(y, MatchOf(ws, y), Key(y))]
  {
    assert [x, y][0] == x && [x, y][1..] == [y];
    assert [y][0] == y && [y][1..] == [];
    assert Collect(ws, [y]) == [Hit(y, MatchOf(ws, y), Key(y))];
  }

  /** Ranking a pair whose second hit scores higher swaps it. */
  lemma RankOutOfOrderPair(a: Hit, b: Hit)
    requires a.matchScore < b.matchScore
    ensures Rank([a, b]) == [b, a]
  {
    assert [a, b][1..] == [b] && [b][1..] == [];
    assert Rank([b]) == [b];
    assert Insert(a, []) == [a];
    assert Insert(a, [b]) == [b, a];
  }

  /** Of two kept items, the one with the higher match comes first,
      whatever their catalog order. */
  lemma StrongerHitFirst(query: string, weak: Item, strong: Item)
    requires query != []
    requires Best(Words(query), weak) > 0
    requires MatchOf(Words(query), weak) < MatchOf(Words(query), strong)
    ensures SearchContent(query, [weak, strong]) ==
      [Hit(strong, MatchOf(Words(query), strong), Key(strong)), Hit(weak, MatchOf(Words(query), weak), Key(weak))]
  {
    var ws := Words(query);
    var hw, hs := Hit(weak, MatchOf(ws, weak), Key(weak)), Hit(strong, MatchOf(ws, strong), Key(strong));
    if Best(ws, strong) == 0 {
      NoScoreNoMatch(ws, strong);
    }
    TwoItemCollect(ws, weak, strong);
    RankOutOfOrderPair(hw, hs);
  }

}
