/**
 The client-side content search of lib/search.ts: score every catalog item
 against a free-text query by word containment, keep the items with a
 positive score, and rank them by their rounded percentage, highest first.

 Scores are exact. Every field score of one query has the same denominator,
 the number of query words n, so a score is kept as its numerator over n and
 `Math.round(100 * best / n)` is computed with integer division.
 */
module Search {

  import opened Options
  import Text

  // -------------------------------------------------------------- data model

  datatype Kind = Hero | Product | Research

  /** A catalog record as the search receives it: the declared fields of a
      search item, plus the presentation fields that the object spread copies
      into each result unchanged. */
  datatype Record = Record(
    id: string,
    title: string,
    description: Option<string>,
    content: Option<string>,
    date: Option<string>,
    background: Option<string>,
    gradient: Option<string>,
    link: Option<string>)

  /** A search item: a record tagged with its kind. */
  datatype Item = Item(kind: Kind, record: Record)

  /** A search result: the item, its match percentage and its list key. */
  datatype Hit = Hit(item: Item, matchScore: nat, key: string)

  function KindName(k: Kind): string {
    match k
    case Hero => "Hero"
    case Product => "Product"
    case Research => "Research"
  }

  /** The result key `${type}-${id}`. */
  function Key(it: Item): string {
    KindName(it.kind) + "-" + it.record.id
  }

  /** Two items share a key exactly when they share kind and id: the kind
      names start with distinct letters, so a key's first letter fixes the
      kind and the rest of the key is the id. */
  lemma KeyInjective(a: Item, b: Item)
    ensures Key(a) == Key(b) <==> a.kind == b.kind && a.record.id == b.record.id
  {
    var pa := KindName(a.kind) + "-";
    var pb := KindName(b.kind) + "-";
    assert Key(a) == pa + a.record.id && Key(b) == pb + b.record.id;
    if Key(a) == Key(b) {
      assert Key(a)[0] == pa[0] && Key(b)[0] == pb[0];
      assert a.kind == b.kind;
      assert a.record.id == Key(a)[|pa|..] == Key(b)[|pb|..] == b.record.id;
    }
  }

  // ----------------------------------------------------------------- scoring

  /** The query words: lower-cased, trimmed, split on white space. */
  function Words(query: string): (ws: seq<string>)
    ensures |ws| >= 1
  {
    Text.Split(Text.Trim(Text.Lower(query)))
  }

  /** How many of `words` occur as substrings of `lowered`. */
  function CountMatched(words: seq<string>, lowered: string): (k: nat)
    ensures k <= |words|
    decreases |words|
  {
    if |words| == 0 then 0
    else (if Text.Contains(lowered, words[0]) then 1 else 0) + CountMatched(words[1..], lowered)
  }

  /** No word is counted exactly when no word occurs; every word is counted
      exactly when every word occurs. */
  lemma {:induction false} CountMatchedExtremes(words: seq<string>, lowered: string)
    ensures CountMatched(words, lowered) == 0
            <==> forall k :: 0 <= k < |words| ==> !Text.Contains(lowered, words[k])
    ensures CountMatched(words, lowered) == |words|
            <==> forall k :: 0 <= k < |words| ==> Text.Contains(lowered, words[k])
    decreases |words|
  {
    if |words| > 0 {
      CountMatchedExtremes(words[1..], lowered);
      assert forall k :: 1 <= k < |words| ==> words[k] == words[1..][k - 1];
    }
  }

  /** The count over two word lists is the sum of their counts, so together
      with `CountMatchedOne` it adds one for each word the text includes. */
  lemma {:induction false} CountMatchedAppend(a: seq<string>, b: seq<string>, lowered: string)
    ensures CountMatched(a + b, lowered) == CountMatched(a, lowered) + CountMatched(b, lowered)
    decreases |a|
  {
    if |a| == 0 {
      assert a + b == b;
    } else {
      assert (a + b)[0] == a[0];
      assert (a + b)[1..] == a[1..] + b;
      CountMatchedAppend(a[1..], b, lowered);
    }
  }

  /** One word counts 1 when the text includes it and 0 otherwise. */
  lemma CountMatchedOne(word: string, lowered: string)
    ensures CountMatched([word], lowered) == (if Text.Contains(lowered, word) then 1 else 0)
  {
    assert [word][1..] == [];
  }

  /** Numerator of `calculateMatchScore(query, text)` over n = |words|: the
      number of words found in the lower-cased text, so the score is at most 1.
      `CountMatchedExtremes` says when it is 0 and when it is n. */
  function Overlap(words: seq<string>, text: string): (k: nat)
    ensures k <= |words|
  {
    CountMatched(words, Text.Lower(text))
  }

  /** The score of an optional field: a missing or empty field scores 0. */
  function FieldOverlap(words: seq<string>, field: Option<string>): (k: nat)
    ensures k <= |words|
    ensures field.None? ==> k == 0
  {
    match field
    case Some(text) => if text == [] then 0 else Overlap(words, text)
    case None => 0
  }

  function Max(a: nat, b: nat): nat {
    if a >= b then a else b
  }

  /** Numerator of the best field score; the title counts double. It is the
      largest of the three field scores, so at most twice the word count. */
  function Best(words: seq<string>, it: Item): (b: nat)
    ensures b <= 2 * |words|
    ensures b >= 2 * Overlap(words, it.record.title)
    ensures b >= FieldOverlap(words, it.record.description)
    ensures b >= FieldOverlap(words, it.record.content)
    ensures || b == 2 * Overlap(words, it.record.title)
            || b == FieldOverlap(words, it.record.description)
            || b == FieldOverlap(words, it.record.content)
  {
    Max(Max(2 * Overlap(words, it.record.title), FieldOverlap(words, it.record.description)),
        FieldOverlap(words, it.record.content))
  }

  /** `Math.round(100 * num / den)`: the nearest integer, halves rounded up. */
  function RoundPercent(num: nat, den: nat): (r: nat)
    requires den > 0
    ensures 2 * den * r <= 200 * num + den < 2 * den * (r + 1)
  {
    (200 * num + den) / (2 * den)
  }

  lemma MulLeftCancel(d: int, a: int, b: int)
    requires d > 0 && d * a < d * b
    ensures a < b
  {
  }

  /** The match percentage of one item: 100 * Best / n rounded to the nearest
      integer, halves up. */
  function MatchOf(words: seq<string>, it: Item): (m: nat)
    requires |words| > 0
    ensures 2 * |words| * m <= 200 * Best(words, it) + |words| < 2 * |words| * (m + 1)
  {
    RoundPercent(Best(words, it), |words|)
  }

  /**
   The match lies in 0..200: a full title hit scores 200, and an item whose
   title matches no word scores at most 100.
   */
  lemma MatchBounds(words: seq<string>, it: Item)
    requires |words| > 0
    ensures MatchOf(words, it) <= 200
    ensures Overlap(words, it.record.title) == |words| ==> MatchOf(words, it) == 200
    ensures Overlap(words, it.record.title) == 0 ==> MatchOf(words, it) <= 100
  {
    var n := |words|;
    var b := Best(words, it);
    var r := MatchOf(words, it);
    assert b <= 2 * n;
    assert 2 * n * r <= 200 * b + n <= 2 * n * 200 + n < 2 * n * 201;
    MulLeftCancel(2 * n, r, 201);
    if Overlap(words, it.record.title) == n {
      assert b == 2 * n;
      assert 2 * n * 200 < 2 * n * (r + 1);
      MulLeftCancel(2 * n, 200, r + 1);
    }
    if Overlap(words, it.record.title) == 0 {
      assert b <= n;
      assert 2 * n * r <= 200 * n + n < 2 * n * 101;
      MulLeftCancel(2 * n, r, 101);
    }
  }

  /** The match rounds to 0 exactly when 200 times the best score is below the
      word count: the item is kept (best > 0) yet shows match 0 whenever
      0 < 200 * best < n. */
  lemma MatchZeroIff(words: seq<string>, it: Item)
    requires |words| > 0
    ensures MatchOf(words, it) == 0 <==> 200 * Best(words, it) < |words|
  {
    var n, b, m := |words|, Best(words, it), MatchOf(words, it);
    if 200 * b < n {
      assert 2 * n * m < 2 * n * 1;
      MulLeftCancel(2 * n, m, 1);
    }
  }

  /** An item is kept exactly when some query word occurs in its lower-cased
      title, or in its lower-cased description or content when present and
      non-empty. */
  lemma KeptIffSomeWordOccurs(words: seq<string>, it: Item)
    ensures Best(words, it) > 0 <==>
      exists k :: 0 <= k < |words| && OccursInField(words[k], it)
  {
    var r := it.record;
    CountMatchedExtremes(words, Text.Lower(r.title));
    if r.description.Some? {
      CountMatchedExtremes(words, Text.Lower(r.description.value));
    }
    if r.content.Some? {
      CountMatchedExtremes(words, Text.Lower(r.content.value));
    }
  }

  /** An optional field scores nothing exactly when no word occurs in it, a
      missing or empty field included. */
  lemma FieldOverlapZero(words: seq<string>, field: Option<string>)
    ensures FieldOverlap(words, field) == 0 <==>
      forall i :: 0 <= i < |words| ==> !OccursInOptional(words[i], field)
  {
    if field.Some? {
      CountMatchedExtremes(words, Text.Lower(field.value));
    }
  }

  predicate OccursInOptional(word: string, field: Option<string>) {
    field.Some? && field.value != [] && Text.Contains(Text.Lower(field.value), word)
  }

  predicate OccursInField(word: string, it: Item) {
    || Text.Contains(Text.Lower(it.record.title), word)
    || OccursInOptional(word, it.record.description)
    || OccursInOptional(word, it.record.content)
  }

  // --------------------------------------------------------------- filtering

  /** The `forEach` pass: one hit per kept item, in catalog order. */
  function Collect(words: seq<string>, items: seq<Item>): (r: seq<Hit>)
    requires |words| > 0
    ensures |r| <= |items|
    ensures forall h :: h in r ==>
      && h.item in items
      && Best(words, h.item) > 0
      && h.matchScore == MatchOf(words, h.item)
      && h.key == Key(h.item)
    ensures forall i :: 0 <= i < |items| && Best(words, items[i]) > 0 ==>
      Hit(items[i], MatchOf(words, items[i]), Key(items[i])) in r
    decreases |items|
  {
    if |items| == 0 then []
    else
      var it := items[0];
      var rest := Collect(words, items[1..]);
      assert forall i :: 1 <= i < |items| ==> items[i] == items[1..][i - 1];
      if Best(words, it) > 0 then [Hit(it, MatchOf(words, it), Key(it))] + rest else rest
  }

  /** The filter over a catalog is the filter over its parts, in order. */
  lemma {:induction false} CollectAppend(words: seq<string>, a: seq<Item>, b: seq<Item>)
    requires |words| > 0
    ensures Collect(words, a + b) == Collect(words, a) + Collect(words, b)
    decreases |a|
  {
    if |a| == 0 {
      assert a + b == b;
    } else {
      assert (a + b)[0] == a[0];
      assert (a + b)[1..] == a[1..] + b;
      CollectAppend(words, a[1..], b);
    }
  }

  /** One item gives its hit when it scores and nothing otherwise; with
      `CollectAppend` this makes `Collect` the in-order filter. */
  lemma CollectSingle(words: seq<string>, it: Item)
    requires |words| > 0
    ensures Best(words, it) > 0 ==> Collect(words, [it]) == [Hit(it, MatchOf(words, it), Key(it))]
    ensures Best(words, it) == 0 ==> Collect(words, [it]) == []
  {
    assert [it][1..] == [];
  }

  // ----------------------------------------------------------------- ranking

  predicate Sorted(hs: seq<Hit>) {
    forall i, j :: 0 <= i < j < |hs| ==> hs[i].matchScore >= hs[j].matchScore
  }

  /** The hits of `hs` whose match is `v`, in order. */
  function WithMatch(hs: seq<Hit>, v: nat): seq<Hit>
    decreases |hs|
  {
    if |hs| == 0 then []
    else (if hs[0].matchScore == v then [hs[0]] else []) + WithMatch(hs[1..], v)
  }

  /** Place `h` before the first hit of `hs` that it does not rank below. */
  function Insert(h: Hit, hs: seq<Hit>): (r: seq<Hit>)
    requires Sorted(hs)
    ensures Sorted(r)
    ensures multiset(r) == multiset{h} + multiset(hs)
    ensures r[0] == h || r[0] == hs[0]
    decreases |hs|
  {
    if |hs| == 0 || hs[0].matchScore <= h.matchScore then
      SortedCons(h, hs);
      [h] + hs
    else
      var rest := Insert(h, hs[1..]);
      SortedCons(hs[0], rest);
      assert hs == [hs[0]] + hs[1..];
      [hs[0]] + rest
  }

  lemma SortedCons(x: Hit, hs: seq<Hit>)
    requires Sorted(hs)
    requires |hs| == 0 || hs[0].matchScore <= x.matchScore
    ensures Sorted([x] + hs)
  {
    var r := [x] + hs;
    forall i, j | 0 <= i < j < |r|
      ensures r[i].matchScore >= r[j].matchScore
    {
      if i == 0 {
        assert r[j] == hs[j - 1];
      } else {
        assert r[i] == hs[i - 1] && r[j] == hs[j - 1];
      }
    }
  }

  /**
   `results.sort((a, b) => b.match - a.match)`: a stable sort, highest match
   first, modelled as insertion sort.
   */
  function Rank(hs: seq<Hit>): (r: seq<Hit>)
    ensures Sorted(r)
    ensures multiset(r) == multiset(hs)
    decreases |hs|
  {
    if |hs| == 0 then []
    else
      assert hs == [hs[0]] + hs[1..];
      Insert(hs[0], Rank(hs[1..]))
  }

  lemma {:induction false} InsertStable(h: Hit, hs: seq<Hit>, v: nat)
    requires Sorted(hs)
    ensures WithMatch(Insert(h, hs), v) == WithMatch([h] + hs, v)
    decreases |hs|
  {
    assert ([h] + hs)[1..] == hs;
    if |hs| == 0 || hs[0].matchScore <= h.matchScore {
    } else {
      var rest := Insert(h, hs[1..]);
      InsertStable(h, hs[1..], v);
      assert Insert(h, hs) == [hs[0]] + rest;
      assert ([hs[0]] + rest)[1..] == rest;
      assert ([h] + hs[1..])[1..] == hs[1..];
      // h and hs[0] differ in match, so at most one of them is kept
      if hs[0].matchScore == v {
        assert WithMatch([h] + hs, v) == WithMatch(hs, v);
      }
    }
  }

  /** Ranking keeps the relative order of hits with equal match. */
  lemma {:induction false} RankStable(hs: seq<Hit>, v: nat)
    ensures WithMatch(Rank(hs), v) == WithMatch(hs, v)
    decreases |hs|
  {
    if |hs| > 0 {
      RankStable(hs[1..], v);
      InsertStable(hs[0], Rank(hs[1..]), v);
      assert ([hs[0]] + Rank(hs[1..]))[1..] == Rank(hs[1..]);
    }
  }

  /** Ranking an already ranked list changes nothing. */
  lemma {:induction false} RankSorted(hs: seq<Hit>)
    requires Sorted(hs)
    ensures Rank(hs) == hs
    decreases |hs|
  {
    if |hs| > 0 {
      RankSorted(hs[1..]);
      assert hs == [hs[0]] + hs[1..];
    }
  }

  lemma {:induction false} WithMatchMembers(hs: seq<Hit>, v: nat)
    ensures forall x :: x in WithMatch(hs, v) ==> x in hs && x.matchScore == v
    decreases |hs|
  {
    if |hs| > 0 {
      WithMatchMembers(hs[1..], v);
    }
  }

  /**
   A sorted sequence is fixed by which hits carry each match value and in
   what order: two sorted sequences that agree on every `WithMatch` are equal.
   So `Rank` is THE stable descending sort.
   */
  lemma {:induction false} SortedUnique(a: seq<Hit>, b: seq<Hit>)
    requires Sorted(a) && Sorted(b)
    requires forall v :: WithMatch(a, v) == WithMatch(b, v)
    ensures a == b
    decreases |a|
  {
    if |a| == 0 {
      assert |b| > 0 ==> WithMatch(b, b[0].matchScore) != [];
    } else {
      var m := a[0].matchScore;
      assert WithMatch(a, m) != [];
      assert |b| > 0;
      var n := b[0].matchScore;
      assert WithMatch(b, n) != [];
      WithMatchMembers(a, n);
      WithMatchMembers(b, m);
      assert WithMatch(a, n)[0] in WithMatch(a, n);
      assert WithMatch(b, m)[0] in WithMatch(b, m);
      assert m == n;
      assert a[0] == WithMatch(a, m)[0] == WithMatch(b, m)[0] == b[0];
      forall v
        ensures WithMatch(a[1..], v) == WithMatch(b[1..], v)
      {
        assert WithMatch(a, v) == WithMatch(b, v);
        if v == m {
          assert WithMatch(a, v) == [a[0]] + WithMatch(a[1..], v);
          assert WithMatch(b, v) == [b[0]] + WithMatch(b[1..], v);
          assert ([a[0]] + WithMatch(a[1..], v))[1..] == WithMatch(a[1..], v);
          assert ([b[0]] + WithMatch(b[1..], v))[1..] == WithMatch(b[1..], v);
        } else {
          assert WithMatch(a, v) == WithMatch(a[1..], v);
          assert WithMatch(b, v) == WithMatch(b[1..], v);
        }
      }
      SortedUnique(a[1..], b[1..]);
      assert a == [a[0]] + a[1..] && b == [b[0]] + b[1..];
    }
  }

  /** `Rank` is characterised by its contract: any sorted reordering that
      keeps ties in their original order is `Rank(hs)`. */
  lemma RankIsStableSort(hs: seq<Hit>, r: seq<Hit>)
    requires Sorted(r)
    requires forall v :: WithMatch(r, v) == WithMatch(hs, v)
    ensures r == Rank(hs)
  {
    forall v
      ensures WithMatch(r, v) == WithMatch(Rank(hs), v)
    {
      RankStable(hs, v);
    }
    SortedUnique(r, Rank(hs));
  }

  // ------------------------------------------------------------------ search

  /** `searchContent(query, items)`. */
  function SearchContent(query: string, items: seq<Item>): (r: seq<Hit>)
    ensures query == [] ==> r == []
    ensures Sorted(r)
    ensures |r| <= |items|
    ensures query != [] ==> forall h :: h in r ==>
      && h.item in items
      && Best(Words(query), h.item) > 0
      && h.matchScore == MatchOf(Words(query), h.item)
      && h.key == Key(h.item)
    ensures query != [] ==> forall i :: 0 <= i < |items| && Best(Words(query), items[i]) > 0 ==>
      Hit(items[i], MatchOf(Words(query), items[i]), Key(items[i])) in r
  {
    if query == [] then []
    else
      var kept := Collect(Words(query), items);
      var r := Rank(kept);
      assert |r| == |multiset(r)| == |multiset(kept)| == |kept|;
      assert forall h :: h in r <==> h in kept by {
        forall h ensures h in r <==> h in kept {
          assert h in r <==> h in multiset(r);
          assert h in kept <==> h in multiset(kept);
        }
      }
      r
  }

  /** Results with equal match appear in catalog order. */
  lemma SearchTiesKeepCatalogOrder(query: string, items: seq<Item>, v: nat)
    requires query != []
    ensures WithMatch(SearchContent(query, items), v) == WithMatch(Collect(Words(query), items), v)
  {
    RankStable(Collect(Words(query), items), v);
  }

  /** An item appears among the results exactly when it is kept. */
  lemma SearchMembership(query: string, items: seq<Item>, it: Item)
    requires query != []
    ensures (exists h :: h in SearchContent(query, items) && h.item == it)
            <==> it in items && Best(Words(query), it) > 0
  {
    var r := SearchContent(query, items);
    if it in items && Best(Words(query), it) > 0 {
      var i :| 0 <= i < |items| && items[i] == it;
      assert Hit(it, MatchOf(Words(query), it), Key(it)) in r;
    }
  }

  /** Queries that differ only in letter case give identical results. */
  lemma SearchCaseInsensitive(q1: string, q2: string, items: seq<Item>)
    requires Text.Lower(q1) == Text.Lower(q2)
    ensures SearchContent(q1, items) == SearchContent(q2, items)
  {
    assert |q1| == |Text.Lower(q1)| == |Text.Lower(q2)| == |q2|;
  }

  // -------------------------------------------------------------- result keys

  predicate UniqueKeys(hs: seq<Hit>) {
    forall i, j :: 0 <= i < j < |hs| ==> hs[i].key != hs[j].key
  }

  /** Items at distinct positions differ in kind or in id. */
  predicate DistinctItems(items: seq<Item>) {
    forall i, j :: 0 <= i < j < |items| ==>
      items[i].kind != items[j].kind || items[i].record.id != items[j].record.id
  }

  lemma {:induction false} CollectUniqueKeys(words: seq<string>, items: seq<Item>)
    requires |words| > 0 && DistinctItems(items)
    ensures UniqueKeys(Collect(words, items))
    decreases |items|
  {
    if |items| > 0 {
      var rest := Collect(words, items[1..]);
      CollectUniqueKeys(words, items[1..]);
      forall h | h in rest
        ensures h.key != Key(items[0])
      {
        var k :| 1 <= k < |items| && items[k] == h.item;
        KeyInjective(items[0], items[k]);
      }
      if Best(words, items[0]) > 0 {
        ConsUniqueKeys(Hit(items[0], MatchOf(words, items[0]), Key(items[0])), rest);
      }
    }
  }

  /** A hit whose key is new can be put in front of a list of unique keys. */
  lemma ConsUniqueKeys(x: Hit, hs: seq<Hit>)
    requires UniqueKeys(hs)
    requires forall y :: y in hs ==> y.key != x.key
    ensures UniqueKeys([x] + hs)
  {
    var r := [x] + hs;
    forall i, j | 0 <= i < j < |r|
      ensures r[i].key != r[j].key
    {
      assert r[j] == hs[j - 1];
      if i > 0 {
        assert r[i] == hs[i - 1];
      }
    }
  }

  lemma {:induction false} InsertUniqueKeys(h: Hit, hs: seq<Hit>)
    requires Sorted(hs) && UniqueKeys(hs)
    requires forall x :: x in hs ==> x.key != h.key
    ensures UniqueKeys(Insert(h, hs))
    decreases |hs|
  {
    if |hs| == 0 || hs[0].matchScore <= h.matchScore {
      ConsUniqueKeys(h, hs);
    } else {
      var rest := Insert(h, hs[1..]);
      InsertUniqueKeys(h, hs[1..]);
      forall x | x in rest
        ensures x.key != hs[0].key
      {
        assert x in multiset(rest);
        if x != h {
          var k :| 1 <= k < |hs| && hs[k] == x;
        }
      }
      ConsUniqueKeys(hs[0], rest);
    }
  }

  lemma {:induction false} RankUniqueKeys(hs: seq<Hit>)
    requires UniqueKeys(hs)
    ensures UniqueKeys(Rank(hs))
    decreases |hs|
  {
    if |hs| > 0 {
      var rest := Rank(hs[1..]);
      RankUniqueKeys(hs[1..]);
      forall x | x in rest
        ensures x.key != hs[0].key
      {
        assert x in multiset(rest);
        var k :| 1 <= k < |hs| && hs[k] == x;
      }
      InsertUniqueKeys(hs[0], rest);
    }
  }

  /** Over a catalog whose items differ in kind or id, result keys are unique,
      as the result list's rendering keys must be. */
  lemma SearchKeysUnique(query: string, items: seq<Item>)
    requires DistinctItems(items)
    ensures UniqueKeys(SearchContent(query, items))
  {
    if query != [] {
      CollectUniqueKeys(Words(query), items);
      RankUniqueKeys(Collect(Words(query), items));
    }
  }

  // ------------------------------------------------------- the blank query

  /** Every item at match 200, in catalog order. */
  function AllAt200(items: seq<Item>): (r: seq<Hit>)
    ensures |r| == |items|
    ensures forall i :: 0 <= i < |items| ==> r[i] == Hit(items[i], 200, Key(items[i]))
    decreases |items|
  {
    if |items| == 0 then [] else [Hit(items[0], 200, Key(items[0]))] + AllAt200(items[1..])
  }

  /** A blank query's only word is "", which every text contains. */
  lemma BlankWords(query: string)
    requires Text.IsBlank(query)
    ensures Words(query) == [[]]
  {
    Text.LowerKeepsSpaces(query);
    Text.TrimSpec(Text.Lower(query));
    assert Text.Trim(Text.Lower(query)) == [];
    assert Text.NextSpace([], 0) == 0;
  }

  lemma {:induction false} CollectEmptyWord(items: seq<Item>)
    ensures Collect([[]], items) == AllAt200(items)
    decreases |items|
  {
    if |items| > 0 {
      var it := items[0];
      Text.ContainsEmpty(Text.Lower(it.record.title));
      assert Overlap([[]], it.record.title) == 1;
      assert Best([[]], it) == 2;
      assert MatchOf([[]], it) == 200;
      CollectEmptyWord(items[1..]);
    }
  }

  /**
   As written, the guard tests the untrimmed query: a non-empty query made of
   white space only gets through, splits into the single word "", and every
   item comes back with match 200, in catalog order.
   */
  lemma BlankQueryMatchesEverything(query: string, items: seq<Item>)
    requires query != [] && Text.IsBlank(query)
    ensures SearchContent(query, items) == AllAt200(items)
  {
    BlankWords(query);
    CollectEmptyWord(items);
    RankSorted(AllAt200(items));
  }

  /** The same, stated as counts and scores: every item comes back, each at 200. */
  lemma BlankQueryAllAt200(query: string, items: seq<Item>)
    requires query != [] && Text.IsBlank(query)
    ensures |SearchContent(query, items)| == |items|
    ensures forall h :: h in SearchContent(query, items) ==> h.matchScore == 200
  {
    BlankQueryMatchesEverything(query, items);
  }

  /** Concrete instance: a single space returns the whole catalog. */
  lemma SingleSpaceQuery(items: seq<Item>)
    ensures |SearchContent(" ", items)| == |items|
  {
    BlankQueryMatchesEverything(" ", items);
  }

  /**
   The evidently intended search: the empty-query guard applied to the
   trimmed query, so that a blank query returns nothing. On every other query
   it agrees with `SearchContent`.
   */
  function SearchContentGuarded(query: string, items: seq<Item>): (r: seq<Hit>)
    ensures Text.IsBlank(query) ==> r == []
    ensures !Text.IsBlank(query) ==> r == SearchContent(query, items)
  {
    Text.TrimSpec(query);
    if Text.Trim(query) == [] then [] else SearchContent(query, items)
  }

  /** Past the corrected guard, the query has no "" word, so an item is kept
      only when a real, non-empty word occurs in one of its fields. */
  lemma GuardedWordsNonEmpty(query: string)
    requires !Text.IsBlank(query)
    ensures forall k :: 0 <= k < |Words(query)| ==> |Words(query)[k]| > 0
  {
    var t := Text.Trim(Text.Lower(query));
    Text.LowerKeepsSpaces(query);
    Text.TrimSpec(Text.Lower(query));
    Text.SplitTrimmedNoEmptyPiece(t);
  }

}
