# Site search and perceptron diagram, modelled in Dafny

This project models three pieces of a Next.js blog that writes about AI
products and research:

- **Content search** (`lib/search.ts`). The site-wide search scores every
  catalog item against a free-text query. The query is lower-cased, trimmed
  and split on white space. A field's score is the share of query words it
  contains as substrings. The title's share counts double. The best field
  score, times 100 and rounded, becomes the item's `match`. Items with a
  positive best score are kept, keyed `${type}-${id}`, and sorted by
  descending match.
- **The content catalog** (`config/content.ts`): 2 hero items, 8 product
  cards and 8 research cards, joined in that order and tagged with their kind.
- **The interactive perceptron diagram** (`app/products/introduction-to-perceptrons/perceptron-diagram-component/perceptron-diagram.tsx`),
  apart from its rendering:
  - the input count with its add, remove, long-press, click-outside and
    revert transitions;
  - the list of input nodes and the container height derived from the count;
  - the weight labels `w1`, `w2`, … and `wₘ` drawn on the edges.

Files:

- `options.dfy`: `Option`, the model of an optional TypeScript property.
- `text.dfy`: the JavaScript string operations the search uses.
  - `toLowerCase` is modelled on ASCII letters.
  - `trim` and `split(/\s+/)` use ECMAScript's white-space set.
  - `includes` is modelled as substring search.
- `search.dfy`: scoring, filtering, ranking and the blank-query behaviour.
- `content.dfy`: the catalog, field by field, and facts about it.
- `scenarios.dfy`: searches over one- and two-item catalogs. These are a
  single word found in a title, two words of which the title holds one, and
  the order of a stronger and a weaker hit.
- `perceptron.dfy`: the diagram's state machine, node list, height and weight
  labels.

Scores are exact rationals, not floating point. All three field scores of one
query share the denominator n, the number of query words. So the best score is
kept as a numerator over n, and `Math.round(100 * best / n)` becomes the
integer `(200 * best + n) div (2n)`.

Where the code and its evident intent disagree, or where it behaves in a way
a reader may not expect, the model follows the code:

- The early return `if (!query) return []` tests the query before trimming. A
  query of white space only is therefore not rejected. It lower-cases and trims
  to "", and `"".split(/\s+/)` is `[""]`. The empty word is contained in every
  title, so every item comes back with match 200. The empty query returns
  nothing, so a blank query evidently should too. This is recorded under
  Findings.
- `match` is not capped at 100. A full title hit scores 200, because the title
  share is doubled before rounding.
- An item can be kept with match 0. For a query of n words whose best score
  is b word hits (title hits counted twice), the match is 0 exactly when
  `0 < 200 * b < n` (`Search.MatchZeroIff`). For example, this happens with a
  single description or content hit and more than 200 words, or with a single
  title hit and more than 400 words. The item is kept because its score is
  positive, but the score rounds to 0.
- After trimming, `split(/\s+/)` yields an empty word only for a blank query.
  For any other query every word is non-empty (`Search.GuardedWordsNonEmpty`).

In the diagram, `handleLongPressStart` refuses bias, x1, x2 and
`x${inputCount}`. The last of these never names a drawn node, because the
`x` nodes drawn are x1 to x(k) with k below the count. The model keeps the
guard as written and proves that its fourth arm is never met by a drawn node.

## Model

| member | source | states |
|---|---|---|
| Text.Lower | lib/search.ts:22-23 | `toLowerCase` on ASCII: the result has the input's length, holds no upper-case ASCII letter, maps each upper-case letter to its lower-case partner and keeps every other character |
| Text.LowerIdempotent | lib/search.ts:22-23 | lower-casing a lower-cased string changes nothing |
| Text.LowerKeepsSpaces | lib/search.ts:22 | lower-casing neither creates nor removes white space, so a query is blank before lowering exactly when it is blank after |
| Text.TrimStart | lib/search.ts:22 | the result is a suffix of the input, the cut prefix is all white space, and the result does not start with white space |
| Text.TrimEnd | lib/search.ts:22 | the result is a prefix of the input, the cut suffix is all white space, and the result does not end with white space |
| Text.Trim | lib/search.ts:22 | `trim` never lengthens its input, leaves no outer white space, and turns a blank input into "" |
| Text.TrimSpec | lib/search.ts:22 | `trim` returns a slice of the input with only white space cut on either side, that slice has no outer white space, and it is empty exactly when the input is blank |
| Text.TrimEmptyIffBlank | lib/search.ts:22 | trimming yields the empty string exactly when the input is all white space |
| Text.TrimTrimmed | lib/search.ts:22 | trimming text without outer white space returns it unchanged |
| Text.NextSpace | lib/search.ts:25 | the index found is the first white-space position at or after the start, or the end |
| Text.NextNonSpace | lib/search.ts:25 | the index found is the first non-white-space position at or after the start, or the end |
| Text.Split | lib/search.ts:25 | `split(/\s+/)` always yields at least one piece and no piece holds white space |
| Text.SplitConcat | lib/search.ts:25 | joining the pieces of a split gives back the input with its white space removed, so no character is lost, added or reordered |
| Text.SplitTrimmedNoEmptyPiece | lib/search.ts:22-25 | splitting a non-empty trimmed string yields no empty piece |
| Text.RemoveSpacesAppend | lib/search.ts:25 | removing white space distributes over concatenation |
| Text.SplitJoin | lib/search.ts:25 | for any pieces without white space (only the first and last may be empty) glued together by non-empty white-space runs, `split(/\s+/)` returns exactly those pieces |
| Text.SplitGaps | lib/search.ts:25 | every string is its own split pieces glued together by non-empty white-space runs, with only the first and last piece possibly empty; with `Text.SplitJoin` this fixes where the query words break |
| Text.Contains | lib/search.ts:29 | `includes` holds for the empty word, and holds only for words no longer than the text |
| Text.ContainsIffOccurs | lib/search.ts:29 | `includes` holds exactly when the word occurs at some position of the text |
| Text.ContainsEmpty | lib/search.ts:29 | the empty word is included in every text |
| Text.ContainsFirstChar | lib/search.ts:29 | a non-empty word that is included has its first character somewhere in the text |
| Text.NotContainsPair | lib/search.ts:29 | a text without the word's first two characters side by side does not include the word |
| Text.ContainsSuffix | lib/search.ts:29 | a text includes each of its suffixes |
| Text.ContainsPrefix | lib/search.ts:29 | a text includes each of its prefixes |
| Search.Key | lib/search.ts:53 | the key `${type}-${id}`: the kind's name, a dash, then the id (that it identifies kind and id is stated by `Search.KeyInjective`) |
| Search.KeyInjective | lib/search.ts:53 | two items share the key `${type}-${id}` exactly when they share kind and id |
| Search.Words | lib/search.ts:22-25 | a query always yields at least one word, so the score's divisor is never zero |
| Search.CountMatched | lib/search.ts:26-32 | the matched-word count never exceeds the number of words; it adds one per included word (stated by `Search.CountMatchedAppend` and `Search.CountMatchedOne`) |
| Search.CountMatchedAppend | lib/search.ts:26-32 | the count over two word lists joined is the sum of their counts |
| Search.CountMatchedOne | lib/search.ts:28-32 | a single word counts 1 when the lower-cased text includes it and 0 otherwise |
| Search.Overlap | lib/search.ts:21-35 | `calculateMatchScore` as a numerator over the word count: the number of words found in the lower-cased text, one per included word (`Search.CountMatchedAppend`, `Search.CountMatchedOne`), never more than the word count, so the score lies in 0..1 |
| Search.FieldOverlap | lib/search.ts:44-45 | an optional field scores at most the word count, and a missing field scores 0 |
| Search.FieldOverlapZero | lib/search.ts:44-45 | an optional field scores 0 exactly when no word occurs in it, a missing or empty field included |
| Search.Best | lib/search.ts:43-47 | the best score is the largest of the doubled title score and the description and content scores, and at most twice the word count |
| Search.CountMatchedExtremes | lib/search.ts:26-34 | the count is 0 exactly when no word is included, and it is the number of words exactly when every word is included |
| Search.RoundPercent | lib/search.ts:52 | the result is the integer nearest to 100 * num / den, with halves rounded up, as `Math.round` does |
| Search.MatchOf | lib/search.ts:52 | the match is 100 times the best score over the word count, rounded to the nearest integer with halves rounded up |
| Search.MatchZeroIff | lib/search.ts:49-52 | for n words, the match is 0 exactly when 200 times the best score is below n, so a kept item can show match 0 |
| Search.MatchBounds | lib/search.ts:43-52 | the match lies in 0..200, a title holding every word gives 200, and a title holding no word gives at most 100 |
| Search.KeptIffSomeWordOccurs | lib/search.ts:43-49 | an item is kept exactly when some word occurs in its title, or in a non-empty description or content |
| Search.Collect | lib/search.ts:42-56 | every hit is an input item with a positive best score, the rounded match and the key `${type}-${id}`; every item with a positive best score has its hit kept; there are at most as many hits as items |
| Search.CollectAppend | lib/search.ts:42-56 | filtering a catalog is filtering its parts and joining the results in order, so hits keep catalog order |
| Search.CollectSingle | lib/search.ts:49-55 | one item yields its single hit when its best score is positive, and nothing otherwise |
| Search.Insert | lib/search.ts:58 | inserting into a list sorted by descending match keeps it sorted and adds exactly the one hit |
| Search.Rank | lib/search.ts:58 | the ranked list is sorted by descending match and is a permutation of its input |
| Search.InsertStable | lib/search.ts:58 | insertion keeps the relative order of hits with equal match, the new hit first |
| Search.RankStable | lib/search.ts:58 | ranking keeps the relative order of hits with equal match, as a stable sort does |
| Search.RankSorted | lib/search.ts:58 | ranking a list that is already sorted leaves it unchanged |
| Search.WithMatchMembers | lib/search.ts:58 | the hits selected for one match value come from the list and carry that value |
| Search.SortedUnique | lib/search.ts:58 | two sorted lists with the same hits in the same order at every match value are equal |
| Search.RankIsStableSort | lib/search.ts:58 | any list sorted by descending match that keeps the input order within each match value is the ranking, so the ranking is the stable sort |
| Search.SearchContent | lib/search.ts:37-59 | the empty query returns nothing; otherwise the result is sorted by descending match, has no more hits than there are items, and holds exactly the scoring items, each with its rounded match and key |
| Search.SearchTiesKeepCatalogOrder | lib/search.ts:42-58 | results with equal match appear in catalog order |
| Search.SearchMembership | lib/search.ts:42-58 | for a non-empty query, an item appears in the results exactly when it is in the catalog and its best score is positive |
| Search.SearchCaseInsensitive | lib/search.ts:22-23 | two queries that differ only in ASCII letter case return the same results |
| Search.CollectUniqueKeys | lib/search.ts:42-56 | filtering a catalog with distinct kind-and-id pairs gives hits with distinct keys |
| Search.InsertUniqueKeys | lib/search.ts:58 | inserting a hit whose key is new keeps the keys distinct |
| Search.RankUniqueKeys | lib/search.ts:58 | ranking keeps the keys distinct |
| Search.SearchKeysUnique | lib/search.ts:37-59 | over a catalog with distinct kind-and-id pairs, every result key is distinct, as React list keys must be |
| Search.AllAt200 | lib/search.ts:49-54 | one hit per item, in catalog order, each with match 200 and its key |
| Search.BlankWords | lib/search.ts:22-25 | a blank query yields the single empty word |
| Search.CollectEmptyWord | lib/search.ts:42-56 | the single empty word keeps every item with match 200 |
| Search.BlankQueryMatchesEverything | lib/search.ts:38 | a non-empty query of white space only returns every item, in catalog order, with match 200 |
| Search.BlankQueryAllAt200 | lib/search.ts:38 | a non-empty blank query returns one result per item, each with match 200 |
| Search.SingleSpaceQuery | lib/search.ts:38 | the query " " returns as many results as there are items |
| Search.SearchContentGuarded | lib/search.ts:38 | the corrected search returns nothing for a blank query and otherwise the same results as the search as written |
| Search.GuardedWordsNonEmpty | lib/search.ts:22-25 | a query that is not blank yields only non-empty words |
| Content.Tag | config/content.ts:168-172 | `records.map(item => ({ ...item, type }))`: every record in order, tagged with its group's kind (layout stated by `Content.CatalogOfLayout`) |
| Content.CatalogOf | config/content.ts:168-172 | the three tagged groups spread one after another: heroes, then products, then research (layout stated by `Content.CatalogOfLayout`) |
| Content.AllContent | config/content.ts:168-172 | `allContent` built from the three literal groups (its size, order and keys are stated by `Content.CatalogLayout` and `Content.CatalogKeysDistinct`) |
| Content.CatalogOfLayout | config/content.ts:168-172 | spreading three tagged groups keeps every record, in group order, each with the kind of its group |
| Content.CatalogOfDistinct | config/content.ts:168-172 | groups whose ids are distinct within each group give a catalog in which no two items share kind and id |
| Content.DistinctItemsKeys | lib/search.ts:53 | items with distinct kind-and-id pairs have distinct keys `${type}-${id}` |
| Content.HeroFacts | config/content.ts:1-16 | there are 2 hero items with distinct ids, the first with id "sora", none with content or date |
| Content.ProductIds | config/content.ts:18-91 | there are 8 products with distinct ids, the first with id "sora" |
| Content.ProductTitles | config/content.ts:18-91 | no product is titled "Safety & Alignment" or "Research" |
| Content.ResearchIds | config/content.ts:93-166 | there are 8 research posts with distinct ids |
| Content.ResearchTitles | config/content.ts:93-166 | "Safety & Alignment" is the title of exactly the 1st, 3rd, 6th and 8th research post, and "Research" of exactly the 4th, 5th and 7th |
| Content.CatalogLayout | config/content.ts:1-172 | the catalog has 2 hero, 8 product and 8 research items, in that order, 18 in all |
| Content.CatalogKeysDistinct | config/content.ts:168-172 | no two catalog items share kind and id, so no two share a search key |
| Content.SoraIdShared | config/content.ts:1-26 | the hero and the product named Sora share the id "sora" and differ only by the kind in their keys |
| Content.HeroesHaveNoContent | config/content.ts:1-16 | hero items have no content field, so their content score is always 0 |
| Content.RepeatedTitles | config/content.ts:93-166 | "Safety & Alignment" is the title at exactly positions 10, 12, 15 and 17, and "Research" at exactly 13, 14 and 16 |
| Content.CatalogSearchKeysDistinct | lib/search.ts:53 | every search of the catalog returns at most 18 results with distinct keys |
| Content.CatalogBlankQuery | lib/search.ts:38 | a non-empty blank query returns all 18 catalog items, each with match 200 |
| Scenarios.OneWordQuery | lib/search.ts:22-25 | a one-word query has its lower-cased self as its only word |
| Scenarios.TwoWordQuery | lib/search.ts:22-25 | two words joined by one space split back into their lower-cased forms |
| Scenarios.SplitTwo | lib/search.ts:25 | two non-empty words without white space, joined by one space, split back into exactly those two words |
| Scenarios.SingleItemSearch | lib/search.ts:37-59 | a one-item catalog gives that item's hit exactly when it scores, and nothing otherwise |
| Scenarios.NoScoreNoMatch | lib/search.ts:47-52 | an item with best score 0 has match 0 |
| Scenarios.TitleWordScores200 | lib/search.ts:43-53 | a one-word query found in the title returns the item with match 200, whatever its other fields hold |
| Scenarios.HalfTitleScores100 | lib/search.ts:43-53 | a two-word query whose title holds only the first word returns the item with match 100, whatever its other fields hold |
| Scenarios.RankOutOfOrderPair | lib/search.ts:58 | ranking a pair whose second hit scores higher swaps it |
| Scenarios.StrongerHitFirst | lib/search.ts:42-58 | of two kept items, the one with the higher match comes first, whatever their catalog order |
| Perceptron.DecimalString | app/products/introduction-to-perceptrons/perceptron-diagram-component/perceptron-diagram.tsx:68 | a number prints as decimal digits in canonical form: one digit exactly when it is below 10, and no leading zero from 10 up (its value and injectivity are stated by `Perceptron.ParseDecimal` and `Perceptron.DecimalInjective`) |
| Perceptron.LeadingDigits | app/products/introduction-to-perceptrons/perceptron-diagram-component/perceptron-diagram.tsx:445 | the leading-digit run is maximal |
| Perceptron.ParseDecimal | app/products/introduction-to-perceptrons/perceptron-diagram-component/perceptron-diagram.tsx:445 | `parseInt` of a printed number gives the number back |
| Perceptron.DecimalInjective | app/products/introduction-to-perceptrons/perceptron-diagram-component/perceptron-diagram.tsx:68 | two numbers print alike exactly when they are equal |
| Perceptron.XIdDiffers | app/products/introduction-to-perceptrons/perceptron-diagram-component/perceptron-diagram.tsx:64-75 | the id of an `x` node differs from bias, from xm and from the id of any other `x` node |
| Perceptron.XCount | app/products/introduction-to-perceptrons/perceptron-diagram-component/perceptron-diagram.tsx:67 | the `Array.from` length `Math.min(inputCount, MAX_INPUTS) - 1`: count - 1 for a count in 1..7, 6 from 7 up, and 0 (clamped) for a count of at most 1 |
| Perceptron.InputNodes | app/products/introduction-to-perceptrons/perceptron-diagram-component/perceptron-diagram.tsx:64-77 | `inputNodes`: bias first, and between 2 and MAX_INPUTS nodes whatever the count |
| Perceptron.InputNodesShape | app/products/introduction-to-perceptrons/perceptron-diagram-component/perceptron-diagram.tsx:64-77 | the node list is bias, then x1..xk with k = min(count, 7) - 1 clamped at 0, then xm exactly when the count is at most 3; ids are pairwise distinct |
| Perceptron.ContainerHeight | app/products/introduction-to-perceptrons/perceptron-diagram-component/perceptron-diagram.tsx:58-62 | `getContainerHeight`: at least 300, a whole number of 50 px steps above 300, and exactly 300 when the count is at most 3 |
| Perceptron.ContainerHeightMonotone | app/products/introduction-to-perceptrons/perceptron-diagram-component/perceptron-diagram.tsx:58-62 | the height is at least 300 and grows with the count; from 3 to 7 inputs it is 300 plus 50 per `x` node beyond the second |
| Perceptron.AddInput | app/products/introduction-to-perceptrons/perceptron-diagram-component/perceptron-diagram.tsx:88-92 | `handleAddInput` raises the count by at most one, never past MAX_INPUTS from a count within it, and changes nothing else |
| Perceptron.RemoveInput | app/products/introduction-to-perceptrons/perceptron-diagram-component/perceptron-diagram.tsx:94-99 | `handleRemoveInput` lowers the count by at most one, never below one from a count of at least one, never for bias, clears the long press when it removes, changes nothing at all when it does not remove, and leaves the revert flag alone |
| Perceptron.LongPressRefused | app/products/introduction-to-perceptrons/perceptron-diagram-component/perceptron-diagram.tsx:102 | the guard of `handleLongPressStart`: refuses bias, x1, x2 and `x${inputCount}` (`Perceptron.LongPressGuardNeverDrawn` shows the last never names a drawn node) |
| Perceptron.LongPress | app/products/introduction-to-perceptrons/perceptron-diagram-component/perceptron-diagram.tsx:101-107 | a long press held until its timer fires changes nothing when the guard refuses the node (bias, x1 and x2 among them) and otherwise marks exactly that node as long-pressed, leaving the count and the revert flag alone |
| Perceptron.ClickOutside | app/products/introduction-to-perceptrons/perceptron-diagram-component/perceptron-diagram.tsx:230-239 | a mouse-down outside the nodes clears the long press and keeps the count and the revert flag |
| Perceptron.RevertResult | app/products/introduction-to-perceptrons/perceptron-diagram-component/perceptron-diagram.tsx:241-273 | once its timers have run, revert never raises the count, never takes a count of at least 3 below 3, changes it only to 3, and keeps the long press and the revert flag |
| Perceptron.Revert | app/products/introduction-to-perceptrons/perceptron-diagram-component/perceptron-diagram.tsx:241-273 | revert does nothing unless the count is above 3 and no revert is running; otherwise it marks x3..xk for removal, the interval ticks set count - 1 down to 3 and then 3 once more, and the count ends at 3 |
| Perceptron.ButtonsDisabledExactlyWhenNoOp | app/products/introduction-to-perceptrons/perceptron-diagram-component/perceptron-diagram.tsx:88-99 | add is a no-op exactly when the count is at least 7, revert exactly when the count is at most 3 or a revert is running (its button's disabled condition), and removing bias never changes anything |
| Perceptron.AddRemoveInverse | app/products/introduction-to-perceptrons/perceptron-diagram-component/perceptron-diagram.tsx:88-99 | adding then removing an input restores the diagram with the long press cleared, and removing then adding restores the count |
| Perceptron.LongPressGuardNeverDrawn | app/products/introduction-to-perceptrons/perceptron-diagram-component/perceptron-diagram.tsx:64-77 | no drawn node has the id `x${inputCount}` that the long-press guard refuses |
| Perceptron.RunPreservesValid | app/products/introduction-to-perceptrons/perceptron-diagram-component/perceptron-diagram.tsx:88-107 | from a count in 1..7 with no revert running and no long press on bias, x1 or x2, every sequence of actions stays so |
| Perceptron.RunKeepsCountAtMostMax | app/products/introduction-to-perceptrons/perceptron-diagram-component/perceptron-diagram.tsx:88-92 | from a count of at most 7, no sequence of actions exceeds 7 |
| Perceptron.RemoveButtonShown | app/products/introduction-to-perceptrons/perceptron-diagram-component/perceptron-diagram.tsx:511 | the remove button is drawn for the long-pressed node only, and never for bias or xm (`Perceptron.RemoveButtonOnlyForRemovable` states what it rules out) |
| Perceptron.RemoveButtonOnlyForRemovable | app/products/introduction-to-perceptrons/perceptron-diagram-component/perceptron-diagram.tsx:511 | from the default start of 3 inputs, the remove button is never offered for bias, x1, x2 or xm |
| Perceptron.ParseInt | app/products/introduction-to-perceptrons/perceptron-diagram-component/perceptron-diagram.tsx:445 | `parseInt` is NaN exactly when the text is empty or does not start with a digit (the digit value is stated by `Perceptron.ParseDecimal`) |
| Perceptron.BeforeDash | app/products/introduction-to-perceptrons/perceptron-diagram-component/perceptron-diagram.tsx:445 | `id.split('-')[0]`: the longest prefix without '-', so the character after it, if any, is '-' |
| Perceptron.DropFirst | app/products/introduction-to-perceptrons/perceptron-diagram-component/perceptron-diagram.tsx:445 | `.slice(1)`: the text after the first character, and "" for "" |
| Perceptron.NumberText | app/products/introduction-to-perceptrons/perceptron-diagram-component/perceptron-diagram.tsx:446 | `${nodeIndex}`: a parsed number printed in decimal, and NaN printed as "NaN" (`Perceptron.XEdgeLabel` states the printed label of each `x` edge) |
| Perceptron.WeightLabel | app/products/introduction-to-perceptrons/perceptron-diagram-component/perceptron-diagram.tsx:436-447 | exactly the edges whose id includes "-sum" and not "bias" get a label, and every label is "w" followed by at least one character |
| Perceptron.InputEdges | app/products/introduction-to-perceptrons/perceptron-diagram-component/perceptron-diagram.tsx:143-151 | one edge id `${id}-sum` per input node, in node order (stated by `Perceptron.InputEdgesAt`) |
| Perceptron.InputEdgesAt | app/products/introduction-to-perceptrons/perceptron-diagram-component/perceptron-diagram.tsx:143-151 | there is one input edge per node, and the edge at each position is that node's id followed by "-sum" |
| Perceptron.EdgeIds | app/products/introduction-to-perceptrons/perceptron-diagram-component/perceptron-diagram.tsx:143-177 | the edge ids are one `${id}-sum` per input node in order, then "sum-function" and "function-output" |
| Perceptron.LabelsAppend | app/products/introduction-to-perceptrons/perceptron-diagram-component/perceptron-diagram.tsx:435-459 | the labels of two edge lists joined are their labels joined, in order |
| Perceptron.SingleEdgeLabel | app/products/introduction-to-perceptrons/perceptron-diagram-component/perceptron-diagram.tsx:435-459 | one edge contributes its own label when it has one and nothing otherwise |
| Perceptron.XEdgeLabelsStep | app/products/introduction-to-perceptrons/perceptron-diagram-component/perceptron-diagram.tsx:436-447 | drawing node x<k> after x1..x(k-1) appends the label w<k> |
| Perceptron.XEdgeLabel | app/products/introduction-to-perceptrons/perceptron-diagram-component/perceptron-diagram.tsx:436-447 | the edge `x<n>-sum` is labelled `w<n>` |
| Perceptron.XEdgeLabels | app/products/introduction-to-perceptrons/perceptron-diagram-component/perceptron-diagram.tsx:436-447 | the edges of x1..xk are labelled w1..wk in order |
| Perceptron.LabelsOfUnlabelled | app/products/introduction-to-perceptrons/perceptron-diagram-component/perceptron-diagram.tsx:436-458 | edges that carry no label contribute none |
| Perceptron.BiasEdgeLabel | app/products/introduction-to-perceptrons/perceptron-diagram-component/perceptron-diagram.tsx:436 | the bias edge carries no label |
| Perceptron.OutputEdgesUnlabelled | app/products/introduction-to-perceptrons/perceptron-diagram-component/perceptron-diagram.tsx:158-177 | neither the sum-to-function nor the function-to-output edge is labelled |
| Perceptron.OutputEdgeLabels | app/products/introduction-to-perceptrons/perceptron-diagram-component/perceptron-diagram.tsx:436-458 | the two edges after the sum contribute no labels |
| Perceptron.XmEdgeLabel | app/products/introduction-to-perceptrons/perceptron-diagram-component/perceptron-diagram.tsx:442-443 | the xm edge is labelled wₘ |
| Perceptron.EdgeIdsLabels | app/products/introduction-to-perceptrons/perceptron-diagram-component/perceptron-diagram.tsx:143-177 | only the input edges contribute labels |
| Perceptron.InputLabelsSplit | app/products/introduction-to-perceptrons/perceptron-diagram-component/perceptron-diagram.tsx:143-151 | the input edges' labels are the bias edge's, then the `x` edges', then the xm edge's |
| Perceptron.Labels | app/products/introduction-to-perceptrons/perceptron-diagram-component/perceptron-diagram.tsx:435-459 | `lines.map(...)` keeping only the edges that draw a label, in edge order (stated by `Perceptron.LabelsAppend`, `Perceptron.LabelsOfUnlabelled` and `Perceptron.SingleEdgeLabel`) |
| Perceptron.WeightLabels | app/products/introduction-to-perceptrons/perceptron-diagram-component/perceptron-diagram.tsx:435-459 | the labels drawn over all edges of the diagram (stated by `Perceptron.WeightLabelsSpec`) |
| Perceptron.WeightLabelsSpec | app/products/introduction-to-perceptrons/perceptron-diagram-component/perceptron-diagram.tsx:143-177 | the labels drawn are w1..wk for the `x` nodes in order, then wₘ exactly when the count is at most 3 |

## Left out

- React state, effects, rendering and animation are not modelled. Each handler becomes a pure function on the diagram state.
- The timers of the diagram are not modelled. These are the 500 ms long-press timer, the 100 ms and 300 ms revert delays and the 500 ms reset. A long press is modelled as held until its timer fires. Releasing early (`handleLongPressEnd`) changes no modelled state.
- `removingLines` and `removingNodes` are not modelled: they only drive the red overlays and line fades. Perceptron.Revert returns the ids it marks for removal.
- Perceptron.RevertResult applies a whole revert at once. User actions that interleave with a running revert's ticks are not modelled.
- DOM geometry is not modelled: `createPath`, `getBoundingClientRect`, `getPointAtLength`, the container width and the label positions. Only the edge ids and label texts are.
- The middle and output nodes, the info pop-ups and `useInView` are fixed or presentational and are left out.
- Text.Lower: lower-cases ASCII letters only. JavaScript's `toLowerCase` also maps other Unicode letters.
- Search.RoundPercent: rounds the exact ratio. The source computes in IEEE doubles, whose error at an exact half could round the other way.
- Perceptron.ParseInt: reads leading decimal digits only. Leading white space, signs and radix prefixes, which `parseInt` also accepts, never occur in the edge ids it is applied to.
- The search page, the search overlay and the other components that call `searchContent` are not part of this model.

## Findings

| source | as written | input that shows it | evidently intended | confidence | as-written member | corrected member |
|---|---|---|---|---|---|---|
| lib/search.ts:38 | the empty-query guard `!query` tests the untrimmed query, so a blank query reaches the scan with the single word "" | query `" "` over any catalog: every item is returned with match 200 | a query that is blank after trimming returns no results | not executed | Search.BlankQueryMatchesEverything | Search.SearchContentGuarded |
