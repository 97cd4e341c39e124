# Read coverage, blind spots and the CSV graph, in Dafny

This project models two parts of a news-reading dashboard and proves
properties of them.

**Blind-spot detection** (`src/utils/blindSpotDetection.js`) works on a
tree of news nodes. A node may have `children`, so it is a group. It may be a
summary (`isSummary`). It may carry a `description` and a `readBy` list of user
ids. The module answers these questions:
- `hasUserRead`: has a user read a node?
- `isGroupRead`: has a user read a group? Either its first summary is read, or
  every non-summary child is read, recursively.
- `findUnreadForUser`: which articles has the user not read?
- `findCompletelyUnread`: which articles has nobody read?
- `getReadingStats`: the article and group counters and the two
  percentages.
- `findBlindSpots`: which groups have a read percentage below a threshold
  (default 50)? The result is sorted by that percentage.

**The CSV graph view** (`src/components/CsvGraphView.js`) has two parts that
are modelled:
- Loading. The parser's output is checked for the columns `title`, `parent`,
  `value` and `timestamp`, case-insensitively. The records are then normalised
  into rows with an `id` and their original index, and the rows without a
  title are dropped.
- The graph derivation. Rows are grouped by parent (`root` when there is
  none), and one node per row carries its group, its position in the group
  and the group's size. A link goes from each parent to its child when the
  parent is present, is not blank after `trim()`, and is an existing node id. Sibling links join consecutive members of
  each group, taken in JavaScript's property order.

Modules:
- `Wrappers`: Option and Result.
- `Seqs`: filter, map, subsequence and a stable insertion sort, with their
  lemmas.
- `JsStrings`: ASCII `toLowerCase`, `trim` over ECMAScript whitespace, the
  decimal rendering of an index, and the array-index property order of
  ordinary objects.
- `BlindSpotDetection` and `BlindSpotProperties`: the first file.
- `CsvRows`, `CsvGraph` and `CsvGraphProperties`: the second file.

Modelling choices:
- Each `traverse` closure becomes a recursive method. The method threads the
  outer array or counters in and out, and loops over `children` with a `while`
  loop. The closures of findUnreadForUser, findCompletelyUnread and
  getReadingStats are proved equal to functions over the pre-order visit
  sequence (`PreOrder`). The closure of findBlindSpots is proved equal to a
  function over `GroupWalk`, which visits only groups and does not descend
  below a summary, so it can skip groups that `PreOrder` reaches
  (`GroupUnderSummarySkipped`).
- The properties are proved about those functions.
- The graph derivation is a method with the same loops. It is proved equal to
  `Nodes`, `ParentLinks` and `SiblingLinks`.

A group's own `readBy` is never consulted: whether a group is read depends
only on its children (`GroupReadIgnoresOwnReadBy`), so marking a group read does
not make its descendants read. There is no "any user" mode either; every
function takes one specific `userId`.

## Model

| member | source | states |
|---|---|---|
| BlindSpotDetection.HasDescription | src/utils/blindSpotDetection.js:44 | `node.description` is truthy: present and non-empty (used in the article test) |
| BlindSpotDetection.HasUserRead | src/utils/blindSpotDetection.js:32-34 | hasUserRead; its meaning on positions of `readBy` is `HasUserReadIff` |
| BlindSpotDetection.FindSummary | src/utils/blindSpotDetection.js:11 | `children.find(child => child.isSummary)`; characterised by `FindSummaryIsFirst` |
| BlindSpotDetection.NotSummary | src/utils/blindSpotDetection.js:17 | the `filter` test `!child.isSummary` |
| BlindSpotDetection.IsGroupRead | src/utils/blindSpotDetection.js:7-27 | isGroupRead; characterised by `IsGroupReadIff`, `SummaryReadMeansGroupRead`, `VacuousGroupUnread`, `GroupReadIgnoresOwnReadBy` |
| BlindSpotDetection.EveryChildRead | src/utils/blindSpotDetection.js:17-26 | `nonSummaryChildren.every(...)`; characterised by `EveryChildReadIff` |
| BlindSpotDetection.ChildRead | src/utils/blindSpotDetection.js:20-26 | the `every` callback: sub-groups by isGroupRead, leaves by hasUserRead |
| BlindSpotDetection.PreOrder | src/utils/blindSpotDetection.js:42-53 | the visit order of the closures of findUnreadForUser, findCompletelyUnread and getReadingStats (:42-53, :65-76, :92-116); `Collect`, `VisitedAll` and `TreeCountsArePreOrderCounts` tie those closures to it, and findBlindSpots's closure visits the `GroupWalk` subsequence of it (`GroupWalkIsGroups`) |
| BlindSpotDetection.PreOrderAll | src/utils/blindSpotDetection.js:50-52 | the visit order of `children.forEach(traverse)`; `PreOrderAllSnoc` |
| BlindSpotDetection.Visited | src/utils/blindSpotDetection.js:50-52 | the nodes visited after the first i children; `VisitedStep`, `VisitedAll` |
| BlindSpotDetection.IsArticle | src/utils/blindSpotDetection.js:44-44 | the article test of :44, :67 and :94: childless with a truthy description, or a summary |
| BlindSpotDetection.IsGroup | src/utils/blindSpotDetection.js:104-104 | the group test of :104 and :136: has `children`, not a summary |
| BlindSpotDetection.UnreadBy | src/utils/blindSpotDetection.js:44-47 | the selection findUnreadForUser pushes; `FindUnreadForUser` |
| BlindSpotDetection.ReadBy | src/utils/blindSpotDetection.js:94-97 | the articles counted as read; `ReadingStatsCount` |
| BlindSpotDetection.ReadGroupBy | src/utils/blindSpotDetection.js:104-107 | the groups counted as read; `ReadingStatsCount` |
| BlindSpotDetection.NeverRead | src/utils/blindSpotDetection.js:67-69 | an article whose `readBy` is absent or empty; `FindCompletelyUnread`, `NeverReadIsUnreadByAll` |
| BlindSpotDetection.Plus | src/utils/blindSpotDetection.js:86-114 | adding the five counters componentwise; `PlusAssociative` |
| BlindSpotDetection.CountsOf | src/utils/blindSpotDetection.js:92-114 | the counters taken node by node along a walk; `CountsOfAppend`, `CountsConsistent` |
| BlindSpotDetection.OwnCounts | src/utils/blindSpotDetection.js:94-109 | one node's counter bumps; `TallyOwn`, `CountsOfSingleton` |
| BlindSpotDetection.NoCounts | src/utils/blindSpotDetection.js:86-90 | the five counters start at 0 |
| BlindSpotDetection.TreeCounts | src/utils/blindSpotDetection.js:92-114 | the counters of a subtree by structural recursion; `Tally`, `TreeCountsArePreOrderCounts` |
| BlindSpotDetection.ForestCounts | src/utils/blindSpotDetection.js:111-113 | the counters of a child list; `TallyChildren`, `ForestCountsSnoc` |
| BlindSpotDetection.StatsOf | src/utils/blindSpotDetection.js:118-126 | the returned record, with both percentages; `ReadingStatsPercentages` |
| BlindSpotDetection.ReadingStats | src/utils/blindSpotDetection.js:85-127 | getReadingStats's result; `GetReadingStats`, `ReadingStatsCount`, `ReadingStatsExtremes` |
| BlindSpotDetection.GroupWalk | src/utils/blindSpotDetection.js:135-151 | the groups findBlindSpots's `traverse` visits, in pre-order; `GroupWalkIsGroups`, `GroupWalkIsEveryGroup`, `GroupUnderSummarySkipped` |
| BlindSpotDetection.GroupWalkAll | src/utils/blindSpotDetection.js:150-150 | the same for `node.children.forEach(traverse)`; `GroupWalkAllSnoc`, `GroupWalkAllIsGroups` |
| BlindSpotDetection.EntryFor | src/utils/blindSpotDetection.js:140-146 | the object pushed for a group, from its recomputed stats; `EntriesFromGroups` |
| BlindSpotDetection.DefaultThreshold | src/utils/blindSpotDetection.js:132 | the default `threshold = 50` of findBlindSpots, used as `FindBlindSpots`'s default argument |
| BlindSpotDetection.BelowThreshold | src/utils/blindSpotDetection.js:139-139 | the strict test `stats.readPercentage < threshold`; `EntriesSelectGroups` |
| BlindSpotDetection.EntryOf | src/utils/blindSpotDetection.js:140-146 | `EntryFor` as a function value |
| BlindSpotDetection.Entries | src/utils/blindSpotDetection.js:135-152 | the entries pushed for a sequence of visited groups, in order; `EntriesAppend`, `EntriesSingleton`, `CollectBlindSpots` |
| BlindSpotDetection.EntryPercentage | src/utils/blindSpotDetection.js:155-155 | the sort key of the comparator `a.readPercentage - b.readPercentage`; `FindBlindSpots` |
| Seqs.Filter | src/utils/blindSpotDetection.js:44-47 | `Array.prototype.filter` (and the pushes of a conditional traversal): keeps elements in order, never longer than its input; `FilterMembers`, `FilterAppend` |
| Seqs.MapSeq | src/utils/blindSpotDetection.js:140-146 | `Array.prototype.map` and the entry built per pushed group: one result per element, in order; `MapSeqAt`, `MapSeqAppend` |
| Seqs.Insert | src/utils/blindSpotDetection.js:155 | one step of the stable sort: inserts before the first key that is not smaller, a permutation with one more element; `InsertSorted`, `InsertStable` |
| Seqs.SortBy | src/utils/blindSpotDetection.js:155 | `sort((a, b) => a.readPercentage - b.readPercentage)`: a permutation of its input, of the same length; `SortBySorted`, `SortByStable` |
| Seqs.InsertSorted | src/utils/blindSpotDetection.js:155 | inserting into a sorted sequence keeps it sorted |
| Seqs.SortBySorted | src/utils/blindSpotDetection.js:155 | the sort's result is in ascending key order |
| Seqs.InsertStable | src/utils/blindSpotDetection.js:155 | inserting keeps the relative order of the elements with any one key, the inserted element ahead of equal keys |
| Seqs.SortByStable | src/utils/blindSpotDetection.js:155 | the sort is stable: for every key, the elements with that key keep their input order |
| BlindSpotDetection.Collect | src/utils/blindSpotDetection.js:42-53 | the traversal closure pushes onto the outer array exactly the visited nodes that the selection accepts, in pre-order (node first, then each child's subtree) |
| BlindSpotDetection.FindUnreadForUser | src/utils/blindSpotDetection.js:39-57 | the result is the pre-order subsequence of articles/summaries the user has not read; every such node of the tree is in it and nothing else is |
| BlindSpotDetection.FindCompletelyUnread | src/utils/blindSpotDetection.js:62-80 | the result is the pre-order subsequence of articles/summaries whose `readBy` is absent or empty, and contains every such node |
| BlindSpotDetection.PreOrderAllSnoc | src/utils/blindSpotDetection.js:50-52 | visiting one more child appends that child's whole pre-order walk |
| BlindSpotDetection.VisitedStep | src/utils/blindSpotDetection.js:50-52 | after `forEach` has handled child i, the visited nodes are those before it plus child i's subtree |
| BlindSpotDetection.VisitedAll | src/utils/blindSpotDetection.js:42-53 | once `forEach` has finished, the visited nodes are exactly the node's pre-order walk |
| BlindSpotDetection.Tally | src/utils/blindSpotDetection.js:92-114 | the stats closure adds to the incoming counters exactly the counters of the subtree |
| BlindSpotDetection.TallyOwn | src/utils/blindSpotDetection.js:94-109 | the node's own contribution: +1 article (+1 read or +1 unread) for an article/summary, +1 group (+1 read group) for a non-summary group |
| BlindSpotDetection.TallyChildren | src/utils/blindSpotDetection.js:111-113 | the `forEach` over children adds the counters of every child subtree |
| BlindSpotDetection.PlusAssociative | src/utils/blindSpotDetection.js:86-114 | the order in which counter increments are grouped does not matter |
| BlindSpotDetection.CountsOfAppend | src/utils/blindSpotDetection.js:92-114 | counting over two consecutive stretches of the walk adds their counters |
| BlindSpotDetection.ForestCountsSnoc | src/utils/blindSpotDetection.js:111-113 | counting one more child adds that child's subtree counters |
| BlindSpotDetection.CountsOfSingleton | src/utils/blindSpotDetection.js:94-109 | counting a one-node walk gives that node's own contribution |
| BlindSpotDetection.TreeCountsArePreOrderCounts | src/utils/blindSpotDetection.js:92-116 | the recursive counting equals counting node by node along the visit order |
| BlindSpotDetection.ForestCountsArePreOrderCounts | src/utils/blindSpotDetection.js:111-113 | the same for a list of children |
| BlindSpotDetection.CountsConsistent | src/utils/blindSpotDetection.js:94-109 | along any walk, read + unread articles = total articles and read groups <= total groups |
| BlindSpotDetection.Percentage | src/utils/blindSpotDetection.js:122-125 | 0 when the total is 0; between 0 and 100 when the part does not exceed the total |
| BlindSpotDetection.GetReadingStats | src/utils/blindSpotDetection.js:85-127 | the stats are `ReadingStats`, the counters taken over the tree's visit order: read + unread = total articles, read groups <= total groups, both percentages in [0, 100] |
| BlindSpotDetection.GroupWalkAllSnoc | src/utils/blindSpotDetection.js:150 | visiting one more child of a group appends the groups found under that child |
| BlindSpotDetection.EntriesAppend | src/utils/blindSpotDetection.js:135-152 | the entries pushed for two consecutive stretches of groups concatenate |
| BlindSpotDetection.EntriesSingleton | src/utils/blindSpotDetection.js:139-147 | one group pushes one entry exactly when its read percentage is below the threshold, and none otherwise |
| BlindSpotDetection.GroupEntry | src/utils/blindSpotDetection.js:137-147 | pushes at most one entry, and one exactly when the group's recomputed read percentage is below the threshold |
| BlindSpotDetection.CollectBlindSpots | src/utils/blindSpotDetection.js:135-152 | the closure visits every non-summary group reachable from the node through groups, in pre-order, and appends an entry for each one below the threshold; it does not descend into leaves or summaries |
| BlindSpotDetection.CollectChildBlindSpots | src/utils/blindSpotDetection.js:150 | the `forEach` appends the entries of every child's group walk in order |
| BlindSpotDetection.FindBlindSpots | src/utils/blindSpotDetection.js:132-156 | the result is the collected entries sorted by read percentage, ascending; it is a permutation of them, and entries with equal percentage keep their visit order (stable sort) |
| BlindSpotProperties.HasUserReadIff | src/utils/blindSpotDetection.js:32-34 | read exactly when `readBy` is present and contains the user id; an absent `readBy` means unread |
| BlindSpotProperties.FindSummaryIsFirst | src/utils/blindSpotDetection.js:11 | `find` yields the first summary child, and nothing exactly when no child is a summary |
| BlindSpotProperties.EveryChildReadIff | src/utils/blindSpotDetection.js:17-26 | walking all children and skipping summaries is `filter` followed by `every`: every non-summary child is read |
| BlindSpotProperties.IsGroupReadIff | src/utils/blindSpotDetection.js:7-27 | a node without `children` is unread; a group is read iff its first summary is read by the user, or it has a non-summary child and all non-summary children are read (groups recursively, leaves by `readBy`) |
| BlindSpotProperties.SummaryReadMeansGroupRead | src/utils/blindSpotDetection.js:11-14 | if the first summary child is read by the user, the group is read |
| BlindSpotProperties.VacuousGroupUnread | src/utils/blindSpotDetection.js:8-18 | a group whose children are all summaries, none read by the user (in particular an empty group), is unread |
| BlindSpotProperties.GroupReadIgnoresOwnReadBy | src/utils/blindSpotDetection.js:7-27 | a group's own `readBy` does not affect whether it is read (no cascade) |
| BlindSpotProperties.ReadGroupHasNoUnread | src/utils/blindSpotDetection.js:7-57 | in a tree without summaries, a group read by the user has no unread article in its subtree |
| BlindSpotProperties.ReadChildrenHaveNoUnread | src/utils/blindSpotDetection.js:20-26 | the same for a child list whose non-summary children are all read |
| BlindSpotProperties.NoSummariesNoSummaryChild | src/utils/blindSpotDetection.js:17 | in a summary-free forest no child is a summary |
| BlindSpotProperties.NeverReadIsUnreadByAll | src/utils/blindSpotDetection.js:44-69 | an article nobody has read is unread by every user |
| BlindSpotProperties.CompletelyUnreadWithinUnread | src/utils/blindSpotDetection.js:39-80 | for every user, the completely-unread list is the unread list filtered again, so it is a subsequence of it |
| BlindSpotProperties.UnknownUserHasAllUnread | src/utils/blindSpotDetection.js:39-57 | a user who read nothing (e.g. an unknown id) has every article/summary unread, in visit order |
| BlindSpotProperties.ReadingStatsCount | src/utils/blindSpotDetection.js:85-127 | each counter is the number of visited nodes of its kind (articles, read, unread, groups, read groups); read + unread = total; read groups <= total groups |
| BlindSpotProperties.ReadingStatsPercentages | src/utils/blindSpotDetection.js:122-125 | each percentage is 0 for a zero total, and otherwise satisfies percentage * total = 100 * read |
| BlindSpotProperties.PercentageExtremes | src/utils/blindSpotDetection.js:122-125 | a full part gives exactly 100 and a zero part gives exactly 0 |
| BlindSpotProperties.ReadingStatsExtremes | src/utils/blindSpotDetection.js:85-127 | with articles present and none unread, the read percentage is 100; with none read it is 0 |
| BlindSpotProperties.GroupWalkIsGroups | src/utils/blindSpotDetection.js:135-152 | the blind-spot walk visits only non-summary groups, in pre-order (a subsequence of the full visit order) |
| BlindSpotProperties.GroupWalkAllIsGroups | src/utils/blindSpotDetection.js:150 | the same for a group's children |
| BlindSpotProperties.GroupWalkIsEveryGroup | src/utils/blindSpotDetection.js:135-151 | when every summary is a leaf, findBlindSpots visits exactly the groups of the tree, in pre-order |
| BlindSpotProperties.GroupWalkAllIsEveryGroup | src/utils/blindSpotDetection.js:150-150 | the same for a child list |
| BlindSpotProperties.GroupUnderSummarySkipped | src/utils/blindSpotDetection.js:136-150 | in the tree root → summary s → group g, g is a group of the tree (in `Filter(PreOrder(root), IsGroup)`) but is not in `GroupWalk(root)` |
| BlindSpotProperties.SummaryHidesItsSubtree | src/utils/blindSpotDetection.js:136-150 | for every summary, whatever its children, `GroupWalk` of it is empty: the closure never descends below a summary |
| BlindSpotProperties.BlindSpots | src/utils/blindSpotDetection.js:132-156 | findBlindSpots's result as a function: the entries of `GroupWalk` sorted by percentage; `FindBlindSpots` returns it and `BlindSpotsSelection` characterises it |
| BlindSpotProperties.EntriesFromGroups | src/utils/blindSpotDetection.js:136-147 | every entry has a percentage below the threshold and is built from a visited group |
| BlindSpotProperties.EntriesSelectGroups | src/utils/blindSpotDetection.js:139 | a visited group's entry is pushed iff its read percentage is below the threshold |
| BlindSpotProperties.BlindSpotsSelection | src/utils/blindSpotDetection.js:132-156 | after sorting: a visited group's entry is present iff its percentage is below the threshold, and every entry comes from a visited group below the threshold |
| JsStrings.LowerChar | src/components/CsvGraphView.js:99-99 | `toLowerCase` on one character, ASCII capitals only (see Left out) |
| JsStrings.Lower | src/components/CsvGraphView.js:99-99 | `toLowerCase`, same length as its input; `LowerFixesLowercase` |
| JsStrings.HasNoCapitals | src/components/CsvGraphView.js:99-99 | no ASCII capital in the string |
| JsStrings.IsJsWhitespace | src/components/CsvGraphView.js:252-252 | the code points `trim` removes |
| JsStrings.Trim | src/components/CsvGraphView.js:252-252 | `row.parent.trim()`; `TrimEmptyIff` |
| JsStrings.DigitsValue | src/components/CsvGraphView.js:108-108 | the number a digit string denotes; `NatToStringRoundTrip` |
| JsStrings.IsArrayIndex | src/components/CsvGraphView.js:268-268 | a canonical decimal key below 2^32 - 1, listed first by `Object.values`; `PropertyOrderKeepsInsertionOrder` |
| JsStrings.NotArrayIndex | src/components/CsvGraphView.js:268-268 | any other key, listed after in insertion order |
| JsStrings.ArrayIndexKey | src/components/CsvGraphView.js:268-268 | the numeric value array-index keys are ordered by |
| JsStrings.LowerFixesLowercase | src/components/CsvGraphView.js:98-100 | lower-casing fixes strings without capitals and is idempotent |
| JsStrings.TrimStart | src/components/CsvGraphView.js:252 | the result is empty or starts with a non-whitespace character, and it is empty iff the input is all whitespace |
| JsStrings.TrimEnd | src/components/CsvGraphView.js:252 | the result is empty iff the input is all whitespace, and it keeps the first character otherwise |
| JsStrings.TrimEmptyIff | src/components/CsvGraphView.js:252 | `trim()` gives `''` exactly when every character is ECMAScript whitespace |
| JsStrings.NatToString | src/components/CsvGraphView.js:108 | the rendered index is a non-empty string of decimal digits with no leading zero; such an id is built only for rows without a title, which the next `filter` drops, so it never reaches the output (`ProcessRowsSpec`: every kept row has `title == Some(id)`) |
| JsStrings.NatToStringRoundTrip | src/components/CsvGraphView.js:108 | reading the rendered digits back gives the index |
| JsStrings.PropertyOrder | src/components/CsvGraphView.js:268 | `Object.values` lists every inserted key exactly once (a permutation of the insertion order) |
| JsStrings.PropertyOrderKeepsInsertionOrder | src/components/CsvGraphView.js:268 | array-index keys come first, in ascending numeric order; all other keys follow in insertion order |
| CsvRows.Get | src/components/CsvGraphView.js:108-112 | `row.title`, `row.parent`, `row.timestamp`: exact-name lookup; `GetSpec` |
| CsvRows.Truthy | src/components/CsvGraphView.js:108-114 | a string property is truthy: present and non-empty |
| CsvRows.Headers | src/components/CsvGraphView.js:96-96 | the header list: `meta.fields` when present (an empty array included), else the first record's property names, else none |
| CsvRows.RequiredColumns | src/components/CsvGraphView.js:95-95 | the four required names; `RequiredColumnsAreLowercase` |
| CsvRows.AnyHeaderMatches | src/components/CsvGraphView.js:99-99 | `headers.some(...)` with case-insensitive comparison; `AnyHeaderMatchesIff` |
| CsvRows.IsMissing | src/components/CsvGraphView.js:98-100 | the `filter` test for a required name; `MissingColumnsSpec` |
| CsvRows.MissingColumns | src/components/CsvGraphView.js:98-100 | the missing required names, in order; `MissingColumnsSpec`, `CapitalisedHeadersPass` |
| CsvRows.MissingMessage | src/components/CsvGraphView.js:103-103 | the thrown message `Missing required columns: ` followed by the names joined by `, `; `LoadRowsSpec` |
| CsvRows.ProcessRow | src/components/CsvGraphView.js:107-113 | the `map` callback: `id` is the title or `node-<index>`, `originalIndex` the index; `ProcessRowsSpec` |
| CsvRows.HasTitle | src/components/CsvGraphView.js:114-114 | the `filter(row => row.title)` test |
| CsvRows.ProcessRows | src/components/CsvGraphView.js:107-114 | the processed rows; `ProcessRowsSpec`, `CapitalisedHeadersDropAllRows` |
| CsvRows.LoadRows | src/components/CsvGraphView.js:95-116 | the `complete` callback's outcome, the thrown error or the stored rows; `LoadRowsSpec` |
| CsvRows.GetSpec | src/components/CsvGraphView.js:108-112 | `row[key]` is undefined iff no property has that exact name, and otherwise it is the value of such a property |
| CsvRows.FieldNames | src/components/CsvGraphView.js:96 | the record's property names in insertion order, one per property |
| CsvRows.ObjectKeys | src/components/CsvGraphView.js:96 | `Object.keys(row)`: the same names, a permutation of them, with array-index names first in ascending order (`PropertyOrder`) |
| CsvRows.Join | src/components/CsvGraphView.js:103 | joining no names gives `''`, and one name gives the name itself |
| CsvRows.Numbered | src/components/CsvGraphView.js:107-113 | `data.map((row, index) => ...)`: one processed row per record, record i processed with index i |
| CsvRows.AnyHeaderMatchesIff | src/components/CsvGraphView.js:99 | `some` holds iff some header lower-cases to the lower-cased column name |
| CsvRows.RequiredColumnsAreLowercase | src/components/CsvGraphView.js:95 | the required names are already lower-case |
| CsvRows.MissingColumnsSpec | src/components/CsvGraphView.js:95-100 | a name is missing iff it is required and no header lower-cases to it; the missing list keeps the required order |
| CsvRows.MatchCarriesOver | src/components/CsvGraphView.js:99 | a header list that contains every header of another matches every column the other matches |
| CsvRows.MissingColumnsIgnoreOrder | src/components/CsvGraphView.js:98-100 | two header lists with the same members (in any order, repeated any number of times) give the same missing list |
| CsvRows.ObjectKeysOrderIrrelevant | src/components/CsvGraphView.js:96-100 | `Object.keys` order and insertion order give the same missing list |
| CsvRows.LoadRowsSpec | src/components/CsvGraphView.js:95-116 | loading fails iff some required column is unmatched, with "Missing required columns: " and the list joined by ", "; otherwise it yields the processed rows |
| CsvRows.ProcessRowsSpec | src/components/CsvGraphView.js:107-114 | the kept rows are exactly the records with a truthy `title`, in their original order; each keeps its index as `originalIndex` and has `id` equal to its title |
| CsvRows.CapitalisedHeadersPass | src/components/CsvGraphView.js:95-100 | headers `Title`, `Parent`, `Value`, `Timestamp` pass validation |
| CsvRows.CapitalisedHeadersDropAllRows | src/components/CsvGraphView.js:107-114 | records whose properties are spelt `Title`, `Parent`, `Value`, `Timestamp` have no `title`, so every one of them is dropped |
| CsvGraph.GroupKey | src/components/CsvGraphView.js:215-215 | the group key: the parent if truthy, else `root` |
| CsvGraph.MemberIndex | src/components/CsvGraphView.js:219-219 | the `index` recorded in a group member |
| CsvGraph.InGroup | src/components/CsvGraphView.js:216-219 | membership of a pushed `{row, index}` in one group |
| CsvGraph.GroupKeysOf | src/components/CsvGraphView.js:213-220 | the keys of `parentGroups` in insertion order; `GroupKeysOfSpec`, `GroupByParent` |
| CsvGraph.GroupMap | src/components/CsvGraphView.js:213-220 | `parentGroups`: each key's members in row order; `GroupByParent`, `GroupSpec`, `SizeSumRows` |
| CsvGraph.NodeFor | src/components/CsvGraphView.js:222-245 | the node built for one row; `NodesSpec` |
| CsvGraph.LinksToParent | src/components/CsvGraphView.js:252-254 | `row.parent && row.parent.trim() !== '' && nodeMap.get(row.parent)`; `LinksToParentIff` |
| CsvGraph.HasParentIn | src/components/CsvGraphView.js:252-254 | `LinksToParent` as a function value |
| CsvGraph.ParentLink | src/components/CsvGraphView.js:255-262 | the parent link object (strength 1.2, distance 200); `ParentLinksSpec` |
| CsvGraph.ParentLinks | src/components/CsvGraphView.js:251-265 | the parent links in row order; `AddParentLinks`, `ParentLinksSpec` |
| CsvGraph.SiblingLink | src/components/CsvGraphView.js:273-281 | the sibling link object (strength 0.6, distance 120, sibling type); `SiblingLinksJoinConsecutiveRows` |
| CsvGraph.SiblingLinks | src/components/CsvGraphView.js:268-284 | the sibling links of the groups in a key order; `AddSiblingLinks`, `SiblingLinkCount`, `SiblingLinksJoinNeighbours` |
| CsvGraph.RowIds | src/components/CsvGraphView.js:249-249 | the keys of `nodeMap`; `NodeIdsAreRowIds` |
| CsvGraph.GroupOrder | src/components/CsvGraphView.js:268-268 | the order `Object.values(parentGroups)` lists the groups in; `GroupOrderHasGroups`, `PropertyOrderKeepsInsertionOrder` |
| CsvGraph.Indexed | src/components/CsvGraphView.js:214 | pairs every row with its index, one entry per row |
| CsvGraph.GroupKeysOfSpec | src/components/CsvGraphView.js:213-220 | the group keys are exactly the parent-or-`root` values of the rows, each once |
| CsvGraph.IndexedSnoc | src/components/CsvGraphView.js:214 | one more row appends one more indexed member |
| CsvGraph.GroupMapSnoc | src/components/CsvGraphView.js:215-219 | one more row appends `{row, index}` to its group, creating the group (and its key, last in order) when absent |
| CsvGraph.PushMember | src/components/CsvGraphView.js:215-219 | one `forEach` step performs exactly that update |
| CsvGraph.GroupByParent | src/components/CsvGraphView.js:213-220 | the grouping loop builds `GroupMap` and the key insertion order `GroupKeysOf` |
| CsvGraph.GroupMapCoversRows | src/components/CsvGraphView.js:223 | every row's group exists, so the group lookup is defined |
| CsvGraph.GroupSpec | src/components/CsvGraphView.js:213-220 | each group is non-empty, lists its members in row order, and holds exactly the rows with its key, each with its index |
| CsvGraph.FindIndex | src/components/CsvGraphView.js:224 | `findIndex` yields the first position whose row id matches, and -1 iff there is none |
| CsvGraph.Nodes | src/components/CsvGraphView.js:222 | one node per row |
| CsvGraph.NodesSpec | src/components/CsvGraphView.js:222-245 | each node copies id, title, parent and timestamp, has group parent-or-`root` and that group's size, and its `groupIndex` is the first member with its id, never after its own position |
| CsvGraph.ParentLinksSnoc | src/components/CsvGraphView.js:251-265 | one more row appends its parent link when it qualifies |
| CsvGraph.AddParentLinks | src/components/CsvGraphView.js:248-265 | the loop produces `ParentLinks`, one link per qualifying row, in row order |
| CsvGraph.SiblingPairs | src/components/CsvGraphView.js:269-282 | a group of n members gives n - 1 links, and none when n <= 1 |
| CsvGraph.AddGroupLinks | src/components/CsvGraphView.js:269-283 | the `for` loop appends one sibling link per consecutive pair of the group |
| CsvGraph.SiblingLinksSnoc | src/components/CsvGraphView.js:268 | one more group appends its sibling links |
| CsvGraph.AddSiblingLinks | src/components/CsvGraphView.js:267-284 | the `forEach` over groups appends every group's sibling links in the given key order |
| CsvGraph.NodeIdsAreRowIds | src/components/CsvGraphView.js:249 | the ids in `nodeMap` are exactly the row ids |
| CsvGraph.GroupOrderHasGroups | src/components/CsvGraphView.js:268 | every key in property order names a group |
| CsvGraph.BuildGraph | src/components/CsvGraphView.js:206-287 | no data gives no nodes and no links; otherwise the nodes are `Nodes` and the links are the parent links followed by the sibling links in property order |
| CsvGraphProperties.LinksToParentIff | src/components/CsvGraphView.js:252-254 | a row links to its parent iff it has a parent with a non-whitespace character that is some node's id |
| CsvGraphProperties.ParentLinksSpec | src/components/CsvGraphView.js:248-265 | every parent link has strength 1.2 and distance 200, its source is a non-blank node id and its target is a row with that parent; every qualifying row has a link; one link per qualifying row |
| CsvGraphProperties.SizeSumAppend | src/components/CsvGraphView.js:268 | group sizes add over concatenated key lists |
| CsvGraphProperties.SizeSumOutside | src/components/CsvGraphView.js:216-219 | changing a group that is not listed leaves the size sum unchanged |
| CsvGraphProperties.SizeSumUpdate | src/components/CsvGraphView.js:216-219 | replacing a listed group changes the sum by the change in that group's size |
| CsvGraphProperties.SizeSumRows | src/components/CsvGraphView.js:213-220 | the group sizes add up to the number of rows |
| CsvGraphProperties.SizeSumMultiset | src/components/CsvGraphView.js:268 | the size sum does not depend on the order of the keys |
| CsvGraphProperties.SiblingLinksLength | src/components/CsvGraphView.js:268-284 | over non-empty groups, sibling links + groups = total group size |
| CsvGraphProperties.SiblingLinkCount | src/components/CsvGraphView.js:206-287 | there are rows - groups sibling links, so the graph has (qualifying rows) + rows - groups links |
| CsvGraphProperties.SiblingLinksJoinNeighbours | src/components/CsvGraphView.js:270-281 | every sibling link joins positions p and p + 1 of one group |
| CsvGraphProperties.SiblingLinksCoverNeighbours | src/components/CsvGraphView.js:270-281 | every two members at positions p and p + 1 of a listed group get their sibling link |
| CsvGraphProperties.EveryNeighbourPairLinked | src/components/CsvGraphView.js:267-284 | in the derived graph every two neighbouring members of every parent group are joined by a sibling link |
| CsvGraphProperties.SiblingLinksJoinConsecutiveRows | src/components/CsvGraphView.js:267-284 | every sibling link has strength 0.6 and distance 120, and joins two rows with the same group key that are consecutive within that group in row order |

## Left out

- The file upload, `fetch` of the sample file, `Papa.parse`, React state and
  hooks, the rendering and the `fileInfo` record are not modelled. The
  parser's output (`meta.fields` and `data`) is an input.
- The three copies of the validation and processing code (`CsvGraphView.js`
  :35-54, :95-114, :158-177) are identical and are modelled once.
- `value` is left out everywhere: its `parseFloat(...) || 0`, the colour
  buckets, `size: 2`, the link `value` (`Math.abs(row.value)`, and 1 for
  siblings) and the chart colour list. These are floating-point display data
  that nothing else reads.
- Link `strength` and `distance` are exact reals (1.2, 200, 0.6, 120), and the
  percentages are exact reals, not IEEE doubles. NaN and rounding do not
  arise in the model. At the strict threshold test this can matter: in doubles
  `(29 / 100) * 100` is `28.999999999999996`, so findBlindSpots with threshold
  29 lists a group with 29 of 100 articles read, which the model excludes. For
  the default threshold 50 and the dashboard's threshold 30, doubles agree with
  exact arithmetic for every ratio with a total up to 5000.
- JsStrings.Lower and JsStrings.LowerChar: only ASCII capitals are mapped, not full Unicode
  `toLowerCase`, so `Lower(h)` differs from JavaScript on headers with other
  capitals. Under the full mapping only two non-ASCII code points lower-case to
  something containing an ASCII letter: U+212A KELVIN SIGN becomes `k`, and
  U+0130 becomes `i` followed by U+0307. None of `title`, `parent`, `value`,
  `timestamp` contains `k` or U+0307. So a header matches a required name under
  `Lower` exactly when it does under `toLowerCase`, and the missing-column list
  and the error are the same.
- Parser-specific renaming is not modelled. Papa's renaming of duplicate
  headers and its `__parsed_extra` field are outside the model. A record is
  its properties in order, and lookup takes the first property with the exact
  name.
- CsvGraph.GroupMap: a parent equal to an inherited `Object.prototype`
  property (`constructor`, `toString`, `__proto__`) finds an inherited, truthy
  value in the source's plain-object grouping, so the following `.push` throws
  a TypeError and no graph is built. The model treats every key as an own
  property and builds the graph.
- CsvGraph.Nodes: the `nodeMap` built from nodes is modelled as the set of row
  ids. Only its membership is used, and a later duplicate id only replaces an
  equal-keyed entry.
- Dynamic JavaScript values are reduced to their types. `children` is either
  missing or an array (`Children`). `readBy` is either missing or an array of
  strings. `description`, `title`, `parent` and `timestamp` are either missing
  or strings. `isSummary` is a boolean, with missing meaning false. Other
  shapes, such as a numeric title, are not modelled.
- Read-state writes ("mark as read") do not exist in the code and are not
  modelled.
- The view's row lookup `row.title` is case-sensitive, while the column check
  is case-insensitive. The model keeps both as written:
  `CapitalisedHeadersPass` and `CapitalisedHeadersDropAllRows` show that a
  file with capitalised headers passes validation and yields no rows.
