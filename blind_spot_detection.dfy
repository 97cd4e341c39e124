/** The reading-coverage and blind-spot engine over a tree of news nodes
    (src/utils/blindSpotDetection.js). */
module BlindSpotDetection {
  import opened Wrappers
  import opened Seqs

  /** A node of the news tree, with JavaScript's "property may be missing"
      made explicit: `children == Missing` is a node without a `children`
      property (a leaf), while `Present([])` is a present but empty array,
      which JavaScript treats as truthy, so that node is a group. */
  datatype Node = Node(
    name: string,
    description: Option<string>,
    isSummary: bool,
    readBy: Option<seq<string>>,
    children: Children)

  datatype Children = Missing | Present(nodes: seq<Node>)

  /** `node.description` is truthy: present and not the empty string. */
  predicate HasDescription(n: Node)
  {
    n.description.Some? && n.description.value != ""
  }

  /** hasUserRead: `readBy` is present and includes the user. */
  predicate HasUserRead(n: Node, userId: string)
  {
    n.readBy.Some? && userId in n.readBy.value
  }

  /** `children.find(child => child.isSummary)`: the first summary child. */
  function FindSummary(cs: seq<Node>): (r: Option<Node>)
  {
    if cs == [] then None
    else if cs[0].isSummary then Some(cs[0])
    else FindSummary(cs[1..])
  }

  predicate NotSummary(c: Node)
  {
    !c.isSummary
  }

  /** isGroupRead: a node without `children` is not a group and is unread; a
      group is read when its first summary child is read, and otherwise when
      it has at least one non-summary child and every non-summary child is
      read (sub-groups recursively, leaves by `HasUserRead`). The group's own
      `readBy` is never consulted. */
  predicate IsGroupRead(n: Node, userId: string)
    decreases n, 2
  {
    match n.children
    case Missing => false
    case Present(cs) =>
      var summary := FindSummary(cs);
      if summary.Some? && HasUserRead(summary.value, userId) then true
      else if |Filter(cs, NotSummary)| == 0 then false
      else EveryChildRead(cs, userId)
  }

  /** `nonSummaryChildren.every(...)`, walking the children and skipping the
      summaries that `filter` drops. */
  predicate EveryChildRead(cs: seq<Node>, userId: string)
    decreases cs, 1
  {
    cs == [] || ((cs[0].isSummary || ChildRead(cs[0], userId)) && EveryChildRead(cs[1..], userId))
  }

  /** The test `every` applies to one non-summary child. */
  predicate ChildRead(c: Node, userId: string)
    decreases c, 3
  {
    if c.children.Present? then IsGroupRead(c, userId) else HasUserRead(c, userId)
  }

  /** The nodes visited by the source's `traverse` closures, in the order
      they are visited: the node itself, then each child's subtree. */
  function PreOrder(n: Node): (r: seq<Node>)
    decreases n, 1
  {
    [n] + match n.children
          case Missing => []
          case Present(cs) => PreOrderAll(cs)
  }

  function PreOrderAll(cs: seq<Node>): seq<Node>
    decreases cs, 0
  {
    if cs == [] then [] else PreOrder(cs[0]) + PreOrderAll(cs[1..])
  }

  lemma {:induction false} PreOrderAllSnoc(cs: seq<Node>, i: nat)
    requires i < |cs|
    ensures PreOrderAll(cs[..i + 1]) == PreOrderAll(cs[..i]) + PreOrder(cs[i])
  {
    if i == 0 {
      assert cs[..1][1..] == [];
    } else {
      var t := cs[1..];
      assert cs[..i + 1][1..] == t[..i];
      assert cs[..i][1..] == t[..i - 1];
      PreOrderAllSnoc(t, i - 1);
    }
  }

  /** The nodes a traversal of `n` has visited once it has finished the
      first `i` children. */
  function Visited(n: Node, i: nat): seq<Node>
    requires n.children.Present? && i <= |n.children.nodes|
  {
    [n] + PreOrderAll(n.children.nodes[..i])
  }

  lemma VisitedStep(n: Node, i: nat)
    requires n.children.Present? && i < |n.children.nodes|
    ensures Visited(n, i + 1) == Visited(n, i) + PreOrder(n.children.nodes[i])
  {
    PreOrderAllSnoc(n.children.nodes, i);
  }

  lemma VisitedAll(n: Node)
    requires n.children.Present?
    ensures Visited(n, |n.children.nodes|) == PreOrder(n)
  {
    assert n.children.nodes[..|n.children.nodes|] == n.children.nodes;
  }

  /** The nodes counted as articles (:44, :67, :94): childless with a truthy
      description, or summaries. */
  predicate IsArticle(n: Node)
  {
    (n.children.Missing? && HasDescription(n)) || n.isSummary
  }

  /** The nodes counted as groups (:104, :136): with `children`, not summaries. */
  predicate IsGroup(n: Node)
  {
    n.children.Present? && !n.isSummary
  }

  /** Selections made by the traversals. */
  function UnreadBy(userId: string): Node -> bool
  {
    x => IsArticle(x) && !HasUserRead(x, userId)
  }

  function ReadBy(userId: string): Node -> bool
  {
    x => IsArticle(x) && HasUserRead(x, userId)
  }

  function ReadGroupBy(userId: string): Node -> bool
  {
    x => IsGroup(x) && IsGroupRead(x, userId)
  }

  /** An article nobody has read: `readBy` absent or empty. */
  predicate NeverRead(n: Node)
  {
    IsArticle(n) && (n.readBy.None? || |n.readBy.value| == 0)
  }

  // ---------------------------------------------------------------------------
  // findUnreadForUser and findCompletelyUnread

  /** The `traverse` closure shared by the two collectors: it visits `node`
      and its subtree in pre-order and pushes each visited node satisfying
      `select` onto the outer `unread` array, threaded here in and out. */
  method Collect(node: Node, select: Node -> bool, unread: seq<Node>) returns (result: seq<Node>)
    ensures result == unread + Filter(PreOrder(node), select)
    decreases node
  {
    result := unread;
    if select(node) {
      result := result + [node];
    }
    FilterSingleton(node, select);
    if node.children.Present? {
      var cs := node.children.nodes;
      var i := 0;
      assert [node] + PreOrderAll([]) == [node];
      while i < |cs|
        invariant 0 <= i <= |cs|
        invariant result == unread + Filter(Visited(node, i), select)
      {
        result := Collect(cs[i], select, result);
        VisitedStep(node, i);
        FilterAppend(Visited(node, i), PreOrder(cs[i]), select);
        AppendAssociative(unread, Filter(Visited(node, i), select), Filter(PreOrder(cs[i]), select));
        i := i + 1;
      }
      VisitedAll(node);
    }
  }

  /** findUnreadForUser: the articles and summaries not read by `userId`,
      in visitation order. */
  method FindUnreadForUser(data: Node, userId: string) returns (unread: seq<Node>)
    ensures unread == Filter(PreOrder(data), UnreadBy(userId))
    ensures forall i :: 0 <= i < |unread| ==>
      unread[i] in PreOrder(data) && IsArticle(unread[i]) && !HasUserRead(unread[i], userId)
    ensures forall x :: x in PreOrder(data) && IsArticle(x) && !HasUserRead(x, userId) ==> x in unread
  {
    unread := Collect(data, UnreadBy(userId), []);
    var pre := PreOrder(data);
    FilterMembers(pre, UnreadBy(userId));
    forall x | x in pre && IsArticle(x) && !HasUserRead(x, userId) ensures x in unread {
      var i :| 0 <= i < |pre| && pre[i] == x;
      assert UnreadBy(userId)(pre[i]);
    }
  }

  /** findCompletelyUnread: the articles and summaries whose `readBy` is
      absent or empty, in visitation order. */
  method FindCompletelyUnread(data: Node) returns (unread: seq<Node>)
    ensures unread == Filter(PreOrder(data), NeverRead)
    ensures forall i :: 0 <= i < |unread| ==> unread[i] in PreOrder(data) && NeverRead(unread[i])
    ensures forall x :: x in PreOrder(data) && NeverRead(x) ==> x in unread
  {
    unread := Collect(data, NeverRead, []);
    var pre := PreOrder(data);
    FilterMembers(pre, NeverRead);
    forall x | x in pre && NeverRead(x) ensures x in unread {
      var i :| 0 <= i < |pre| && pre[i] == x;
      assert NeverRead(pre[i]);
    }
  }

  // ---------------------------------------------------------------------------
  // getReadingStats

  /** The five counters of getReadingStats. */
  datatype Counters = Counters(
    totalArticles: nat, readArticles: nat, unreadArticles: nat,
    totalGroups: nat, readGroups: nat)

  function Plus(a: Counters, b: Counters): Counters
  {
    Counters(a.totalArticles + b.totalArticles, a.readArticles + b.readArticles,
             a.unreadArticles + b.unreadArticles, a.totalGroups + b.totalGroups,
             a.readGroups + b.readGroups)
  }

  lemma PlusAssociative(a: Counters, b: Counters, c: Counters)
    ensures Plus(Plus(a, b), c) == Plus(a, Plus(b, c))
  {
  }

  /** What the counters amount to over a sequence of visited nodes. */
  function CountsOf(xs: seq<Node>, userId: string): Counters
  {
    Counters(|Filter(xs, IsArticle)|, |Filter(xs, ReadBy(userId))|,
             |Filter(xs, UnreadBy(userId))|, |Filter(xs, IsGroup)|,
             |Filter(xs, ReadGroupBy(userId))|)
  }

  lemma {:induction false} CountsOfAppend(xs: seq<Node>, ys: seq<Node>, userId: string)
    ensures CountsOf(xs + ys, userId) == Plus(CountsOf(xs, userId), CountsOf(ys, userId))
  {
    FilterCountAppend(xs, ys, IsArticle);
    FilterCountAppend(xs, ys, ReadBy(userId));
    FilterCountAppend(xs, ys, UnreadBy(userId));
    FilterCountAppend(xs, ys, IsGroup);
    FilterCountAppend(xs, ys, ReadGroupBy(userId));
  }

  /** What visiting one node adds to the counters (:94-109). */
  function OwnCounts(n: Node, userId: string): Counters
  {
    Counters(if IsArticle(n) then 1 else 0,
             if IsArticle(n) && HasUserRead(n, userId) then 1 else 0,
             if IsArticle(n) && !HasUserRead(n, userId) then 1 else 0,
             if IsGroup(n) then 1 else 0,
             if IsGroup(n) && IsGroupRead(n, userId) then 1 else 0)
  }

  function NoCounts(): Counters { Counters(0, 0, 0, 0, 0) }

  /** The counters accumulated over the subtree at `n`, by structural recursion. */
  function TreeCounts(n: Node, userId: string): Counters
    decreases n, 1
  {
    Plus(OwnCounts(n, userId),
         match n.children
         case Missing => NoCounts()
         case Present(cs) => ForestCounts(cs, userId))
  }

  function ForestCounts(cs: seq<Node>, userId: string): Counters
    decreases cs, 0
  {
    if cs == [] then NoCounts() else Plus(TreeCounts(cs[0], userId), ForestCounts(cs[1..], userId))
  }

  lemma {:induction false} ForestCountsSnoc(cs: seq<Node>, i: nat, userId: string)
    requires i < |cs|
    ensures ForestCounts(cs[..i + 1], userId) == Plus(ForestCounts(cs[..i], userId), TreeCounts(cs[i], userId))
  {
    if i == 0 {
      assert cs[..1][1..] == [];
    } else {
      var t := cs[1..];
      assert cs[..i + 1][1..] == t[..i];
      assert cs[..i][1..] == t[..i - 1];
      ForestCountsSnoc(t, i - 1, userId);
      PlusAssociative(TreeCounts(cs[0], userId), ForestCounts(t[..i - 1], userId), TreeCounts(cs[i], userId));
    }
  }

  lemma CountsOfSingleton(n: Node, userId: string)
    ensures CountsOf([n], userId) == OwnCounts(n, userId)
  {
    FilterSingleton(n, IsArticle);
    FilterSingleton(n, ReadBy(userId));
    FilterSingleton(n, UnreadBy(userId));
    FilterSingleton(n, IsGroup);
    FilterSingleton(n, ReadGroupBy(userId));
  }

  /** The structural counters agree with counting the pre-order visit. */
  lemma {:induction false} TreeCountsArePreOrderCounts(n: Node, userId: string)
    ensures TreeCounts(n, userId) == CountsOf(PreOrder(n), userId)
    decreases n, 1
  {
    CountsOfSingleton(n, userId);
    match n.children {
      case Missing =>
        assert PreOrder(n) == [n];
      case Present(cs) =>
        assert PreOrder(n) == [n] + PreOrderAll(cs);
        assert TreeCounts(n, userId) == Plus(OwnCounts(n, userId), ForestCounts(cs, userId));
        ForestCountsArePreOrderCounts(cs, userId);
        CountsOfAppend([n], PreOrderAll(cs), userId);
        assert CountsOf(PreOrder(n), userId) == Plus(OwnCounts(n, userId), ForestCounts(cs, userId));
    }
  }

  lemma {:induction false} ForestCountsArePreOrderCounts(cs: seq<Node>, userId: string)
    ensures ForestCounts(cs, userId) == CountsOf(PreOrderAll(cs), userId)
    decreases cs, 0
  {
    if cs == [] {
      assert Filter([], IsArticle) == [];
      assert Filter([], ReadBy(userId)) == [];
      assert Filter([], UnreadBy(userId)) == [];
      assert Filter([], IsGroup) == [];
      assert Filter([], ReadGroupBy(userId)) == [];
    } else {
      TreeCountsArePreOrderCounts(cs[0], userId);
      ForestCountsArePreOrderCounts(cs[1..], userId);
      CountsOfAppend(PreOrder(cs[0]), PreOrderAll(cs[1..]), userId);
    }
  }

  /** The result record of getReadingStats. */
  datatype Stats = Stats(
    totalArticles: nat, readArticles: nat, unreadArticles: nat, readPercentage: real,
    totalGroups: nat, readGroups: nat, groupReadPercentage: real)

  /** `total > 0 ? (part / total) * 100 : 0`, in exact arithmetic. */
  function Percentage(part: nat, total: nat): (r: real)
    ensures total == 0 ==> r == 0.0
    ensures total > 0 && part <= total ==> 0.0 <= r <= 100.0
  {
    if total > 0 then (part as real / total as real) * 100.0 else 0.0
  }

  function StatsOf(c: Counters): Stats
  {
    Stats(c.totalArticles, c.readArticles, c.unreadArticles,
          Percentage(c.readArticles, c.totalArticles),
          c.totalGroups, c.readGroups, Percentage(c.readGroups, c.totalGroups))
  }

  /** The statistics getReadingStats reports for the subtree at `n`. */
  function ReadingStats(n: Node, userId: string): Stats
  {
    StatsOf(TreeCounts(n, userId))
  }

  /** The counting `traverse` closure of getReadingStats: it visits `node`
      and its subtree in pre-order and bumps the outer counters, threaded here
      in and out. */
  method Tally(node: Node, userId: string, counts: Counters) returns (result: Counters)
    ensures result == Plus(counts, TreeCounts(node, userId))
    decreases node, 1
  {
    result := TallyOwn(node, userId, counts);
    if node.children.Present? {
      result := TallyChildren(node.children.nodes, userId, result);
      PlusAssociative(counts, OwnCounts(node, userId), ForestCounts(node.children.nodes, userId));
    }
  }

  /** The counter bumps `traverse` makes for the node itself. */
  method TallyOwn(node: Node, userId: string, counts: Counters) returns (result: Counters)
    ensures result == Plus(counts, OwnCounts(node, userId))
  {
    result := counts;
    if (node.children.Missing? && HasDescription(node)) || node.isSummary {
      result := result.(totalArticles := result.totalArticles + 1);
      if HasUserRead(node, userId) {
        result := result.(readArticles := result.readArticles + 1);
      } else {
        result := result.(unreadArticles := result.unreadArticles + 1);
      }
    }
    if node.children.Present? && !node.isSummary {
      result := result.(totalGroups := result.totalGroups + 1);
      if IsGroupRead(node, userId) {
        result := result.(readGroups := result.readGroups + 1);
      }
    }
  }

  /** The `forEach(traverse)` over a node's children. */
  method TallyChildren(cs: seq<Node>, userId: string, counts: Counters) returns (result: Counters)
    ensures result == Plus(counts, ForestCounts(cs, userId))
    decreases cs, 0
  {
    result := counts;
    var i := 0;
    assert ForestCounts(cs[..0], userId) == NoCounts();
    while i < |cs|
      invariant 0 <= i <= |cs|
      invariant result == Plus(counts, ForestCounts(cs[..i], userId))
    {
      result := Tally(cs[i], userId, result);
      ForestCountsSnoc(cs, i, userId);
      PlusAssociative(counts, ForestCounts(cs[..i], userId), TreeCounts(cs[i], userId));
      i := i + 1;
    }
    assert cs[..i] == cs;
  }

  /** read + unread = total over any visited sequence, and read groups never
      exceed groups. */
  lemma {:induction false} CountsConsistent(xs: seq<Node>, userId: string)
    ensures CountsOf(xs, userId).readArticles + CountsOf(xs, userId).unreadArticles
            == CountsOf(xs, userId).totalArticles
    ensures CountsOf(xs, userId).readGroups <= CountsOf(xs, userId).totalGroups
  {
    FilterCountSplit(xs, IsArticle, ReadBy(userId), UnreadBy(userId));
    FilterCountMono(xs, ReadGroupBy(userId), IsGroup);
  }

  /** getReadingStats. */
  method GetReadingStats(data: Node, userId: string) returns (stats: Stats)
    ensures stats == ReadingStats(data, userId)
    ensures stats.readArticles + stats.unreadArticles == stats.totalArticles
    ensures stats.readGroups <= stats.totalGroups
    ensures 0.0 <= stats.readPercentage <= 100.0
    ensures 0.0 <= stats.groupReadPercentage <= 100.0
  {
    var c := Tally(data, userId, NoCounts());
    TreeCountsArePreOrderCounts(data, userId);
    CountsConsistent(PreOrder(data), userId);
    stats := StatsOf(c);
  }

  // ---------------------------------------------------------------------------
  // findBlindSpots

  /** One entry of the blind-spot list. */
  datatype BlindSpot = BlindSpot(
    category: string, readPercentage: real,
    readArticles: nat, totalArticles: nat, unreadArticles: nat)

  /** findBlindSpots's default read-percentage threshold. */
  const DefaultThreshold: real := 50.0

  /** The groups findBlindSpots visits: its `traverse` descends only through
      groups, so a summary with children blocks the descent. */
  function GroupWalk(n: Node): (r: seq<Node>)
    decreases n, 1
  {
    if IsGroup(n) then [n] + GroupWalkAll(n.children.nodes) else []
  }

  function GroupWalkAll(cs: seq<Node>): seq<Node>
    decreases cs, 0
  {
    if cs == [] then [] else GroupWalk(cs[0]) + GroupWalkAll(cs[1..])
  }

  lemma {:induction false} GroupWalkAllSnoc(cs: seq<Node>, i: nat)
    requires i < |cs|
    ensures GroupWalkAll(cs[..i + 1]) == GroupWalkAll(cs[..i]) + GroupWalk(cs[i])
  {
    if i == 0 {
      assert cs[..1][1..] == [];
    } else {
      var t := cs[1..];
      assert cs[..i + 1][1..] == t[..i];
      assert cs[..i][1..] == t[..i - 1];
      GroupWalkAllSnoc(t, i - 1);
    }
  }

  /** The entry pushed for group `g`. */
  function EntryFor(g: Node, userId: string): BlindSpot
  {
    var s := ReadingStats(g, userId);
    BlindSpot(g.name, s.readPercentage, s.readArticles, s.totalArticles, s.unreadArticles)
  }

  /** The groups that get an entry: read percentage strictly below the
      threshold (:139). */
  function BelowThreshold(userId: string, threshold: real): Node -> bool
  {
    g => ReadingStats(g, userId).readPercentage < threshold
  }

  function EntryOf(userId: string): Node -> BlindSpot
  {
    g => EntryFor(g, userId)
  }

  /** The entries pushed for the visited groups `gs`, in visitation order. */
  function Entries(gs: seq<Node>, userId: string, threshold: real): seq<BlindSpot>
  {
    MapSeq(Filter(gs, BelowThreshold(userId, threshold)), EntryOf(userId))
  }

  lemma EntriesAppend(xs: seq<Node>, ys: seq<Node>, userId: string, threshold: real)
    ensures Entries(xs + ys, userId, threshold) == Entries(xs, userId, threshold) + Entries(ys, userId, threshold)
  {
    var p := BelowThreshold(userId, threshold);
    FilterAppend(xs, ys, p);
    MapSeqAppend(Filter(xs, p), Filter(ys, p), EntryOf(userId));
  }

  lemma EntriesSingleton(g: Node, userId: string, threshold: real)
    ensures Entries([g], userId, threshold)
            == if ReadingStats(g, userId).readPercentage < threshold then [EntryFor(g, userId)] else []
  {
    FilterSingleton(g, BelowThreshold(userId, threshold));
  }

  /** The step of findBlindSpots' `traverse` for one group: the entry it
      pushes, if any. */
  method GroupEntry(node: Node, userId: string, threshold: real) returns (pushed: seq<BlindSpot>)
    ensures pushed == Entries([node], userId, threshold)
    ensures |pushed| <= 1
    ensures pushed != [] <==> ReadingStats(node, userId).readPercentage < threshold
  {
    var stats := GetReadingStats(node, userId);
    pushed := [];
    if stats.readPercentage < threshold {
      pushed := [BlindSpot(node.name, stats.readPercentage, stats.readArticles,
                           stats.totalArticles, stats.unreadArticles)];
    }
    EntriesSingleton(node, userId, threshold);
  }

  /** The `traverse` closure of findBlindSpots: for a group it computes the
      subtree's statistics, pushes an entry when the read percentage is
      strictly below `threshold`, and descends into the children; any other
      node is skipped together with its subtree. */
  method CollectBlindSpots(node: Node, userId: string, threshold: real, spots: seq<BlindSpot>)
    returns (result: seq<BlindSpot>)
    ensures result == spots + Entries(GroupWalk(node), userId, threshold)
    decreases node, 1
  {
    result := spots;
    if node.children.Present? && !node.isSummary {
      var pushed := GroupEntry(node, userId, threshold);
      result := CollectChildBlindSpots(node, userId, threshold, result + pushed);
      EntriesAppend([node], GroupWalkAll(node.children.nodes), userId, threshold);
    }
  }

  /** `node.children.forEach(traverse)` inside findBlindSpots. */
  method CollectChildBlindSpots(node: Node, userId: string, threshold: real, spots: seq<BlindSpot>)
    returns (result: seq<BlindSpot>)
    requires IsGroup(node)
    ensures result == spots + Entries(GroupWalkAll(node.children.nodes), userId, threshold)
    decreases node, 0
  {
    var cs := node.children.nodes;
    result := spots;
    var i := 0;
    while i < |cs|
      invariant 0 <= i <= |cs|
      invariant result == spots + Entries(GroupWalkAll(cs[..i]), userId, threshold)
    {
      ghost var done := GroupWalkAll(cs[..i]);
      result := CollectBlindSpots(cs[i], userId, threshold, result);
      GroupWalkAllSnoc(cs, i);
      EntriesAppend(done, GroupWalk(cs[i]), userId, threshold);
      AppendAssociative(spots, Entries(done, userId, threshold), Entries(GroupWalk(cs[i]), userId, threshold));
      i := i + 1;
    }
    assert cs[..i] == cs;
  }

  function EntryPercentage(e: BlindSpot): real
  {
    e.readPercentage
  }

  /** findBlindSpots: the visited groups whose read percentage is strictly
      below `threshold`, sorted stably by ascending read percentage. */
  method FindBlindSpots(data: Node, userId: string, threshold: real := DefaultThreshold)
    returns (spots: seq<BlindSpot>)
    ensures spots == SortBy(Entries(GroupWalk(data), userId, threshold), EntryPercentage)
    ensures SortedBy(spots, EntryPercentage)
    ensures multiset(spots) == multiset(Entries(GroupWalk(data), userId, threshold))
    ensures forall k :: Filter(spots, KeyIs(EntryPercentage, k))
                        == Filter(Entries(GroupWalk(data), userId, threshold), KeyIs(EntryPercentage, k))
  {
    var collected := CollectBlindSpots(data, userId, threshold, []);
    assert collected == Entries(GroupWalk(data), userId, threshold);
    spots := SortBy(collected, EntryPercentage);
    SortBySorted(collected, EntryPercentage);
    forall k ensures Filter(spots, KeyIs(EntryPercentage, k)) == Filter(collected, KeyIs(EntryPercentage, k)) {
      SortByStable(collected, EntryPercentage, k);
    }
  }
}
