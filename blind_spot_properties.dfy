/** Properties of the reading-coverage model: what a read group is, how the
    two unread lists relate, what the statistics count and which groups end
    up on the blind-spot list. */
module BlindSpotProperties {
  import opened Wrappers
  import opened Seqs
  import opened BlindSpotDetection

  // ---------------------------------------------------------------------------
  // hasUserRead

  /** A node is read by `userId` exactly when its `readBy` list is present
      and holds that id at some position; without a list nobody has read it. */
  lemma HasUserReadIff(n: Node, userId: string)
    ensures HasUserRead(n, userId) <==>
      n.readBy.Some? && exists i :: 0 <= i < |n.readBy.value| && n.readBy.value[i] == userId
    ensures n.readBy.None? ==> !HasUserRead(n, userId)
  {
  }

  // ---------------------------------------------------------------------------
  // isGroupRead

  /** `i` is the position of the first summary among `cs`. */
  predicate FirstSummaryAt(cs: seq<Node>, i: int)
  {
    0 <= i < |cs| && cs[i].isSummary && forall j :: 0 <= j < i ==> !cs[j].isSummary
  }

  /** `find` returns the first summary child, and nothing when there is none. */
  lemma {:induction false} FindSummaryIsFirst(cs: seq<Node>)
    ensures FindSummary(cs).None? <==> forall j :: 0 <= j < |cs| ==> !cs[j].isSummary
    ensures forall i :: FirstSummaryAt(cs, i) ==> FindSummary(cs) == Some(cs[i])
    ensures FindSummary(cs).Some? ==> exists i :: FirstSummaryAt(cs, i) && FindSummary(cs).value == cs[i]
  {
    if cs != [] {
      if cs[0].isSummary {
        assert FirstSummaryAt(cs, 0);
      } else {
        var t := cs[1..];
        FindSummaryIsFirst(t);
        assert forall j :: 1 <= j < |cs| ==> cs[j] == t[j - 1];
        forall i | FirstSummaryAt(cs, i) ensures FirstSummaryAt(t, i - 1) {
        }
        if FindSummary(t).Some? {
          var k :| FirstSummaryAt(t, k) && FindSummary(t).value == t[k];
          assert FirstSummaryAt(cs, k + 1);
        }
      }
    }
  }

  /** `every` over the non-summary children holds exactly when each
      non-summary child passes the leaf-or-subgroup test. */
  lemma {:induction false} EveryChildReadIff(cs: seq<Node>, userId: string)
    ensures EveryChildRead(cs, userId) <==>
      forall j :: 0 <= j < |cs| && !cs[j].isSummary ==> ChildRead(cs[j], userId)
  {
    if cs != [] {
      EveryChildReadIff(cs[1..], userId);
      assert forall j :: 1 <= j < |cs| ==> cs[j] == cs[1..][j - 1];
    }
  }

  /** The whole of isGroupRead, stated on positions: a node without
      `children` is unread; a group is read exactly when its first summary
      child is read, or it has a non-summary child and every non-summary
      child is read. */
  lemma IsGroupReadIff(n: Node, userId: string)
    ensures n.children.Missing? ==> !IsGroupRead(n, userId)
    ensures n.children.Present? ==>
      (IsGroupRead(n, userId) <==>
        (exists i :: FirstSummaryAt(n.children.nodes, i) && HasUserRead(n.children.nodes[i], userId))
        || ((exists j :: 0 <= j < |n.children.nodes| && !n.children.nodes[j].isSummary)
            && forall j :: 0 <= j < |n.children.nodes| && !n.children.nodes[j].isSummary ==>
                 ChildRead(n.children.nodes[j], userId)))
  {
    if n.children.Present? {
      var cs := n.children.nodes;
      FindSummaryIsFirst(cs);
      EveryChildReadIff(cs, userId);
      FilterEmpty(cs, NotSummary);
      assert (forall j :: 0 <= j < |cs| ==> !NotSummary(cs[j])) <==>
             !(exists j :: 0 <= j < |cs| && !cs[j].isSummary);
    }
  }

  /** A group whose first summary child is read is read, whatever its other
      children. */
  lemma SummaryReadMeansGroupRead(n: Node, userId: string, i: nat)
    requires n.children.Present? && FirstSummaryAt(n.children.nodes, i)
    requires HasUserRead(n.children.nodes[i], userId)
    ensures IsGroupRead(n, userId)
  {
    FindSummaryIsFirst(n.children.nodes);
  }

  /** A group with no non-summary child whose summary (if any) is unread is
      unread: `every` would hold vacuously, and the source returns false
      before reaching it. */
  lemma VacuousGroupUnread(n: Node, userId: string)
    requires n.children.Present?
    requires forall j :: 0 <= j < |n.children.nodes| ==> n.children.nodes[j].isSummary
    requires forall i :: FirstSummaryAt(n.children.nodes, i) ==> !HasUserRead(n.children.nodes[i], userId)
    ensures !IsGroupRead(n, userId)
  {
    IsGroupReadIff(n, userId);
  }

  /** Reading is never cascaded from the group to its children or back: a
      group's own `readBy` plays no part in whether it is read. */
  lemma GroupReadIgnoresOwnReadBy(n: Node, userId: string, readBy: Option<seq<string>>)
    ensures IsGroupRead(n, userId) == IsGroupRead(n.(readBy := readBy), userId)
  {
  }

  /** A tree without summary nodes. */
  predicate NoSummaries(n: Node)
    decreases n, 1
  {
    !n.isSummary && (n.children.Present? ==> NoSummariesAll(n.children.nodes))
  }

  predicate NoSummariesAll(cs: seq<Node>)
    decreases cs, 0
  {
    cs == [] || (NoSummaries(cs[0]) && NoSummariesAll(cs[1..]))
  }

  /** Without summaries, a read group has no unread article anywhere below
      it: isGroupRead and findUnreadForUser agree. */
  lemma {:induction false} ReadGroupHasNoUnread(n: Node, userId: string)
    requires NoSummaries(n) && n.children.Present? && IsGroupRead(n, userId)
    ensures Filter(PreOrder(n), UnreadBy(userId)) == []
    decreases n, 1
  {
    var cs := n.children.nodes;
    assert FindSummary(cs) == None by {
      NoSummariesNoSummaryChild(cs);
      FindSummaryIsFirst(cs);
    }
    assert EveryChildRead(cs, userId);
    ReadChildrenHaveNoUnread(cs, userId);
    FilterAppend([n], PreOrderAll(cs), UnreadBy(userId));
    FilterSingleton(n, UnreadBy(userId));
  }

  lemma {:induction false} ReadChildrenHaveNoUnread(cs: seq<Node>, userId: string)
    requires NoSummariesAll(cs) && EveryChildRead(cs, userId)
    ensures Filter(PreOrderAll(cs), UnreadBy(userId)) == []
    decreases cs, 0
  {
    if cs != [] {
      var c := cs[0];
      assert !c.isSummary && ChildRead(c, userId);
      if c.children.Present? {
        ReadGroupHasNoUnread(c, userId);
      } else {
        assert PreOrder(c) == [c];
        FilterSingleton(c, UnreadBy(userId));
      }
      ReadChildrenHaveNoUnread(cs[1..], userId);
      FilterAppend(PreOrder(c), PreOrderAll(cs[1..]), UnreadBy(userId));
    }
  }

  lemma {:induction false} NoSummariesNoSummaryChild(cs: seq<Node>)
    requires NoSummariesAll(cs)
    ensures forall j :: 0 <= j < |cs| ==> !cs[j].isSummary
  {
    if cs != [] {
      NoSummariesNoSummaryChild(cs[1..]);
      assert forall j :: 1 <= j < |cs| ==> cs[j] == cs[1..][j - 1];
    }
  }

  // ---------------------------------------------------------------------------
  // findUnreadForUser and findCompletelyUnread

  /** An article nobody has read is unread by every user. */
  lemma NeverReadIsUnreadByAll(n: Node, userId: string)
    requires NeverRead(n)
    ensures UnreadBy(userId)(n)
  {
  }

  /** findCompletelyUnread lists exactly the never-read entries of
      findUnreadForUser's list, for any user, in the same order. */
  lemma CompletelyUnreadWithinUnread(data: Node, userId: string)
    ensures Filter(PreOrder(data), NeverRead) ==
            Filter(Filter(PreOrder(data), UnreadBy(userId)), NeverRead)
    ensures IsSubsequence(Filter(PreOrder(data), NeverRead), Filter(PreOrder(data), UnreadBy(userId)))
  {
    var pre := PreOrder(data);
    forall x | NeverRead(x) ensures UnreadBy(userId)(x) {
      NeverReadIsUnreadByAll(x, userId);
    }
    FilterFilter(pre, UnreadBy(userId), NeverRead);
    FilterIsSubsequence(Filter(pre, UnreadBy(userId)), NeverRead);
  }

  /** A user whose id appears in no `readBy` list has every article unread. */
  lemma UnknownUserHasAllUnread(data: Node, userId: string)
    requires forall i :: 0 <= i < |PreOrder(data)| ==> !HasUserRead(PreOrder(data)[i], userId)
    ensures Filter(PreOrder(data), UnreadBy(userId)) == Filter(PreOrder(data), IsArticle)
  {
    FilterCongruent(PreOrder(data), UnreadBy(userId), IsArticle);
  }

  // ---------------------------------------------------------------------------
  // getReadingStats

  /** The statistics count the visited articles, read articles, unread
      articles, groups and read groups of the subtree; read and unread
      articles add up to the total, and the unread count is the length of
      findUnreadForUser's list. */
  lemma ReadingStatsCount(n: Node, userId: string)
    ensures ReadingStats(n, userId).totalArticles == |Filter(PreOrder(n), IsArticle)|
    ensures ReadingStats(n, userId).readArticles == |Filter(PreOrder(n), ReadBy(userId))|
    ensures ReadingStats(n, userId).unreadArticles == |Filter(PreOrder(n), UnreadBy(userId))|
    ensures ReadingStats(n, userId).totalGroups == |Filter(PreOrder(n), IsGroup)|
    ensures ReadingStats(n, userId).readGroups == |Filter(PreOrder(n), ReadGroupBy(userId))|
    ensures ReadingStats(n, userId).readArticles + ReadingStats(n, userId).unreadArticles
            == ReadingStats(n, userId).totalArticles
    ensures ReadingStats(n, userId).readGroups <= ReadingStats(n, userId).totalGroups
  {
    TreeCountsArePreOrderCounts(n, userId);
    CountsConsistent(PreOrder(n), userId);
  }

  /** The percentages are exact ratios: `percentage * total == 100 * part`
      when there is something to count, and 0 otherwise. */
  lemma ReadingStatsPercentages(n: Node, userId: string)
    ensures var s := ReadingStats(n, userId);
      (s.totalArticles == 0 ==> s.readPercentage == 0.0) &&
      (s.totalArticles > 0 ==> s.readPercentage * s.totalArticles as real == 100.0 * s.readArticles as real) &&
      (s.totalGroups == 0 ==> s.groupReadPercentage == 0.0) &&
      (s.totalGroups > 0 ==> s.groupReadPercentage * s.totalGroups as real == 100.0 * s.readGroups as real)
  {
  }

  lemma PercentageExtremes(part: nat, total: nat)
    ensures total > 0 && part == total ==> Percentage(part, total) == 100.0
    ensures part == 0 ==> Percentage(part, total) == 0.0
  {
    if total > 0 && part == total {
      assert part as real / total as real == 1.0;
    }
  }

  /** Every article read gives 100%, none read gives 0%. */
  lemma ReadingStatsExtremes(n: Node, userId: string)
    ensures var s := ReadingStats(n, userId);
      (s.totalArticles > 0 && s.unreadArticles == 0 ==> s.readPercentage == 100.0) &&
      (s.readArticles == 0 ==> s.readPercentage == 0.0)
  {
    var c := TreeCounts(n, userId);
    ReadingStatsCount(n, userId);
    assert c.readArticles + c.unreadArticles == c.totalArticles;
    PercentageExtremes(c.readArticles, c.totalArticles);
  }

  // ---------------------------------------------------------------------------
  // findBlindSpots

  /** The nodes findBlindSpots visits are groups, met in pre-order. The walk
      does not descend below a summary, even one with children, so groups
      under such a summary are skipped. */
  lemma {:induction false} GroupWalkIsGroups(n: Node)
    ensures forall i :: 0 <= i < |GroupWalk(n)| ==> IsGroup(GroupWalk(n)[i])
    ensures IsSubsequence(GroupWalk(n), PreOrder(n))
    decreases n, 1
  {
    if IsGroup(n) {
      var cs := n.children.nodes;
      GroupWalkAllIsGroups(cs);
      assert GroupWalk(n) == [n] + GroupWalkAll(cs);
      assert PreOrder(n) == [n] + PreOrderAll(cs);
      assert IsSubsequence([n] + GroupWalkAll(cs), [n] + PreOrderAll(cs)) by {
        assert ([n] + GroupWalkAll(cs))[1..] == GroupWalkAll(cs);
        assert ([n] + PreOrderAll(cs))[1..] == PreOrderAll(cs);
      }
    } else {
      EmptyIsSubsequence(PreOrder(n));
    }
  }

  lemma {:induction false} GroupWalkAllIsGroups(cs: seq<Node>)
    ensures forall i :: 0 <= i < |GroupWalkAll(cs)| ==> IsGroup(GroupWalkAll(cs)[i])
    ensures IsSubsequence(GroupWalkAll(cs), PreOrderAll(cs))
    decreases cs, 0
  {
    if cs == [] {
    } else {
      GroupWalkIsGroups(cs[0]);
      GroupWalkAllIsGroups(cs[1..]);
      var a, b := GroupWalk(cs[0]), GroupWalkAll(cs[1..]);
      assert GroupWalkAll(cs) == a + b;
      assert forall i :: |a| <= i < |a + b| ==> (a + b)[i] == b[i - |a|];
      SubsequenceAppend(a, PreOrder(cs[0]), b, PreOrderAll(cs[1..]));
    }
  }

  /** Every summary in the tree is a leaf. */
  predicate SummariesAreLeaves(n: Node)
    decreases n, 1
  {
    (n.isSummary ==> n.children.Missing?) &&
    (n.children.Present? ==> SummariesAreLeavesAll(n.children.nodes))
  }

  predicate SummariesAreLeavesAll(cs: seq<Node>)
    decreases cs, 0
  {
    cs == [] || (SummariesAreLeaves(cs[0]) && SummariesAreLeavesAll(cs[1..]))
  }

  /** When no summary has children, findBlindSpots visits every group of the
      tree, in pre-order. */
  lemma {:induction false} GroupWalkIsEveryGroup(n: Node)
    requires SummariesAreLeaves(n)
    ensures GroupWalk(n) == Filter(PreOrder(n), IsGroup)
    decreases n, 1
  {
    var rest := if n.children.Present? then PreOrderAll(n.children.nodes) else [];
    assert PreOrder(n) == [n] + rest;
    FilterAppend([n], rest, IsGroup);
    FilterSingleton(n, IsGroup);
    if n.children.Present? {
      GroupWalkAllIsEveryGroup(n.children.nodes);
    }
  }

  lemma {:induction false} GroupWalkAllIsEveryGroup(cs: seq<Node>)
    requires SummariesAreLeavesAll(cs)
    ensures GroupWalkAll(cs) == Filter(PreOrderAll(cs), IsGroup)
    decreases cs, 0
  {
    if cs != [] {
      GroupWalkIsEveryGroup(cs[0]);
      GroupWalkAllIsEveryGroup(cs[1..]);
      FilterAppend(PreOrder(cs[0]), PreOrderAll(cs[1..]), IsGroup);
    }
  }

  /** findBlindSpots's `traverse` stops at every summary, whatever its
      children: a summary contributes no group to the walk. */
  lemma SummaryHidesItsSubtree(s: Node)
    requires s.isSummary
    ensures GroupWalk(s) == []
  {
  }

  /** So a group placed under a summary can be counted by getReadingStats
      and still never reach findBlindSpots: in the tree root → summary →
      g, the full pre-order walk reaches g but the group walk does not. */
  lemma GroupUnderSummarySkipped(g: Node)
    requires IsGroup(g)
    ensures var root := Node("root", None, false, None, Present([Node("s", None, true, None, Present([g]))]));
      g in Filter(PreOrder(root), IsGroup) && g !in GroupWalk(root)
  {
    var sm := Node("s", None, true, None, Present([g]));
    var root := Node("root", None, false, None, Present([sm]));
    assert [g][1..] == [] && [sm][1..] == [];
    assert PreOrderAll([g]) == PreOrder(g) + PreOrderAll([]);
    assert PreOrder(sm) == [sm] + PreOrder(g);
    assert PreOrderAll([sm]) == PreOrder(sm) + PreOrderAll([]);
    assert PreOrder(root)[2] == g;
    FilterMembers(PreOrder(root), IsGroup);
    assert GroupWalkAll([sm]) == GroupWalk(sm) + GroupWalkAll([]);
    assert GroupWalk(root) == [root];
  }

  lemma {:induction false} EmptyIsSubsequence<T>(b: seq<T>)
    ensures IsSubsequence([], b)
  {
    if b != [] {
      EmptyIsSubsequence(b[1..]);
    }
  }

  /** Subsequences concatenate. */
  lemma {:induction false} SubsequenceAppend<T>(a: seq<T>, b: seq<T>, c: seq<T>, d: seq<T>)
    requires IsSubsequence(a, b) && IsSubsequence(c, d)
    ensures IsSubsequence(a + c, b + d)
    decreases |b|
  {
    if b == [] {
      assert a == [];
      assert a + c == c && b + d == d;
    } else if a != [] && a[0] == b[0] && IsSubsequence(a[1..], b[1..]) {
      SubsequenceAppend(a[1..], b[1..], c, d);
      assert (a + c)[1..] == a[1..] + c;
      assert (b + d)[1..] == b[1..] + d;
    } else {
      SubsequenceAppend(a, b[1..], c, d);
      assert (b + d)[1..] == b[1..] + d;
    }
  }

  /** findBlindSpots's result before and after sorting. */
  function BlindSpots(data: Node, userId: string, threshold: real): seq<BlindSpot>
  {
    SortBy(Entries(GroupWalk(data), userId, threshold), EntryPercentage)
  }

  /** Every pushed entry comes from a visited group below the threshold,
      with that group's name and counts. */
  lemma EntriesFromGroups(data: Node, userId: string, threshold: real)
    ensures forall e :: e in Entries(GroupWalk(data), userId, threshold) ==>
      e.readPercentage < threshold &&
      exists g :: g in GroupWalk(data) && IsGroup(g) && e == EntryFor(g, userId)
  {
    var gs := GroupWalk(data);
    var kept := Filter(gs, BelowThreshold(userId, threshold));
    var es := MapSeq(kept, EntryOf(userId));
    GroupWalkIsGroups(data);
    FilterMembers(gs, BelowThreshold(userId, threshold));
    forall e | e in es
      ensures e.readPercentage < threshold
      ensures exists g :: g in gs && IsGroup(g) && e == EntryFor(g, userId)
    {
      var i :| 0 <= i < |es| && es[i] == e;
      MapSeqAt(kept, EntryOf(userId), i);
      var g := kept[i];
      assert g in gs && BelowThreshold(userId, threshold)(g);
      var k :| 0 <= k < |gs| && gs[k] == g;
      assert IsGroup(gs[k]);
    }
  }

  /** A visited group gets an entry exactly when its read percentage is
      strictly below the threshold. */
  lemma EntriesSelectGroups(data: Node, userId: string, threshold: real)
    ensures forall g :: g in GroupWalk(data) ==>
      (EntryFor(g, userId) in Entries(GroupWalk(data), userId, threshold) <==>
       ReadingStats(g, userId).readPercentage < threshold)
  {
    var gs := GroupWalk(data);
    var kept := Filter(gs, BelowThreshold(userId, threshold));
    var es := MapSeq(kept, EntryOf(userId));
    FilterMembers(gs, BelowThreshold(userId, threshold));
    forall g | g in gs && ReadingStats(g, userId).readPercentage < threshold
      ensures EntryFor(g, userId) in es
    {
      var i :| 0 <= i < |kept| && kept[i] == g;
      MapSeqAt(kept, EntryOf(userId), i);
    }
    EntriesFromGroups(data, userId, threshold);
    forall g | g in gs && EntryFor(g, userId) in es
      ensures ReadingStats(g, userId).readPercentage < threshold
    {
      assert EntryFor(g, userId).readPercentage == ReadingStats(g, userId).readPercentage;
    }
  }

  /** findBlindSpots reports a visited group exactly when its read
      percentage is strictly below the threshold (a group exactly at the
      threshold is not a blind spot), and every report comes from a visited
      group below the threshold, with that group's name and counts. */
  lemma BlindSpotsSelection(data: Node, userId: string, threshold: real)
    ensures forall g :: g in GroupWalk(data) ==>
      (EntryFor(g, userId) in BlindSpots(data, userId, threshold) <==>
       ReadingStats(g, userId).readPercentage < threshold)
    ensures forall e :: e in BlindSpots(data, userId, threshold) ==>
      e.readPercentage < threshold &&
      exists g :: g in GroupWalk(data) && IsGroup(g) && e == EntryFor(g, userId)
  {
    var es := Entries(GroupWalk(data), userId, threshold);
    var spots := BlindSpots(data, userId, threshold);
    assert multiset(spots) == multiset(es);
    assert forall e :: e in spots <==> e in es by {
      forall e ensures e in spots <==> e in es {
        assert e in spots <==> e in multiset(spots);
        assert e in es <==> e in multiset(es);
      }
    }
    EntriesFromGroups(data, userId, threshold);
    EntriesSelectGroups(data, userId, threshold);
  }
}
