/** Properties of the CSV graph derivation: which rows get a parent link,
    how many sibling links there are, and which members they join. */
module CsvGraphProperties {
  import opened Wrappers
  import opened Seqs
  import opened JsStrings
  import opened CsvRows
  import opened CsvGraph

  // ---------------------------------------------------------------------------
  // Parent links

  /** A row links to its parent exactly when the parent is a non-empty
      string holding some non-whitespace character and is the id of a node;
      a parent of spaces only gets no link. */
  lemma LinksToParentIff(row: ProcessedRow, nodeIds: set<string>)
    ensures LinksToParent(row, nodeIds) <==>
      row.parent.Some? &&
      (exists i :: 0 <= i < |row.parent.value| && !IsJsWhitespace(row.parent.value[i])) &&
      row.parent.value in nodeIds
  {
    if row.parent.Some? {
      TrimEmptyIff(row.parent.value);
    }
  }

  /** Every parent link goes from an existing node to a row whose parent it
      is, and every row that passes the parent test gets its link. */
  lemma ParentLinksSpec(rows: seq<ProcessedRow>, nodeIds: set<string>)
    ensures forall l :: l in ParentLinks(rows, nodeIds) ==>
      !l.sibling && l.strength == 1.2 && l.distance == 200.0 &&
      l.source in nodeIds && Trim(l.source) != "" &&
      exists i :: 0 <= i < |rows| && rows[i].id == l.target && rows[i].parent == Some(l.source)
    ensures forall i :: 0 <= i < |rows| && LinksToParent(rows[i], nodeIds) ==>
      ParentLink(rows[i]) in ParentLinks(rows, nodeIds)
    ensures |ParentLinks(rows, nodeIds)| == |Filter(rows, HasParentIn(nodeIds))|
  {
    var kept := Filter(rows, HasParentIn(nodeIds));
    var links := ParentLinks(rows, nodeIds);
    FilterMembers(rows, HasParentIn(nodeIds));
    forall l | l in links
      ensures !l.sibling && l.strength == 1.2 && l.distance == 200.0
      ensures l.source in nodeIds && Trim(l.source) != ""
      ensures exists i :: 0 <= i < |rows| && rows[i].id == l.target && rows[i].parent == Some(l.source)
    {
      var k :| 0 <= k < |links| && links[k] == l;
      MapSeqAt(kept, ParentLink, k);
      assert HasParentIn(nodeIds)(kept[k]);
      var i :| 0 <= i < |rows| && rows[i] == kept[k];
      assert rows[i].id == l.target;
    }
    forall i | 0 <= i < |rows| && LinksToParent(rows[i], nodeIds)
      ensures ParentLink(rows[i]) in links
    {
      assert HasParentIn(nodeIds)(rows[i]);
      var k :| 0 <= k < |kept| && kept[k] == rows[i];
      MapSeqAt(kept, ParentLink, k);
    }
  }

  // ---------------------------------------------------------------------------
  // Sibling links

  /** The total size of the groups `keys`. */
  function SizeSum(keys: seq<string>, groups: map<string, seq<Member>>): nat
  {
    if keys == [] then 0
    else (if keys[0] in groups then |groups[keys[0]]| else 0) + SizeSum(keys[1..], groups)
  }

  lemma {:induction false} SizeSumAppend(a: seq<string>, b: seq<string>, groups: map<string, seq<Member>>)
    ensures SizeSum(a + b, groups) == SizeSum(a, groups) + SizeSum(b, groups)
  {
    if a == [] {
      assert a + b == b;
    } else {
      assert (a + b)[1..] == a[1..] + b;
      SizeSumAppend(a[1..], b, groups);
    }
  }

  lemma {:induction false} SizeSumOutside(keys: seq<string>, groups: map<string, seq<Member>>, k: string, v: seq<Member>)
    requires k !in keys
    ensures SizeSum(keys, groups[k := v]) == SizeSum(keys, groups)
  {
    if keys != [] {
      assert keys[0] != k;
      SizeSumOutside(keys[1..], groups, k, v);
    }
  }

  lemma {:induction false} SizeSumUpdate(keys: seq<string>, groups: map<string, seq<Member>>, k: string, v: seq<Member>)
    requires Distinct(keys) && k in keys && k in groups
    ensures SizeSum(keys, groups[k := v]) == SizeSum(keys, groups) - |groups[k]| + |v|
  {
    var t := keys[1..];
    assert Distinct(t) by {
      forall i, j | 0 <= i < j < |t| ensures t[i] != t[j] {
        assert t[i] == keys[i + 1] && t[j] == keys[j + 1];
      }
    }
    if keys[0] == k {
      assert k !in t by {
        forall j | 0 <= j < |t| ensures t[j] != k {
          assert t[j] == keys[j + 1];
        }
      }
      SizeSumOutside(t, groups, k, v);
    } else {
      assert k in t;
      SizeSumUpdate(t, groups, k, v);
    }
  }

  /** The groups hold every row exactly once. */
  lemma {:induction false} SizeSumRows(rows: seq<ProcessedRow>)
    ensures SizeSum(GroupKeysOf(rows), GroupMap(rows)) == |rows|
    decreases |rows|
  {
    if rows != [] {
      var i := |rows| - 1;
      var pre := rows[..i];
      assert rows[..i + 1] == rows;
      GroupMapSnoc(rows, i);
      SizeSumRows(pre);
      var keys, g := GroupKeysOf(pre), GroupMap(pre);
      var k := GroupKey(rows[i]);
      var m := Member(rows[i], i);
      if k in keys {
        GroupKeysOfSpec(pre);
        SizeSumUpdate(keys, g, k, g[k] + [m]);
      } else {
        assert k !in g;
        assert GroupMap(rows) == g[k := [m]] by {
          assert [] + [m] == [m];
        }
        assert GroupKeysOf(rows) == keys + [k];
        SizeSumAppend(keys, [k], g[k := [m]]);
        SizeSumOutside(keys, g, k, [m]);
        assert SizeSum([k], g[k := [m]]) == 1;
      }
    }
  }

  lemma MultisetWithout<T>(ys: seq<T>, j: nat)
    requires j < |ys|
    ensures multiset(ys[..j] + ys[j + 1..]) == multiset(ys) - multiset{ys[j]}
  {
    assert ys == ys[..j] + [ys[j]] + ys[j + 1..];
  }

  lemma MultisetTail<T>(xs: seq<T>)
    requires xs != []
    ensures multiset(xs[1..]) == multiset(xs) - multiset{xs[0]}
  {
    assert xs == [xs[0]] + xs[1..];
  }

  /** Reordering the keys does not change the total. */
  lemma {:induction false} SizeSumMultiset(xs: seq<string>, ys: seq<string>, groups: map<string, seq<Member>>)
    requires multiset(xs) == multiset(ys)
    ensures SizeSum(xs, groups) == SizeSum(ys, groups)
    decreases |xs|
  {
    if xs == [] {
      assert |ys| == |multiset(ys)| == 0;
    } else {
      var x := xs[0];
      assert x in multiset(ys);
      var j :| 0 <= j < |ys| && ys[j] == x;
      var rest := ys[..j] + ys[j + 1..];
      MultisetWithout(ys, j);
      MultisetTail(xs);
      SizeSumMultiset(xs[1..], rest, groups);
      SizeSumPick(ys, j, groups);
    }
  }

  /** Taking one key out of the sequence takes its size out of the total. */
  lemma SizeSumPick(ys: seq<string>, j: nat, groups: map<string, seq<Member>>)
    requires j < |ys|
    ensures SizeSum(ys, groups) == SizeSum([ys[j]], groups) + SizeSum(ys[..j] + ys[j + 1..], groups)
  {
    assert ys == (ys[..j] + [ys[j]]) + ys[j + 1..];
    SizeSumAppend(ys[..j] + [ys[j]], ys[j + 1..], groups);
    SizeSumAppend(ys[..j], [ys[j]], groups);
    SizeSumAppend(ys[..j], ys[j + 1..], groups);
  }

  /** A group of size `k` gives `k - 1` sibling links when it is not empty. */
  lemma {:induction false} SiblingLinksLength(keys: seq<string>, groups: map<string, seq<Member>>)
    requires forall i :: 0 <= i < |keys| ==> keys[i] in groups && |groups[keys[i]]| > 0
    ensures |SiblingLinks(keys, groups)| + |keys| == SizeSum(keys, groups)
  {
    if keys != [] {
      SiblingLinksLength(keys[1..], groups);
    }
  }

  /** There is one sibling link fewer than rows per group: the number of
      sibling links is the number of rows minus the number of groups, and
      all links together are the parent links plus that number. */
  lemma SiblingLinkCount(rows: seq<ProcessedRow>)
    ensures forall i :: 0 <= i < |GroupOrder(rows)| ==> GroupOrder(rows)[i] in GroupMap(rows)
    ensures |SiblingLinks(GroupOrder(rows), GroupMap(rows))| == |rows| - |GroupKeysOf(rows)|
    ensures |ParentLinks(rows, RowIds(rows)) + SiblingLinks(GroupOrder(rows), GroupMap(rows))|
            == |Filter(rows, HasParentIn(RowIds(rows)))| + |rows| - |GroupKeysOf(rows)|
  {
    var o, keys, g := GroupOrder(rows), GroupKeysOf(rows), GroupMap(rows);
    GroupOrderHasGroups(rows);
    forall i | 0 <= i < |o| ensures |g[o[i]]| > 0 {
      GroupSpec(rows, o[i]);
    }
    SiblingLinksLength(o, g);
    SizeSumMultiset(o, keys, g);
    SizeSumRows(rows);
    assert |o| == |multiset(o)| == |multiset(keys)| == |keys|;
    ParentLinksSpec(rows, RowIds(rows));
  }

  /** Every sibling link joins a group's member at some position to the
      member right after it. */
  lemma {:induction false} SiblingLinksJoinNeighbours(keys: seq<string>, groups: map<string, seq<Member>>)
    requires forall i :: 0 <= i < |keys| ==> keys[i] in groups
    ensures forall l :: l in SiblingLinks(keys, groups) ==>
      exists j, p :: (0 <= j < |keys| && 0 <= p && p + 1 < |groups[keys[j]]| &&
        l == SiblingLink(groups[keys[j]][p], groups[keys[j]][p + 1]))
  {
    if keys != [] {
      var g0 := groups[keys[0]];
      var t := keys[1..];
      SiblingLinksJoinNeighbours(t, groups);
      forall l | l in SiblingLinks(keys, groups)
        ensures exists j, p :: (0 <= j < |keys| && 0 <= p && p + 1 < |groups[keys[j]]| &&
          l == SiblingLink(groups[keys[j]][p], groups[keys[j]][p + 1]))
      {
        if l in SiblingPairs(g0) {
          var p :| 0 <= p < |SiblingPairs(g0)| && SiblingPairs(g0)[p] == l;
          assert l == SiblingLink(groups[keys[0]][p], groups[keys[0]][p + 1]);
        } else {
          assert l in SiblingLinks(t, groups);
          var j, p :| 0 <= j < |t| && 0 <= p && p + 1 < |groups[t[j]]| &&
            l == SiblingLink(groups[t[j]][p], groups[t[j]][p + 1]);
          assert t[j] == keys[j + 1];
        }
      }
    }
  }

  /** Conversely, every pair of neighbouring members gets its link. */
  lemma {:induction false} SiblingLinksCoverNeighbours(keys: seq<string>, groups: map<string, seq<Member>>)
    requires forall i :: 0 <= i < |keys| ==> keys[i] in groups
    ensures forall j, p :: 0 <= j < |keys| && 0 <= p && p + 1 < |groups[keys[j]]| ==>
      SiblingLink(groups[keys[j]][p], groups[keys[j]][p + 1]) in SiblingLinks(keys, groups)
  {
    if keys != [] {
      var g0 := groups[keys[0]];
      var t := keys[1..];
      SiblingLinksCoverNeighbours(t, groups);
      forall j, p | 0 <= j < |keys| && 0 <= p && p + 1 < |groups[keys[j]]|
        ensures SiblingLink(groups[keys[j]][p], groups[keys[j]][p + 1]) in SiblingLinks(keys, groups)
      {
        if j == 0 {
          assert SiblingPairs(g0)[p] == SiblingLink(g0[p], g0[p + 1]);
        } else {
          assert keys[j] == t[j - 1];
        }
      }
    }
  }

  /** Link `l` goes from position `p` of group `k` to position `p + 1`:
      two rows with parent key `k`, the earlier row first. */
  predicate JoinsNeighbours(rows: seq<ProcessedRow>, l: Link, k: string, p: int)
  {
    k in GroupMap(rows) && 0 <= p && p + 1 < |GroupMap(rows)[k]| &&
    var a, b := GroupMap(rows)[k][p], GroupMap(rows)[k][p + 1];
    l.source == a.row.id && l.target == b.row.id &&
    a.index < b.index && b.index < |rows| && a.row == rows[a.index] && b.row == rows[b.index] &&
    GroupKey(a.row) == k && GroupKey(b.row) == k
  }

  /** In the derived graph, a sibling link joins two rows of the same parent
      group that follow each other in that group, the earlier row first. */
  lemma SiblingLinksJoinConsecutiveRows(rows: seq<ProcessedRow>)
    ensures forall i :: 0 <= i < |GroupOrder(rows)| ==> GroupOrder(rows)[i] in GroupMap(rows)
    ensures forall l :: l in SiblingLinks(GroupOrder(rows), GroupMap(rows)) ==>
      l.sibling && l.strength == 0.6 && l.distance == 120.0 &&
      exists k, p :: JoinsNeighbours(rows, l, k, p)
  {
    var o, g := GroupOrder(rows), GroupMap(rows);
    GroupOrderHasGroups(rows);
    SiblingLinksJoinNeighbours(o, g);
    forall l | l in SiblingLinks(o, g)
      ensures l.sibling && l.strength == 0.6 && l.distance == 120.0
      ensures exists k, p :: JoinsNeighbours(rows, l, k, p)
    {
      var j, p :| 0 <= j < |o| && 0 <= p && p + 1 < |g[o[j]]| &&
        l == SiblingLink(g[o[j]][p], g[o[j]][p + 1]);
      var k := o[j];
      GroupSpec(rows, k);
      assert MemberIndex(g[k][p]) < MemberIndex(g[k][p + 1]);
      assert JoinsNeighbours(rows, l, k, p);
    }
  }

  /** In the derived graph, every two members that follow each other in a
      parent group are joined by a sibling link. */
  lemma EveryNeighbourPairLinked(rows: seq<ProcessedRow>)
    ensures forall i :: 0 <= i < |GroupOrder(rows)| ==> GroupOrder(rows)[i] in GroupMap(rows)
    ensures forall k, p :: k in GroupMap(rows) && 0 <= p && p + 1 < |GroupMap(rows)[k]| ==>
      SiblingLink(GroupMap(rows)[k][p], GroupMap(rows)[k][p + 1]) in SiblingLinks(GroupOrder(rows), GroupMap(rows))
  {
    var o, g := GroupOrder(rows), GroupMap(rows);
    GroupOrderHasGroups(rows);
    SiblingLinksCoverNeighbours(o, g);
    forall k, p | k in g && 0 <= p && p + 1 < |g[k]|
      ensures SiblingLink(g[k][p], g[k][p + 1]) in SiblingLinks(o, g)
    {
      assert k in GroupKeysOf(rows);
      assert k in multiset(GroupKeysOf(rows));
      assert k in multiset(o);
      var j :| 0 <= j < |o| && o[j] == k;
    }
  }
}
