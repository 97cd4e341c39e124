/** The nodes-and-links derivation of the CSV graph view
    (src/components/CsvGraphView.js:206-287): rows are grouped by parent,
    every row becomes a node that knows its group, and links join each row
    to an existing parent node and each group's consecutive members. */
module CsvGraph {
  import opened Wrappers
  import opened Seqs
  import opened JsStrings
  import opened CsvRows

  /** `row.parent || 'root'`: the key of the row's parent group. */
  function GroupKey(r: ProcessedRow): string
  {
    if Truthy(r.parent) then r.parent.value else "root"
  }

  /** An entry `{ row, index }` of a parent group. */
  datatype Member = Member(row: ProcessedRow, index: nat)

  function MemberIndex(m: Member): int
  {
    m.index
  }

  /** The rows paired with their positions, as `forEach((row, index) => ...)`
      sees them. */
  function Indexed(rows: seq<ProcessedRow>): (r: seq<Member>)
    ensures |r| == |rows|
  {
    seq(|rows|, i requires 0 <= i < |rows| => Member(rows[i], i))
  }

  function InGroup(key: string): Member -> bool
  {
    (m: Member) => GroupKey(m.row) == key
  }

  /** The group keys in the order the groups were created. */
  function GroupKeysOf(rows: seq<ProcessedRow>): seq<string>
  {
    if rows == [] then []
    else
      var keys := GroupKeysOf(rows[..|rows| - 1]);
      var k := GroupKey(rows[|rows| - 1]);
      if k in keys then keys else keys + [k]
  }

  /** The contents of `parentGroups` once every row is pushed: for each key,
      the rows with that key, in row order, with their positions. */
  function GroupMap(rows: seq<ProcessedRow>): map<string, seq<Member>>
  {
    map k | k in GroupKeysOf(rows) :: Filter(Indexed(rows), InGroup(k))
  }

  predicate Distinct<T(==)>(xs: seq<T>)
  {
    forall i, j :: 0 <= i < j < |xs| ==> xs[i] != xs[j]
  }

  /** A key is created exactly for the rows that have it, and only once. */
  lemma {:induction false} GroupKeysOfSpec(rows: seq<ProcessedRow>)
    ensures forall k :: k in GroupKeysOf(rows) <==> exists i :: 0 <= i < |rows| && GroupKey(rows[i]) == k
    ensures Distinct(GroupKeysOf(rows))
    decreases |rows|
  {
    if rows != [] {
      var init := rows[..|rows| - 1];
      GroupKeysOfSpec(init);
      assert forall i :: 0 <= i < |init| ==> init[i] == rows[i];
      forall k | k in GroupKeysOf(rows)
        ensures exists i :: 0 <= i < |rows| && GroupKey(rows[i]) == k
      {
        if k in GroupKeysOf(init) {
          var i :| 0 <= i < |init| && GroupKey(init[i]) == k;
          assert GroupKey(rows[i]) == k;
        }
      }
      forall k | exists i :: 0 <= i < |rows| && GroupKey(rows[i]) == k
        ensures k in GroupKeysOf(rows)
      {
        var i :| 0 <= i < |rows| && GroupKey(rows[i]) == k;
        if i < |init| {
          assert GroupKey(init[i]) == k;
        }
      }
    }
  }

  lemma IndexedSnoc(rows: seq<ProcessedRow>, i: nat)
    requires i < |rows|
    ensures Indexed(rows[..i + 1]) == Indexed(rows[..i]) + [Member(rows[i], i)]
  {
  }

  /** Pushing row `i`: its key is created if new, and the row is appended to
      that key's group; every other group is unchanged. */
  lemma GroupMapSnoc(rows: seq<ProcessedRow>, i: nat)
    requires i < |rows|
    ensures var g := GroupMap(rows[..i]); var k := GroupKey(rows[i]);
      GroupMap(rows[..i + 1]) == g[k := (if k in g then g[k] else []) + [Member(rows[i], i)]]
    ensures var keys := GroupKeysOf(rows[..i]); var k := GroupKey(rows[i]);
      GroupKeysOf(rows[..i + 1]) == if k in keys then keys else keys + [k]
  {
    var pre, next := rows[..i], rows[..i + 1];
    var g := GroupMap(pre);
    var k := GroupKey(rows[i]);
    var m := Member(rows[i], i);
    assert next[..|next| - 1] == pre;
    IndexedSnoc(rows, i);
    var h := g[k := (if k in g then g[k] else []) + [m]];
    forall k' | k' in GroupKeysOf(next)
      ensures Filter(Indexed(next), InGroup(k')) == h[k']
    {
      FilterAppend(Indexed(pre), [m], InGroup(k'));
      FilterSingleton(m, InGroup(k'));
      if k' == k && k !in g {
        GroupKeysOfSpec(pre);
        forall j | 0 <= j < |Indexed(pre)| ensures !InGroup(k)(Indexed(pre)[j]) {
          assert Indexed(pre)[j].row == pre[j];
        }
        FilterEmpty(Indexed(pre), InGroup(k));
      }
    }
  }

  /** One step of the `forEach` that fills `parentGroups`: create the
      group if it is missing, then push the row onto it. JavaScript keeps the
      object's key insertion order itself; here it is `order`. */
  method PushMember(groups: map<string, seq<Member>>, order: seq<string>, row: ProcessedRow, index: nat)
    returns (groups': map<string, seq<Member>>, order': seq<string>)
    ensures var k := GroupKey(row);
      groups' == groups[k := (if k in groups then groups[k] else []) + [Member(row, index)]] &&
      order' == if k in groups then order else order + [k]
  {
    var parentId := GroupKey(row);
    groups', order' := groups, order;
    if parentId !in groups' {
      groups' := groups'[parentId := []];
      order' := order' + [parentId];
    }
    groups' := groups'[parentId := groups'[parentId] + [Member(row, index)]];
  }

  /** The `forEach` that fills `parentGroups` (:213-220). */
  method GroupByParent(rows: seq<ProcessedRow>) returns (groups: map<string, seq<Member>>, order: seq<string>)
    ensures groups == GroupMap(rows)
    ensures order == GroupKeysOf(rows)
  {
    groups := map[];
    order := [];
    var i := 0;
    while i < |rows|
      invariant 0 <= i <= |rows|
      invariant groups == GroupMap(rows[..i])
      invariant order == GroupKeysOf(rows[..i])
    {
      GroupMapSnoc(rows, i);
      groups, order := PushMember(groups, order, rows[i], i);
      i := i + 1;
    }
    assert rows[..i] == rows;
  }

  /** Every row's key has a group. */
  lemma GroupMapCoversRows(rows: seq<ProcessedRow>)
    ensures forall i :: 0 <= i < |rows| ==> GroupKey(rows[i]) in GroupMap(rows)
  {
    GroupKeysOfSpec(rows);
  }

  /** A group holds exactly the rows with its key, each with its own
      position, in row order, and is never empty. */
  lemma GroupSpec(rows: seq<ProcessedRow>, k: string)
    requires k in GroupMap(rows)
    ensures |GroupMap(rows)[k]| > 0
    ensures IncreasingBy(GroupMap(rows)[k], MemberIndex)
    ensures forall p :: 0 <= p < |GroupMap(rows)[k]| ==>
      var m := GroupMap(rows)[k][p];
      m.index < |rows| && m.row == rows[m.index] && GroupKey(m.row) == k
    ensures forall i :: 0 <= i < |rows| && GroupKey(rows[i]) == k ==> Member(rows[i], i) in GroupMap(rows)[k]
  {
    var ix := Indexed(rows);
    var g := Filter(ix, InGroup(k));
    assert GroupMap(rows)[k] == g;
    FilterMembers(ix, InGroup(k));
    assert IncreasingBy(ix, MemberIndex);
    FilterIncreasing(ix, InGroup(k), MemberIndex);
    forall p | 0 <= p < |g|
      ensures g[p].index < |rows| && g[p].row == rows[g[p].index] && GroupKey(g[p].row) == k
    {
      var j :| 0 <= j < |ix| && ix[j] == g[p];
    }
    forall i | 0 <= i < |rows| && GroupKey(rows[i]) == k ensures Member(rows[i], i) in g {
      assert InGroup(k)(ix[i]);
    }
    GroupKeysOfSpec(rows);
    var i :| 0 <= i < |rows| && GroupKey(rows[i]) == k;
    assert Member(rows[i], i) in g;
  }

  // ---------------------------------------------------------------------------
  // Nodes (:222-245)

  /** A graph node; `value`, `color` and the constant `size` are not
      modelled. */
  datatype GraphNode = GraphNode(
    id: string,
    title: Option<string>,
    timestamp: Option<string>,
    parent: Option<string>,
    group: string,
    groupIndex: int,
    groupSize: nat)

  /** `findIndex(item => item.row.id === id)`. */
  function FindIndex(ms: seq<Member>, id: string): (r: int)
    ensures -1 <= r < |ms|
    ensures r >= 0 ==> ms[r].row.id == id && forall j :: 0 <= j < r ==> ms[j].row.id != id
    ensures r == -1 <==> forall j :: 0 <= j < |ms| ==> ms[j].row.id != id
  {
    if ms == [] then -1
    else if ms[0].row.id == id then 0
    else
      var r := FindIndex(ms[1..], id);
      assert forall j :: 1 <= j < |ms| ==> ms[j] == ms[1..][j - 1];
      if r == -1 then -1 else r + 1
  }

  function NodeFor(row: ProcessedRow, groups: map<string, seq<Member>>): GraphNode
    requires GroupKey(row) in groups
  {
    var g := groups[GroupKey(row)];
    GraphNode(row.id, row.title, row.timestamp, row.parent, GroupKey(row), FindIndex(g, row.id), |g|)
  }

  /** `csvData.map(...)` building the nodes. */
  function Nodes(rows: seq<ProcessedRow>, groups: map<string, seq<Member>>): (r: seq<GraphNode>)
    requires forall i :: 0 <= i < |rows| ==> GroupKey(rows[i]) in groups
    ensures |r| == |rows|
  {
    seq(|rows|, i requires 0 <= i < |rows| => NodeFor(rows[i], groups))
  }

  /** One node per row, in row order: its group is the row's parent or
      'root', its groupSize that group's size, and its groupIndex the first
      position in the group holding the same id, which is never -1 and
      never after the row's own position. */
  lemma NodesSpec(rows: seq<ProcessedRow>)
    ensures forall i :: 0 <= i < |rows| ==> GroupKey(rows[i]) in GroupMap(rows)
    ensures forall i :: 0 <= i < |rows| ==>
      var n := Nodes(rows, GroupMap(rows))[i];
      var g := GroupMap(rows)[GroupKey(rows[i])];
      n.id == rows[i].id && n.title == rows[i].title && n.parent == rows[i].parent &&
      n.timestamp == rows[i].timestamp &&
      n.group == GroupKey(rows[i]) && n.groupSize == |g| &&
      0 <= n.groupIndex < |g| && g[n.groupIndex].row.id == rows[i].id &&
      (forall p :: 0 <= p < n.groupIndex ==> g[p].row.id != rows[i].id) &&
      (forall p :: 0 <= p < |g| && g[p] == Member(rows[i], i) ==> n.groupIndex <= p)
  {
    GroupMapCoversRows(rows);
    var gm := GroupMap(rows);
    forall i | 0 <= i < |rows|
      ensures 0 <= Nodes(rows, gm)[i].groupIndex
    {
      var g := gm[GroupKey(rows[i])];
      GroupSpec(rows, GroupKey(rows[i]));
      assert Member(rows[i], i) in g;
      var p :| 0 <= p < |g| && g[p] == Member(rows[i], i);
      assert g[p].row.id == rows[i].id;
    }
  }

  // ---------------------------------------------------------------------------
  // Links (:247-284)

  /** A link; the parent links' `value: Math.abs(row.value)` is not
      modelled, `sibling` stands for `type: 'sibling'`. */
  datatype Link = Link(source: string, target: string, strength: real, distance: real, sibling: bool)

  /** `row.parent && row.parent.trim() !== '' && nodeMap.get(row.parent)`. */
  predicate LinksToParent(row: ProcessedRow, nodeIds: set<string>)
  {
    Truthy(row.parent) && Trim(row.parent.value) != "" && row.parent.value in nodeIds
  }

  function HasParentIn(nodeIds: set<string>): ProcessedRow -> bool
  {
    (r: ProcessedRow) => LinksToParent(r, nodeIds)
  }

  function ParentLink(row: ProcessedRow): Link
  {
    Link(if row.parent.Some? then row.parent.value else "", row.id, 1.2, 200.0, false)
  }

  /** The parent links, in row order. */
  function ParentLinks(rows: seq<ProcessedRow>, nodeIds: set<string>): seq<Link>
  {
    MapSeq(Filter(rows, HasParentIn(nodeIds)), ParentLink)
  }

  lemma ParentLinksSnoc(rows: seq<ProcessedRow>, i: nat, nodeIds: set<string>)
    requires i < |rows|
    ensures ParentLinks(rows[..i + 1], nodeIds) ==
      ParentLinks(rows[..i], nodeIds) + (if LinksToParent(rows[i], nodeIds) then [ParentLink(rows[i])] else [])
  {
    var p := HasParentIn(nodeIds);
    assert rows[..i + 1] == rows[..i] + [rows[i]];
    FilterAppend(rows[..i], [rows[i]], p);
    FilterSingleton(rows[i], p);
    MapSeqAppend(Filter(rows[..i], p), Filter([rows[i]], p), ParentLink);
  }

  /** The first `forEach` over the rows pushing parent links. */
  method AddParentLinks(rows: seq<ProcessedRow>, nodeIds: set<string>) returns (links: seq<Link>)
    ensures links == ParentLinks(rows, nodeIds)
  {
    links := [];
    var i := 0;
    while i < |rows|
      invariant 0 <= i <= |rows|
      invariant links == ParentLinks(rows[..i], nodeIds)
    {
      var row := rows[i];
      if row.parent.Some? && row.parent.value != "" && Trim(row.parent.value) != "" {
        if row.parent.value in nodeIds {
          links := links + [ParentLink(row)];
        }
      }
      ParentLinksSnoc(rows, i, nodeIds);
      i := i + 1;
    }
    assert rows[..i] == rows;
  }

  /** The link joining two consecutive members of a group. */
  function SiblingLink(a: Member, b: Member): Link
  {
    Link(a.row.id, b.row.id, 0.6, 120.0, true)
  }

  /** The links of one group, `group[i]` to `group[i + 1]`. */
  function SiblingPairs(group: seq<Member>): (r: seq<Link>)
    ensures |r| == if |group| > 1 then |group| - 1 else 0
  {
    if |group| <= 1 then []
    else seq(|group| - 1, i requires 0 <= i < |group| - 1 => SiblingLink(group[i], group[i + 1]))
  }

  /** The `for` loop over one group. */
  method AddGroupLinks(group: seq<Member>, links: seq<Link>) returns (result: seq<Link>)
    ensures result == links + SiblingPairs(group)
  {
    result := links;
    if |group| > 1 {
      for i := 0 to |group| - 1
        invariant result == links + SiblingPairs(group)[..i]
      {
        assert SiblingPairs(group)[..i + 1] == SiblingPairs(group)[..i] + [SiblingLink(group[i], group[i + 1])];
        result := result + [SiblingLink(group[i], group[i + 1])];
      }
      assert SiblingPairs(group)[..|group| - 1] == SiblingPairs(group);
    }
  }

  /** The sibling links of the groups `keys`, in that order. */
  function SiblingLinks(keys: seq<string>, groups: map<string, seq<Member>>): seq<Link>
    requires forall i :: 0 <= i < |keys| ==> keys[i] in groups
  {
    if keys == [] then [] else SiblingPairs(groups[keys[0]]) + SiblingLinks(keys[1..], groups)
  }

  lemma {:induction false} SiblingLinksSnoc(keys: seq<string>, j: nat, groups: map<string, seq<Member>>)
    requires j < |keys|
    requires forall i :: 0 <= i < |keys| ==> keys[i] in groups
    ensures SiblingLinks(keys[..j + 1], groups) == SiblingLinks(keys[..j], groups) + SiblingPairs(groups[keys[j]])
  {
    if j == 0 {
      assert keys[..1][1..] == [];
    } else {
      var t := keys[1..];
      assert keys[..j + 1][1..] == t[..j];
      assert keys[..j][1..] == t[..j - 1];
      SiblingLinksSnoc(t, j - 1, groups);
      AppendAssociative(SiblingPairs(groups[keys[0]]), SiblingLinks(t[..j - 1], groups), SiblingPairs(groups[keys[j]]));
    }
  }

  /** `Object.values(parentGroups).forEach(...)`, the groups visited in the
      order `keys`. */
  method AddSiblingLinks(keys: seq<string>, groups: map<string, seq<Member>>, links: seq<Link>)
    returns (result: seq<Link>)
    requires forall i :: 0 <= i < |keys| ==> keys[i] in groups
    ensures result == links + SiblingLinks(keys, groups)
  {
    result := links;
    var j := 0;
    while j < |keys|
      invariant 0 <= j <= |keys|
      invariant result == links + SiblingLinks(keys[..j], groups)
    {
      result := AddGroupLinks(groups[keys[j]], result);
      SiblingLinksSnoc(keys, j, groups);
      AppendAssociative(links, SiblingLinks(keys[..j], groups), SiblingPairs(groups[keys[j]]));
      j := j + 1;
    }
    assert keys[..j] == keys;
  }

  /** The ids of the rows, which are the keys of `nodeMap`. */
  function RowIds(rows: seq<ProcessedRow>): set<string>
  {
    set i | 0 <= i < |rows| :: rows[i].id
  }

  /** `nodeMap` is keyed by the row ids. */
  lemma NodeIdsAreRowIds(rows: seq<ProcessedRow>, groups: map<string, seq<Member>>)
    requires forall i :: 0 <= i < |rows| ==> GroupKey(rows[i]) in groups
    ensures (set i | 0 <= i < |Nodes(rows, groups)| :: Nodes(rows, groups)[i].id) == RowIds(rows)
  {
    var nodes := Nodes(rows, groups);
    forall x | x in RowIds(rows) ensures x in (set i | 0 <= i < |nodes| :: nodes[i].id) {
      var i :| 0 <= i < |rows| && rows[i].id == x;
      assert nodes[i].id == x;
    }
  }

  /** The order `Object.values` lists the groups in. */
  function GroupOrder(rows: seq<ProcessedRow>): seq<string>
  {
    PropertyOrder(GroupKeysOf(rows))
  }

  lemma GroupOrderHasGroups(rows: seq<ProcessedRow>)
    ensures forall i :: 0 <= i < |GroupOrder(rows)| ==> GroupOrder(rows)[i] in GroupMap(rows)
  {
    var o := GroupOrder(rows);
    forall i | 0 <= i < |o| ensures o[i] in GroupMap(rows) {
      assert o[i] in multiset(o);
    }
  }

  /** The whole `useMemo`: no data gives no nodes and no links; otherwise
      the nodes, then the parent links followed by each group's sibling
      links. */
  method BuildGraph(csvData: Option<seq<ProcessedRow>>) returns (nodes: seq<GraphNode>, links: seq<Link>)
    ensures csvData.None? ==> nodes == [] && links == []
    ensures csvData.Some? ==>
      (forall i :: 0 <= i < |csvData.value| ==> GroupKey(csvData.value[i]) in GroupMap(csvData.value)) &&
      (forall i :: 0 <= i < |GroupOrder(csvData.value)| ==> GroupOrder(csvData.value)[i] in GroupMap(csvData.value)) &&
      nodes == Nodes(csvData.value, GroupMap(csvData.value)) &&
      links == ParentLinks(csvData.value, RowIds(csvData.value))
               + SiblingLinks(GroupOrder(csvData.value), GroupMap(csvData.value))
  {
    if csvData.None? {
      return [], [];
    }
    var rows := csvData.value;
    var groups, order := GroupByParent(rows);
    GroupMapCoversRows(rows);
    nodes := Nodes(rows, groups);
    var nodeIds := set i | 0 <= i < |nodes| :: nodes[i].id;
    NodeIdsAreRowIds(rows, groups);
    links := AddParentLinks(rows, nodeIds);
    GroupOrderHasGroups(rows);
    var keys := PropertyOrder(order);
    assert keys == GroupOrder(rows);
    links := AddSiblingLinks(keys, groups, links);
  }
}
