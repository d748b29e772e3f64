/** Bulk loading of the B+ tree (bplus_omap `build_tree`): rows of nodes, from the leaves up. */
module BPlusBuilds {
  import opened Common
  import opened StashTrees
  import opened AvlHeights
  import opened AvlInit
  import opened BPlusNodes
  import opened BPlusTrees
  import opened BPlusReps

  type NodeMap = map<int, BPlusNode>

  /** A value as the map keeps it: in index mode, only the word at its start. */
  function Kept(index: bool, v: Bytes): Bytes {
    if index then IntBytes(BytesToInt(v)) else v
  }

  function KeptAll(index: bool, s: Entries<Bytes>): (r: Entries<Bytes>)
    ensures |r| == |s| && forall i :: 0 <= i < |s| ==> r[i] == (s[i].0, Kept(index, s[i].1))
  {
    seq(|s|, i requires 0 <= i < |s| => (s[i].0, Kept(index, s[i].1)))
  }

  /** The nodes as blocks, with no leaves chosen yet. */
  ghost function Shelved(nodes: NodeMap): (m: Shelf) {
    map k | k in nodes :: Block(k, 0, nodes[k])
  }

  /** The bound above the nodes before position `i`. */
  function FirstKey(s: seq<(int, int)>, i: nat, hi: Option<int>): Option<int>
    requires i <= |s|
  {
    if i < |s| then Some(s[i].0) else hi
  }

  /** The trees of a row, which cover one range of keys after the other. */
  ghost predicate Covers(row: seq<BTree>, level: seq<(int, int)>, hi: Option<int>) {
    && |row| == |level|
    && (forall i :: 0 <= i < |row| ==> row[i].id == level[i].1 && Sorted(row[i], Some(level[i].0), FirstKey(level, i + 1, hi)))
    && (forall i, j :: 0 <= i < j < |level| ==> level[i].0 < level[j].0)
    && forall i :: 0 <= i < |level| && hi.Some? ==> level[i].0 < hi.value
  }

  /** They are in `nodes`, all leaves on level `h`. */
  ghost predicate Stands(row: seq<BTree>, nodes: NodeMap, h: nat, index: bool, most: nat) {
    forall i :: 0 <= i < |row| ==> Shape(row[i], Shelved(nodes), index) && Level(row[i], h) && Roomy(row[i], most)
  }

  lemma ShelvedMore(t: BTree, nodes: NodeMap, index: bool, id: int, n: BPlusNode)
    requires Shape(t, Shelved(nodes), index) && id !in nodes
    ensures Shape(t, Shelved(nodes[id := n]), index)
  {
    ShapeStored(t, Shelved(nodes), index);
    hide Shape, Ids;
    ShapeFrame(t, Shelved(nodes), Shelved(nodes[id := n]), index);
  }

  lemma StandsMore(row: seq<BTree>, nodes: NodeMap, h: nat, index: bool, most: nat, id: int, n: BPlusNode)
    requires Stands(row, nodes, h, index, most) && id !in nodes
    ensures Stands(row, nodes[id := n], h, index, most)
  {
    forall i | 0 <= i < |row| ensures Shape(row[i], Shelved(nodes[id := n]), index) {
      ShelvedMore(row[i], nodes, index, id, n);
    }
  }

  // ----- Ids of a row -----

  lemma IdsOfAppend(a: seq<BTree>, b: seq<BTree>)
    ensures IdsOf(a + b) == IdsOf(a) + IdsOf(b)
  {
    var ts := a + b;
    forall x ensures x in IdsOf(ts) <==> x in IdsOf(a) || x in IdsOf(b) {
      if x in IdsOf(ts) {
        var i :| 0 <= i < |ts| && x in Ids(ts[i]);
        assert i >= |a| ==> ts[i] == b[i - |a|];
      }
      if x in IdsOf(a) {
        var i :| 0 <= i < |a| && x in Ids(a[i]);
        assert ts[i] == a[i];
      }
      if x in IdsOf(b) {
        var i :| 0 <= i < |b| && x in Ids(b[i]);
        assert ts[|a| + i] == b[i];
      }
    }
  }

  lemma ApartAppend(a: seq<BTree>, b: seq<BTree>)
    ensures AllApart(a + b) <==> AllApart(a) && AllApart(b) && IdsOf(a) !! IdsOf(b)
  {
    var ts := a + b;
    assert forall i :: 0 <= i < |a| ==> ts[i] == a[i];
    assert forall i :: 0 <= i < |b| ==> ts[|a| + i] == b[i];
    if AllApart(ts) {
      forall i, j, x | 0 <= i < j < |b| && x in Ids(b[i]) ensures x !in Ids(b[j]) {
        assert x in Ids(ts[|a| + i]);
      }
      forall x | x in IdsOf(a) ensures x !in IdsOf(b) {
        var i :| 0 <= i < |a| && x in Ids(a[i]);
        assert x in Ids(ts[i]);
      }
    }
    if AllApart(a) && AllApart(b) && IdsOf(a) !! IdsOf(b) {
      forall i, j, x | 0 <= i < j < |ts| && x in Ids(ts[i]) ensures x !in Ids(ts[j]) {
        if i >= |a| {
          assert ts[i] == b[i - |a|] && ts[j] == b[j - |a|];
        } else if j >= |a| {
          assert x in IdsOf(a) && ts[j] == b[j - |a|];
        }
      }
    }
  }

  lemma OneApart(t: BTree)
    requires Apart(t)
    ensures AllApart([t]) && IdsOf([t]) == Ids(t)
  {
    forall x ensures x in IdsOf([t]) <==> x in Ids(t) {
      assert [t][0] == t;
    }
  }

  /** Putting a part of a row under a new node. */
  lemma GroupApart(a: seq<BTree>, group: seq<BTree>, c: seq<BTree>, id: int, seps: seq<int>)
    requires AllApart(a + (group + c)) && id !in IdsOf(a + (group + c))
    ensures AllApart(a + [Fork(id, seps, group)] + c)
    ensures IdsOf(a + [Fork(id, seps, group)] + c) == IdsOf(a + (group + c)) + {id}
  {
    var t := Fork(id, seps, group);
    hide AllApart, IdsOf;
    ApartAppend(a, group + c);
    ApartAppend(group, c);
    IdsOfAppend(a, group + c);
    IdsOfAppend(group, c);
    GroupTree(group, id, seps);
    OneApart(t);
    ApartAppend(a, [t]);
    IdsOfAppend(a, [t]);
    ApartAppend(a + [t], c);
    IdsOfAppend(a + [t], c);
  }

  lemma GroupTree(group: seq<BTree>, id: int, seps: seq<int>)
    requires AllApart(group) && id !in IdsOf(group)
    ensures Apart(Fork(id, seps, group)) && Ids(Fork(id, seps, group)) == IdsOf(group) + {id}
  {
  }

  // ----- Leaves -----

  function KeysOf(s: Entries<Bytes>): (r: seq<int>)
    ensures |r| == |s| && forall i :: 0 <= i < |s| ==> r[i] == s[i].0
  {
    seq(|s|, i requires 0 <= i < |s| => s[i].0)
  }

  function ValuesOf(s: Entries<Bytes>): (r: seq<Bytes>)
    ensures |r| == |s| && forall i :: 0 <= i < |s| ==> r[i] == s[i].1
  {
    seq(|s|, i requires 0 <= i < |s| => s[i].1)
  }

  /** The leaf with these entries. */
  function LeafWith(id: int, s: Entries<Bytes>): BTree {
    Tip(id, KeysOf(s), ValuesOf(s))
  }

  method MakeLeaf(s: Entries<Bytes>, index: bool) returns (n: BPlusNode)
    ensures n.keys == KeysOf(s) && !n.Inner? && LeafHolds(n, KeysOf(s), ValuesOf(KeptAll(index, s)), index)
  {
    hide BytesToInt, IntBytes;
    var keys, values, ids := [], [], [];
    for j := 0 to |s|
      invariant keys == KeysOf(s)[..j] && (if index then |ids| == j else values == ValuesOf(s)[..j])
      invariant index ==> forall i :: 0 <= i < j ==> ids[i] == BytesToInt(s[i].1)
    {
      keys := keys + [s[j].0];
      if index {
        ids := ids + [BytesToInt(s[j].1)];
      } else {
        values := values + [s[j].1];
      }
    }
    n := if index then IndexLeaf(keys, ids) else Leaf(keys, values);
    assert !index ==> ValuesOf(KeptAll(index, s)) == ValuesOf(s);
  }

  lemma LeafCovers(s: Entries<Bytes>, i: nat, end: nat, id: int, index: bool)
    requires Ascending(s) && i < end <= |s|
    ensures var t := LeafWith(id, KeptAll(index, s[i..end]));
            && Sorted(t, Some(s[i].0), if end < |s| then Some(s[end].0) else None)
            && EntriesOf(t) == KeptAll(index, s)[i..end]
  {
    var t := LeafWith(id, KeptAll(index, s[i..end]));
    assert forall j :: 0 <= j < end - i ==> t.keys[j] == s[i + j].0;
    assert EntriesOf(t) == KeptAll(index, s)[i..end];
  }

  function FromKey(s: Entries<Bytes>, i: nat): Option<int> {
    if i < |s| then Some(s[i].0) else None
  }

  lemma CoversMore(row: seq<BTree>, level: seq<(int, int)>, t: BTree, first: int, hi: Option<int>)
    requires Covers(row, level, Some(first)) && Sorted(t, Some(first), hi) && (hi.Some? ==> first < hi.value)
    ensures Covers(row + [t], level + [(first, t.id)], hi)
  {
    var row', level' := row + [t], level + [(first, t.id)];
    hide Sorted;
    forall i | 0 <= i < |row'|
      ensures row'[i].id == level'[i].1 && Sorted(row'[i], Some(level'[i].0), FirstKey(level', i + 1, hi))
    {
      if i < |row| { assert FirstKey(level', i + 1, hi) == FirstKey(level, i + 1, Some(first)); }
    }
  }

  lemma StandsNew(row: seq<BTree>, t: BTree, nodes: NodeMap, h: nat, index: bool, most: nat)
    requires Stands(row, nodes, h, index, most) && Shape(t, Shelved(nodes), index) && Level(t, h) && Roomy(t, most)
    ensures Stands(row + [t], nodes, h, index, most)
  {
  }

  lemma NewApart(row: seq<BTree>, t: BTree)
    requires AllApart(row) && Apart(t) && IdsOf(row) !! Ids(t)
    ensures AllApart(row + [t]) && IdsOf(row + [t]) == IdsOf(row) + Ids(t)
  {
    OneApart(t);
    ApartAppend(row, [t]);
    IdsOfAppend(row, [t]);
  }

  lemma JoinedMore(row: seq<BTree>, t: BTree)
    ensures Joined(row + [t]) == Joined(row) + EntriesOf(t)
  {
    assert (row + [t])[..|row|] == row;
  }

  /** A row of trees over some entries. */
  ghost predicate RowOver(row: seq<BTree>, level: seq<(int, int)>, hi: Option<int>, nodes: NodeMap, next: int, h: nat,
                          index: bool,
                          most: nat, entries: Entries<Bytes>) {
    && Covers(row, level, hi) && Stands(row, nodes, h, index, most) && AllApart(row) && IdsOf(row) == nodes.Keys
    && (forall x :: x in nodes ==> 0 <= x < next) && next >= 0 && Joined(row) == entries
  }

  lemma LeafStands(nodes: NodeMap, id: int, n: BPlusNode, index: bool, most: nat, s: Entries<Bytes>)
    requires |s| <= most && !n.Inner? && LeafHolds(n, KeysOf(s), ValuesOf(KeptAll(index, s)), index)
    ensures var t := LeafWith(id, KeptAll(index, s));
            Shape(t, Shelved(nodes[id := n]), index) && Level(t, 1) && Roomy(t, most) && Apart(t) && Ids(t) == {id} && t.id == id
  {
    hide LeafHolds;
    assert KeysOf(KeptAll(index, s)) == KeysOf(s);
  }

  /** One more tree. */
  lemma RowMore(row: seq<BTree>, level: seq<(int, int)>, nodes: NodeMap, next: int, h: nat, index: bool, most: nat,
                entries: Entries<Bytes>, t: BTree, first: int, hi: Option<int>, n: BPlusNode)
    requires RowOver(row, level, Some(first), nodes, next, h, index, most, entries)
    requires Sorted(t, Some(first), hi) && (hi.Some? ==> first < hi.value)
    requires Shape(t, Shelved(nodes[next := n]), index) && Level(t, h) && Roomy(t, most) && Apart(t) && Ids(t) == {next}
    requires t.id == next
    ensures RowOver(row + [t], level + [(first, next)], hi, nodes[next := n], next + 1, h, index, most, entries + EntriesOf(t))
  {
    hide Covers, Stands, AllApart, Apart, IdsOf, Ids, Joined, Shape, Shelved, Sorted, Level, Roomy, EntriesOf;
    StandsMore(row, nodes, h, index, most, next, n);
    StandsNew(row, t, nodes[next := n], h, index, most);
    CoversMore(row, level, t, first, hi);
    NewApart(row, t);
    JoinedMore(row, t);
  }

  /** One more leaf. */
  lemma LeafMore(row: seq<BTree>, level: seq<(int, int)>, nodes: NodeMap, next: int, index: bool, most: nat, s: Entries<Bytes>,
                 i: nat, end: nat, n: BPlusNode)
    requires Ascending(s) && i < end <= |s| && end - i <= most
    requires RowOver(row, level, FromKey(s, i), nodes, next, 1, index, most, KeptAll(index, s)[..i])
    requires !n.Inner? && LeafHolds(n, KeysOf(s[i..end]), ValuesOf(KeptAll(index, s[i..end])), index)
    ensures var t := LeafWith(next, KeptAll(index, s[i..end]));
            RowOver(row + [t], level + [(s[i].0, next)], FromKey(s, end), nodes[next := n], next + 1, 1, index, most,
                    KeptAll(index, s)[..end])
  {
    hide RowOver, LeafHolds, LeafWith, Sorted, KeptAll, KeysOf, ValuesOf, EntriesOf, Shape, Level, Roomy, Apart, Ids, Ascending;
    var t := LeafWith(next, KeptAll(index, s[i..end]));
    LeafCovers(s, i, end, next, index);
    LeafStands(nodes, next, n, index, most, s[i..end]);
    AscendingStep(s, i, end);
    SliceJoin(KeptAll(index, s), i, end);
    RowMore(row, level, nodes, next, 1, index, most, KeptAll(index, s)[..i], t, s[i].0, FromKey(s, end), n);
  }

  lemma AscendingStep(s: Entries<Bytes>, i: nat, end: nat)
    requires Ascending(s) && i < end <= |s|
    ensures end < |s| ==> s[i].0 < s[end].0
  {
  }

  lemma SliceJoin<T>(s: seq<T>, i: nat, end: nat)
    requires i <= end <= |s|
    ensures s[..end] == s[..i] + s[i..end]
  {
  }

  /** A row of leaves over the sorted entries, each full except possibly the last. */
  method BuildLeaves(sorted: Entries<Bytes>, index: bool, most: nat)
    returns (nodes: NodeMap, level: seq<(int, int)>, next: int, ghost row: seq<BTree>)
    requires Ascending(sorted) && sorted != [] && most > 0
    ensures RowOver(row, level, None, nodes, next, 1, index, most, KeptAll(index, sorted))
    ensures |level| > 0 && (|level| - 1) * most < |sorted| <= |level| * most
  {
    hide RowOver, Ascending, KeptAll, LeafHolds;
    nodes, level, next, row := map[], [], 0, [];
    var i := 0;
    EmptyRow(sorted, index, most);
    while i < |sorted|
      invariant i <= |sorted| && RowOver(row, level, FromKey(sorted, i), nodes, next, 1, index, most, KeptAll(index, sorted)[..i])
      invariant i == 0 ==> level == []
      invariant i > 0 ==> (|level| - 1) * most < i <= |level| * most
      invariant i < |sorted| ==> i == |level| * most
    {
      var end := if i + most < |sorted| then i + most else |sorted|;
      var n := MakeLeaf(sorted[i..end], index);
      LeafMore(row, level, nodes, next, index, most, sorted, i, end, n);
      row := row + [LeafWith(next, KeptAll(index, sorted[i..end]))];
      assert (|level| + 1) * most == |level| * most + most;
      nodes, level, next := nodes[next := n], level + [(sorted[i].0, next)], next + 1;
      i := end;
    }
    assert KeptAll(index, sorted)[..|sorted|] == KeptAll(index, sorted);
  }

  lemma EmptyRow(s: Entries<Bytes>, index: bool, most: nat)
    ensures RowOver([], [], FromKey(s, 0), map[], 0, 1, index, most, KeptAll(index, s)[..0])
  {
  }

  // ----- Inner nodes -----

  function FirstsOf(level: seq<(int, int)>): (r: seq<int>)
    ensures |r| == |level| && forall i :: 0 <= i < |level| ==> r[i] == level[i].0
  {
    seq(|level|, i requires 0 <= i < |level| => level[i].0)
  }

  /** The node above positions `i` to `end` of a row. */
  ghost predicate NodeAbove(n: BPlusNode, level: seq<(int, int)>, i: nat, end: nat) {
    && i < end <= |level| && n.Inner? && n.keys == FirstsOf(level[i + 1..end]) && |n.childIds| == |n.childLeaves| == end - i
    && forall j :: 0 <= j < end - i ==> n.childIds[j] == level[i + j].1
  }

  method MakeInner(level: seq<(int, int)>, i: nat, end: nat) returns (n: BPlusNode)
    requires i < end <= |level|
    ensures NodeAbove(n, level, i, end)
  {
    var keys, ids, leaves := [], [], [];
    for j := i to end
      invariant |ids| == |leaves| == j - i && forall k :: 0 <= k < j - i ==> ids[k] == level[i + k].1
      invariant |keys| == (if j > i then j - i - 1 else 0) && forall k :: 0 <= k < |keys| ==> keys[k] == level[i + 1 + k].0
    {
      ids, leaves := ids + [level[j].1], leaves + [INVALID_LEAF];
      if j > i { keys := keys + [level[j].0]; }
    }
    assert keys == FirstsOf(level[i + 1..end]);
    n := Inner(keys, ids, leaves);
  }

  /** The bounds of the children of such a node. */
  lemma GroupBounds(level: seq<(int, int)>, i: nat, end: nat, j: nat)
    requires i < end <= |level| && j < end - i
    ensures var (seps, lo, hi) := (FirstsOf(level[i + 1..end]), Some(level[i].0), FirstKey(level, end, None));
            Low(seps, lo, j) == Some(level[i + j].0) && High(seps, hi, j) == FirstKey(level, i + j + 1, None)
  {
  }

  lemma GroupSeps(level: seq<(int, int)>, i: nat, end: nat)
    requires i < end <= |level| && forall k, l :: 0 <= k < l < |level| ==> level[k].0 < level[l].0
    ensures var seps := FirstsOf(level[i + 1..end]);
            && Increasing(seps)
            && forall j :: 0 <= j < |seps| ==> Within(Some(level[i].0), seps[j], FirstKey(level, end, None))
  {
    var seps := FirstsOf(level[i + 1..end]);
    forall j | 0 <= j < |seps| ensures seps[j] == level[i + 1 + j].0 {
    }
  }

  lemma GroupCovers(row: seq<BTree>, level: seq<(int, int)>, i: nat, end: nat, id: int)
    requires Covers(row, level, None) && i < end <= |row|
    ensures Sorted(Fork(id, FirstsOf(level[i + 1..end]), row[i..end]), Some(level[i].0), FirstKey(level, end, None))
  {
    var t, lo, hi := Fork(id, FirstsOf(level[i + 1..end]), row[i..end]), Some(level[i].0), FirstKey(level, end, None);
    GroupSeps(level, i, end);
    hide Sorted, FirstsOf, Increasing, Within, Low, High;
    forall j | 0 <= j < |t.kids| ensures Sorted(t.kids[j], Low(t.seps, lo, j), High(t.seps, hi, j)) {
      assert t.kids[j] == row[i + j];
      GroupBounds(level, i, end, j);
    }
    ForkSorted(t, lo, hi);
  }

  lemma GroupStands(row: seq<BTree>, level: seq<(int, int)>, nodes: NodeMap, h: nat, index: bool, most: nat, i: nat, end: nat,
                    id: int, n: BPlusNode)
    requires Stands(row, nodes, h, index, most) && Covers(row, level, None) && i < end <= |row| && id !in nodes && h > 0
    requires NodeAbove(n, level, i, end)
    ensures var t := Fork(id, FirstsOf(level[i + 1..end]), row[i..end]);
            Shape(t, Shelved(nodes[id := n]), index) && Level(t, h + 1) && Roomy(t, most)
    ensures Stands(row, nodes[id := n], h, index, most)
  {
    hide Sorted;
    StandsMore(row, nodes, h, index, most, id, n);
    var t := Fork(id, FirstsOf(level[i + 1..end]), row[i..end]);
    forall j | 0 <= j < |t.kids| ensures t.kids[j] == row[i + j] {
    }
  }

  /** The row above covers the keys up to position `i`. */
  ghost predicate TwoRows(row: seq<BTree>, level: seq<(int, int)>, i: nat, row': seq<BTree>, level': seq<(int, int)>,
                          nodes: NodeMap, h: nat, index: bool, most: nat) {
    && i <= |row| == |level| && Covers(row, level, None) && Covers(row', level', FirstKey(level, i, None))
    && Stands(row, nodes, h, index, most) && Stands(row', nodes, h + 1, index, most)
  }

  /** All trees, without those that have a new parent. */
  ghost predicate Everything(all: seq<BTree>, nodes: NodeMap, next: int, entries: Entries<Bytes>) {
    && AllApart(all) && IdsOf(all) == nodes.Keys && Joined(all) == entries
    && next >= 0 && forall x :: x in nodes ==> 0 <= x < next
  }

  /** The row above is finished up to position `i`. */
  ghost predicate Regrouped(row: seq<BTree>, level: seq<(int, int)>, i: nat, row': seq<BTree>, level': seq<(int, int)>,
                            nodes: NodeMap, next: int, h: nat, index: bool, most: nat, entries: Entries<Bytes>) {
    TwoRows(row, level, i, row', level', nodes, h, index, most) && Everything(row' + row[i..], nodes, next, entries)
  }

  lemma GroupMore(row: seq<BTree>, level: seq<(int, int)>, i: nat, end: nat, row': seq<BTree>, level': seq<(int, int)>,
                  nodes: NodeMap, next: int, h: nat, index: bool, most: nat, entries: Entries<Bytes>, n: BPlusNode)
    requires Regrouped(row, level, i, row', level', nodes, next, h, index, most, entries) && h > 0
    requires NodeAbove(n, level, i, end) && i < end <= |row|
    ensures var t := Fork(next, FirstsOf(level[i + 1..end]), row[i..end]);
            Regrouped(row, level, end, row' + [t], level' + [(level[i].0, next)], nodes[next := n], next + 1, h, index, most,
                      entries)
  {
    assert end <= |level|;
    hide TwoRows, Everything, NodeAbove, FirstsOf;
    NextUnused(row' + row[i..], nodes, next, entries);
    GroupUp(row, level, i, end, row', level', nodes, next, h, index, most, n);
    GroupBeside(row, i, end, row', nodes, next, entries, FirstsOf(level[i + 1..end]), n);
  }

  lemma NextUnused(all: seq<BTree>, nodes: NodeMap, next: int, entries: Entries<Bytes>)
    requires Everything(all, nodes, next, entries)
    ensures next !in nodes
  {
  }

  /** The new node over its range of keys, and the other trees. */
  lemma GroupUp(row: seq<BTree>, level: seq<(int, int)>, i: nat, end: nat, row': seq<BTree>, level': seq<(int, int)>,
                nodes: NodeMap, next: int, h: nat, index: bool, most: nat, n: BPlusNode)
    requires TwoRows(row, level, i, row', level', nodes, h, index, most) && i < end <= |row| && h > 0 && next !in nodes
    requires NodeAbove(n, level, i, end)
    ensures var t := Fork(next, FirstsOf(level[i + 1..end]), row[i..end]);
            TwoRows(row, level, end, row' + [t], level' + [(level[i].0, next)], nodes[next := n], h, index, most)
  {
    var t := Fork(next, FirstsOf(level[i + 1..end]), row[i..end]);
    FirstsRise(row, level, i, end);
    hide Covers, Stands, Shape, Shelved, Sorted, Level, Roomy, FirstsOf;
    GroupStands(row, level, nodes, h, index, most, i, end, next, n);
    GroupCovers(row, level, i, end, next);
    StandsMore(row', nodes, h + 1, index, most, next, n);
    StandsNew(row', t, nodes[next := n], h + 1, index, most);
    CoversMore(row', level', t, level[i].0, FirstKey(level, end, None));
    CoversSize(row' + [t], level' + [(level[i].0, next)], FirstKey(level, end, None));
  }

  lemma CoversSize(row: seq<BTree>, level: seq<(int, int)>, hi: Option<int>)
    requires Covers(row, level, hi)
    ensures |row| == |level|
  {
  }

  lemma GroupJoined(a: seq<BTree>, group: seq<BTree>, c: seq<BTree>, id: int, seps: seq<int>)
    ensures Joined(a + [Fork(id, seps, group)] + c) == Joined(a + (group + c))
  {
    var t := Fork(id, seps, group);
    assert EntriesOf(t) == Joined(group);
    hide Joined, EntriesOf;
    JoinedAppend(a, group + c);
    JoinedAppend(group, c);
    JoinedMore(a, t);
    JoinedAppend(a + [t], c);
  }

  /** The new node among the others. */
  lemma GroupBeside(row: seq<BTree>, i: nat, end: nat, row': seq<BTree>, nodes: NodeMap, id: int, entries: Entries<Bytes>,
                    seps: seq<int>, n: BPlusNode)
    requires i < end <= |row| && Everything(row' + row[i..], nodes, id, entries)
    ensures var t := Fork(id, seps, row[i..end]); Everything(row' + [t] + row[end..], nodes[id := n], id + 1, entries)
  {
    hide AllApart, IdsOf, Joined;
    assert row[i..] == row[i..end] + row[end..];
    GroupApart(row', row[i..end], row[end..], id, seps);
    GroupJoined(row', row[i..end], row[end..], id, seps);
    KeysMore(nodes, id, n);
  }

  lemma KeysMore(nodes: NodeMap, id: int, n: BPlusNode)
    ensures nodes[id := n].Keys == nodes.Keys + {id}
  {
  }

  lemma FirstsRise(row: seq<BTree>, level: seq<(int, int)>, i: nat, end: nat)
    requires Covers(row, level, None) && i < end <= |row|
    ensures |level| == |row| && (end < |level| ==> level[i].0 < level[end].0) && FirstKey(level, i, None) == Some(level[i].0)
  {
  }

  lemma RegroupStarts(row: seq<BTree>, level: seq<(int, int)>, nodes: NodeMap, next: int, h: nat, index: bool, most: nat,
                      entries: Entries<Bytes>)
    requires RowOver(row, level, None, nodes, next, h, index, most, entries)
    ensures Regrouped(row, level, 0, [], [], nodes, next, h, index, most, entries) && |row| == |level|
  {
    assert [] + row[0..] == row;
  }

  lemma RegroupEnds(row: seq<BTree>, level: seq<(int, int)>, row': seq<BTree>, level': seq<(int, int)>, nodes: NodeMap, next: int,
                    h: nat, index: bool, most: nat, entries: Entries<Bytes>)
    requires Regrouped(row, level, |row|, row', level', nodes, next, h, index, most, entries)
    ensures RowOver(row', level', None, nodes, next, h + 1, index, most, entries)
  {
    assert row' + row[|row|..] == row';
  }

  /** The row above, each node with as many children as the order allows, except possibly the last. */
  method BuildRow(below: NodeMap, level: seq<(int, int)>, start: int, order: nat, ghost row: seq<BTree>, ghost h: nat,
                  index: bool,
      most: nat, ghost entries: Entries<Bytes>)
    returns (nodes: NodeMap, level': seq<(int, int)>, next: int, ghost row': seq<BTree>)
    requires RowOver(row, level, None, below, start, h, index, most, entries) && order >= 2 && h > 0 && |level| > 0
    ensures RowOver(row', level', None, nodes, next, h + 1, index, most, entries)
    ensures |level'| > 0 && (|level'| - 1) * order < |level| <= |level'| * order
  {
    hide RowOver, Regrouped, FirstsOf;
    nodes, level', next, row' := below, [], start, [];
    RegroupStarts(row, level, nodes, next, h, index, most, entries);
    var i := 0;
    while i < |level|
      invariant i <= |level| == |row| && Regrouped(row, level, i, row', level', nodes, next, h, index, most, entries)
      invariant i == 0 ==> level' == []
      invariant i > 0 ==> (|level'| - 1) * order < i <= |level'| * order
      invariant i < |level| ==> i == |level'| * order
    {
      var end := if i + order < |level| then i + order else |level|;
      var n := MakeInner(level, i, end);
      GroupMore(row, level, i, end, row', level', nodes, next, h, index, most, entries, n);
      row' := row' + [Fork(next, FirstsOf(level[i + 1..end]), row[i..end])];
      assert (|level'| + 1) * order == |level'| * order + order;
      nodes, level', next := nodes[next := n], level' + [(level[i].0, next)], next + 1;
      i := end;
    }
    RegroupEnds(row, level, row', level', nodes, next, h, index, most, entries);
  }

  // ----- The tree -----

  /** Rows until one has a single node. The tree has the least height that has room for so many
      entries. */
  method BuildTree(sorted: Entries<Bytes>, order: nat, index: bool, most: nat)
    returns (nodes: NodeMap, root: int, next: int, ghost t: BTree, ghost h: nat)
    requires Ascending(sorted) && sorted != [] && order >= 2 && most > 0
    ensures Loaded(t, h, nodes, next, index, most, KeptAll(index, sorted)) && root == t.id
    ensures h > 0 && |sorted| <= most * Power(order, h - 1)
    ensures h > 1 ==> most * Power(order, h - 2) < |sorted|
  {
    hide RowOver, Ascending, KeptAll, Power, Loaded;
    var level;
    ghost var row;
    nodes, level, next, row := BuildLeaves(sorted, index, most);
    h := 1;
    PowerOne(order, most);
    while |level| > 1
      invariant RowOver(row, level, None, nodes, next, h, index, most, KeptAll(index, sorted)) && |level| > 0 && h > 0
      invariant (|level| - 1) * (most * Power(order, h - 1)) < |sorted| <= |level| * (most * Power(order, h - 1))
      invariant h > 1 ==> most * Power(order, h - 2) < |sorted|
      decreases |level|
    {
      ghost var was := |level|;
      nodes, level, next, row := BuildRow(nodes, level, next, order, row, h, index, most, KeptAll(index, sorted));
      RowShrinks(was, |level|, order, most * Power(order, h - 1), |sorted|);
      PowerStep(order, most, h);
      h := h + 1;
    }
    OnlyTree(row, level, nodes, next, h, index, most, KeptAll(index, sorted));
    t, root := row[0], level[0].1;
  }

  lemma PowerOne(order: nat, most: nat)
    ensures most * Power(order, 0) == most
  {
  }

  lemma PowerStep(order: nat, most: nat, h: nat)
    requires h > 0
    ensures most * Power(order, h) == order * (most * Power(order, h - 1))
  {
    Regroup(order, most, Power(order, h - 1));
    Regroup(most, order, Power(order, h - 1));
  }

  lemma FewerNodes(n: nat, n': nat, order: nat)
    requires n > 1 && n' > 0 && order >= 2 && (n' - 1) * order < n
    ensures n' < n
  {
    Product(2, order, n' - 1, n' - 1);
    assert (n' - 1) * 2 <= (n' - 1) * order;
  }

  lemma RowShrinks(n: nat, n': nat, order: nat, w: nat, size: nat)
    requires n > 1 && n' > 0 && order >= 2 && (n' - 1) * order < n <= n' * order
    requires (n - 1) * w < size <= n * w
    ensures n' < n && (n' - 1) * (order * w) < size <= n' * (order * w) && w < size
  {
    FewerNodes(n, n', order);
    var (a, b) := ((n' - 1) * order, n' * order);
    Product(a, n - 1, w, w);
    Product(n, b, w, w);
    Product(1, n - 1, w, w);
    Regroup(n' - 1, order, w);
    Regroup(n', order, w);
  }

  /** A tree over all entries. */
  ghost predicate Loaded(t: BTree, h: nat, nodes: NodeMap, next: int, index: bool, most: nat, entries: Entries<Bytes>) {
    && Sorted(t, None, None) && Level(t, h) && Roomy(t, most) && Apart(t) && Shape(t, Shelved(nodes), index)
    && Ids(t) == nodes.Keys && (forall x :: x in nodes ==> 0 <= x < next) && next >= 0 && EntriesOf(t) == entries
  }

  lemma OnlyTree(row: seq<BTree>, level: seq<(int, int)>, nodes: NodeMap, next: int, h: nat, index: bool, most: nat,
                 entries: Entries<Bytes>)
    requires RowOver(row, level, None, nodes, next, h, index, most, entries) && |level| == 1
    ensures |row| == 1 && row[0].id == level[0].1 && Loaded(row[0], h, nodes, next, index, most, entries)
  {
    assert row == [row[0]];
    assert Joined(row[..0]) == [];
    hide Sorted, Shape, Level, Roomy;
    OneTree(row[0]);
    SortedWider(row[0], Some(level[0].0), None);
  }

  lemma OneTree(t: BTree)
    requires AllApart([t])
    ensures Apart(t) && IdsOf([t]) == Ids(t)
  {
    assert [t][0] == t;
    OneApart(t);
  }

  lemma {:induction false} SortedWider(t: BTree, lo: Option<int>, hi: Option<int>)
    requires Sorted(t, lo, hi)
    ensures Sorted(t, None, hi)
  {
    if t.Fork? {
      SortedWider(t.kids[0], lo, High(t.seps, hi, 0));
      forall i | 0 <= i < |t.kids| ensures Sorted(t.kids[i], Low(t.seps, None, i), High(t.seps, hi, i)) {
        assert i > 0 ==> Low(t.seps, None, i) == Low(t.seps, lo, i);
      }
    }
  }

  // ----- Leaves for the nodes -----

  /** Every pointer gets the leaf of its child. */
  function PointedAll(nodes: NodeMap, leaves: map<int, nat>): (r: NodeMap)
    ensures r.Keys == nodes.Keys && forall k :: k in nodes ==> r[k] == Repointed(nodes[k], leaves)
  {
    map k | k in nodes :: Repointed(nodes[k], leaves)
  }

  /** The blocks then hold the tree, with right pointers. */
  lemma LoadedRight(t: BTree, h: nat, nodes: NodeMap, next: int, index: bool, most: nat, entries: Entries<Bytes>,
                    leaves: map<int, nat>, m: Shelf)
    requires Loaded(t, h, nodes, next, index, most, entries) && leaves.Keys == nodes.Keys == m.Keys
    requires forall k :: k in nodes ==> m[k] == Block(k, leaves[k], PointedAll(nodes, leaves)[k])
    ensures Shape(t, m, index) && PointersRight(m, Ids(t))
  {
    hide Sorted, Level, Roomy, Shape, Apart, PointedAll;
    ShapeFrame(t, Shelved(nodes), m, index);
    ShapeEven(t, Shelved(nodes), index);
    IsTreelike(t, Shelved(nodes), index);
    forall p, j | p in Ids(t) && p in m && m[p].value.Inner? && 0 <= j < |m[p].value.childIds|
      ensures PointsRight(m, m[p].value, j)
    {
      assert Shelved(nodes)[p].value == nodes[p];
      assert nodes[p].childIds[j] in Ids(t);
    }
  }
}
