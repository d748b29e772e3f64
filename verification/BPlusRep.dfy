/** How blocks hold a B+ tree, and what the client's lists of fetched nodes mean (bplus_omap). */
module BPlusReps {
  import opened Common
  import opened Geometry
  import opened StashTrees
  import opened BPlusNodes
  import opened BPlusTrees

  type Shelf = map<int, Block<BPlusNode>>

  // ----- Blocks that hold a tree -----

  /** The node is the leaf with these entries. */
  ghost predicate LeafHolds(n: BPlusNode, keys: seq<int>, vals: seq<Bytes>, index: bool) {
    if index then
      && n.IndexLeaf? && n.keys == keys && |n.childIds| == |vals|
      && forall i :: 0 <= i < |vals| ==> FitsInt(n.childIds[i]) && vals[i] == IntBytes(n.childIds[i])
    else n == Leaf(keys, vals)
  }

  ghost predicate ForkHolds(n: BPlusNode, seps: seq<int>, kids: seq<BTree>) {
    && n.Inner? && n.keys == seps && |n.childIds| == |n.childLeaves| == |kids|
    && forall i :: 0 <= i < |kids| ==> n.childIds[i] == kids[i].id
  }

  /** The blocks hold the nodes of the tree. */
  ghost predicate Shape(t: BTree, m: Shelf, index: bool) {
    && t.id in m
    && match t
       case Tip(_, keys, vals) => LeafHolds(m[t.id].value, keys, vals, index)
       case Fork(_, seps, kids) =>
         ForkHolds(m[t.id].value, seps, kids) && forall i :: 0 <= i < |kids| ==> Shape(kids[i], m, index)
  }

  /** Every pointer of these nodes carries the leaf of its child's block. */
  ghost predicate PointersRight(m: Shelf, ids: set<int>) {
    forall p, j :: p in ids && p in m && m[p].value.Inner? && 0 <= j < |m[p].value.childIds| ==>
      PointsRight(m, m[p].value, j)
  }

  ghost predicate PointsRight(m: Shelf, n: BPlusNode, j: nat)
    requires n.Inner? && j < |n.childIds|
  {
    j < |n.childLeaves| && n.childIds[j] in m && n.childLeaves[j] == m[n.childIds[j]].leaf
  }

  /** The same node up to the leaves of its children. */
  ghost predicate SameNode(n: BPlusNode, n': BPlusNode) {
    if n.Inner? then n'.Inner? && n'.keys == n.keys && n'.childIds == n.childIds && |n'.childLeaves| == |n.childLeaves|
    else n' == n
  }

  lemma {:induction false} ShapeFrame(t: BTree, m: Shelf, m': Shelf, index: bool)
    requires Shape(t, m, index) && forall x :: x in Ids(t) && x in m ==> x in m' && SameNode(m[x].value, m'[x].value)
    ensures Shape(t, m', index)
  {
    assert t.id in Ids(t);
    if t.Fork? {
      forall i | 0 <= i < |t.kids| ensures Shape(t.kids[i], m', index) {
        assert forall x :: x in Ids(t.kids[i]) ==> x in Ids(t);
        ShapeFrame(t.kids[i], m, m', index);
      }
    }
  }

  lemma {:induction false} ShapeStored(t: BTree, m: Shelf, index: bool)
    requires Shape(t, m, index)
    ensures Ids(t) <= m.Keys
  {
    if t.Fork? {
      forall i | 0 <= i < |t.kids| ensures Ids(t.kids[i]) <= m.Keys {
        ShapeStored(t.kids[i], m, index);
      }
    }
  }

  // ----- Each node has one parent -----

  /** Children are nodes of the tree, none is the root, and none is a child twice. */
  ghost predicate Treelike(m: Shelf, ids: set<int>, root: int) {
    && ids <= m.Keys
    && (forall p, j :: p in ids && m[p].value.Inner? && 0 <= j < |m[p].value.childIds| ==>
         m[p].value.childIds[j] in ids && m[p].value.childIds[j] != root)
    && (forall p, q, i, j ::
          && p in ids && q in ids && m[p].value.Inner? && m[q].value.Inner?
          && 0 <= i < |m[p].value.childIds| && 0 <= j < |m[q].value.childIds|
          && m[p].value.childIds[i] == m[q].value.childIds[j]
          ==>
          p == q && i == j)
  }

  lemma {:induction false} ChildInside(t: BTree, m: Shelf, index: bool, p: int, j: nat)
    requires Shape(t, m, index) && Apart(t) && p in Ids(t) && p in m && m[p].value.Inner? && j < |m[p].value.childIds|
    ensures m[p].value.childIds[j] in Ids(t) && m[p].value.childIds[j] != t.id
  {
    if t.Fork? {
      if p == t.id {
        assert t.kids[j].id in Ids(t.kids[j]);
      } else {
        var i :| 0 <= i < |t.kids| && p in Ids(t.kids[i]);
        ChildInside(t.kids[i], m, index, p, j);
      }
    }
  }

  lemma {:induction false} OneParent(t: BTree, m: Shelf, index: bool, p: int, i: nat, q: int, j: nat)
    requires Shape(t, m, index) && Apart(t) && p in Ids(t) && q in Ids(t) && p in m && q in m
    requires m[p].value.Inner? && m[q].value.Inner? && i < |m[p].value.childIds| && j < |m[q].value.childIds|
    requires m[p].value.childIds[i] == m[q].value.childIds[j]
    ensures p == q && i == j
  {
    if t.Fork? {
      if p == t.id && q == t.id {
        assert t.kids[i].id in Ids(t.kids[i]) && t.kids[j].id in Ids(t.kids[j]);
      } else if p == t.id {
        NotBelow(t, m, index, i, q, j);
      } else if q == t.id {
        NotBelow(t, m, index, j, p, i);
      } else {
        var a :| 0 <= a < |t.kids| && p in Ids(t.kids[a]);
        var b :| 0 <= b < |t.kids| && q in Ids(t.kids[b]);
        ChildInside(t.kids[a], m, index, p, i);
        ChildInside(t.kids[b], m, index, q, j);
        OneParent(t.kids[a], m, index, p, i, q, j);
      }
    }
  }

  lemma NotBelow(t: BTree, m: Shelf, index: bool, i: nat, q: int, j: nat)
    requires t.Fork? && Shape(t, m, index) && Apart(t) && i < |t.kids|
    requires q in Ids(t) && q != t.id && q in m && m[q].value.Inner? && j < |m[q].value.childIds|
    ensures m[q].value.childIds[j] != t.kids[i].id
  {
    var b :| 0 <= b < |t.kids| && q in Ids(t.kids[b]);
    ChildInside(t.kids[b], m, index, q, j);
    assert t.kids[i].id in Ids(t.kids[i]);
  }

  lemma IsTreelike(t: BTree, m: Shelf, index: bool)
    requires Shape(t, m, index) && Apart(t)
    ensures Treelike(m, Ids(t), t.id)
  {
    hide Shape, Apart, Ids;
    ShapeStored(t, m, index);
    forall p, j | p in Ids(t) && m[p].value.Inner? && 0 <= j < |m[p].value.childIds|
      ensures m[p].value.childIds[j] in Ids(t) && m[p].value.childIds[j] != t.id
    {
      ChildInside(t, m, index, p, j);
    }
    forall p, q, i, j | p in Ids(t) && q in Ids(t) && m[p].value.Inner? && m[q].value.Inner?
        && 0 <= i < |m[p].value.childIds| && 0 <= j < |m[q].value.childIds|
        && m[p].value.childIds[i] == m[q].value.childIds[j]
      ensures p == q && i == j
    {
      OneParent(t, m, index, p, i, q, j);
    }
  }

  // ----- The client's lists -----

  datatype LocalNode = LocalNode(id: int, leaf: nat, node: BPlusNode, parentId: int)

  datatype CachedSibling = CachedSibling(id: int, leaf: nat, node: BPlusNode, parentLocalIdx: nat, childIdx: nat)

  /** The fetched nodes as blocks. */
  function Held(local: seq<LocalNode>, siblings: seq<CachedSibling>): (bs: seq<Block<BPlusNode>>)
    ensures |bs| == |local| + |siblings|
    ensures forall i :: 0 <= i < |local| ==> bs[i] == Block(local[i].id, local[i].leaf, local[i].node)
    ensures forall i :: 0 <= i < |siblings| ==>
              bs[|local| + i] == Block(siblings[i].id, siblings[i].leaf, siblings[i].node)
  {
    seq(|local|, i requires 0 <= i < |local| => Block(local[i].id, local[i].leaf, local[i].node))
    + seq(|siblings|, i requires 0 <= i < |siblings| => Block(siblings[i].id, siblings[i].leaf, siblings[i].node))
  }

  ghost predicate DistinctKeys(bs: seq<Block<BPlusNode>>) {
    forall i, j :: 0 <= i < j < |bs| ==> bs[i].key != bs[j].key
  }

  ghost function ShelfOf(bs: seq<Block<BPlusNode>>): Shelf
    requires DistinctKeys(bs)
  {
    map i | 0 <= i < |bs| :: bs[i].key := bs[i]
  }

  /** The leaves of fetched nodes. */
  ghost function LeavesOf(bs: seq<Block<BPlusNode>>): map<int, nat>
    requires DistinctKeys(bs)
  {
    map i | 0 <= i < |bs| :: bs[i].key := bs[i].leaf
  }

  /** The node after its children in `leaves` have moved there. */
  function Repointed(n: BPlusNode, leaves: map<int, nat>): BPlusNode {
    if n.Inner? && |n.childIds| == |n.childLeaves| then
      n.(childLeaves := seq(|n.childIds|, j requires 0 <= j < |n.childIds| =>
        if n.childIds[j] in leaves then leaves[n.childIds[j]] else n.childLeaves[j]))
    else n
  }

  /** Parents know which of their children have been fetched, and are themselves in the list. */
  ghost predicate Recorded(m: Shelf, ids: set<int>, local: seq<LocalNode>, siblings: seq<CachedSibling>) {
    && (forall p, j, i ::
          && p in ids && p in m && m[p].value.Inner? && 0 <= j < |m[p].value.childIds| && 0 <= i < |local|
          && m[p].value.childIds[j] == local[i].id
          ==>
          local[i].parentId == p && InList(local, p))
    && (forall p, j, i ::
          && p in ids && p in m && m[p].value.Inner? && 0 <= j < |m[p].value.childIds| && 0 <= i < |siblings|
          && m[p].value.childIds[j] == siblings[i].id
          ==>
          siblings[i].parentLocalIdx < |local| && local[siblings[i].parentLocalIdx].id == p)
  }

  ghost predicate InList(local: seq<LocalNode>, id: int) {
    exists i :: 0 <= i < |local| && local[i].id == id
  }

  /** All fetched nodes have new leaves, and their parents know. */
  ghost predicate Reassigned(local: seq<LocalNode>, siblings: seq<CachedSibling>,
                             local': seq<LocalNode>, siblings': seq<CachedSibling>) {
    && |local'| == |local| && |siblings'| == |siblings| && DistinctKeys(Held(local', siblings'))
    && (forall i :: 0 <= i < |local| ==> local'[i].id == local[i].id)
    && (forall i :: 0 <= i < |local| ==> local'[i].node == Repointed(local[i].node, LeavesOf(Held(local', siblings'))))
    && (forall i :: 0 <= i < |siblings| ==> siblings'[i].id == siblings[i].id && siblings'[i].node == siblings[i].node)
  }

  /** The pointers among `ids` are right except to fetched nodes, whose parents are in the list. */
  ghost predicate PointedUpTo(m: Shelf, ids: set<int>, local: seq<LocalNode>, siblings: seq<CachedSibling>) {
    && ids <= m.Keys
    && forall p, j :: p in ids && m[p].value.Inner? && 0 <= j < |m[p].value.childIds| ==>
         && |m[p].value.childLeaves| == |m[p].value.childIds| && m[p].value.childIds[j] in m
         && (InList(local, p) || !Fetched(local, siblings, m[p].value.childIds[j]))
         && (!Fetched(local, siblings, m[p].value.childIds[j]) ==>
              m[p].value.childLeaves[j] == m[m[p].value.childIds[j]].leaf)
  }

  ghost predicate Fetched(local: seq<LocalNode>, siblings: seq<CachedSibling>, id: int) {
    InList(local, id) || exists i :: 0 <= i < |siblings| && siblings[i].id == id
  }

  /** The blocks before and after it. */
  ghost predicate Moved(m: Shelf, m': Shelf, local: seq<LocalNode>, siblings: seq<CachedSibling>, leaves: map<int, nat>) {
    && m'.Keys == m.Keys
    && forall x :: x in m ==>
         && (x in leaves <==> Fetched(local, siblings, x))
         && m'[x].leaf == (if x in leaves then leaves[x] else m[x].leaf)
         && m'[x].value == if InList(local, x) then Repointed(m[x].value, leaves) else m[x].value
  }

  /** Once they have been written back, the blocks hold the tree again, with right pointers. */
  lemma MovedRight(t: BTree, index: bool, m: Shelf, m': Shelf, local: seq<LocalNode>, siblings: seq<CachedSibling>,
                   leaves: map<int, nat>)
    requires Moved(m, m', local, siblings, leaves) && Shape(t, m, index) && PointedUpTo(m, Ids(t), local, siblings)
    ensures Shape(t, m', index) && PointersRight(m', Ids(t))
  {
    hide Shape, Ids, Fetched, InList;
    ShapeFrame(t, m, m', index);
    forall p, j | p in Ids(t) && p in m' && m'[p].value.Inner? && 0 <= j < |m'[p].value.childIds|
      ensures PointsRight(m', m'[p].value, j)
    {
      assert m[p].value.Inner? && m'[p].value.childIds == m[p].value.childIds;
      var x := m[p].value.childIds[j];
      assert x in m;
    }
  }

  /** Where a fetched node is among the blocks, or -1. */
  lemma HeldIndex(local: seq<LocalNode>, siblings: seq<CachedSibling>, x: int) returns (i: int)
    requires DistinctKeys(Held(local, siblings))
    ensures -1 <= i < |local| + |siblings|
    ensures (Fetched(local, siblings, x) <==> i >= 0) && (InList(local, x) <==> 0 <= i < |local|)
    ensures i >= 0 ==> Held(local, siblings)[i].key == x
    ensures i < 0 ==> forall j :: 0 <= j < |local| + |siblings| ==> Held(local, siblings)[j].key != x
  {
    var bs := Held(local, siblings);
    if InList(local, x) {
      i :| 0 <= i < |local| && local[i].id == x;
      assert bs[i].key == x;
    } else if Fetched(local, siblings, x) {
      var j :| 0 <= j < |siblings| && siblings[j].id == x;
      i := |local| + j;
      assert bs[i].key == x;
    } else {
      i := -1;
      forall j | 0 <= j < |bs| ensures bs[j].key != x {
        if j >= |local| { assert bs[j].key == siblings[j - |local|].id; } else { assert bs[j].key == local[j].id; }
      }
    }
  }

  lemma ShelfHas(bs: seq<Block<BPlusNode>>, i: nat)
    requires DistinctKeys(bs) && i < |bs|
    ensures bs[i].key in ShelfOf(bs) && ShelfOf(bs)[bs[i].key] == bs[i]
    ensures bs[i].key in LeavesOf(bs) && LeavesOf(bs)[bs[i].key] == bs[i].leaf
  {
  }

  lemma ShelfLacks(bs: seq<Block<BPlusNode>>, x: int)
    requires DistinctKeys(bs) && forall j :: 0 <= j < |bs| ==> bs[j].key != x
    ensures x !in ShelfOf(bs) && x !in LeavesOf(bs)
  {
  }

  /** The blocks of the same nodes, those in the list repointed. */
  ghost predicate Matched(bs: seq<Block<BPlusNode>>, bs': seq<Block<BPlusNode>>, n: nat, leaves: map<int, nat>) {
    && |bs'| == |bs|
    && forall i :: 0 <= i < |bs| ==>
         && bs'[i].key == bs[i].key
         && bs'[i].value == if i < n then Repointed(bs[i].value, leaves) else bs[i].value
  }

  lemma MatchedBlocks(local: seq<LocalNode>, siblings: seq<CachedSibling>, local': seq<LocalNode>, siblings': seq<CachedSibling>)
    requires Reassigned(local, siblings, local', siblings')
    ensures Matched(Held(local, siblings), Held(local', siblings'), |local|, LeavesOf(Held(local', siblings')))
  {
    hide DistinctKeys, LeavesOf, Repointed;
    var bs, bs' := Held(local, siblings), Held(local', siblings');
    forall i | 0 <= i < |bs|
      ensures bs'[i].key == bs[i].key
      ensures bs'[i].value == if i < |local| then Repointed(bs[i].value, LeavesOf(bs')) else bs[i].value
    {
      if i >= |local| {
        var j := i - |local|;
        assert bs[|local| + j].key == siblings[j].id && bs'[|local| + j].key == siblings'[j].id;
      }
    }
  }

  /** What becomes of the block of `x`, which is the `i`-th fetched node, or not fetched. */
  lemma MovedAt(c: Shelf, bs: seq<Block<BPlusNode>>, bs': seq<Block<BPlusNode>>, n: nat, leaves: map<int, nat>, i: int, x: int)
    requires DistinctKeys(bs) && DistinctKeys(bs') && leaves == LeavesOf(bs') && Matched(bs, bs', n, leaves)
    requires -1 <= i < |bs| && (if i >= 0 then bs[i].key == x && x !in c else forall j :: 0 <= j < |bs| ==> bs[j].key != x)
    ensures var m, m' := c + ShelfOf(bs), c + ShelfOf(bs');
            && (x in m <==> x in m') && (x in leaves <==> i >= 0)
            && (x in m ==> m'[x].leaf == if x in leaves then leaves[x] else m[x].leaf)
            && (x in m ==> m'[x].value == if 0 <= i < n then Repointed(m[x].value, leaves) else m[x].value)
  {
    hide DistinctKeys, ShelfOf, LeavesOf, Repointed;
    if i >= 0 {
      ShelfHas(bs, i);
      ShelfHas(bs', i);
    } else {
      ShelfLacks(bs, x);
      ShelfLacks(bs', x);
    }
  }

  lemma NodeMoves(c: Shelf, local: seq<LocalNode>, siblings: seq<CachedSibling>,
                  local': seq<LocalNode>, siblings': seq<CachedSibling>, x: int)
    requires DistinctKeys(Held(local, siblings)) && Reassigned(local, siblings, local', siblings')
    requires forall i :: 0 <= i < |local| + |siblings| ==> Held(local, siblings)[i].key !in c
    ensures var m, m' := c + ShelfOf(Held(local, siblings)), c + ShelfOf(Held(local', siblings'));
            var leaves := LeavesOf(Held(local', siblings'));
            && (x in m <==> x in m') && (x in leaves <==> Fetched(local, siblings, x))
            && (x in m ==> m'[x].leaf == if x in leaves then leaves[x] else m[x].leaf)
            && (x in m ==> m'[x].value == if InList(local, x) then Repointed(m[x].value, leaves) else m[x].value)
  {
    hide DistinctKeys, ShelfOf, LeavesOf, Fetched, InList, Repointed, Matched;
    MatchedBlocks(local, siblings, local', siblings');
    var i := HeldIndex(local, siblings, x);
    MovedAt(c, Held(local, siblings), Held(local', siblings'), |local|, LeavesOf(Held(local', siblings')), i, x);
  }

  lemma AllMoved(c: Shelf, local: seq<LocalNode>, siblings: seq<CachedSibling>,
                 local': seq<LocalNode>, siblings': seq<CachedSibling>)
    requires DistinctKeys(Held(local, siblings)) && Reassigned(local, siblings, local', siblings')
    requires forall i :: 0 <= i < |local| + |siblings| ==> Held(local, siblings)[i].key !in c
    ensures Moved(c + ShelfOf(Held(local, siblings)), c + ShelfOf(Held(local', siblings')), local, siblings,
                  LeavesOf(Held(local', siblings')))
  {
    hide DistinctKeys, ShelfOf, LeavesOf, Held, Fetched, InList, Repointed;
    var m, m' := c + ShelfOf(Held(local, siblings)), c + ShelfOf(Held(local', siblings'));
    forall x
      ensures (x in m <==> x in m')
      ensures x in m ==>
                var leaves := LeavesOf(Held(local', siblings'));
                && (x in leaves <==> Fetched(local, siblings, x))
                && m'[x].leaf == (if x in leaves then leaves[x] else m[x].leaf)
                && m'[x].value == if InList(local, x) then Repointed(m[x].value, leaves) else m[x].value
    {
      NodeMoves(c, local, siblings, local', siblings', x);
    }
    forall x ensures x in m.Keys <==> x in m'.Keys {
    }
  }

  // ----- A tree with one leaf changed -----

  /** Only the blocks of `ids` differ. */
  ghost predicate SameBut(m: Shelf, m': Shelf, ids: set<int>) {
    forall x :: x in m && x !in ids ==> x in m' && m'[x].value == m[x].value
  }

  lemma ShapeBut(t: BTree, m: Shelf, m': Shelf, ids: set<int>, index: bool)
    requires Shape(t, m, index) && SameBut(m, m', ids) && Ids(t) !! ids
    ensures Shape(t, m', index)
  {
    hide Shape, Ids;
    ShapeFrame(t, m, m', index);
  }

  lemma {:induction false} LeafInside(t: BTree, key: int)
    requires Apart(t)
    ensures LeafFor(t, key).id in Ids(t)
    ensures t.Fork? ==> ParentFor(t, key).id in Ids(t) && (LeafFor(t, key).Tip? ==> LeafFor(t, key).id != ParentFor(t, key).id)
  {
    if t.Fork? && ChildIndex(t.seps, key) < |t.kids| {
      var i := ChildIndex(t.seps, key);
      LeafInside(t.kids[i], key);
    }
  }

  lemma OtherKids(t: BTree, i: nat, j: nat)
    requires t.Fork? && Apart(t) && i < |t.kids| && j < |t.kids| && i != j
    ensures Ids(t.kids[i]) !! Ids(t.kids[j]) && t.id !in Ids(t.kids[j])
  {
    forall x | x in Ids(t.kids[i]) ensures x !in Ids(t.kids[j]) {
    }
  }

  /** Changing the block of the leaf changes the tree there. */
  lemma {:induction false} PutShape(t: BTree, m: Shelf, m': Shelf, index: bool, key: int, v: Bytes)
    requires Shape(t, m, index) && Apart(t) && LeafFor(t, key).Tip? && |LeafFor(t, key).keys| == |LeafFor(t, key).vals|
    requires SameBut(m, m', {LeafFor(t, key).id}) && LeafFor(t, key).id in m'
    requires var leaf := PutTip(LeafFor(t, key), key, v); LeafHolds(m'[leaf.id].value, leaf.keys, leaf.vals, index)
    ensures Shape(Put(t, key, v), m', index)
  {
    if t.Fork? {
      var i := ChildIndex(t.seps, key);
      PutShape(t.kids[i], m, m', index, key, v);
      PutIds(t.kids[i], key, v);
      LeafInside(t.kids[i], key);
      assert t.kids[i].id in Ids(t.kids[i]);
      forall j | 0 <= j < |t.kids| ensures Shape(Put(t, key, v).kids[j], m', index) {
        if j != i {
          OtherKids(t, i, j);
          ShapeBut(t.kids[j], m, m', {LeafFor(t, key).id}, index);
        }
      }
    }
  }

  /** The blocks of the two halves and of their parent make the tree with the leaf split. */
  lemma {:induction false} SplitShape(t: BTree, m: Shelf, m': Shelf, index: bool, key: int, newId: int)
    requires t.Fork? && Shape(t, m, index) && Apart(t) && Splits(t, key) && newId !in Ids(t)
    requires SameBut(m, m', {LeafFor(t, key).id, ParentFor(t, key).id, newId})
    requires LeafFor(t, key).Tip? && |LeafFor(t, key).keys| == |LeafFor(t, key).vals| >= 2
    requires HalvesHeld(LeafFor(t, key), m', index, newId) && ParentHeld(ParentFor(t, key), m', key, newId)
    ensures Shape(SplitBelow(t, key, newId), m', index)
  {
    var i := ChildIndex(t.seps, key);
    assert Splits(t.kids[i], key);
    LeafInside(t, key);
    LeafInside(t.kids[i], key);
    var changed := {LeafFor(t, key).id, ParentFor(t, key).id, newId};
    forall j | 0 <= j < |t.kids| && j != i ensures Shape(t.kids[j], m', index) {
      OtherKids(t, i, j);
      ShapeBut(t.kids[j], m, m', changed, index);
    }
    if t.kids[i].Tip? {
      OpenedShape(t, m', index, key, newId);
    } else {
      SplitShape(t.kids[i], m, m', index, key, newId);
      SplitIds(t.kids[i], key, newId);
      assert t.id !in Ids(t.kids[i]);
    }
  }

  ghost predicate HalvesHeld(leaf: BTree, m: Shelf, index: bool, newId: int)
    requires leaf.Tip? && |leaf.keys| == |leaf.vals|
  {
    Shape(LeftHalf(leaf), m, index) && Shape(RightHalf(leaf, newId), m, index)
  }

  ghost predicate ParentHeld(parent: BTree, m: Shelf, key: int, newId: int)
    requires parent.Fork?
  {
    var i := ChildIndex(parent.seps, key);
    && i < |parent.kids| == |parent.seps| + 1 && parent.kids[i].Tip? && |parent.kids[i].keys| == |parent.kids[i].vals| >= 2
    && parent.id in m && var p := Opened(parent, i, newId); ForkHolds(m[parent.id].value, p.seps, p.kids)
  }

  lemma OpenedShape(t: BTree, m: Shelf, index: bool, key: int, newId: int)
    requires t.Fork? && ParentHeld(t, m, key, newId)
    requires var i := ChildIndex(t.seps, key);
             && HalvesHeld(t.kids[i], m, index, newId)
             && forall j :: 0 <= j < |t.kids| && j != i ==> Shape(t.kids[j], m, index)
    ensures Shape(Opened(t, ChildIndex(t.seps, key), newId), m, index)
  {
  }

  // ----- Going down -----

  /** The fetched nodes are blocks of `m`, and `c` are the others. */
  ghost predicate HeldFrom(m: Shelf, c: Shelf, local: seq<LocalNode>, siblings: seq<CachedSibling>) {
    && (forall i :: 0 <= i < |local| ==> local[i].id in m && m[local[i].id] == Block(local[i].id, local[i].leaf, local[i].node))
    && (forall i :: 0 <= i < |siblings| ==>
          siblings[i].id in m && m[siblings[i].id] == Block(siblings[i].id, siblings[i].leaf, siblings[i].node))
    && (forall i, j :: 0 <= i < j < |local| ==> local[i].id != local[j].id)
    && (forall i, j :: 0 <= i < j < |siblings| ==> siblings[i].id != siblings[j].id)
    && (forall i, j :: 0 <= i < |local| && 0 <= j < |siblings| ==> local[i].id != siblings[j].id)
    && (forall x :: x in c <==> x in m && !Fetched(local, siblings, x))
    && (forall x :: x in c ==> c[x] == m[x])
  }

  lemma HeldDistinct(m: Shelf, c: Shelf, local: seq<LocalNode>, siblings: seq<CachedSibling>)
    requires HeldFrom(m, c, local, siblings)
    ensures DistinctKeys(Held(local, siblings))
    ensures forall i :: 0 <= i < |local| + |siblings| ==> Held(local, siblings)[i].key !in c
    ensures forall i :: 0 <= i < |local| + |siblings| ==>
              var b := Held(local, siblings)[i]; b.key in m && m[b.key] == b
  {
    var bs := Held(local, siblings);
    forall i | 0 <= i < |bs|
      ensures bs[i].key == if i < |local| then local[i].id else siblings[i - |local|].id
      ensures bs[i].key !in c && bs[i].key in m && m[bs[i].key] == bs[i]
    {
      if i >= |local| { assert bs[|local| + (i - |local|)].key == siblings[i - |local|].id; }
    }
  }

  /** Together they are `m`. */
  lemma HeldWhole(m: Shelf, c: Shelf, local: seq<LocalNode>, siblings: seq<CachedSibling>)
    requires HeldFrom(m, c, local, siblings)
    ensures DistinctKeys(Held(local, siblings))
    ensures forall i :: 0 <= i < |local| + |siblings| ==> Held(local, siblings)[i].key !in c
    ensures c + ShelfOf(Held(local, siblings)) == m
  {
    HeldDistinct(m, c, local, siblings);
    hide HeldFrom, Held, ShelfOf, DistinctKeys;
    forall x ensures var w := c + ShelfOf(Held(local, siblings)); (x in w <==> x in m) && (x in m ==> w[x] == m[x]) {
      HeldOne(m, c, local, siblings, x);
    }
    SameShelf(c + ShelfOf(Held(local, siblings)), m);
  }

  lemma SameShelf(a: Shelf, b: Shelf)
    requires forall x :: (x in a <==> x in b) && (x in b ==> a[x] == b[x])
    ensures a == b
  {
    forall x ensures x in a <==> x in b {
    }
    forall x | x in a ensures a[x] == b[x] {
    }
  }

  lemma HeldOne(m: Shelf, c: Shelf, local: seq<LocalNode>, siblings: seq<CachedSibling>, x: int)
    requires HeldFrom(m, c, local, siblings) && DistinctKeys(Held(local, siblings))
    requires forall i :: 0 <= i < |local| + |siblings| ==>
               var b := Held(local, siblings)[i]; b.key in m && m[b.key] == b
    ensures var w := c + ShelfOf(Held(local, siblings)); (x in w <==> x in m) && (x in m ==> w[x] == m[x])
  {
    var bs := Held(local, siblings);
    var i := HeldIndex(local, siblings, x);
    assert x in c <==> x in m && i < 0;
    hide HeldFrom, Fetched, InList, Held, ShelfOf, DistinctKeys;
    if i >= 0 {
      ShelfHas(bs, i);
    } else {
      ShelfLacks(bs, x);
    }
  }

  lemma HeldMore(m: Shelf, c: Shelf, local: seq<LocalNode>, siblings: seq<CachedSibling>, id: int, parent: int)
    requires HeldFrom(m, c, local, siblings) && id in c && Keyed(m)
    ensures HeldFrom(m, c - {id}, local + [LocalNode(id, c[id].leaf, c[id].value, parent)], siblings)
  {
    var n := LocalNode(id, c[id].leaf, c[id].value, parent);
    forall x ensures Fetched(local + [n], siblings, x) <==> Fetched(local, siblings, x) || x == id {
      FetchedMore(local, siblings, n, x);
    }
  }

  lemma HeldSibling(m: Shelf, c: Shelf, local: seq<LocalNode>, siblings: seq<CachedSibling>, id: int, at: nat, child: nat)
    requires HeldFrom(m, c, local, siblings) && id in c && Keyed(m)
    ensures HeldFrom(m, c - {id}, local, siblings + [CachedSibling(id, c[id].leaf, c[id].value, at, child)])
  {
    var n := CachedSibling(id, c[id].leaf, c[id].value, at, child);
    forall x ensures Fetched(local, siblings + [n], x) <==> Fetched(local, siblings, x) || x == id {
      FetchedSibling(local, siblings, n, x);
    }
  }

  /** `x` is a child of the node `p`. */
  ghost predicate ChildOf(m: Shelf, p: int, x: int) {
    p in m && m[p].value.Inner? && x in m[p].value.childIds
  }

  /** The list is a path from the root, and every cached sibling is a child of a node on it. */
  ghost predicate Chain(m: Shelf, root: int, local: seq<LocalNode>, siblings: seq<CachedSibling>) {
    && (|local| > 0 ==> local[0].id == root && local[0].parentId == INVALID_KEY)
    && (forall i :: 0 < i < |local| ==> local[i].parentId == local[i - 1].id && ChildOf(m, local[i - 1].id, local[i].id))
    && (forall i :: 0 <= i < |siblings| ==>
          siblings[i].parentLocalIdx < |local| && ChildOf(m, local[siblings[i].parentLocalIdx].id, siblings[i].id))
  }

  ghost predicate LocalsIn(ids: set<int>, local: seq<LocalNode>) {
    forall i :: 0 <= i < |local| ==> local[i].id in ids
  }

  lemma ChainMore(m: Shelf, root: int, local: seq<LocalNode>, siblings: seq<CachedSibling>, n: LocalNode)
    requires Chain(m, root, local, siblings)
    requires if local == [] then n.id == root && n.parentId == INVALID_KEY
             else n.parentId == local[|local| - 1].id && ChildOf(m, local[|local| - 1].id, n.id)
    ensures Chain(m, root, local + [n], siblings)
  {
    hide ChildOf;
  }

  lemma ChainSibling(m: Shelf, root: int, local: seq<LocalNode>, siblings: seq<CachedSibling>, s: CachedSibling)
    requires Chain(m, root, local, siblings) && s.parentLocalIdx < |local| && ChildOf(m, local[s.parentLocalIdx].id, s.id)
    ensures Chain(m, root, local, siblings + [s])
  {
    hide ChildOf;
  }

  lemma FetchedMore(local: seq<LocalNode>, siblings: seq<CachedSibling>, n: LocalNode, x: int)
    ensures Fetched(local + [n], siblings, x) <==> Fetched(local, siblings, x) || x == n.id
  {
    if InList(local, x) {
      var i :| 0 <= i < |local| && local[i].id == x;
      assert (local + [n])[i].id == x;
    }
    assert (local + [n])[|local|].id == n.id;
  }

  lemma FetchedSibling(local: seq<LocalNode>, siblings: seq<CachedSibling>, s: CachedSibling, x: int)
    ensures Fetched(local, siblings + [s], x) <==> Fetched(local, siblings, x) || x == s.id
  {
    if i :| 0 <= i < |siblings| && siblings[i].id == x {
      assert (siblings + [s])[i].id == x;
    }
    assert (siblings + [s])[|siblings|].id == s.id;
  }

  lemma ChainRecorded(m: Shelf, ids: set<int>, root: int, local: seq<LocalNode>, siblings: seq<CachedSibling>)
    requires Treelike(m, ids, root) && Chain(m, root, local, siblings) && LocalsIn(ids, local)
    ensures Recorded(m, ids, local, siblings)
  {
    forall p, j, i | p in ids && p in m && m[p].value.Inner? && 0 <= j < |m[p].value.childIds| && 0 <= i < |local|
        && m[p].value.childIds[j] == local[i].id
      ensures local[i].parentId == p && InList(local, p)
    {
      var q := local[i - 1].id;
      var k :| 0 <= k < |m[q].value.childIds| && m[q].value.childIds[k] == local[i].id;
      assert p == q;
    }
    forall p, j, i | p in ids && p in m && m[p].value.Inner? && 0 <= j < |m[p].value.childIds| && 0 <= i < |siblings|
        && m[p].value.childIds[j] == siblings[i].id
      ensures siblings[i].parentLocalIdx < |local| && local[siblings[i].parentLocalIdx].id == p
    {
      var q := local[siblings[i].parentLocalIdx].id;
      var k :| 0 <= k < |m[q].value.childIds| && m[q].value.childIds[k] == siblings[i].id;
      assert p == q;
    }
  }

  /** Inner nodes have as many leaves as children, which are all different. */
  ghost predicate Even(m: Shelf, ids: set<int>) {
    forall p :: p in ids && p in m && m[p].value.Inner? ==> EvenNode(m[p].value)
  }

  ghost predicate EvenNode(n: BPlusNode)
    requires n.Inner?
  {
    |n.childLeaves| == |n.childIds| && forall i, j :: 0 <= i < j < |n.childIds| ==> n.childIds[i] != n.childIds[j]
  }

  lemma {:induction false} ShapeEven(t: BTree, m: Shelf, index: bool)
    requires Shape(t, m, index) && Apart(t)
    ensures Even(m, Ids(t))
  {
    if t.Fork? {
      forall i | 0 <= i < |t.kids| ensures Even(m, Ids(t.kids[i])) {
        ShapeEven(t.kids[i], m, index);
      }
      forall i, j | 0 <= i < j < |t.kids| ensures t.kids[i].id != t.kids[j].id {
        assert t.kids[i].id in Ids(t.kids[i]) && t.kids[j].id in Ids(t.kids[j]);
      }
    }
  }

  lemma PointedFetched(m: Shelf, ids: set<int>, local: seq<LocalNode>, siblings: seq<CachedSibling>)
    requires PointersRight(m, ids) && Recorded(m, ids, local, siblings) && Even(m, ids) && ids <= m.Keys
    ensures PointedUpTo(m, ids, local, siblings)
  {
    forall p, j | p in ids && m[p].value.Inner? && 0 <= j < |m[p].value.childIds|
      ensures |m[p].value.childLeaves| == |m[p].value.childIds| && m[p].value.childIds[j] in m
      ensures m[p].value.childLeaves[j] == m[m[p].value.childIds[j]].leaf
      ensures Fetched(local, siblings, m[p].value.childIds[j]) ==> InList(local, p)
    {
      assert PointsRight(m, m[p].value, j);
      var x := m[p].value.childIds[j];
      if InList(local, x) {
        var i :| 0 <= i < |local| && local[i].id == x;
      }
    }
  }

  // ----- New leaves -----

  /** Every fetched node knows its parent in the list. */
  ghost predicate Linked(local: seq<LocalNode>, siblings: seq<CachedSibling>) {
    && (forall i, j :: 0 <= i < j < |local| ==> local[i].id != local[j].id)
    && (forall y :: 0 <= y < |local| ==> local[y].id != INVALID_KEY && (local[y].node.Inner? ==> EvenNode(local[y].node)))
    && (forall y, i :: 0 <= y < |local| && 0 <= i < |local| && local[y].node.Inner? && local[i].id in local[y].node.childIds ==>
          local[i].parentId == local[y].id)
    && (forall y, i ::
          0 <= y < |local| && 0 <= i < |siblings| && local[y].node.Inner? && siblings[i].id in local[y].node.childIds ==>
            siblings[i].parentLocalIdx == y)
    && (forall i :: 0 <= i < |siblings| ==> siblings[i].id != INVALID_KEY)
    && DistinctKeys(Held(local, siblings))
  }

  lemma RecordedLinked(m: Shelf, c: Shelf, ids: set<int>, local: seq<LocalNode>, siblings: seq<CachedSibling>)
    requires HeldFrom(m, c, local, siblings) && Recorded(m, ids, local, siblings) && LocalsIn(ids, local) && Even(m, ids)
    requires forall x :: x in m ==> x != INVALID_KEY
    ensures Linked(local, siblings)
  {
    hide Fetched, InList;
    HeldDistinct(m, c, local, siblings);
    forall y, i | 0 <= y < |local| && 0 <= i < |local| && local[y].node.Inner? && local[i].id in local[y].node.childIds
      ensures local[i].parentId == local[y].id
    {
      var j :| 0 <= j < |local[y].node.childIds| && local[y].node.childIds[j] == local[i].id;
      assert m[local[y].id].value.childIds[j] == local[i].id;
    }
    forall y, i | 0 <= y < |local| && 0 <= i < |siblings| && local[y].node.Inner? && siblings[i].id in local[y].node.childIds
      ensures siblings[i].parentLocalIdx == y
    {
      var j :| 0 <= j < |local[y].node.childIds| && local[y].node.childIds[j] == siblings[i].id;
      assert m[local[y].id].value.childIds[j] == siblings[i].id;
    }
  }

  /** The node with the leaf of child `id` set. */
  function WithLeaf(n: BPlusNode, id: int, leaf: int): BPlusNode {
    if n.Inner? then
      var j := KeyFrom(n.childIds, id, 0);
      if j < |n.childIds| && j < |n.childLeaves| then n.(childLeaves := n.childLeaves[j := leaf]) else n
    else n
  }

  lemma RepointOne(n: BPlusNode, leaves: map<int, nat>, id: int, leaf: nat)
    requires id !in leaves && (n.Inner? ==> EvenNode(n))
    ensures Repointed(n, leaves[id := leaf]) == WithLeaf(Repointed(n, leaves), id, leaf)
    ensures n.Inner? && id !in n.childIds ==> WithLeaf(Repointed(n, leaves), id, leaf) == Repointed(n, leaves)
  {
    if n.Inner? {
      var a, b := Repointed(n, leaves[id := leaf]).childLeaves, WithLeaf(Repointed(n, leaves), id, leaf).childLeaves;
      forall j | 0 <= j < |n.childIds| ensures a[j] == b[j] {
        var k := KeyFrom(n.childIds, id, 0);
        if n.childIds[j] == id { assert j == k; }
      }
      assert a == b;
    }
  }

  lemma RepointNone(n: BPlusNode)
    ensures Repointed(n, map[]) == n
  {
    if n.Inner? && |n.childIds| == |n.childLeaves| {
      assert Repointed(n, map[]).childLeaves == n.childLeaves;
    }
  }

  /** The list with its inner nodes' children in `leaves` moved. */
  ghost predicate AllRepointed(local: seq<LocalNode>, local': seq<LocalNode>, leaves: map<int, nat>) {
    && |local'| == |local|
    && forall y :: 0 <= y < |local| ==> local'[y] == local[y].(node := Repointed(local[y].node, leaves))
  }

  /** The first inner node of the list from `y` on with this id, or the end. */
  function ParentFrom(local: seq<LocalNode>, id: int, y: nat): (r: nat)
    requires y <= |local|
    ensures y <= r <= |local| && (r < |local| ==> local[r].id == id && local[r].node.Inner?)
    ensures forall z :: y <= z < r ==> local[z].id != id || !local[z].node.Inner?
    decreases |local| - y
  {
    if y < |local| && (local[y].id != id || !local[y].node.Inner?) then ParentFrom(local, id, y + 1) else y
  }

  /** Moving one child, known to its parent by the parent's id or position. */
  lemma LinkOne(s: seq<LocalNode>, local: seq<LocalNode>, local': seq<LocalNode>, leaves: map<int, nat>, at: nat, id: int,
                leaf: nat)
    requires AllRepointed(s, local, leaves) && id !in leaves
    requires forall y :: 0 <= y < |s| && s[y].node.Inner? ==> EvenNode(s[y].node)
    requires forall y :: 0 <= y < |s| && s[y].node.Inner? && id in s[y].node.childIds ==> y == at
    requires |local'| == |local| && forall y :: 0 <= y < |local| ==>
               local'[y] == if y == at then local[y].(node := WithLeaf(local[y].node, id, leaf)) else local[y]
    ensures AllRepointed(s, local', leaves[id := leaf])
  {
    hide WithLeaf, Repointed, EvenNode;
    forall y | 0 <= y < |s| ensures local'[y] == s[y].(node := Repointed(s[y].node, leaves[id := leaf])) {
      RepointOne(s[y].node, leaves, id, leaf);
      LeafOnly(s[y].node, leaves, id, leaf);
    }
  }

  lemma LeafOnly(n: BPlusNode, leaves: map<int, nat>, id: int, leaf: nat)
    ensures !n.Inner? ==> WithLeaf(Repointed(n, leaves), id, leaf) == Repointed(n, leaves)
  {
  }

  lemma DistinctPrefix(bs: seq<Block<BPlusNode>>, i: nat)
    requires DistinctKeys(bs) && i <= |bs|
    ensures DistinctKeys(bs[..i])
  {
  }

  lemma ShelfAt(bs: seq<Block<BPlusNode>>, i: nat, x: int)
    requires DistinctKeys(bs) && i < |bs| && DistinctKeys(bs[..i]) && DistinctKeys(bs[..i + 1])
    ensures x in ShelfOf(bs[..i + 1]) <==> x in ShelfOf(bs[..i]) || x == bs[i].key
    ensures x in ShelfOf(bs[..i]) ==> x != bs[i].key && ShelfOf(bs[..i + 1])[x] == ShelfOf(bs[..i])[x]
    ensures x == bs[i].key ==> ShelfOf(bs[..i + 1])[x] == bs[i]
  {
    if j :| 0 <= j <= i && bs[j].key == x {
      assert j < i ==> bs[j].key != bs[i].key;
      hide DistinctKeys;
      ShelfHas(bs[..i + 1], j);
      if j < i {
        ShelfHas(bs[..i], j);
      } else {
        Earlier(bs, i);
        ShelfLacks(bs[..i], x);
      }
    } else {
      hide DistinctKeys;
      ShelfLacks(bs[..i], x);
      ShelfLacks(bs[..i + 1], x);
    }
  }

  lemma Earlier(bs: seq<Block<BPlusNode>>, i: nat)
    requires DistinctKeys(bs) && i < |bs|
    ensures forall j :: 0 <= j < i ==> bs[..i][j].key != bs[i].key
  {
  }

  /** Adding the next block. */
  lemma ShelfStep(c: Shelf, bs: seq<Block<BPlusNode>>, i: nat)
    requires DistinctKeys(bs) && i < |bs| && bs[i].key !in c
    ensures DistinctKeys(bs[..i]) && DistinctKeys(bs[..i + 1])
    ensures bs[i].key !in c + ShelfOf(bs[..i])
    ensures c + ShelfOf(bs[..i + 1]) == (c + ShelfOf(bs[..i]))[bs[i].key := bs[i]]
  {
    hide ShelfOf, DistinctKeys;
    DistinctPrefix(bs, i);
    DistinctPrefix(bs, i + 1);
    ShelfAt(bs, i, bs[i].key);
    var a, b := ShelfOf(bs[..i]), ShelfOf(bs[..i + 1]);
    forall x ensures (x in b <==> x in a || x == bs[i].key) && (x in a ==> x != bs[i].key && b[x] == a[x]) {
      ShelfAt(bs, i, x);
    }
  }

  // ----- Before writing back -----

  /** The fetched nodes and the other blocks, `c`, make up `m`, which holds the tree; pointers to
      fetched nodes are still to be set, in nodes of the list that know of it. */
  ghost predicate Prepared(t: BTree, m: Shelf, c: Shelf, index: bool, local: seq<LocalNode>, siblings: seq<CachedSibling>) {
    && HeldFrom(m, c, local, siblings) && Shape(t, m, index) && Even(m, Ids(t))
    && Recorded(m, Ids(t), local, siblings) && LocalsIn(Ids(t), local) && PointedUpTo(m, Ids(t), local, siblings)
    && INVALID_KEY !in m
  }

  lemma PathPrepared(t: BTree, m: Shelf, c: Shelf, index: bool, local: seq<LocalNode>, siblings: seq<CachedSibling>)
    requires Shape(t, m, index) && Apart(t) && PointersRight(m, Ids(t)) && INVALID_KEY !in m
    requires HeldFrom(m, c, local, siblings) && Chain(m, t.id, local, siblings) && LocalsIn(Ids(t), local)
    ensures Prepared(t, m, c, index, local, siblings)
  {
    hide Shape, Apart, PointersRight, HeldFrom, Chain, LocalsIn, Treelike, Recorded, Even, PointedUpTo;
    IsTreelike(t, m, index);
    ShapeStored(t, m, index);
    ChainRecorded(m, Ids(t), t.id, local, siblings);
    ShapeEven(t, m, index);
    PointedFetched(m, Ids(t), local, siblings);
  }

  /** The list with the contents of node `i` replaced. */
  function WithNode(local: seq<LocalNode>, i: nat, n: BPlusNode): (r: seq<LocalNode>)
    requires i < |local|
  {
    local[i := local[i].(node := n)]
  }

  lemma HeldEdit(m: Shelf, c: Shelf, local: seq<LocalNode>, siblings: seq<CachedSibling>, i: nat, n: BPlusNode)
    requires HeldFrom(m, c, local, siblings) && i < |local|
    ensures var id := local[i].id; HeldFrom(m[id := Block(id, local[i].leaf, n)], c, WithNode(local, i, n), siblings)
    ensures forall x :: InList(WithNode(local, i, n), x) <==> InList(local, x)
    ensures forall x :: Fetched(WithNode(local, i, n), siblings, x) <==> Fetched(local, siblings, x)
  {
    var local' := WithNode(local, i, n);
    forall x ensures InList(local', x) <==> InList(local, x) {
      if j :| 0 <= j < |local| && local[j].id == x { assert local'[j].id == x; }
      if j :| 0 <= j < |local| && local'[j].id == x { assert local[j].id == x; }
    }
  }

  /** Writing other entries into a fetched leaf. */
  lemma LeafEdited(t: BTree, t': BTree, m: Shelf, c: Shelf, index: bool, local: seq<LocalNode>, siblings: seq<CachedSibling>,
                   i: nat, n: BPlusNode)
    requires Prepared(t, m, c, index, local, siblings) && i < |local| && !local[i].node.Inner? && !n.Inner?
    requires Ids(t') == Ids(t) && Shape(t', m[local[i].id := Block(local[i].id, local[i].leaf, n)], index)
    ensures Prepared(t', m[local[i].id := Block(local[i].id, local[i].leaf, n)], c, index, WithNode(local, i, n), siblings)
  {
    hide Shape, Ids, Fetched, InList;
    HeldEdit(m, c, local, siblings, i, n);
    var m', local' := m[local[i].id := Block(local[i].id, local[i].leaf, n)], WithNode(local, i, n);
    hide HeldFrom;
    assert PointedUpTo(m', Ids(t'), local', siblings) by {
      forall p, j | p in Ids(t') && m'[p].value.Inner? && 0 <= j < |m'[p].value.childIds|
        ensures var x := m[p].value.childIds[j]; m'[p] == m[p] && x in m' && m'[x].leaf == m[x].leaf
      {
      }
    }
  }

  // ----- Splitting a fetched leaf -----

  /** A node of the list that is no block yet. */
  lemma HeldNew(m: Shelf, c: Shelf, local: seq<LocalNode>, siblings: seq<CachedSibling>, n: LocalNode)
    requires HeldFrom(m, c, local, siblings) && n.id !in m
    ensures HeldFrom(m[n.id := Block(n.id, n.leaf, n.node)], c, local + [n], siblings)
    ensures forall x :: InList(local + [n], x) <==> InList(local, x) || x == n.id
    ensures forall x :: Fetched(local + [n], siblings, x) <==> Fetched(local, siblings, x) || x == n.id
  {
    forall x ensures Fetched(local + [n], siblings, x) <==> Fetched(local, siblings, x) || x == n.id {
      FetchedMore(local, siblings, n, x);
    }
    forall x ensures InList(local + [n], x) <==> InList(local, x) || x == n.id {
      if i :| 0 <= i < |local| && local[i].id == x { assert (local + [n])[i].id == x; }
      assert (local + [n])[|local|].id == n.id;
    }
    assert forall i :: 0 <= i < |local| ==> local[i].id in m;
    assert forall i :: 0 <= i < |siblings| ==> siblings[i].id in m;
  }

  function LeftNode(n: BPlusNode): BPlusNode
    requires !n.Inner? && Proper(n)
  {
    var mid := |n.keys| / 2;
    if n.Leaf? then Leaf(n.keys[..mid], n.values[..mid]) else IndexLeaf(n.keys[..mid], n.childIds[..mid])
  }

  function RightNode(n: BPlusNode): BPlusNode
    requires !n.Inner? && Proper(n)
  {
    var mid := |n.keys| / 2;
    if n.Leaf? then Leaf(n.keys[mid..], n.values[mid..]) else IndexLeaf(n.keys[mid..], n.childIds[mid..])
  }

  /** The parent with the new node `newId` after its child `i`. */
  function OpenedNode(n: BPlusNode, i: nat, sep: int, newId: int, leaf: int): BPlusNode
    requires n.Inner? && EvenLength(n) && i <= |n.keys| && i < |n.childIds|
  {
    Inner(PutIn(n.keys, i, sep), PutIn(n.childIds, i + 1, newId), PutIn(n.childLeaves, i + 1, leaf))
  }

  predicate EvenLength(n: BPlusNode)
    requires n.Inner?
  {
    |n.childLeaves| == |n.childIds|
  }

  lemma HalvesHold(n: BPlusNode, leaf: BTree, index: bool, newId: int)
    requires leaf.Tip? && |leaf.keys| == |leaf.vals| && Proper(n) && LeafHolds(n, leaf.keys, leaf.vals, index)
    ensures !n.Inner? && LeafHolds(LeftNode(n), LeftHalf(leaf).keys, LeftHalf(leaf).vals, index)
    ensures LeafHolds(RightNode(n), RightHalf(leaf, newId).keys, RightHalf(leaf, newId).vals, index)
  {
  }

  lemma OpenedHolds(n: BPlusNode, t: BTree, i: nat, newId: int, leaf: int)
    requires t.Fork? && ForkHolds(n, t.seps, t.kids) && i < |t.kids| == |t.seps| + 1
    requires t.kids[i].Tip? && |t.kids[i].keys| == |t.kids[i].vals| >= 2
    ensures var p := Opened(t, i, newId);
            ForkHolds(OpenedNode(n, i, RightHalf(t.kids[i], newId).keys[0], newId, leaf), p.seps, p.kids)
  {
    var kids, kids' := t.kids, Opened(t, i, newId).kids;
    forall j | 0 <= j < |kids'| ensures kids'[j].id == if j == i + 1 then newId else kids[if j <= i then j else j - 1].id {
    }
  }

  /** The blocks after a split. */
  function SplitShelf(m: Shelf, x: LocalNode, y: LocalNode, n: LocalNode, i: nat): (m': Shelf)
    requires !x.node.Inner? && Proper(x.node) && y.node.Inner? && EvenLength(y.node) && n.node == RightNode(x.node)
    requires |n.node.keys| > 0 && i <= |y.node.keys| && i < |y.node.childIds|
  {
    m[x.id := Block(x.id, x.leaf, LeftNode(x.node))]
     [y.id := Block(y.id, y.leaf, OpenedNode(y.node, i, n.node.keys[0], n.id, n.leaf))]
     [n.id := Block(n.id, n.leaf, n.node)]
  }

  /** The list after a split. */
  function SplitList(local: seq<LocalNode>, x: nat, y: nat, n: LocalNode, i: nat): seq<LocalNode>
    requires x < |local| && y < |local| && !local[x].node.Inner? && Proper(local[x].node) && |n.node.keys| > 0
    requires local[y].node.Inner? && EvenLength(local[y].node) && i <= |local[y].node.keys| && i < |local[y].node.childIds|
  {
    WithNode(WithNode(local, x, LeftNode(local[x].node)), y, OpenedNode(local[y].node, i, n.node.keys[0], n.id, n.leaf)) + [n]
  }

  lemma SplitHeld(m: Shelf, c: Shelf, local: seq<LocalNode>, siblings: seq<CachedSibling>, x: nat, y: nat, n: LocalNode, i: nat)
    requires HeldFrom(m, c, local, siblings) && n.id !in m
    requires x < |local| && y < |local| && !local[x].node.Inner? && Proper(local[x].node)
    requires local[y].node.Inner? && EvenLength(local[y].node) && i <= |local[y].node.keys| && i < |local[y].node.childIds|
    requires n.node == RightNode(local[x].node) && |n.node.keys| > 0
    ensures HeldFrom(SplitShelf(m, local[x], local[y], n, i), c, SplitList(local, x, y, n, i), siblings)
    ensures forall z :: InList(SplitList(local, x, y, n, i), z) <==> InList(local, z) || z == n.id
    ensures forall z :: Fetched(SplitList(local, x, y, n, i), siblings, z) <==> Fetched(local, siblings, z) || z == n.id
  {
    hide HeldFrom, InList, Fetched, LeftNode, RightNode, OpenedNode;
    var left, wide := LeftNode(local[x].node), OpenedNode(local[y].node, i, n.node.keys[0], n.id, n.leaf);
    HeldEdit(m, c, local, siblings, x, left);
    var m1, s1 := m[local[x].id := Block(local[x].id, local[x].leaf, left)], WithNode(local, x, left);
    assert s1[y].id == local[y].id && s1[y].leaf == local[y].leaf;
    HeldEdit(m1, c, s1, siblings, y, wide);
    var m2, s2 := m1[s1[y].id := Block(s1[y].id, s1[y].leaf, wide)], WithNode(s1, y, wide);
    HeldIds(m, c, local, siblings, x, y);
    HeldNew(m2, c, s2, siblings, n);
  }

  lemma HeldIds(m: Shelf, c: Shelf, local: seq<LocalNode>, siblings: seq<CachedSibling>, x: nat, y: nat)
    requires HeldFrom(m, c, local, siblings) && x < |local| && y < |local|
    ensures local[x].id in m && local[y].id in m
    ensures m[local[x].id] == Block(local[x].id, local[x].leaf, local[x].node)
    ensures m[local[y].id] == Block(local[y].id, local[y].leaf, local[y].node)
  {
  }

  /** What the split does to any node and its children. */
  lemma SplitNode(m: Shelf, ids: set<int>, local: seq<LocalNode>, siblings: seq<CachedSibling>, x: nat, y: nat, n: LocalNode,
                  i: nat, p: int, j: nat)
    requires x < |local| && y < |local| && !local[x].node.Inner? && Proper(local[x].node)
    requires local[y].node.Inner? && EvenLength(local[y].node) && i <= |local[y].node.keys| && i < |local[y].node.childIds|
    requires n.node == RightNode(local[x].node) && |n.node.keys| > 0 && n.id !in m
    requires local[x].id in m && local[y].id in m && ids <= m.Keys
    requires m[local[x].id] == Block(local[x].id, local[x].leaf, local[x].node)
    requires m[local[y].id] == Block(local[y].id, local[y].leaf, local[y].node)
    requires PointedUpTo(m, ids, local, siblings)
    requires var m' := SplitShelf(m, local[x], local[y], n, i);
             p in ids + {n.id} && m'[p].value.Inner? && j < |m'[p].value.childIds|
    ensures var m' := SplitShelf(m, local[x], local[y], n, i);
            && p in ids && m[p].value.Inner? && |m'[p].value.childLeaves| == |m'[p].value.childIds|
            && if p == local[y].id && j == i + 1 then m'[p].value.childIds[j] == n.id
               else
                 var k := if p == local[y].id && j > i + 1 then j - 1 else j;
                 && k < |m[p].value.childIds| && m'[p].value.childIds[j] == m[p].value.childIds[k]
                 && m'[p].value.childLeaves[j] == m[p].value.childLeaves[k]
                 && m[p].value.childIds[k] in m && m[p].value.childIds[k] != n.id
                 && m'[m[p].value.childIds[k]].leaf == m[m[p].value.childIds[k]].leaf
  {
    hide InList, Fetched;
    var m' := SplitShelf(m, local[x], local[y], n, i);
    if p != local[y].id {
      assert m'[p] == m[p];
      var child := m[p].value.childIds[j];
    } else {
      var child := m[p].value.childIds[if j > i + 1 then j - 1 else if j == i + 1 then i else j];
    }
  }

  lemma SplitListAt(local: seq<LocalNode>, x: nat, y: nat, n: LocalNode, i: nat)
    requires x < |local| && y < |local| && !local[x].node.Inner? && Proper(local[x].node) && |n.node.keys| > 0
    requires local[y].node.Inner? && EvenLength(local[y].node) && i <= |local[y].node.keys| && i < |local[y].node.childIds|
    ensures var s' := SplitList(local, x, y, n, i);
            && |s'| == |local| + 1 && s'[|local|] == n
            && forall k :: 0 <= k < |local| ==> s'[k].id == local[k].id && s'[k].parentId == local[k].parentId
  {
  }

  lemma SplitKeys(m: Shelf, x: LocalNode, y: LocalNode, n: LocalNode, i: nat)
    requires !x.node.Inner? && Proper(x.node) && y.node.Inner? && EvenLength(y.node) && n.node == RightNode(x.node)
    requires |n.node.keys| > 0 && i <= |y.node.keys| && i < |y.node.childIds| && x.id in m && y.id in m
    ensures SplitShelf(m, x, y, n, i).Keys == m.Keys + {n.id}
  {
    hide LeftNode, RightNode, OpenedNode, Proper;
    forall z ensures z in SplitShelf(m, x, y, n, i).Keys <==> z in m.Keys + {n.id} {
    }
  }

  /** What is needed of a split. */
  ghost predicate SplitFits(m: Shelf, ids: set<int>, c: Shelf, local: seq<LocalNode>, siblings: seq<CachedSibling>,
                            x: nat, y: nat, n: LocalNode, i: nat) {
    && x < |local| && y < |local| && !local[x].node.Inner? && Proper(local[x].node)
    && local[y].node.Inner? && EvenLength(local[y].node) && i <= |local[y].node.keys| && i < |local[y].node.childIds|
    && n.node == RightNode(local[x].node) && |n.node.keys| > 0 && n.parentId == local[y].id && n.id !in m
    && HeldFrom(m, c, local, siblings) && PointedUpTo(m, ids, local, siblings) && LocalsIn(ids, local)
  }

  lemma SplitRecorded(m: Shelf, ids: set<int>, c: Shelf, local: seq<LocalNode>, siblings: seq<CachedSibling>,
                      x: nat, y: nat, n: LocalNode, i: nat)
    requires SplitFits(m, ids, c, local, siblings, x, y, n, i) && Recorded(m, ids, local, siblings)
    ensures Recorded(SplitShelf(m, local[x], local[y], n, i), ids + {n.id}, SplitList(local, x, y, n, i), siblings)
  {
    var m', s' := SplitShelf(m, local[x], local[y], n, i), SplitList(local, x, y, n, i);
    SplitHeld(m, c, local, siblings, x, y, n, i);
    HeldIds(m, c, local, siblings, x, y);
    SplitListAt(local, x, y, n, i);
    HeldInside(m, c, local, siblings);
    hide HeldFrom, InList, Fetched, SplitList, SplitShelf, LeftNode, RightNode, OpenedNode, Proper;
    forall p, j, k | p in ids + {n.id} && p in m' && m'[p].value.Inner? && 0 <= j < |m'[p].value.childIds| && 0 <= k < |s'|
        && m'[p].value.childIds[j] == s'[k].id
      ensures s'[k].parentId == p && InList(s', p)
    {
      SplitNode(m, ids, local, siblings, x, y, n, i, p, j);
    }
    forall p, j, k | p in ids + {n.id} && p in m' && m'[p].value.Inner? && 0 <= j < |m'[p].value.childIds| && 0 <= k < |siblings|
        && m'[p].value.childIds[j] == siblings[k].id
      ensures siblings[k].parentLocalIdx < |s'| && s'[siblings[k].parentLocalIdx].id == p
    {
      SplitNode(m, ids, local, siblings, x, y, n, i, p, j);
    }
  }

  lemma HeldInside(m: Shelf, c: Shelf, local: seq<LocalNode>, siblings: seq<CachedSibling>)
    requires HeldFrom(m, c, local, siblings)
    ensures forall k :: 0 <= k < |local| ==> local[k].id in m
    ensures forall k :: 0 <= k < |siblings| ==> siblings[k].id in m
  {
  }

  lemma SplitPointed(m: Shelf, ids: set<int>, c: Shelf, local: seq<LocalNode>, siblings: seq<CachedSibling>,
                     x: nat, y: nat, n: LocalNode, i: nat)
    requires SplitFits(m, ids, c, local, siblings, x, y, n, i)
    ensures PointedUpTo(SplitShelf(m, local[x], local[y], n, i), ids + {n.id}, SplitList(local, x, y, n, i), siblings)
  {
    var m', s' := SplitShelf(m, local[x], local[y], n, i), SplitList(local, x, y, n, i);
    SplitHeld(m, c, local, siblings, x, y, n, i);
    HeldIds(m, c, local, siblings, x, y);
    SplitKeys(m, local[x], local[y], n, i);
    assert InList(local, local[y].id);
    forall z | z in ids + {n.id} ensures z in m'.Keys {
    }
    assert ids + {n.id} <= m'.Keys;
    hide HeldFrom, InList, Fetched, SplitList, SplitShelf, LeftNode, RightNode, OpenedNode, Proper;
    forall p, j | p in ids + {n.id} && m'[p].value.Inner? && 0 <= j < |m'[p].value.childIds|
      ensures |m'[p].value.childLeaves| == |m'[p].value.childIds| && m'[p].value.childIds[j] in m'
      ensures InList(s', p) || !Fetched(s', siblings, m'[p].value.childIds[j])
      ensures !Fetched(s', siblings, m'[p].value.childIds[j]) ==>
                m'[p].value.childLeaves[j] == m'[m'[p].value.childIds[j]].leaf
    {
      SplitNode(m, ids, local, siblings, x, y, n, i, p, j);
    }
  }

  lemma SplitPrepared(t: BTree, m: Shelf, c: Shelf, index: bool, local: seq<LocalNode>, siblings: seq<CachedSibling>,
                      x: nat, y: nat, n: LocalNode, i: nat, t': BTree)
    requires Prepared(t, m, c, index, local, siblings) && n.id != INVALID_KEY
    requires SplitFits(m, Ids(t), c, local, siblings, x, y, n, i)
    requires Ids(t') == Ids(t) + {n.id} && Apart(t') && Shape(t', SplitShelf(m, local[x], local[y], n, i), index)
    ensures Prepared(t', SplitShelf(m, local[x], local[y], n, i), c, index, SplitList(local, x, y, n, i), siblings)
  {
    hide Shape, Apart, Ids, InList, Fetched, SplitList, LeftNode, RightNode, OpenedNode, Even, Proper, HeldFrom, PointedUpTo,
         Recorded;
    SplitHeld(m, c, local, siblings, x, y, n, i);
    ShapeEven(t', SplitShelf(m, local[x], local[y], n, i), index);
    SplitRecorded(m, Ids(t), c, local, siblings, x, y, n, i);
    SplitPointed(m, Ids(t), c, local, siblings, x, y, n, i);
    SplitListAt(local, x, y, n, i);
    HeldIds(m, c, local, siblings, x, y);
  }

  lemma {:induction false} LeafShape(t: BTree, m: Shelf, index: bool, key: int)
    requires Shape(t, m, index)
    ensures Shape(LeafFor(t, key), m, index)
    ensures t.Fork? ==> Shape(ParentFor(t, key), m, index)
  {
    if t.Fork? && ChildIndex(t.seps, key) < |t.kids| {
      LeafShape(t.kids[ChildIndex(t.seps, key)], m, index, key);
    }
  }

  /** The fetched leaf of `key` knows its parent, which is in the list. */
  lemma ParentThere(t: BTree, m: Shelf, c: Shelf, index: bool, local: seq<LocalNode>, siblings: seq<CachedSibling>,
                    x: nat, key: int) returns (y: nat)
    requires Prepared(t, m, c, index, local, siblings) && t.Fork? && Splits(t, key) && Apart(t)
    requires x < |local| && local[x].id == LeafFor(t, key).id
    ensures y < |local| && y != x && local[y].id == ParentFor(t, key).id == local[x].parentId
    ensures ForkHolds(local[y].node, ParentFor(t, key).seps, ParentFor(t, key).kids)
    ensures y == ParentFrom(local, local[x].parentId, 0)
  {
    var parent, i := ParentFor(t, key), ChildIndex(ParentFor(t, key).seps, key);
    SplitsLeaf(t, key);
    LeafInside(t, key);
    LeafShape(t, m, index, key);
    hide Splits, Apart, Ids, Even, PointedUpTo, LocalsIn;
    assert m[parent.id].value.childIds[i] == local[x].id;
    y :| 0 <= y < |local| && local[y].id == parent.id;
    hide HeldFrom;
    HeldIds(m, c, local, siblings, x, y);
    OneOfList(m, c, local, siblings, y);
  }

  lemma OneOfList(m: Shelf, c: Shelf, local: seq<LocalNode>, siblings: seq<CachedSibling>, y: nat)
    requires HeldFrom(m, c, local, siblings) && y < |local| && local[y].node.Inner?
    ensures ParentFrom(local, local[y].id, 0) == y
  {
  }

  /** The parent's position of the leaf, found by the last key of its left half. */
  lemma SplitIndex(t: BTree, m: Shelf, index: bool, x: LocalNode, y: LocalNode, key: int)
    requires t.Fork? && Splits(t, key) && Sorted(t, None, None) && Shape(t, m, index)
    requires x.id == LeafFor(t, key).id && x.id in m && m[x.id].value == x.node && Proper(x.node)
    requires y.id == ParentFor(t, key).id && ForkHolds(y.node, ParentFor(t, key).seps, ParentFor(t, key).kids)
    ensures !x.node.Inner? && |LeftNode(x.node).keys| > 0 && |RightNode(x.node).keys| > 0 && EvenLength(y.node)
    ensures var k := LeftNode(x.node).keys; ChildIndex(y.node.keys, k[|k| - 1]) == ChildIndex(y.node.keys, key)
    ensures var i := ChildIndex(y.node.keys, key); i <= |y.node.keys| && i < |y.node.childIds|
  {
    SplitsLeaf(t, key);
    LeafShape(t, m, index, key);
    var leaf := LeafFor(t, key);
    SameChild(t, None, None, key, |leaf.keys| / 2 - 1);
    hide Sorted, Ids, LeafFor, ParentFor, Splits, ChildIndex;
    assert LeftNode(x.node).keys == leaf.keys[..|leaf.keys| / 2];
  }

  /** The blocks of the two halves and their parent hold the tree with the leaf split. */
  lemma SplitHolds(t: BTree, m: Shelf, index: bool, x: LocalNode, y: LocalNode, n: LocalNode, key: int)
    requires t.Fork? && Splits(t, key) && Apart(t) && Shape(t, m, index) && n.id !in Ids(t)
    requires x.id == LeafFor(t, key).id && x.id in m && m[x.id].value == x.node && Proper(x.node)
    requires y.id == ParentFor(t, key).id && ForkHolds(y.node, ParentFor(t, key).seps, ParentFor(t, key).kids)
    requires !x.node.Inner? && n.node == RightNode(x.node) && |n.node.keys| > 0 && EvenLength(y.node)
    requires var i := ChildIndex(y.node.keys, key); i <= |y.node.keys| && i < |y.node.childIds|
    ensures Shape(SplitBelow(t, key, n.id), SplitShelf(m, x, y, n, ChildIndex(y.node.keys, key)), index)
  {
    SplitsLeaf(t, key);
    LeafShape(t, m, index, key);
    LeafInside(t, key);
    var leaf, parent := LeafFor(t, key), ParentFor(t, key);
    var i := ChildIndex(parent.seps, key);
    hide Apart, Ids, LeafFor, ParentFor, Splits, ChildIndex, PutIn;
    HalvesHold(x.node, leaf, index, n.id);
    OpenedHolds(y.node, parent, i, n.id, n.leaf);
    var m' := SplitShelf(m, x, y, n, i);
    hide LeftNode, RightNode, OpenedNode, Opened, LeafHolds, ForkHolds;
    assert HalvesHeld(leaf, m', index, n.id);
    assert ParentHeld(parent, m', key, n.id);
    assert SameBut(m, m', {leaf.id, parent.id, n.id});
    SplitShape(t, m, m', index, key, n.id);
  }

  /** The split of the leaf at position `x`, seen from its parent at position `y`. */
  lemma SplitReady(t: BTree, m: Shelf, c: Shelf, index: bool, local: seq<LocalNode>, siblings: seq<CachedSibling>,
                   x: nat, y: nat, key: int)
    requires Prepared(t, m, c, index, local, siblings) && t.Fork? && Splits(t, key) && Sorted(t, None, None)
    requires x < |local| && local[x].id == LeafFor(t, key).id && Proper(local[x].node)
    requires y < |local| && local[y].id == ParentFor(t, key).id
    requires ForkHolds(local[y].node, ParentFor(t, key).seps, ParentFor(t, key).kids)
    ensures !local[x].node.Inner? && |LeftNode(local[x].node).keys| > 0 && |RightNode(local[x].node).keys| > 0
    ensures local[y].node.Inner? && EvenLength(local[y].node)
    ensures var k := LeftNode(local[x].node).keys;
            ChildIndex(local[y].node.keys, k[|k| - 1]) == ChildIndex(local[y].node.keys, key)
    ensures var i := ChildIndex(local[y].node.keys, key); i <= |local[y].node.keys| && i < |local[y].node.childIds|
  {
    hide Even, Recorded, LocalsIn, PointedUpTo, Sorted, Splits, LeftNode, RightNode, Proper, Shape, LeafFor, ParentFor;
    HeldIds(m, c, local, siblings, x, y);
    SplitIndex(t, m, index, local[x], local[y], key);
  }

  lemma FitsHere(t: BTree, m: Shelf, c: Shelf, index: bool, local: seq<LocalNode>, siblings: seq<CachedSibling>,
                 x: nat, y: nat, n: LocalNode, i: nat)
    requires Prepared(t, m, c, index, local, siblings) && n.id !in m
    requires x < |local| && y < |local| && !local[x].node.Inner? && Proper(local[x].node) && n.parentId == local[y].id
    requires local[y].node.Inner? && EvenLength(local[y].node) && i <= |local[y].node.keys| && i < |local[y].node.childIds|
    requires n.node == RightNode(local[x].node) && |n.node.keys| > 0
    ensures SplitFits(m, Ids(t), c, local, siblings, x, y, n, i) && local[x].id in m && local[y].id in m
    ensures m[local[x].id].value == local[x].node && Ids(t) <= m.Keys && Shape(t, m, index)
  {
    hide RightNode, Proper, Shape, Ids, Even, Recorded;
    HeldIds(m, c, local, siblings, x, y);
  }

  lemma SplitDone(t: BTree, m: Shelf, c: Shelf, index: bool, local: seq<LocalNode>, siblings: seq<CachedSibling>,
                  x: nat, y: nat, n: LocalNode, key: int)
    requires Prepared(t, m, c, index, local, siblings) && t.Fork? && Splits(t, key) && Apart(t) && n.id !in m
    requires n.id != INVALID_KEY
    requires x < |local| && local[x].id == LeafFor(t, key).id && Proper(local[x].node) && !local[x].node.Inner?
    requires y < |local| && local[y].id == ParentFor(t, key).id == n.parentId
    requires ForkHolds(local[y].node, ParentFor(t, key).seps, ParentFor(t, key).kids) && EvenLength(local[y].node)
    requires n.node == RightNode(local[x].node) && |n.node.keys| > 0
    requires var i := ChildIndex(local[y].node.keys, key); i <= |local[y].node.keys| && i < |local[y].node.childIds|
    ensures var i := ChildIndex(local[y].node.keys, key);
            && Prepared(SplitBelow(t, key, n.id), SplitShelf(m, local[x], local[y], n, i), c, index,
                        SplitList(local, x, y, n, i), siblings)
            && SplitShelf(m, local[x], local[y], n, i).Keys == m.Keys + {n.id}
            && forall z :: InList(local, z) ==> InList(SplitList(local, x, y, n, i), z)
  {
    var i := ChildIndex(local[y].node.keys, key);
    hide Prepared, Splits, LeftNode, RightNode, Proper, ForkHolds, Shape, LeafFor, ParentFor, InList, Fetched, Ids, Apart,
         SplitBelow,
         SplitList, OpenedNode, ChildIndex, SplitShelf;
    FitsHere(t, m, c, index, local, siblings, x, y, n, i);
    SplitHolds(t, m, index, local[x], local[y], n, key);
    SplitIds(t, key, n.id);
    SplitPrepared(t, m, c, index, local, siblings, x, y, n, i, SplitBelow(t, key, n.id));
    hide SplitFits;
    SplitKeys(m, local[x], local[y], n, i);
    SplitListed(t, m, c, index, local, siblings, x, y, n, i);
  }

  lemma SplitListed(t: BTree, m: Shelf, c: Shelf, index: bool, local: seq<LocalNode>, siblings: seq<CachedSibling>,
                    x: nat, y: nat, n: LocalNode, i: nat)
    requires SplitFits(m, Ids(t), c, local, siblings, x, y, n, i)
    ensures forall z :: InList(local, z) ==> InList(SplitList(local, x, y, n, i), z)
  {
    SplitHeld(m, c, local, siblings, x, y, n, i);
  }
}