/** The B+ tree map over a Path ORAM (bplus_omap), without split trees. */
module BPlusOmaps {
  import opened Common
  import opened Geometry
  import opened StashTrees
  import opened AvlHeights
  import opened AvlInit
  import PathOrams
  import opened BPlusNodes
  import opened BPlusTrees
  import opened BPlusReps
  import opened BPlusBuilds

  /** The blocks hold the tree, all leaves on level `h`, and every pointer is right. */
  ghost predicate TreeOk(t: BTree, h: nat, m: Shelf, index: bool, most: nat) {
    TreeForm(t, h, most) && Shape(t, m, index) && PointersRight(m, Ids(t))
  }

  /** A search tree with all leaves on level `h`, none of them too full, and each id used once. */
  ghost predicate TreeForm(t: BTree, h: nat, most: nat) {
    Sorted(t, None, None) && Level(t, h) && Roomy(t, most) && Apart(t)
  }

  /** The subtree below the path, on the way to `key`. */
  ghost predicate Below(t: BTree, cur: BTree, h: nat, m: Shelf, index: bool, key: int) {
    && Shape(cur, m, index) && Apart(cur) && Level(cur, h) && Formed(cur) && Ids(cur) <= Ids(t)
    && LeafFor(cur, key) == LeafFor(t, key)
    && (cur.Fork? ==> t.Fork? && ParentFor(cur, key) == ParentFor(t, key))
  }

  /** The path goes on to it. */
  ghost predicate LeadsTo(t: BTree, cur: BTree, m: Shelf, local: seq<LocalNode>, key: int) {
    if local == [] then cur == t
    else
      && ChildOf(m, local[|local| - 1].id, cur.id) && t.Fork?
      && (cur.Tip? ==> local[|local| - 1].id == ParentFor(t, key).id)
  }

  ghost predicate Unfetched(ids: set<int>, local: seq<LocalNode>, siblings: seq<CachedSibling>) {
    forall x :: x in ids ==> !Fetched(local, siblings, x)
  }

  /** What has been fetched when the path has come to `cur`. */
  ghost predicate DownTo(t: BTree, cur: BTree, m: Shelf, c: Shelf, local: seq<LocalNode>, siblings: seq<CachedSibling>,
                         key: int) {
    && HeldFrom(m, c, local, siblings) && Chain(m, t.id, local, siblings) && LocalsIn(Ids(t), local)
    && Unfetched(Ids(cur), local, siblings) && LeadsTo(t, cur, m, local, key)
  }

  lemma PathStarts(t: BTree, h: nat, m: Shelf, index: bool, most: nat, key: int)
    requires TreeOk(t, h, m, index, most)
    ensures h > 0 && Below(t, t, h, m, index, key) && DownTo(t, t, m, m, [], [], key)
  {
    SortedFormed(t, None, None);
  }

  /** The path and all that has been fetched. */
  ghost predicate Taken(t: BTree, m: Shelf, c: Shelf, local: seq<LocalNode>, siblings: seq<CachedSibling>) {
    HeldFrom(m, c, local, siblings) && Chain(m, t.id, local, siblings) && LocalsIn(Ids(t), local)
  }

  /** After fetching the root of `cur`. */
  lemma PathMore(t: BTree, cur: BTree, h: nat, m: Shelf, c: Shelf, index: bool, local: seq<LocalNode>,
                 siblings: seq<CachedSibling>, key: int, parent: int)
    requires Below(t, cur, h, m, index, key) && DownTo(t, cur, m, c, local, siblings, key) && Keyed(m)
    requires parent == if local == [] then INVALID_KEY else local[|local| - 1].id
    ensures cur.id in c && cur.id in m && c[cur.id] == m[cur.id]
    ensures var local' := local + [LocalNode(cur.id, c[cur.id].leaf, c[cur.id].value, parent)];
            && Taken(t, m, c - {cur.id}, local', siblings)
            && forall x :: x in Ids(cur) && x != cur.id ==> !Fetched(local', siblings, x)
  {
    RootFree(cur, m, c, local, siblings, index);
    hide HeldFrom, Chain, Level, Formed, LeafFor, ParentFor, Apart, ChildOf, Shape;
    HeldMore(m, c, local, siblings, cur.id, parent);
    var n := LocalNode(cur.id, c[cur.id].leaf, c[cur.id].value, parent);
    ChainMore(m, t.id, local, siblings, n);
    forall x | x in Ids(cur) && x != cur.id ensures !Fetched(local + [n], siblings, x) {
      FetchedMore(local, siblings, n, x);
    }
  }

  lemma RootFree(cur: BTree, m: Shelf, c: Shelf, local: seq<LocalNode>, siblings: seq<CachedSibling>, index: bool)
    requires HeldFrom(m, c, local, siblings) && Unfetched(Ids(cur), local, siblings) && Shape(cur, m, index)
    ensures cur.id in Ids(cur) && cur.id in c && cur.id in m && c[cur.id] == m[cur.id]
  {
    assert cur.id in Ids(cur);
  }

  /** After fetching child `i` as the sibling of the one on the path. */
  lemma PathSibling(t: BTree, cur: BTree, m: Shelf, c: Shelf, index: bool, local: seq<LocalNode>,
                    siblings: seq<CachedSibling>, i: nat)
    requires Taken(t, m, c, local, siblings) && Keyed(m) && Shape(cur, m, index) && Apart(cur) && cur.Fork? && i < |cur.kids|
    requires forall x :: x in Ids(cur) && x != cur.id ==> !Fetched(local, siblings, x)
    requires |local| > 0 && local[|local| - 1].id == cur.id
    ensures var id := cur.kids[i].id;
            id == m[cur.id].value.childIds[i] && id in c && id in m && c[id] == m[id]
    ensures var id := cur.kids[i].id;
            var siblings' := siblings + [CachedSibling(id, c[id].leaf, c[id].value, |local| - 1, i)];
            && Taken(t, m, c - {id}, local, siblings')
            && forall j :: 0 <= j < |cur.kids| && j != i ==> Unfetched(Ids(cur.kids[j]), local, siblings')
  {
    KidFree(cur, m, c, local, siblings, index, i);
    hide HeldFrom, Chain, Shape;
    var id := cur.kids[i].id;
    HeldSibling(m, c, local, siblings, id, |local| - 1, i);
    var s := CachedSibling(id, c[id].leaf, c[id].value, |local| - 1, i);
    ChainSibling(m, t.id, local, siblings, s);
    forall j, x | 0 <= j < |cur.kids| && j != i && x in Ids(cur.kids[j]) ensures !Fetched(local, siblings + [s], x) {
      OtherKids(cur, i, j);
      FetchedSibling(local, siblings, s, x);
      assert x in Ids(cur);
    }
  }

  lemma KidFree(cur: BTree, m: Shelf, c: Shelf, local: seq<LocalNode>, siblings: seq<CachedSibling>, index: bool, i: nat)
    requires HeldFrom(m, c, local, siblings) && Shape(cur, m, index) && Apart(cur) && cur.Fork? && i < |cur.kids|
    requires forall x :: x in Ids(cur) && x != cur.id ==> !Fetched(local, siblings, x)
    ensures cur.id in m && m[cur.id].value.Inner? && i < |m[cur.id].value.childIds| == |m[cur.id].value.childLeaves|
    ensures cur.kids[i].id == m[cur.id].value.childIds[i] && cur.kids[i].id in Ids(cur.kids[i]) && cur.kids[i].id in c
    ensures cur.kids[i].id in m && c[cur.kids[i].id] == m[cur.kids[i].id] && ChildOf(m, cur.id, cur.kids[i].id)
    ensures forall j, x :: 0 <= j < |cur.kids| && x in Ids(cur.kids[j]) ==> x in Ids(cur) && x != cur.id
  {
    assert cur.kids[i].id in Ids(cur.kids[i]);
    assert ChildOf(m, cur.id, cur.kids[i].id) by { assert m[cur.id].value.childIds[i] == cur.kids[i].id; }
  }

  lemma OnlyChild(t: BTree, cur: BTree, m: Shelf, c: Shelf, local: seq<LocalNode>, siblings: seq<CachedSibling>,
                  index: bool, i: nat)
    requires Taken(t, m, c, local, siblings) && Shape(cur, m, index) && Apart(cur) && cur.Fork? && i < |cur.kids|
    requires forall x :: x in Ids(cur) && x != cur.id ==> !Fetched(local, siblings, x)
    ensures cur.id in m && m[cur.id].value.Inner? && |m[cur.id].value.childIds| == |cur.kids| == |m[cur.id].value.childLeaves|
    ensures Unfetched(Ids(cur.kids[i]), local, siblings)
  {
    KidFree(cur, m, c, local, siblings, index, i);
  }

  /** Stepping down to child `i`. */
  lemma PathDown(t: BTree, cur: BTree, h: nat, m: Shelf, c: Shelf, index: bool, local: seq<LocalNode>,
                 siblings: seq<CachedSibling>, key: int)
    requires Below(t, cur, h, m, index, key) && cur.Fork? && Taken(t, m, c, local, siblings)
    requires |local| > 0 && local[|local| - 1].id == cur.id
    requires ChildIndex(cur.seps, key) < |cur.kids| && Unfetched(Ids(cur.kids[ChildIndex(cur.seps, key)]), local, siblings)
    ensures h > 1 && var kid := cur.kids[ChildIndex(cur.seps, key)];
            Below(t, kid, h - 1, m, index, key) && DownTo(t, kid, m, c, local, siblings, key)
  {
    hide HeldFrom, Chain, Fetched;
    var i := ChildIndex(cur.seps, key);
    var kid := cur.kids[i];
    assert m[cur.id].value.childIds[i] == kid.id && ChildOf(m, cur.id, kid.id);
    assert AllApart(cur.kids) && Apart(kid);
    assert LeafFor(cur, key) == LeafFor(kid, key) && ParentFor(cur, key) == if kid.Fork? then ParentFor(kid, key) else cur;
    forall x | x in Ids(kid) ensures x in Ids(t) {
      assert x in IdsOf(cur.kids);
    }
  }

  /** The node that is fetched next, and its pointers. */
  lemma NodeOf(t: BTree, cur: BTree, h: nat, height: nat, m: Shelf, index: bool, most: nat, key: int)
    requires TreeOk(t, height, m, index, most) && Below(t, cur, h, m, index, key)
    ensures h > 0 && cur.id in m && (m[cur.id].value.Inner? <==> cur.Fork?) && Shape(cur, m, index) && Apart(cur)
    ensures cur.Tip? ==> h == 1 && LeafFor(t, key) == cur
    ensures cur.Fork? ==>
              var n := m[cur.id].value;
              && h > 1 && n.keys == cur.seps && |n.childIds| == |n.childLeaves| == |cur.kids| == |cur.seps| + 1
              && forall i :: 0 <= i < |cur.kids| ==>
                   && n.childIds[i] == cur.kids[i].id && cur.kids[i].id in m
                   && n.childLeaves[i] == m[cur.kids[i].id].leaf && PointsRight(m, n, i)
  {
    assert cur.id in Ids(cur);
    if cur.Fork? {
      var n := m[cur.id].value;
      forall i | 0 <= i < |cur.kids|
        ensures n.childIds[i] == cur.kids[i].id && cur.kids[i].id in m && n.childLeaves[i] == m[cur.kids[i].id].leaf
        ensures PointsRight(m, n, i)
      {
        assert PointsRight(m, n, i);
      }
    }
  }

  // ----- The height limit -----

  /** The most keys that a leaf may have. */
  function MostKeys(order: nat, index: bool): (r: nat)
    requires order >= 2
    ensures r > 0
  {
    if index then order * (order - 1) else order - 1
  }

  /** The most entries of a tree of height `h` in which all nodes are full. */
  function Reach(order: nat, index: bool, h: nat): nat
    requires order >= 2 && h > 0
  {
    MostKeys(order, index) * Power(order, h - 1)
  }

  function HalfOrder(order: nat): (r: nat)
    ensures r >= 2 && (order >= 2 ==> r <= order)
  {
    if (order + 1) / 2 < 2 then 2 else (order + 1) / 2
  }

  function AtLeastTwo(n: nat): (r: nat)
    ensures r >= n && r >= 2
  {
    if n < 2 then 2 else n
  }

  /** One level more than the least power of half the order that reaches the capacity; in index
      mode, whose leaves take more keys, one level less. */
  method HeightLimit(capacity: nat, order: nat, index: bool) returns (h: nat)
    requires order >= 2
    ensures h > 0 && capacity <= Reach(order, index, h)
    ensures var e := if index then h else h - 1;
            e > 0 && Power(HalfOrder(order), e - 1) < AtLeastTwo(capacity) <= Power(HalfOrder(order), e)
  {
    hide Power;
    var half, e, p := HalfOrder(order), 0, 1;
    PowerUnfolds(half, 0);
    while p < AtLeastTwo(capacity)
      invariant p == Power(half, e) && p >= 1 && (e > 0 ==> Power(half, e - 1) < AtLeastTwo(capacity))
      decreases AtLeastTwo(capacity) - p
    {
      PowerUnfolds(half, e);
      assert half * p >= 2 * p by { Product(2, half, p, p); }
      p, e := half * p, e + 1;
    }
    LimitReaches(capacity, order, index, e);
    h := if index then e else e + 1;
  }

  lemma PowerUnfolds(b: nat, e: nat)
    ensures Power(b, 0) == 1 && Power(b, e + 1) == b * Power(b, e)
  {
  }

  lemma LimitReaches(capacity: nat, order: nat, index: bool, e: nat)
    requires order >= 2 && e > 0 && capacity <= Power(HalfOrder(order), e)
    ensures capacity <= Reach(order, index, if index then e else e + 1)
  {
    hide Power;
    PowerMonotone(HalfOrder(order), order, e);
    PowerUnfolds(order, e - 1);
    Product(1, order - 1, Power(order, e), Power(order, e));
    if index {
      Regroup(order - 1, order, Power(order, e - 1));
      assert order * (order - 1) == (order - 1) * order;
    }
  }

  // ----- New leaves -----

  /** No node of the list has a parent. */
  predicate Orphans(local: seq<LocalNode>) {
    forall i :: 0 <= i < |local| ==> local[i].parentId == INVALID_KEY
  }

  /** Exactly the list from `i` on and the first `k` siblings are in `leaves`. */
  ghost predicate Noted(s: seq<LocalNode>, r: seq<CachedSibling>, i: nat, k: nat, leaves: map<int, nat>) {
    && (forall j :: i <= j < |s| ==> s[j].id in leaves && leaves[s[j].id] == s[j].leaf)
    && (forall j :: 0 <= j < k <= |r| ==> r[j].id in leaves && leaves[r[j].id] == r[j].leaf)
    && forall x :: x in leaves ==> (exists j :: i <= j < |s| && s[j].id == x) || exists j :: 0 <= j < k <= |r| && r[j].id == x
  }

  lemma NothingNoted(s: seq<LocalNode>, r: seq<CachedSibling>)
    ensures Noted(s, r, |s|, 0, map[]) && AllRepointed(s, s, map[])
  {
    forall y | 0 <= y < |s| ensures Repointed(s[y].node, map[]) == s[y].node {
      RepointNone(s[y].node);
    }
  }

  lemma HeldApart(s: seq<LocalNode>, r: seq<CachedSibling>)
    requires DistinctKeys(Held(s, r))
    ensures forall i, j :: 0 <= i < j < |s| ==> s[i].id != s[j].id
    ensures forall i, j :: 0 <= i < j < |r| ==> r[i].id != r[j].id
    ensures forall i, j :: 0 <= i < |s| && 0 <= j < |r| ==> s[i].id != r[j].id
  {
    var bs := Held(s, r);
    forall i, j | 0 <= i < j < |r| ensures r[i].id != r[j].id {
      assert bs[|s| + i].key != bs[|s| + j].key;
    }
    forall i, j | 0 <= i < |s| && 0 <= j < |r| ensures s[i].id != r[j].id {
      assert bs[i].key != bs[|s| + j].key;
    }
    forall i, j | 0 <= i < j < |s| ensures s[i].id != s[j].id {
      assert bs[i].key != bs[j].key;
    }
  }

  lemma LocalNext(s: seq<LocalNode>, r: seq<CachedSibling>, i: nat, leaves: map<int, nat>)
    requires DistinctKeys(Held(s, r)) && i < |s| && Noted(s, r, i + 1, 0, leaves)
    ensures s[i].id !in leaves && Noted(s, r, i, 0, leaves[s[i].id := s[i].leaf])
  {
    HeldApart(s, r);
    hide DistinctKeys;
  }

  lemma SiblingNext(s: seq<LocalNode>, r: seq<CachedSibling>, k: nat, leaves: map<int, nat>)
    requires DistinctKeys(Held(s, r)) && k < |r| && Noted(s, r, 0, k, leaves)
    ensures r[k].id !in leaves && Noted(s, r, 0, k + 1, leaves[r[k].id := r[k].leaf])
  {
    HeldApart(s, r);
    hide DistinctKeys;
  }

  lemma AllNoted(s: seq<LocalNode>, r: seq<CachedSibling>, leaves: map<int, nat>)
    requires DistinctKeys(Held(s, r)) && Noted(s, r, 0, |r|, leaves)
    ensures leaves == LeavesOf(Held(s, r))
  {
    var bs := Held(s, r);
    forall x ensures (x in leaves <==> x in LeavesOf(bs)) && (x in leaves ==> leaves[x] == LeavesOf(bs)[x]) {
      var i := HeldIndex(s, r, x);
      if i >= 0 {
        ShelfHas(bs, i);
        if i >= |s| { assert bs[|s| + (i - |s|)].key == r[i - |s|].id; }
      } else {
        ShelfLacks(bs, x);
        assert forall j :: 0 <= j < |s| ==> bs[j].key == s[j].id;
        assert forall j :: 0 <= j < |r| ==> bs[|s| + j].key == r[j].id;
      }
    }
  }

  /** The only node of the list with child `s[i]` is the one that its scan finds. */
  lemma ParentIs(s: seq<LocalNode>, local: seq<LocalNode>, r: seq<CachedSibling>, leaves: map<int, nat>, i: nat)
    requires Linked(s, r) && AllRepointed(s, local, leaves) && i < |s|
    ensures local[i].id == s[i].id && local[i].leaf == s[i].leaf && local[i].parentId == s[i].parentId
    ensures forall y :: 0 <= y < |s| && s[y].node.Inner? ==> EvenNode(s[y].node)
    ensures forall y :: 0 <= y < |s| && s[y].node.Inner? && s[i].id in s[y].node.childIds ==>
              s[i].parentId != INVALID_KEY && y == ParentFrom(local, s[i].parentId, 0)
  {
    forall y | 0 <= y < |s| && s[y].node.Inner? && s[i].id in s[y].node.childIds
      ensures s[i].parentId != INVALID_KEY && y == ParentFrom(local, s[i].parentId, 0)
    {
      assert local[y].id == s[i].parentId && local[y].node.Inner?;
    }
  }

  lemma PositionIs(s: seq<LocalNode>, r: seq<CachedSibling>, i: nat)
    requires Linked(s, r) && i < |r|
    ensures r[i].id != INVALID_KEY && forall y :: 0 <= y < |s| && s[y].node.Inner? ==> EvenNode(s[y].node)
    ensures forall y :: 0 <= y < |s| && s[y].node.Inner? && r[i].id in s[y].node.childIds ==> y == r[i].parentLocalIdx
  {
  }

  lemma NotInner(id: int, leaf: int)
    ensures forall n: BPlusNode :: !n.Inner? ==> WithLeaf(n, id, leaf) == n
  {
  }

  /** The lists with other leaves. */
  ghost predicate OtherLeaves(s: seq<LocalNode>, r: seq<CachedSibling>, s': seq<LocalNode>, r': seq<CachedSibling>) {
    && |s'| == |s| && |r'| == |r|
    && (forall i :: 0 <= i < |s| ==> s'[i] == s[i].(leaf := s'[i].leaf))
    && (forall i :: 0 <= i < |r| ==> r'[i] == r[i].(leaf := r'[i].leaf))
  }

  lemma HeldEntry(s: seq<LocalNode>, r: seq<CachedSibling>, i: nat)
    requires i < |s| + |r|
    ensures Held(s, r)[i] == if i < |s| then Block(s[i].id, s[i].leaf, s[i].node)
                             else Block(r[i - |s|].id, r[i - |s|].leaf, r[i - |s|].node)
  {
    if i >= |s| { assert Held(s, r)[|s| + (i - |s|)] == Block(r[i - |s|].id, r[i - |s|].leaf, r[i - |s|].node); }
  }

  lemma SameHeld(s: seq<LocalNode>, r: seq<CachedSibling>, s': seq<LocalNode>, r': seq<CachedSibling>)
    requires |s'| == |s| && |r'| == |r|
    requires forall i :: 0 <= i < |s| ==> s'[i].id == s[i].id
    requires forall i :: 0 <= i < |r| ==> r'[i].id == r[i].id
    ensures forall i :: 0 <= i < |s| + |r| ==> Held(s', r')[i].key == Held(s, r)[i].key
    ensures DistinctKeys(Held(s, r)) ==> DistinctKeys(Held(s', r'))
  {
    var bs, bs' := Held(s, r), Held(s', r');
    forall i | 0 <= i < |bs| ensures bs'[i].key == bs[i].key {
      HeldEntry(s, r, i);
      HeldEntry(s', r', i);
    }
  }

  lemma LinkedStill(s: seq<LocalNode>, r: seq<CachedSibling>, s': seq<LocalNode>, r': seq<CachedSibling>)
    requires Linked(s, r) && OtherLeaves(s, r, s', r')
    ensures Linked(s', r')
  {
    hide EvenNode, DistinctKeys;
    SameHeld(s, r, s', r');
    hide Held;
  }

  lemma LinkedApart(s: seq<LocalNode>, r: seq<CachedSibling>)
    requires Linked(s, r)
    ensures DistinctKeys(Held(s, r)) && forall i, j :: 0 <= i < j < |s| ==> s[i].id != s[j].id
  {
  }

  lemma SameLeaves(bs: seq<Block<BPlusNode>>, bs': seq<Block<BPlusNode>>)
    requires DistinctKeys(bs) && |bs'| == |bs|
    requires forall i :: 0 <= i < |bs| ==> bs'[i].key == bs[i].key && bs'[i].leaf == bs[i].leaf
    ensures DistinctKeys(bs') && LeavesOf(bs') == LeavesOf(bs)
  {
  }

  lemma AllReassigned(s: seq<LocalNode>, r: seq<CachedSibling>, s': seq<LocalNode>, r': seq<CachedSibling>, s'': seq<LocalNode>)
    requires OtherLeaves(s, r, s', r') && DistinctKeys(Held(s', r')) && AllRepointed(s', s'', LeavesOf(Held(s', r')))
    ensures Reassigned(s, r, s'', r')
  {
    hide Repointed, DistinctKeys, LeavesOf;
    forall i | 0 <= i < |s| + |r|
      ensures Held(s'', r')[i].key == Held(s', r')[i].key && Held(s'', r')[i].leaf == Held(s', r')[i].leaf
    {
      HeldEntry(s', r', i);
      HeldEntry(s'', r', i);
    }
    SameLeaves(Held(s', r'), Held(s'', r'));
    hide Held;
  }

  lemma NothingShelved(c: Shelf, bs: seq<Block<BPlusNode>>)
    ensures DistinctKeys(bs[..0]) && c + ShelfOf(bs[..0]) == c
  {
  }

  lemma PreparedLinked(t: BTree, m: Shelf, c: Shelf, index: bool, s: seq<LocalNode>, r: seq<CachedSibling>)
    requires Prepared(t, m, c, index, s, r)
    ensures Linked(s, r)
  {
    hide HeldFrom, Recorded, LocalsIn, Even, PointedUpTo, Shape, Linked;
    RecordedLinked(m, c, Ids(t), s, r);
  }

  /** After the new leaves: what the blocks will be. */
  lemma ReassignedRight(t: BTree, m: Shelf, c: Shelf, index: bool, s: seq<LocalNode>, r: seq<CachedSibling>,
                        s': seq<LocalNode>, r': seq<CachedSibling>, root: int)
    requires Prepared(t, m, c, index, s, r) && Reassigned(s, r, s', r') && InList(s, root)
    ensures DistinctKeys(Held(s', r')) && forall i :: 0 <= i < |s'| + |r'| ==> Held(s', r')[i].key !in c
    ensures forall i :: 0 <= i < |r'| ==> r'[i].id != INVALID_KEY
    ensures var m' := c + ShelfOf(Held(s', r'));
            && Shape(t, m', index) && PointersRight(m', Ids(t)) && m'.Keys == m.Keys
            && (forall x :: x in m && !Fetched(s, r, x) ==> m'[x] == m[x])
            && root in m' && InList(s', root) && forall i :: 0 <= i < |s'| && s'[i].id == root ==> m'[root].leaf == s'[i].leaf
  {
    hide Shape, Ids, PointersRight, DistinctKeys, ShelfOf, Held, LeavesOf, Even, Recorded, PointedUpTo, Repointed;
    HeldWhole(m, c, s, r);
    SameHeld(s, r, s', r');
    AllMoved(c, s, r, s', r');
    var m', leaves := c + ShelfOf(Held(s', r')), LeavesOf(Held(s', r'));
    MovedRight(t, index, m, m', s, r, leaves);
    forall i | 0 <= i < |s'| && s'[i].id == root ensures root in m' && m'[root].leaf == s'[i].leaf {
      ShelfHas(Held(s', r'), i);
    }
    forall x | x in m && !Fetched(s, r, x) ensures m'[x] == m[x] {
      var i := HeldIndex(s, r, x);
      ShelfLacks(Held(s, r), x);
      ShelfLacks(Held(s', r'), x);
    }
    var i :| 0 <= i < |s| && s[i].id == root;
    assert s'[i].id == root;
  }

  // ----- The leaf at the end of a path -----

  ghost predicate WordsFit(n: BPlusNode) {
    n.IndexLeaf? ==> forall i :: 0 <= i < |n.childIds| ==> FitsInt(n.childIds[i])
  }

  /** Entry `i` of a leaf. */
  ghost function LeafValue(n: BPlusNode, i: nat): Bytes
    requires !n.Inner? && Proper(n) && i < |n.keys| && (n.IndexLeaf? ==> FitsInt(n.childIds[i]))
  {
    if n.Leaf? then n.values[i] else IntBytes(n.childIds[i])
  }

  /** The node holds the leaf of `key`, and shows what a lookup finds. */
  ghost predicate LeafShown(n: BPlusNode, t: BTree, key: int) {
    var leaf := LeafFor(t, key);
    && leaf.Tip? && LeafHolds(n, leaf.keys, leaf.vals, n.IndexLeaf?) && Proper(n) && WordsFit(n)
    && Lookup(t, key) == var i := KeyFrom(n.keys, key, 0); if i < |n.keys| then Some(LeafValue(n, i)) else None
  }

  lemma LastProper(t: BTree, m: Shelf, c: Shelf, index: bool, local: seq<LocalNode>, siblings: seq<CachedSibling>)
    requires HeldFrom(m, c, local, siblings) && LocalsIn(Ids(t), local) && Shape(t, m, index) && Formed(t) && |local| > 0
    ensures Proper(local[|local| - 1].node) && WordsFit(local[|local| - 1].node)
    ensures local[|local| - 1].node.Leaf? ==> !index
    ensures local[|local| - 1].node.IndexLeaf? ==> index
  {
    hide Shape, Ids, Formed, Proper, WordsFit;
    ShapeProper(t, m, index, local[|local| - 1].id);
  }

  lemma {:induction false} ShapeProper(t: BTree, m: Shelf, index: bool, x: int)
    requires Shape(t, m, index) && Formed(t) && x in Ids(t)
    ensures x in m && Proper(m[x].value) && WordsFit(m[x].value)
    ensures m[x].value.Leaf? ==> !index
    ensures m[x].value.IndexLeaf? ==> index
  {
    if t.Fork? && x != t.id {
      var i :| 0 <= i < |t.kids| && x in Ids(t.kids[i]);
      ShapeProper(t.kids[i], m, index, x);
    }
  }

  lemma RootListed(t: BTree, m: Shelf, local: seq<LocalNode>, siblings: seq<CachedSibling>)
    requires Chain(m, t.id, local, siblings) && |local| > 0
    ensures InList(local, t.id)
  {
    assert local[0].id == t.id;
  }

  lemma TipHasNoChild(t: BTree, m: Shelf, index: bool)
    requires t.Tip? && Shape(t, m, index)
    ensures forall x :: !ChildOf(m, t.id, x)
  {
  }

  lemma RootAlone(t: BTree, m: Shelf, index: bool, local: seq<LocalNode>, siblings: seq<CachedSibling>, h: nat, limit: nat)
    requires t.Tip? && Shape(t, m, index) && Level(t, h) && Chain(m, t.id, local, siblings)
    requires |local| == (if h <= limit then h else limit) && |local| > 0
    ensures |local| == 1 && local[0].parentId == INVALID_KEY && siblings == []
  {
    hide ChildOf, Shape;
    var first := if siblings == [] then INVALID_KEY else siblings[0].id;
    TipHasNoChild(t, m, index);
  }

  lemma RootLeafHeld(t: BTree, m: Shelf, c: Shelf, local: seq<LocalNode>, siblings: seq<CachedSibling>)
    requires HeldFrom(m, c, local, siblings) && |local| > 0 && Chain(m, t.id, local, siblings)
    ensures t.id in m && local[0].leaf == m[t.id].leaf
  {
  }

  lemma HasParent(m: Shelf, root: int, local: seq<LocalNode>, siblings: seq<CachedSibling>)
    requires Chain(m, root, local, siblings) && |local| > 1 && INVALID_KEY !in m
    ensures local[|local| - 1].parentId != INVALID_KEY
  {
    assert ChildOf(m, local[|local| - 2].id, local[|local| - 1].id);
  }

  lemma LastIs(m: Shelf, c: Shelf, local: seq<LocalNode>, siblings: seq<CachedSibling>)
    requires HeldFrom(m, c, local, siblings) && |local| > 0
    ensures local[|local| - 1].id in m && m[local[|local| - 1].id].value == local[|local| - 1].node
  {
  }

  lemma LeafIsShown(t: BTree, leaf: BTree, m: Shelf, index: bool, key: int)
    requires Sorted(t, None, None) && leaf == LeafFor(t, key) && leaf.Tip? && Shape(leaf, m, index)
    ensures leaf.id in m && !m[leaf.id].value.Inner? && LeafShown(m[leaf.id].value, t, key)
  {
    LookupInLeaf(t, key);
    LeafSorted(t, None, None, key);
  }

  lemma ShownFinds(n: BPlusNode, t: BTree, key: int)
    requires LeafShown(n, t, key)
    ensures Lookup(t, key).Some? <==> KeyFrom(n.keys, key, 0) < |n.keys|
  {
  }

  lemma UpdateForm(t: BTree, h: nat, most: nat, key: int, v: Bytes)
    requires TreeForm(t, h, most) && Lookup(t, key).Some?
    ensures TreeForm(Put(t, key, v), h, most) && Put(t, key, v).id == t.id && Ids(Put(t, key, v)) == Ids(t)
    ensures Contents(Put(t, key, v)) == Contents(t)[key := v]
  {
    hide Contents, Sorted, Level, Roomy, Apart;
    PutContents(t, key, v);
    PutLevel(t, h, key, v);
    PutRoomy(t, None, None, key, v, most);
    PutIds(t, key, v);
  }

  /** The leaf with the new value in it is a leaf of the tree with the new value. */
  lemma UpdateShape(t: BTree, m: Shelf, last: LocalNode, key: int, i: nat, v: Bytes)
    requires Sorted(t, None, None) && Apart(t) && Shape(t, m, false) && last.id in m && last.id == LeafFor(t, key).id
    requires last.node.Leaf? && LeafShown(last.node, t, key) && i == KeyFrom(last.node.keys, key, 0) < |last.node.keys|
    ensures i < |last.node.values|
    ensures var n := Leaf(last.node.keys, last.node.values[i := v]);
            Shape(Put(t, key, v), m[last.id := Block(last.id, last.leaf, n)], false)
  {
    var leaf := LeafFor(t, key);
    hide Sorted, Apart, Shape, Lookup;
    LeafSorted(t, None, None, key);
    PutTipPresent(leaf, key, v);
    PutShape(t, m, m[last.id := Block(last.id, last.leaf, Leaf(last.node.keys, last.node.values[i := v]))], false, key, v);
  }

  /** The leaf with a new entry at position `i`. */
  function WithEntry(n: BPlusNode, i: nat, key: int, value: Bytes): BPlusNode
    requires !n.Inner? && Proper(n) && i <= |n.keys|
  {
    if n.Leaf? then Leaf(PutIn(n.keys, i, key), PutIn(n.values, i, value))
    else IndexLeaf(PutIn(n.keys, i, key), PutIn(n.childIds, i, BytesToInt(value)))
  }

  lemma EntryHolds(n: BPlusNode, leaf: BTree, index: bool, key: int, value: Bytes)
    requires leaf.Tip? && |leaf.keys| == |leaf.vals| && LeafHolds(n, leaf.keys, leaf.vals, index) && Proper(n)
    requires KeyFrom(leaf.keys, key, 0) == |leaf.keys|
    ensures var (n', leaf') := (WithEntry(n, LowerFrom(n.keys, key, 0), key, value), PutTip(leaf, key, Kept(index, value)));
            LeafHolds(n', leaf'.keys, leaf'.vals, index) && Proper(n') && n'.keys == leaf'.keys
  {
    hide IntBytes, BytesToInt;
  }

  /** The leaf with the new entry is a leaf of the tree with the new entry. */
  lemma InsertShape(t: BTree, m: Shelf, index: bool, last: LocalNode, key: int, value: Bytes)
    requires Sorted(t, None, None) && Apart(t) && Shape(t, m, index) && last.id in m && last.id == LeafFor(t, key).id
    requires LeafShown(last.node, t, key) && Lookup(t, key).None? && (last.node.IndexLeaf? <==> index)
    ensures !last.node.Inner? && LowerFrom(last.node.keys, key, 0) <= |last.node.keys|
    ensures var (n, t') := (WithEntry(last.node, LowerFrom(last.node.keys, key, 0), key, value), Put(t, key, Kept(index, value)));
            && Shape(t', m[last.id := Block(last.id, last.leaf, n)], index) && Ids(t') == Ids(t) && t'.id == t.id && Apart(t')
            && !n.Inner? && Proper(n) && LeafFor(t', key).Tip? && n.keys == LeafFor(t', key).keys
            && LeafFor(t', key).id == LeafFor(t, key).id
  {
    hide Sorted, Apart, Shape, Lookup, PutTip, Ids, WordsFit;
    ShownFinds(last.node, t, key);
    LeafSorted(t, None, None, key);
    var leaf, v := LeafFor(t, key), Kept(index, value);
    EntryHolds(last.node, leaf, index, key, value);
    var n := WithEntry(last.node, LowerFrom(last.node.keys, key, 0), key, value);
    PutTipId(leaf, key, v);
    PutShape(t, m, m[last.id := Block(last.id, last.leaf, n)], index, key, v);
    PutIds(t, key, v);
    PutLeaf(t, key, v);
  }

  lemma PutTipId(t: BTree, key: int, v: Bytes)
    requires t.Tip? && |t.keys| == |t.vals|
    ensures PutTip(t, key, v).Tip? && PutTip(t, key, v).id == t.id
  {
  }

  lemma PreparedHeld(t: BTree, m: Shelf, c: Shelf, index: bool, local: seq<LocalNode>, siblings: seq<CachedSibling>)
    requires Prepared(t, m, c, index, local, siblings)
    ensures HeldFrom(m, c, local, siblings) && forall i :: 0 <= i < |local| ==> local[i].id in m
  {
  }

  lemma PreparedShape(t: BTree, m: Shelf, c: Shelf, index: bool, local: seq<LocalNode>, siblings: seq<CachedSibling>)
    requires Prepared(t, m, c, index, local, siblings)
    ensures Shape(t, m, index) && forall i :: 0 <= i < |local| ==> local[i].id in m && m[local[i].id].key == local[i].id
  {
  }

  lemma ParentFromIs(s: seq<LocalNode>, id: int, y: nat)
    requires y < |s| && s[y].id == id && s[y].node.Inner?
    requires forall z :: 0 <= z < y ==> s[z].id != id || !s[z].node.Inner?
    ensures ParentFrom(s, id, 0) == y
  {
  }

  /** Splitting a leaf does not change which node is found as the parent. */
  lemma ParentStays(s: seq<LocalNode>, s': seq<LocalNode>, x: nat, id: int)
    requires x < |s| && !s[x].node.Inner? && Proper(s[x].node) && |s'| == |s| + 1 && ParentFrom(s, id, 0) < |s|
    requires s' == WithNode(s, x, LeftNode(s[x].node)) + [s'[|s|]]
    ensures ParentFrom(s', id, 0) == ParentFrom(s, id, 0)
  {
    var y := ParentFrom(s, id, 0);
    forall z | 0 <= z < |s| ensures s'[z].id == s[z].id && s'[z].node.Inner? == s[z].node.Inner? {
    }
    ParentFromIs(s', id, y);
  }

  // ----- Insertion -----

  /** The tree of a single entry. */
  lemma OneEntry(id: int, key: int, value: Bytes, index: bool, m: Shelf, most: nat)
    requires id in m && m[id].value == (if index then IndexLeaf([key], [BytesToInt(value)]) else Leaf([key], [value])) && most > 0
    ensures var t := Tip(id, [key], [Kept(index, value)]);
            && TreeForm(t, 1, most) && Contents(t) == map[key := Kept(index, value)]
            && Shape(t, m, index) && PointersRight(m, Ids(t)) && t.id == id
  {
    hide BytesToInt, IntBytes;
    var t := Tip(id, [key], [Kept(index, value)]);
    forall k ensures k in Contents(t) <==> k == key {
      LookupContents(t, k);
    }
    LookupContents(t, key);
    assert Contents(t)[key] == Kept(index, value);
  }

  lemma ShownRoom(n: BPlusNode, t: BTree, key: int, most: nat)
    requires LeafShown(n, t, key)
    ensures HasRoom(t, key, most) <==> |n.keys| < most
  {
  }

  lemma TipAlone(n: BPlusNode, t: BTree, h: nat, most: nat, key: int)
    requires TreeForm(t, h, most)
    ensures t.Tip? ==> h == 1 && (LeafShown(n, t, key) ==> |n.keys| == |t.keys|)
  {
  }

  lemma LeafGrows(t: BTree, key: int, v: Bytes)
    requires Sorted(t, None, None) && Lookup(t, key).None?
    ensures LeafFor(t, key).Tip? && LeafFor(Put(t, key, v), key).Tip?
    ensures |LeafFor(Put(t, key, v), key).keys| == |LeafFor(t, key).keys| + 1
  {
    LeafSorted(t, None, None, key);
    LookupInLeaf(t, key);
    PutLeaf(t, key, v);
    PutTipAbsent(LeafFor(t, key), key, v);
  }

  lemma InsertedForm(t: BTree, h: nat, most: nat, key: int, v: Bytes, newId: int, m: Shelf, c: Shelf, index: bool,
                     local: seq<LocalNode>, siblings: seq<CachedSibling>)
    requires TreeForm(t, h, most) && Lookup(t, key).None? && most > 0 && (HasRoom(t, key, most) || t.Fork?)
    requires Prepared(t, m, c, index, local, siblings) && newId !in m
    ensures HasRoom(t, key, most) || (Put(t, key, v).Fork? && Splits(Put(t, key, v), key))
    ensures TreeForm(Inserted(t, key, v, most, newId), h, most) && Inserted(t, key, v, most, newId).id == t.id
  {
    hide Sorted, Level, Roomy, Apart, Shape, HasRoom, Splits, Contents, Put, SplitBelow, Ids;
    InsertedContents(t, key, v, most, newId);
    PutSplits(t, None, None, key, v, most);
    PutLevel(t, h, key, v);
    if !HasRoom(t, key, most) { SplitLevel(Put(t, key, v), h, key, newId); }
    InsertedRoomy(t, key, v, most, newId);
    ShapeStored(t, m, index);
    InsertedIds(t, key, v, most, newId);
  }

  // ----- Bulk loading -----

  lemma NothingKept(index: bool)
    ensures Distinct(KeptAll(index, [])) && Assoc(KeptAll(index, [])) == map[]
  {
  }

  lemma KeptDistinct(data: Entries<Bytes>, index: bool)
    requires Distinct(data)
    ensures Distinct(KeptAll(index, data))
    ensures Assoc(KeptAll(index, data)).Keys == Assoc(data).Keys
    ensures forall k :: k in Assoc(data) ==> Assoc(KeptAll(index, data))[k] == Kept(index, Assoc(data)[k])
  {
    hide Kept;
    var s := KeptAll(index, data);
    forall k ensures k in Assoc(s) <==> k in Assoc(data) {
      if k in Assoc(s) {
        var i :| 0 <= i < |s| && s[i].0 == k;
        assert data[i].0 == k;
      }
      if k in Assoc(data) {
        var i :| 0 <= i < |data| && data[i].0 == k;
        assert s[i].0 == k;
      }
    }
    forall k | k in Assoc(data) ensures Assoc(s)[k] == Kept(index, Assoc(data)[k]) {
      var i :| 0 <= i < |data| && data[i].0 == k;
      assert s[i].0 == k;
    }
  }

  lemma AscendingDistinct(s: Entries<Bytes>)
    requires Ascending(s)
    ensures Distinct(s)
  {
  }

  lemma SortedKept(data: Entries<Bytes>, sorted: Entries<Bytes>, index: bool)
    requires Distinct(data) && Ascending(sorted) && multiset(sorted) == multiset(data)
    ensures Distinct(sorted) && |sorted| == |data| && Distinct(KeptAll(index, sorted)) && Distinct(KeptAll(index, data))
    ensures Assoc(KeptAll(index, sorted)) == Assoc(KeptAll(index, data))
  {
    hide Distinct, Ascending, Assoc, KeptAll, Kept;
    AscendingDistinct(sorted);
    SameEntries(sorted, data);
    KeptDistinct(data, index);
    KeptDistinct(sorted, index);
    SameKept(Assoc(data), Assoc(KeptAll(index, sorted)), Assoc(KeptAll(index, data)), index);
  }

  lemma SameKept(m: map<int, Bytes>, a: map<int, Bytes>, b: map<int, Bytes>, index: bool)
    requires a.Keys == m.Keys == b.Keys && forall k :: k in m ==> a[k] == Kept(index, m[k]) == b[k]
    ensures a == b
  {
    hide Kept;
    forall k ensures (k in a <==> k in b) && (k in a ==> a[k] == b[k]) {
      assert k in a.Keys <==> k in m.Keys;
      assert k in b.Keys <==> k in m.Keys;
    }
  }

  lemma LoadedForm(t: BTree, h: nat, nodes: NodeMap, next: int, index: bool, most: nat, data: Entries<Bytes>,
                   sorted: Entries<Bytes>)
    requires Loaded(t, h, nodes, next, index, most, KeptAll(index, sorted))
    requires Distinct(KeptAll(index, sorted)) && Distinct(KeptAll(index, data))
    requires Assoc(KeptAll(index, sorted)) == Assoc(KeptAll(index, data))
    ensures TreeForm(t, h, most) && Contents(t) == Assoc(KeptAll(index, data)) && t.id in nodes
    ensures next >= 0 && forall x :: x in nodes ==> 0 <= x < next
  {
    hide Sorted, Level, Roomy, Apart, Shape, KeptAll, Assoc, Distinct;
    assert t.id in Ids(t);
  }

  lemma {:induction false} PowerRises(b: nat, m: nat, n: nat)
    requires b > 0 && m <= n
    ensures Power(b, m) <= Power(b, n)
  {
    if m < n {
      PowerRises(b, m, n - 1);
      PowerUnfolds(b, n - 1);
      Product(1, b, Power(b, n - 1), Power(b, n - 1));
    }
  }

  /** The tree is no higher than the limit exactly if the limit has room for so many entries. */
  lemma HeightExact(n: nat, order: nat, most: nat, h: nat, limit: nat)
    requires order >= 2 && h > 0 && limit > 0
    requires n <= most * Power(order, h - 1) && (h > 1 ==> most * Power(order, h - 2) < n)
    ensures h <= limit <==> n <= most * Power(order, limit - 1)
  {
    hide Power;
    if h <= limit {
      PowerRises(order, h - 1, limit - 1);
      Product(most, most, Power(order, h - 1), Power(order, limit - 1));
    } else {
      PowerRises(order, limit - 1, h - 2);
      Product(most, most, Power(order, limit - 1), Power(order, h - 2));
    }
  }

  // ----- A new root -----

  /** The two halves of the root leaf `x` and the node above them. */
  ghost predicate RootTriple(x: LocalNode, s: seq<LocalNode>, id: int, newId: int) {
    && !x.node.Inner? && Proper(x.node) && |RightNode(x.node).keys| > 0 && |s| == 3
    && s[0].id == x.id && s[0].node == LeftNode(x.node) && s[1].id == newId && s[1].node == RightNode(x.node)
    && s[2].id == id && s[2].node.Inner? && s[2].node.keys == [RightNode(x.node).keys[0]] && s[2].node.childIds == [x.id, newId]
    && |s[2].node.childLeaves| == 2
  }

  lemma SortedSizes(t: BTree)
    requires t.Tip? && Sorted(t, None, None)
    ensures |t.keys| == |t.vals|
  {
  }

  lemma RootParts(t: BTree, m: Shelf, c: Shelf, index: bool, x: LocalNode)
    requires t.Tip? && Prepared(t, m, c, index, [x], []) && Sorted(t, None, None) && x.id == t.id && |t.keys| >= 2
    ensures !x.node.Inner? && Proper(x.node) && |RightNode(x.node).keys| > 0 && HeldFrom(m, c, [x], [])
    ensures x.id in m && LeafHolds(x.node, t.keys, t.vals, index)
  {
    assert [x][0].id in m;
  }

  lemma RootHeld(t: BTree, m: Shelf, c: Shelf, index: bool, x: LocalNode, s: seq<LocalNode>, id: int, newId: int)
    requires HeldFrom(m, c, [x], []) && RootTriple(x, s, id, newId) && id !in m && newId !in m && id != newId
    ensures DistinctKeys(Held(s, [])) && forall i :: 0 <= i < |s| ==> Held(s, [])[i].key !in c
    ensures x.id in m && c.Keys == m.Keys - {x.id}
  {
    hide LeftNode, RightNode;
    assert [x][0].id in m;
    forall z ensures z in c <==> z in m && z != x.id {
      FetchedMore([], [], x, z);
      assert [] + [x] == [x];
    }
    var bs := Held(s, []);
    assert bs[0].key == x.id && bs[1].key == newId && bs[2].key == id;
  }

  /** The blocks with the three nodes among them. */
  ghost predicate RootBlocks(m': Shelf, s: seq<LocalNode>)
    requires |s| == 3
  {
    forall i :: 0 <= i < 3 ==> s[i].id in m' && m'[s[i].id] == Block(s[i].id, s[i].leaf, s[i].node)
  }

  lemma RootEntries(x: LocalNode, s: seq<LocalNode>, id: int, newId: int, bs: seq<Block<BPlusNode>>)
    requires RootTriple(x, s, id, newId) && bs == Held(s, []) && DistinctKeys(bs)
    ensures forall i :: 0 <= i < 3 ==> s[i].id in ShelfOf(bs) && ShelfOf(bs)[s[i].id] == Block(s[i].id, s[i].leaf, s[i].node)
    ensures forall z :: z in ShelfOf(bs) <==> z == x.id || z == id || z == newId
  {
    hide DistinctKeys, LeftNode, RightNode, Proper;
    forall i | 0 <= i < 3
      ensures s[i].id in ShelfOf(bs) && ShelfOf(bs)[s[i].id] == Block(s[i].id, s[i].leaf, s[i].node)
    {
      ShelfHas(bs, i);
    }
    hide ShelfOf;
    forall z | z != x.id && z != id && z != newId ensures z !in ShelfOf(bs) {
      ShelfLacks(bs, z);
    }
    assert s[0].id == x.id && s[1].id == newId && s[2].id == id;
  }

  lemma RootWritten(m: Shelf, c: Shelf, x: LocalNode, s: seq<LocalNode>, id: int, newId: int)
    requires RootTriple(x, s, id, newId) && x.id in m && c.Keys == m.Keys - {x.id} && DistinctKeys(Held(s, []))
    ensures var m' := c + ShelfOf(Held(s, [])); RootBlocks(m', s) && m'.Keys == m.Keys + {id, newId}
  {
    hide DistinctKeys, LeftNode, RightNode, ShelfOf, Held, Proper;
    RootEntries(x, s, id, newId, Held(s, []));
    var m' := c + ShelfOf(Held(s, []));
    forall z ensures z in m' <==> z in m.Keys + {id, newId} {
    }
  }

  lemma RootHolds(t: BTree, index: bool, x: LocalNode, s: seq<LocalNode>, id: int, newId: int, m': Shelf)
    requires RootTriple(x, s, id, newId) && RootBlocks(m', s)
    requires t.Tip? && |t.keys| == |t.vals| >= 2 && x.id == t.id && LeafHolds(x.node, t.keys, t.vals, index)
    ensures Shape(NewRoot(t, id, newId), m', index)
    ensures PointersRight(m', {t.id, newId, id}) <==> s[2].node.childLeaves == [s[0].leaf, s[1].leaf]
  {
    HalvesHold(x.node, t, index, newId);
    hide LeafHolds, LeftNode, RightNode;
    var root := m'[s[2].id].value;
    assert m'[s[0].id].value == s[0].node && m'[s[1].id].value == s[1].node;
    RootPointers(m', s, t.id, newId, id);
    RootShape(t, m', index, id, newId);
  }

  lemma RootReads(m': Shelf, s: seq<LocalNode>)
    requires |s| == 3 && RootBlocks(m', s)
    ensures s[0].id in m' && s[1].id in m' && s[2].id in m' && m'[s[0].id].leaf == s[0].leaf && m'[s[1].id].leaf == s[1].leaf
    ensures m'[s[2].id].leaf == s[2].leaf && m'[s[2].id].value == s[2].node
    ensures s[2].node.Inner? && |s[2].node.childLeaves| == 2 ==>
              s[2].node.childLeaves == [s[2].node.childLeaves[0], s[2].node.childLeaves[1]]
  {
    assert m'[s[2].id].leaf == s[2].leaf;
  }

  lemma RootShape(t: BTree, m': Shelf, index: bool, id: int, newId: int)
    requires t.Tip? && |t.keys| == |t.vals| >= 2 && t.id in m' && newId in m' && id in m'
    requires LeafHolds(m'[t.id].value, LeftHalf(t).keys, LeftHalf(t).vals, index)
    requires LeafHolds(m'[newId].value, RightHalf(t, newId).keys, RightHalf(t, newId).vals, index)
    requires m'[id].value.Inner? && m'[id].value.keys == [RightHalf(t, newId).keys[0]] && m'[id].value.childIds == [t.id, newId]
    requires |m'[id].value.childLeaves| == 2
    ensures Shape(NewRoot(t, id, newId), m', index)
  {
    hide LeafHolds;
    var kids := NewRoot(t, id, newId).kids;
    assert Shape(kids[0], m', index) && Shape(kids[1], m', index);
  }

  lemma RootPointers(m': Shelf, s: seq<LocalNode>, left: int, right: int, id: int)
    requires |s| == 3 && RootBlocks(m', s) && s[0].id == left && s[1].id == right && s[2].id == id
    requires !s[0].node.Inner? && !s[1].node.Inner? && s[2].node.Inner?
    requires s[2].node.childIds == [left, right] && |s[2].node.childLeaves| == 2
    ensures PointersRight(m', {left, right, id}) <==> s[2].node.childLeaves == [s[0].leaf, s[1].leaf]
  {
    var root := s[2].node;
    assert m'[s[0].id].value == s[0].node && m'[s[1].id].value == s[1].node && m'[s[2].id].value == root;
    assert root.childLeaves == [root.childLeaves[0], root.childLeaves[1]];
    if PointersRight(m', {left, right, id}) {
      assert PointsRight(m', root, 0) && PointsRight(m', root, 1);
    }
  }

  class BPlusOmap {
    const order: nat
    const bucketSize: nat
    const index: bool
    // An inner tree of a forest does not pad its operations.
    const odsMode: bool
    const maxHeight: nat

    var oram: StashTree<BPlusNode>
    var rootId: int
    var rootLeaf: int
    var nextBlockId: int
    var local: seq<LocalNode>
    var siblings: seq<CachedSibling>
    var opCount: nat

    // The tree that the blocks hold, and its height.
    ghost var tree: Option<BTree>
    ghost var height: nat

    function Most(): nat
      requires order >= 2
    {
      MostKeys(order, index)
    }

    ghost predicate Valid()
      reads this, oram
    {
      && order >= 2 && maxHeight > 0 && oram.Quiet() && local == [] && siblings == [] && nextBlockId >= 0
      && (forall x :: x in oram.content ==> 0 <= x < nextBlockId)
      && if tree.Some? then TreeOk(tree.value, height, oram.content, index, Most()) && RootOk()
         else rootId == INVALID_KEY && height == 0
    }

    /** All of it except that pointers to children may be stale. */
    ghost predicate Sound()
      reads this, oram
    {
      && order >= 2 && maxHeight > 0 && oram.Quiet() && local == [] && siblings == [] && nextBlockId >= 0
      && (forall x :: x in oram.content ==> 0 <= x < nextBlockId)
      && if tree.Some? then TreeForm(tree.value, height, Most()) && Shape(tree.value, oram.content, index) && RootOk()
         else rootId == INVALID_KEY && height == 0
    }

    ghost predicate RootOk()
      reads this, oram
    {
      && tree.Some? && rootId == tree.value.id
      && rootId in oram.content && rootLeaf == oram.content[rootId].leaf
    }

    /** The map that the tree holds. */
    ghost function Map(): map<int, Bytes>
      requires tree.Some? ==> Sorted(tree.value, None, None)
      reads this
    {
      if tree.Some? then Contents(tree.value) else map[]
    }

    constructor (capacity: nat, order: nat, bucketSize: nat, index: bool)
      requires order >= 2
      ensures Valid() && Map() == map[] && oram.content == map[] && fresh(oram)
      ensures this.order == order && this.index == index && !odsMode && capacity <= Reach(order, index, maxHeight)
    {
      var h := HeightLimit(capacity, order, index);
      this.order, this.bucketSize, this.index, odsMode, maxHeight := order, bucketSize, index, false, h;
      oram := new StashTree<BPlusNode>.Empty(capacity, bucketSize, 7);
      rootId, rootLeaf, nextBlockId, local, siblings, opCount := INVALID_KEY, INVALID_LEAF, 0, [], [], 0;
      tree, height := None, 0;
    }

    /** A tree of at most `heightBound` levels inside another map. */
    constructor Inner(capacity: nat, order: nat, bucketSize: nat, index: bool, heightBound: nat)
      requires order >= 2 && heightBound > 0
      ensures Valid() && Map() == map[] && oram.content == map[] && fresh(oram)
      ensures this.order == order && this.index == index && odsMode && maxHeight == heightBound
    {
      this.order, this.bucketSize, this.index, odsMode, maxHeight := order, bucketSize, index, true, heightBound;
      oram := new StashTree<BPlusNode>.Empty(capacity, bucketSize, 7);
      rootId, rootLeaf, nextBlockId, local, siblings, opCount := INVALID_KEY, INVALID_LEAF, 0, [], [], 0;
      tree, height := None, 0;
    }

    // ----- Bulk loading -----

    method RandomLeaves(keys: set<int>) returns (leaves: map<int, nat>)
      ensures leaves.Keys == keys && forall k :: k in leaves ==> leaves[k] < oram.Range()
    {
      hide Pow2;
      leaves := map[];
      var todo := keys;
      while todo != {}
        invariant todo <= keys && leaves.Keys == keys - todo
        invariant forall k :: k in leaves ==> leaves[k] < oram.Range()
        decreases todo
      {
        var k := Pick(todo);
        var leaf := oram.RandomLeaf();
        leaves := leaves[k := leaf];
        todo := todo - {k};
      }
    }

    /** Makes `nodes` the blocks of an ORAM of their number. */
    method Load(nodes: NodeMap, next: int) returns (leaves: map<int, nat>)
      requires next >= 0
      modifies `oram
      ensures fresh(oram) && oram.Quiet() && oram.fetches == 0 && oram.content.Keys == nodes.Keys == leaves.Keys
      ensures forall k :: k in nodes ==> oram.content[k] == Block(k, leaves[k], PointedAll(nodes, leaves)[k])
    {
      hide Holds, Placed, Pow2, PointedAll;
      oram := new StashTree<BPlusNode>.Empty(if next < 1 then 1 else next, bucketSize, 7);
      leaves := RandomLeaves(nodes.Keys);
      LoadBlocks(PointedAll(nodes, leaves), leaves);
    }

    method LoadBlocks(nodes: NodeMap, leaves: map<int, nat>)
      requires oram.Quiet() && nodes.Keys == leaves.Keys && forall k :: k in leaves ==> leaves[k] < oram.Range()
      modifies oram
      ensures oram.Quiet() && oram.fetches == old(oram.fetches) && oram.content.Keys == nodes.Keys
      ensures forall k :: k in nodes ==> oram.content[k] == Block(k, leaves[k], nodes[k])
    {
      hide Holds, Placed, Pow2;
      var blocks := PathOrams.MakeBlocks(nodes, leaves);
      oram.LoadBlocks(blocks);
      forall k | k in nodes ensures k in oram.content {
        var j :| 0 <= j < |blocks| && blocks[j].key == k;
      }
      forall k | k in oram.content ensures k in nodes && oram.content[k] == Block(k, leaves[k], nodes[k]) {
        var j :| 0 <= j < |blocks| && blocks[j] == oram.content[k];
      }
    }

    /** Makes `data` the contents, in a new ORAM. Nothing is reset when there is no data. */
    method Init(data: Entries<Bytes>)
      requires Valid() && Distinct(data)
      modifies this
      ensures Valid() && Map() == Assoc(KeptAll(index, data)) && oram.fetches == if data == [] then old(oram.fetches) else 0
      ensures InReach() <==> |data| <= Reach(order, index, maxHeight)
    {
      hide StashTree.Quiet, TreeForm, Contents, Sorted, Shape, PointersRight, Assoc, KeptAll, Loaded, Distinct, Ascending,
           PointedAll;
      if data == [] {
        rootId, rootLeaf := INVALID_KEY, INVALID_LEAF;
        tree, height := None, 0;
        NothingKept(index);
        return;
      }
      var sorted := SortByKey(data);
      SortedKept(data, sorted, index);
      var nodes, root, next;
      ghost var t, h;
      nodes, root, next, t, h := BuildTree(sorted, order, index, Most());
      HeightExact(|data|, order, Most(), h, maxHeight);
      LoadedForm(t, h, nodes, next, index, Most(), data, sorted);
      Install(nodes, root, next, t, h, KeptAll(index, sorted));
    }

    /** Makes the nodes of `t` the map. */
    method Install(nodes: NodeMap, root: int, next: int, ghost t: BTree, ghost h: nat, ghost entries: Entries<Bytes>)
      requires order >= 2 && maxHeight > 0 && local == [] && siblings == [] && next >= 0
      requires Loaded(t, h, nodes, next, index, Most(), entries) && TreeForm(t, h, Most()) && root == t.id && root in nodes
      requires forall x :: x in nodes ==> 0 <= x < next
      modifies this
      ensures Valid() && tree == Some(t) && height == h && oram.fetches == 0 && local == [] && siblings == []
    {
      hide StashTree.Quiet, TreeForm, Loaded, Shape, PointersRight, PointedAll;
      var leaves := Load(nodes, next);
      LoadedRight(t, h, nodes, next, index, Most(), entries, leaves, oram.content);
      rootId, rootLeaf, nextBlockId := root, leaves[root], next;
      tree, height := Some(t), h;
    }

    // ----- ORAM accesses -----

    /** Fetches the path of `leaf` for the block of `id`. */
    method Fetch(id: int, leaf: nat) returns (ok: bool, node: BPlusNode)
      requires oram.Quiet() && id in oram.content && leaf == oram.content[id].leaf
      modifies `opCount, oram
      ensures !ok ==> oram.Overfull()
      ensures opCount == old(opCount) + 1 && oram.fetches == old(oram.fetches) + 1
      ensures ok ==> oram.Quiet() && oram.content == old(oram.content) - {id} && node == old(oram.content)[id].value
    {
      hide Holds, Placed, PathNodes, PathSum, Maximal, SameOutside;
      opCount := opCount + 1;
      oram.ReadPaths([leaf]);
      var block := oram.ExtractFromStash(id);
      node := block.value.value;
      ok := oram.EvictStash([leaf]);
    }

    method MoveToLocal(id: int, leaf: nat, parentId: int) returns (ok: bool)
      requires oram.Quiet() && id in oram.content && leaf == oram.content[id].leaf
      modifies `local, `opCount, oram
      ensures !ok ==> oram.Overfull()
      ensures opCount == old(opCount) + 1 && oram.fetches == old(oram.fetches) + 1
      ensures ok ==> oram.Quiet() && oram.content == old(oram.content) - {id}
      ensures ok ==> local == old(local) + [LocalNode(id, leaf, old(oram.content)[id].value, parentId)]
    {
      hide StashTree.Quiet;
      var node;
      ok, node := Fetch(id, leaf);
      local := local + [LocalNode(id, leaf, node, parentId)];
    }

    method MoveToSiblingCache(id: int, leaf: nat, parentLocalIdx: nat, childIdx: nat) returns (ok: bool)
      requires oram.Quiet() && id in oram.content && leaf == oram.content[id].leaf
      modifies `siblings, `opCount, oram
      ensures !ok ==> oram.Overfull()
      ensures opCount == old(opCount) + 1 && oram.fetches == old(oram.fetches) + 1
      ensures ok ==> oram.Quiet() && oram.content == old(oram.content) - {id}
      ensures ok ==> siblings == old(siblings) + [CachedSibling(id, leaf, old(oram.content)[id].value, parentLocalIdx, childIdx)]
    {
      hide StashTree.Quiet;
      var node;
      ok, node := Fetch(id, leaf);
      siblings := siblings + [CachedSibling(id, leaf, node, parentLocalIdx, childIdx)];
    }

    method TrackedDummy() returns (ok: bool)
      requires oram.Quiet()
      modifies `opCount, oram
      ensures !ok ==> oram.Overfull()
      ensures opCount == old(opCount) + 1 && oram.fetches == old(oram.fetches) + 1
      ensures ok ==> oram.Quiet() && oram.content == old(oram.content)
    {
      hide Holds, Placed, PathNodes, PathSum, Maximal, SameOutside;
      opCount := opCount + 1;
      var leaf := oram.RandomLeaf();
      oram.ReadPaths([leaf]);
      ok := oram.EvictStash([leaf]);
    }

    /** Dummy accesses up to the budget, unless this is an inner tree. */
    method PadToBudget() returns (ok: bool)
      requires oram.Quiet() && opCount <= 3 * maxHeight
      modifies `opCount, oram
      ensures !ok ==> oram.Overfull()
      ensures ok ==> oram.Quiet() && oram.content == old(oram.content)
      ensures ok ==> oram.fetches == old(oram.fetches) + if odsMode then 0 else 3 * maxHeight - old(opCount)
    {
      hide Holds, Placed;
      if odsMode { return true; }
      var pad := 3 * maxHeight - opCount;
      ghost var start := opCount;
      for i := 0 to pad
        invariant oram.Quiet() && oram.content == old(oram.content)
        invariant opCount == start + i && oram.fetches == old(oram.fetches) + i
      {
        ok := TrackedDummy();
        if !ok { return; }
      }
      ok := true;
    }

    // ----- Going down -----

    static method FindChildIndex(node: BPlusNode, key: int) returns (i: nat)
      ensures i == ChildIndex(node.keys, key)
    {
      i := 0;
      while i < |node.keys| && key >= node.keys[i]
        invariant i <= |node.keys| && ChildFrom(node.keys, key, 0) == ChildFrom(node.keys, key, i)
      {
        i := i + 1;
      }
    }

    /** Position of `key` in a leaf, or -1. */
    static method FindLeafIndex(node: BPlusNode, key: int) returns (i: int)
      ensures i == if KeyFrom(node.keys, key, 0) < |node.keys| then KeyFrom(node.keys, key, 0) else -1
    {
      for j := 0 to |node.keys|
        invariant KeyFrom(node.keys, key, 0) == KeyFrom(node.keys, key, j)
      {
        if node.keys[j] == key { return j; }
      }
      i := -1;
    }

    /** What a traversal leaves: the path to the leaf, or as much of it as there is time for. */
    ghost predicate Traversed(t: BTree, m: Shelf, key: int)
      reads this, oram
    {
      && oram.Quiet() && Taken(t, m, oram.content, local, siblings)
      && |local| == (if height <= maxHeight then height else maxHeight) && |local| > 0
      && if height <= maxHeight then
           && local[|local| - 1].id == LeafFor(t, key).id && LeafFor(t, key).Tip? && Shape(LeafFor(t, key), m, index)
           && (t.Tip? ==> |local| == 1) && (t.Fork? ==> |local| > 1 && local[|local| - 2].id == ParentFor(t, key).id)
         else local[|local| - 1].node.Inner?
    }

    lemma LeafReached(t: BTree, cur: BTree, h: nat, m: Shelf, c: Shelf, before: seq<LocalNode>,
                      siblings: seq<CachedSibling>, index: bool, key: int)
      requires oram.Quiet() && Taken(t, m, oram.content, local, siblings) && this.siblings == siblings && this.index == index
      requires DownTo(t, cur, m, c, before, siblings, key) && cur.Tip? && LeafFor(t, key) == cur && Shape(cur, m, index)
      requires |local| == |before| + 1 <= maxHeight && local[..|before|] == before && local[|before|].id == cur.id
      requires height == |local|
      ensures Traversed(t, m, key)
    {
      hide StashTree.Quiet, HeldFrom, Chain, Shape;
    }

    lemma BlocksKeyed()
      requires oram.Quiet()
      ensures Keyed(oram.content)
    {
      hide Holds, Placed;
    }

    /** Not enough levels. */
    lemma LeafBelow(t: BTree, cur: BTree, m: Shelf, key: int)
      requires oram.Quiet() && DownTo(t, cur, m, oram.content, local, siblings, key)
      requires height > maxHeight == |local| > 0 && local[|local| - 1].node.Inner?
      ensures Traversed(t, m, key)
    {
      hide StashTree.Quiet, HeldFrom, Chain, Shape;
    }

    /** Fetches the sibling beside child `ci` of the last node, on the left if there is one. */
    method FetchSibling(ci: nat, ghost t: BTree, ghost cur: BTree, ghost m: Shelf)
      returns (ok: bool)
      requires oram.Quiet() && Taken(t, m, oram.content, local, siblings) && Keyed(m) && Shape(cur, m, index) && Apart(cur)
      requires cur.Fork? && forall x :: x in Ids(cur) && x != cur.id ==> !Fetched(local, siblings, x)
      requires |local| > 0 && local[|local| - 1].id == cur.id && local[|local| - 1].node == m[cur.id].value
      requires ci < |cur.kids| && forall j :: 0 <= j < |cur.kids| ==> PointsRight(m, m[cur.id].value, j)
      modifies `siblings, `opCount, oram
      ensures !ok ==> oram.Overfull()
      ensures opCount == old(opCount) + 1 && oram.fetches == old(oram.fetches) + 1
      ensures ok ==> oram.Quiet() && Taken(t, m, oram.content, local, siblings) && Unfetched(Ids(cur.kids[ci]), local, siblings)
    {
      hide StashTree.Quiet, Taken, StashTree.Overfull, Keyed, Shape, Apart, Fetched;
      var node := local[|local| - 1].node;
      OnlyChild(t, cur, m, oram.content, local, siblings, index, ci);
      var sibling := if ci > 0 then ci - 1 else if ci + 1 < |node.childIds| then ci + 1 else -1;
      if sibling >= 0 {
        PathSibling(t, cur, m, oram.content, index, local, siblings, sibling);
        assert PointsRight(m, node, sibling);
        ok := MoveToSiblingCache(node.childIds[sibling], node.childLeaves[sibling], |local| - 1, sibling);
      } else {
        ok := TrackedDummy();
      }
    }

    /** Goes down towards `key`. On every level it fetches the next node and the sibling beside
        it, or a dummy if there is none. */
    method TraverseWithSiblings(key: int) returns (ok: bool)
      requires Valid() && tree.Some?
      modifies `local, `siblings, `opCount, oram
      ensures !ok ==> oram.Overfull()
      ensures ok ==> Traversed(tree.value, old(oram.content), key)
      ensures ok ==> opCount == old(opCount) + 2 * |local| && oram.fetches == old(oram.fetches) + 2 * |local|
    {
      hide StashTree.Quiet, Taken, Below, DownTo, TreeOk, Sorted, StashTree.Overfull, Keyed, Fetched, Traversed;
      local, siblings := [], [];
      ghost var t, m := tree.value, oram.content;
      BlocksKeyed();
      PathStarts(t, height, m, index, Most(), key);
      var curId, curLeaf := rootId, rootLeaf;
      ghost var cur := t;
      var d := 0;
      while d < maxHeight
        invariant d == |local| <= maxHeight && oram.Quiet() && (d > 0 ==> local[d - 1].node.Inner?)
        invariant opCount == old(opCount) + 2 * d && oram.fetches == old(oram.fetches) + 2 * d
        invariant height > d && Below(t, cur, height - d, m, index, key) && DownTo(t, cur, m, oram.content, local, siblings, key)
        invariant curId == cur.id && curId in m && curLeaf == m[curId].leaf
      {
        var parent := if local == [] then INVALID_KEY else local[|local| - 1].id;
        PathMore(t, cur, height - d, m, oram.content, index, local, siblings, key, parent);
        NodeOf(t, cur, height - d, height, m, index, Most(), key);
        ghost var before := local;
        ghost var c := oram.content;
        ok := MoveToLocal(curId, curLeaf, parent);
        if !ok { return; }
        var node := local[|local| - 1].node;
        if !node.Inner? {
          ok := TrackedDummy();
          if ok { LeafReached(t, cur, height - d, m, c, before, siblings, index, key); }
          return;
        }
        var ci := FindChildIndex(node, key);
        ok := FetchSibling(ci, t, cur, m);
        if !ok { return; }
        PathDown(t, cur, height - d, m, oram.content, index, local, siblings, key);
        curId, curLeaf := node.childIds[ci], node.childLeaves[ci];
        cur := cur.kids[ci];
        d := d + 1;
      }
      LeafBelow(t, cur, m, key);
      ok := true;
    }

    // ----- Writing back -----

    /** Tells the parent of child `id`, if it is in the list, that the child is at `leaf` now. */
    method LinkToParent(id: int, leaf: nat, parentId: int)
      modifies `local
      ensures |local| == |old(local)|
      ensures var at := ParentFrom(old(local), parentId, 0);
              forall y :: 0 <= y < |local| ==>
                local[y] == if y == at then old(local)[y].(node := WithLeaf(old(local)[y].node, id, leaf)) else old(local)[y]
    {
      var y := 0;
      while y < |local|
        invariant y <= |local| && local == old(local) && ParentFrom(local, parentId, 0) == ParentFrom(local, parentId, y)
      {
        if local[y].id == parentId && local[y].node.Inner? {
          LinkInNode(y, id, leaf);
          return;
        }
        y := y + 1;
      }
    }

    /** Sets the leaf of child `id` in node `y`. */
    method LinkInNode(y: nat, id: int, leaf: nat)
      requires y < |local| && local[y].node.Inner?
      modifies `local
      ensures local == old(local)[y := old(local)[y].(node := WithLeaf(old(local)[y].node, id, leaf))]
    {
      var n := local[y].node;
      var j := 0;
      while j < |n.childIds|
        invariant j <= |n.childIds| && KeyFrom(n.childIds, id, 0) == KeyFrom(n.childIds, id, j)
      {
        if n.childIds[j] == id {
          if j < |n.childLeaves| {
            local := local[y := local[y].(node := n.(childLeaves := n.childLeaves[j := leaf]))];
          }
          return;
        }
        j := j + 1;
      }
    }

    method DrawLeaves()
      modifies `local, `siblings
      ensures OtherLeaves(old(local), old(siblings), local, siblings)
      ensures forall i :: 0 <= i < |local| ==> local[i].leaf < oram.Range()
      ensures forall i :: 0 <= i < |siblings| ==> siblings[i].leaf < oram.Range()
    {
      hide Pow2;
      for i := |local| downto 0
        invariant |local| == |old(local)| && siblings == old(siblings)
        invariant forall j :: 0 <= j < i ==> local[j] == old(local)[j]
        invariant forall j :: i <= j < |local| ==>
                    local[j] == old(local)[j].(leaf := local[j].leaf) && local[j].leaf < oram.Range()
      {
        var leaf := oram.RandomLeaf();
        local := local[i := local[i].(leaf := leaf)];
      }
      for i := 0 to |siblings|
        invariant |siblings| == |old(siblings)| && |local| == |old(local)|
        invariant forall j :: 0 <= j < |local| ==>
                    local[j] == old(local)[j].(leaf := local[j].leaf) && local[j].leaf < oram.Range()
        invariant forall j :: i <= j < |siblings| ==> siblings[j] == old(siblings)[j]
        invariant forall j :: 0 <= j < i ==>
                    siblings[j] == old(siblings)[j].(leaf := siblings[j].leaf) && siblings[j].leaf < oram.Range()
      {
        var leaf := oram.RandomLeaf();
        siblings := siblings[i := siblings[i].(leaf := leaf)];
      }
    }

    /** Passes the new leaves of all fetched nodes on to their parents; `orphans` says that no
        node of the list has one. */
    method LinkAll(ghost orphans: bool)
      requires if orphans then Orphans(local) && siblings == [] else Linked(local, siblings)
      modifies `local
      ensures if orphans then local == old(local) else AllRepointed(old(local), local, LeavesOf(Held(old(local), siblings)))
    {
      hide Linked, EvenNode, Repointed, WithLeaf, DistinctKeys, LeavesOf, Held, Noted;
      ghost var s := local;
      ghost var leaves: map<int, nat> := map[];
      if !orphans {
        NothingNoted(s, siblings);
        LinkedApart(s, siblings);
      }
      for i := |local| downto 0
        invariant if orphans then local == s else AllRepointed(s, local, leaves) && Noted(s, siblings, i, 0, leaves)
      {
        var child := local[i];
        ghost var before := local;
        if !orphans {
          LocalNext(s, siblings, i, leaves);
          ParentIs(s, local, siblings, leaves, i);
        }
        if child.parentId != INVALID_KEY {
          LinkToParent(child.id, child.leaf, child.parentId);
        }
        if !orphans {
          LinkOne(s, before, local, leaves, if child.parentId == INVALID_KEY then |s| else ParentFrom(before, child.parentId, 0),
                  child.id, child.leaf);
          leaves := leaves[child.id := child.leaf];
        }
      }
      for i := 0 to |siblings|
        invariant if orphans then local == s else AllRepointed(s, local, leaves) && Noted(s, siblings, 0, i, leaves)
      {
        var child := siblings[i];
        SiblingNext(s, siblings, i, leaves);
        PositionIs(s, siblings, i);
        ghost var before := local;
        if child.id != INVALID_KEY && child.parentLocalIdx < |local| && local[child.parentLocalIdx].node.Inner? {
          LinkInNode(child.parentLocalIdx, child.id, child.leaf);
        }
        NotInner(child.id, child.leaf);
        LinkOne(s, before, local, leaves, child.parentLocalIdx, child.id, child.leaf);
        leaves := leaves[child.id := child.leaf];
      }
      if !orphans { AllNoted(s, siblings, leaves); }
    }

    /** Moves everything fetched to new leaves and repairs the pointers to it. */
    method ReassignAllLeaves(ghost orphans: bool)
      requires if orphans then Orphans(local) && siblings == [] else Linked(local, siblings)
      requires forall i, j :: 0 <= i < j < |local| ==> local[i].id != local[j].id
      modifies `local, `siblings, `rootLeaf
      ensures if orphans then OtherLeaves(old(local), old(siblings), local, siblings)
              else Reassigned(old(local), old(siblings), local, siblings)
      ensures forall i :: 0 <= i < |local| ==> local[i].leaf < oram.Range()
      ensures forall i :: 0 <= i < |siblings| ==> siblings[i].leaf < oram.Range()
      ensures forall i :: 0 <= i < |local| && local[i].id == rootId ==> rootLeaf == local[i].leaf
      ensures (forall i :: 0 <= i < |local| ==> local[i].id != rootId) ==> rootLeaf == old(rootLeaf)
    {
      hide Linked, Repointed, LeavesOf, Held, DistinctKeys, Pow2;
      DrawLeaves();
      ghost var s := local;
      if !orphans {
        LinkedStill(old(local), old(siblings), s, siblings);
        LinkedApart(s, siblings);
      }
      LinkAll(orphans);
      if !orphans { AllReassigned(old(local), old(siblings), s, siblings, local); }
      for i := 0 to |local|
        invariant forall j :: 0 <= j < i ==> local[j].id != rootId
        invariant rootLeaf == old(rootLeaf)
      {
        if local[i].id == rootId {
          rootLeaf := local[i].leaf;
          return;
        }
      }
    }

    /** Returns everything fetched to the stash. */
    method FlushAllToStash()
      requires oram.Valid() && DistinctKeys(Held(local, siblings))
      requires forall i :: 0 <= i < |local| ==> local[i].leaf < oram.Range()
      requires forall i :: 0 <= i < |siblings| ==> siblings[i].leaf < oram.Range() && siblings[i].id != INVALID_KEY
      requires forall i :: 0 <= i < |local| + |siblings| ==> Held(local, siblings)[i].key !in oram.content
      modifies `local, `siblings, oram
      ensures oram.Valid() && oram.pending == old(oram.pending) && oram.fetches == old(oram.fetches)
      ensures local == [] && siblings == [] && oram.content == old(oram.content) + ShelfOf(Held(old(local), old(siblings)))
    {
      hide Holds, Placed, Pow2, ShelfOf, DistinctKeys, Held;
      ghost var c, bs := oram.content, Held(local, siblings);
      NothingShelved(c, bs);
      for i := 0 to |local|
        invariant local == old(local) && siblings == old(siblings)
        invariant oram.Valid() && oram.pending == old(oram.pending) && oram.fetches == old(oram.fetches)
        invariant DistinctKeys(bs[..i]) && oram.content == c + ShelfOf(bs[..i])
      {
        ShelfStep(c, bs, i);
        oram.AddToStash(Block(local[i].id, local[i].leaf, local[i].node));
      }
      for i := 0 to |siblings|
        invariant local == old(local) && siblings == old(siblings)
        invariant oram.Valid() && oram.pending == old(oram.pending) && oram.fetches == old(oram.fetches)
        invariant DistinctKeys(bs[..|local| + i]) && oram.content == c + ShelfOf(bs[..|local| + i])
      {
        ShelfStep(c, bs, |local| + i);
        if siblings[i].id != INVALID_KEY {
          oram.AddToStash(Block(siblings[i].id, siblings[i].leaf, siblings[i].node));
        }
      }
      assert bs[..|bs|] == bs;
      local, siblings := [], [];
    }

    /** Ends an operation whose lists and blocks hold `t`. */
    method WriteBack(ghost t: BTree, ghost m: Shelf)
      requires oram.Quiet() && Prepared(t, m, oram.content, index, local, siblings)
      requires rootId == t.id && InList(local, rootId)
      modifies `local, `siblings, `rootLeaf, oram
      ensures oram.Quiet() && oram.fetches == old(oram.fetches) && local == [] && siblings == []
      ensures Shape(t, oram.content, index) && PointersRight(oram.content, Ids(t))
      ensures oram.content.Keys == m.Keys && rootId in oram.content && rootLeaf == oram.content[rootId].leaf
      ensures forall x :: x in m && x !in Ids(t) && !Fetched(old(local), old(siblings), x) ==> oram.content[x] == m[x]
    {
      hide Holds, Placed, Pow2, Shape, Ids, PointersRight, DistinctKeys, ShelfOf, Held, Linked, Reassigned, LeavesOf, Prepared;
      ghost var s, r, c := local, siblings, oram.content;
      PreparedLinked(t, m, c, index, s, r);
      LinkedApart(s, r);
      ReassignAllLeaves(false);
      ghost var s', r' := local, siblings;
      ReassignedRight(t, m, c, index, s, r, s', r', rootId);
      FlushAllToStash();
    }

    // ----- Search -----

    /** The tree is low enough for traversals to reach its leaves. */
    ghost predicate InReach()
      reads this
    {
      height <= maxHeight
    }

    /** Whether the last node of the path is a leaf with `key`, and which. */
    method AnswerFromLeaf(key: int) returns (found: bool, i: nat, value: Bytes)
      requires |local| > 0 && Proper(local[|local| - 1].node) && WordsFit(local[|local| - 1].node)
      ensures var n := local[|local| - 1].node;
              && (found <==> !n.Inner? && KeyFrom(n.keys, key, 0) < |n.keys|)
              && (found ==> i == KeyFrom(n.keys, key, 0) && value == LeafValue(n, i))
    {
      var n := local[|local| - 1].node;
      found, i, value := false, 0, [];
      if !n.Inner? {
        var at := FindLeafIndex(n, key);
        if at >= 0 {
          found, i, value := true, at, if n.Leaf? then n.values[at] else IntBytes(n.childIds[at]);
        }
      }
    }

    /** The root id is a real one exactly if there is a tree. */
    lemma IdsValid()
      requires Valid()
      ensures INVALID_KEY !in oram.content && (rootId == INVALID_KEY <==> tree.None?)
      ensures tree.Some? ==> TreeOk(tree.value, height, oram.content, index, Most()) && rootId == tree.value.id
      ensures tree.Some? ==> rootId in oram.content && Sorted(tree.value, None, None)
      ensures oram.Quiet()
    {
      hide StashTree.Quiet, Sorted, Level, Roomy, Apart, Shape, PointersRight;
    }

    /** What the client can tell from the last node of the path. */
    lemma PathFacts(t: BTree, m: Shelf, key: int)
      requires order >= 2 && TreeOk(t, height, m, index, Most()) && Traversed(t, m, key) && INVALID_KEY !in m
      ensures Prepared(t, m, oram.content, index, local, siblings) && oram.Quiet()
      ensures 0 < |local| <= maxHeight && InList(local, t.id)
      ensures var n := local[|local| - 1].node;
              && Proper(n) && WordsFit(n)
              && (!n.Inner? <==> InReach()) && (n.Leaf? ==> !index) && (n.IndexLeaf? ==> index)
              && (InReach() ==> LeafShown(n, t, key))
      ensures InReach() ==> local[|local| - 1].id == LeafFor(t, key).id
    {
      hide StashTree.Quiet, Prepared, Level, Roomy, Sorted, PointersRight, HeldFrom, Apart, LeafShown, LeafFor, Ids;
      hide Proper, WordsFit, Shape, Chain, LocalsIn;
      PathPrepared(t, m, oram.content, index, local, siblings);
      RootListed(t, m, local, siblings);
      SortedFormed(t, None, None);
      LastProper(t, m, oram.content, index, local, siblings);
      if InReach() {
        LastIs(m, oram.content, local, siblings);
        LeafIsShown(t, LeafFor(t, key), m, index, key);
      }
    }

    /** Whether its leaf has a parent. */
    lemma PathParent(t: BTree, m: Shelf, key: int)
      requires order >= 2 && TreeOk(t, height, m, index, Most()) && Traversed(t, m, key) && INVALID_KEY !in m
      requires t.id in m && rootLeaf == m[t.id].leaf
      ensures |local| > 0 && (t.Tip? ==> |local| == 1 && local[0].parentId == INVALID_KEY && siblings == [])
      ensures t.Tip? ==> local[0].leaf == rootLeaf
      ensures t.Fork? && InReach() ==> local[|local| - 1].parentId != INVALID_KEY
    {
      hide StashTree.Quiet, Roomy, Sorted, PointersRight, Apart, LeafFor, ParentFor, Ids, Shape, Level, HeldFrom, Chain;
      if t.Tip? {
        RootAlone(t, m, index, local, siblings, height, maxHeight);
        RootLeafHeld(t, m, oram.content, local, siblings);
      } else if InReach() {
        HasParent(m, t.id, local, siblings);
      }
    }

    /** The path has come to its end, and the lists are ready to be written back. */
    ghost predicate AtEnd(t: BTree, m: Shelf, key: int)
      reads this, oram
    {
      && order >= 2 && TreeForm(t, height, Most()) && oram.Quiet() && Prepared(t, m, oram.content, index, local, siblings)
      && rootId == t.id && 0 < |local| && InList(local, t.id) && (forall x :: x in m ==> 0 <= x < nextBlockId)
      && (t.Tip? ==> |local| == 1 && local[0].parentId == INVALID_KEY && siblings == [] && local[0].leaf == rootLeaf)
      && (t.Fork? && InReach() ==> local[|local| - 1].parentId != INVALID_KEY)
      && var n := local[|local| - 1].node;
         && Proper(n) && WordsFit(n)
         && (!n.Inner? <==> InReach()) && (n.Leaf? ==> !index) && (n.IndexLeaf? ==> index)
         && (InReach() ==> LeafShown(n, t, key) && local[|local| - 1].id == LeafFor(t, key).id)
    }

    /** Goes down to the leaf of `key`. */
    method GoToLeaf(key: int) returns (ok: bool)
      requires Valid() && tree.Some?
      modifies `local, `siblings, `opCount, oram
      ensures !ok ==> oram.Overfull()
      ensures ok ==> AtEnd(tree.value, old(oram.content), key) && opCount <= old(opCount) + 2 * maxHeight
      ensures ok ==> oram.fetches - opCount == old(oram.fetches) - old(opCount)
    {
      hide StashTree.Quiet, TreeForm, Traversed, Prepared, Sorted, Proper, WordsFit, Shape, LeafFor, PointersRight,
           StashTree.Overfull, InList, LeafShown;
      IdsValid();
      ghost var m := oram.content;
      ok := TraverseWithSiblings(key);
      if ok {
        PathFacts(tree.value, m, key);
        PathParent(tree.value, m, key);
      }
    }

    /** Writes `value` into entry `i` of the leaf. */
    method UpdateLeaf(key: int, i: nat, value: Bytes, ghost t: BTree, ghost m: Shelf)
      returns (ghost t': BTree, ghost m': Shelf)
      requires AtEnd(t, m, key) && local[|local| - 1].node.Leaf? && i == KeyFrom(local[|local| - 1].node.keys, key, 0)
      requires i < |local[|local| - 1].node.keys|
      modifies `local
      ensures order >= 2 && TreeForm(t', height, Most()) && Prepared(t', m', oram.content, index, local, siblings)
      ensures t'.id == t.id && InList(local, t.id) && m'.Keys == m.Keys
      ensures Sorted(t, None, None) && Sorted(t', None, None) && Contents(t') == Contents(t)[key := value]
    {
      hide StashTree.Quiet, Prepared, Level, Roomy, Apart, Contents, Sorted, WordsFit, Shape, LeafFor, Put, LeafShown, HeldFrom;
      var last := |local| - 1;
      PreparedShape(t, m, oram.content, index, local, siblings);
      PreparedHeld(t, m, oram.content, index, local, siblings);
      ShownFinds(local[last].node, t, key);
      UpdateForm(t, height, Most(), key, value);
      UpdateShape(t, m, local[last], key, i, value);
      var n := Leaf(local[last].node.keys, local[last].node.values[i := value]);
      t', m' := Put(t, key, value), m[local[last].id := Block(local[last].id, local[last].leaf, n)];
      LeafEdited(t, t', m, oram.content, index, local, siblings, last, n);
      HeldEdit(m, oram.content, local, siblings, last, n);
      local := WithNode(local, last, n);
    }

    /** Ends an operation whose lists and blocks hold `t`. */
    method Finish(ghost t: BTree, ghost m: Shelf) returns (ok: bool)
      requires order >= 2 && maxHeight > 0 && oram.Quiet() && opCount <= 3 * maxHeight
      requires TreeForm(t, height, Most()) && Prepared(t, m, oram.content, index, local, siblings)
      requires rootId == t.id && InList(local, rootId) && nextBlockId >= 0 && forall x :: x in m ==> 0 <= x < nextBlockId
      modifies `local, `siblings, `rootLeaf, `tree, `opCount, oram
      ensures !ok ==> oram.Overfull()
      ensures ok ==> Valid() && tree == Some(t)
      ensures ok ==> oram.fetches == old(oram.fetches) + if odsMode then 0 else 3 * maxHeight - old(opCount)
    {
      hide StashTree.Quiet, TreeForm, Prepared, Shape, PointersRight, StashTree.Overfull, InList, Fetched;
      WriteBack(t, m);
      tree := Some(t);
      ok := PadToBudget();
    }

    /** Looks `key` up and, outside index mode, overwrites its value if an update is given. */
    method Search(key: int, update: Option<Bytes>) returns (r: Result<Option<Bytes>>)
      requires Valid()
      modifies `local, `siblings, `rootLeaf, `opCount, `tree, oram
      ensures r.Err? ==> r.error == StashOverflow && oram.Overfull()
      ensures r.Ok? ==> Valid()
      ensures r.Ok? ==> r.value == if InReach() && key in old(Map()) then Some(old(Map())[key]) else None
      ensures r.Ok? ==> Map() == if InReach() && key in old(Map()) && update.Some? && !index then
                                   old(Map())[key := update.value] else old(Map())
      ensures r.Ok? && !odsMode ==> oram.fetches == old(oram.fetches) + 3 * maxHeight
    {
      hide StashTree.Quiet, TreeForm, Prepared, Contents, Sorted, Proper, WordsFit, Shape, LeafFor, PointersRight,
           StashTree.Overfull, InList, LeafValue;
      opCount := 0;
      IdsValid();
      if rootId == INVALID_KEY {
        var ok := PadToBudget();
        return if ok then Ok(None) else Err(StashOverflow);
      }
      ghost var t, m := tree.value, oram.content;
      LookupContents(t, key);
      hide Valid, Lookup;
      var ok := GoToLeaf(key);
      if !ok { return Err(StashOverflow); }
      var found, i, value := AnswerFromLeaf(key);
      if found && local[|local| - 1].node.Leaf? && update.Some? {
        t, m := UpdateLeaf(key, i, update.value, t, m);
      }
      ok := Finish(t, m);
      r := if ok then Ok(if found then Some(value) else None) else Err(StashOverflow);
    }

    // ----- Insertion -----

    static method LowerBound(keys: seq<int>, key: int) returns (i: nat)
      ensures i == LowerFrom(keys, key, 0)
    {
      i := 0;
      while i < |keys| && keys[i] < key
        invariant i <= |keys| && LowerFrom(keys, key, 0) == LowerFrom(keys, key, i)
      {
        i := i + 1;
      }
    }

    /** Puts a new entry into the leaf at the end of the path. */
    method PutIntoLeaf(key: int, value: Bytes, ghost t: BTree, ghost m: Shelf) returns (ghost t': BTree, ghost m': Shelf)
      requires AtEnd(t, m, key) && InReach() && Lookup(t, key).None?
      modifies `local
      ensures t' == Put(t, key, Kept(index, value)) && AtPut(t', m', key)
      ensures |local| == |old(local)| && m'.Keys == m.Keys && (forall i :: 0 <= i < |local| ==> local[i].id == old(local)[i].id)
      ensures local[|local| - 1] == old(local)[|local| - 1].(node := local[|local| - 1].node)
    {
      hide StashTree.Quiet, Prepared, Level, Roomy, Apart, Contents, Sorted, WordsFit, Shape, LeafFor, Put, HeldFrom, Lookup;
      var last := |local| - 1;
      var n := local[last].node;
      var at := LowerBound(n.keys, key);
      PreparedShape(t, m, oram.content, index, local, siblings);
      PreparedHeld(t, m, oram.content, index, local, siblings);
      InsertShape(t, m, index, local[last], key, value);
      PutSorted(t, None, None, key, Kept(index, value));
      PutLevel(t, height, key, Kept(index, value));
      var n' := WithEntry(n, at, key, value);
      t', m' := Put(t, key, Kept(index, value)), m[local[last].id := Block(local[last].id, local[last].leaf, n')];
      LeafEdited(t, t', m, oram.content, index, local, siblings, last, n');
      HeldEdit(m, oram.content, local, siblings, last, n');
      local := WithNode(local, last, n');
    }

    /** The leaf has its new entry. */
    ghost predicate AtPut(t: BTree, m: Shelf, key: int)
      reads this, oram
    {
      && Prepared(t, m, oram.content, index, local, siblings) && Sorted(t, None, None) && Level(t, height) && Apart(t)
      && rootId == t.id && 0 < |local| && InList(local, t.id)
      && var last := local[|local| - 1];
         && last.id == LeafFor(t, key).id && !last.node.Inner? && Proper(last.node) && LeafFor(t, key).Tip?
         && last.node.keys == LeafFor(t, key).keys && last.id in m && m[last.id].value == last.node
    }

    /** Splits the leaf at position `x` of the list; its right half is a new node. */
    method SplitLeaf(x: nat) returns (newId: int)
      requires x < |local| && !local[x].node.Inner? && Proper(local[x].node)
      modifies `local, `nextBlockId
      ensures newId == old(nextBlockId) && nextBlockId == newId + 1 && |local| == |old(local)| + 1
      ensures local[|old(local)|]
           == LocalNode(newId, local[|old(local)|].leaf, RightNode(old(local)[x].node), old(local)[x].parentId)
      ensures local == WithNode(old(local), x, LeftNode(old(local)[x].node)) + [local[|old(local)|]]
    {
      var n, parentId := local[x].node, local[x].parentId;
      newId := nextBlockId;
      nextBlockId := nextBlockId + 1;
      var leaf := oram.RandomLeaf();
      local := WithNode(local, x, LeftNode(n)) + [LocalNode(newId, leaf, RightNode(n), parentId)];
    }

    /** Enters the last node of the list, the new right half of node `x`, into their parent. */
    method EnterIntoParent(x: nat, parentId: int, ghost y: nat)
      requires x < |local| - 1 && y < |local| - 1 && y == ParentFrom(local, parentId, 0)
      requires |local[x].node.keys| > 0 && |local[|local| - 1].node.keys| > 0 && EvenLength(local[y].node)
      requires var i := ChildIndex(local[y].node.keys, local[x].node.keys[|local[x].node.keys| - 1]); i < |local[y].node.childIds|
      modifies `local
      ensures var (n, k) := (old(local)[|old(local)| - 1], old(local)[x].node.keys);
              local == WithNode(old(local), y, OpenedNode(old(local)[y].node, ChildIndex(old(local)[y].node.keys, k[|k| - 1]),
                                                          n.node.keys[0], n.id, n.leaf))
    {
      var n, k, z := local[|local| - 1], local[x].node.keys, 0;
      while local[z].id != parentId || !local[z].node.Inner?
        invariant z <= y && ParentFrom(local, parentId, 0) == ParentFrom(local, parentId, z)
        decreases y - z
      {
        z := z + 1;
      }
      var i := FindChildIndex(local[z].node, k[|k| - 1]);
      local := WithNode(local, z, OpenedNode(local[z].node, i, n.node.keys[0], n.id, n.leaf));
    }

    /** Splits the leaf of `key` below its parent. */
    method SplitUnderParent(key: int, ghost t: BTree, ghost m: Shelf) returns (ghost t': BTree, ghost m': Shelf)
      requires AtPut(t, m, key) && t.Fork? && Splits(t, key) && nextBlockId >= 0 && forall x :: x in m ==> x < nextBlockId
      modifies `local, `nextBlockId
      ensures nextBlockId == old(nextBlockId) + 1 && t' == SplitBelow(t, key, old(nextBlockId))
      ensures Prepared(t', m', oram.content, index, local, siblings) && InList(local, t.id)
      ensures m'.Keys == m.Keys + {old(nextBlockId)}
    {
      hide StashTree.Quiet, Prepared, Level, Apart, Contents, Sorted, Shape, LeafFor, HeldFrom, ParentFor, Splits, LeftNode,
           RightNode, Proper, ForkHolds;
      var x := |local| - 1;
      var parentId := local[x].parentId;
      ghost var s := local;
      ghost var y := ParentThere(t, m, oram.content, index, s, siblings, x, key);
      SplitReady(t, m, oram.content, index, s, siblings, x, y, key);
      var newId := SplitLeaf(x);
      ghost var n, i := local[x + 1], ChildIndex(s[y].node.keys, key);
      ParentStays(s, local, x, parentId);
      EnterIntoParent(x, parentId, y);
      assert local == SplitList(s, x, y, n, i);
      SplitDone(t, m, oram.content, index, s, siblings, x, y, n, key);
      t', m' := SplitBelow(t, key, newId), SplitShelf(m, s[x], s[y], n, i);
    }

    // ----- A full root leaf -----

    /** The only node is a full leaf. */
    ghost predicate FullRoot()
      requires order >= 2
      reads this
    {
      tree.Some? && tree.value.Tip? && |tree.value.keys| >= Most()
    }

    /** Both children of the root are at the leaves that it names, the first of them being `leaf`. */
    ghost predicate ChildrenThere(leaf: int)
      reads this, oram
    {
      && tree.Some? && tree.value.Fork? && |tree.value.kids| == 2 && tree.value.id in oram.content
      && tree.value.kids[0].id in oram.content && tree.value.kids[1].id in oram.content
      && var root := oram.content[tree.value.id].value;
         && root.Inner? && |root.childLeaves| == 2 && leaf == oram.content[tree.value.kids[0].id].leaf
         && root.childLeaves[1] == oram.content[tree.value.kids[1].id].leaf
    }

    /** Splits the root leaf and puts a new root above the halves. The new root takes the leaves
        that they have now, and does not learn of those that they get next. */
    method GrowRoot(ghost t: BTree, ghost m: Shelf, ghost x: LocalNode) returns (newId: int)
      requires local == [x] && siblings == [] && Orphans(local) && !x.node.Inner? && Proper(x.node)
      requires |RightNode(x.node).keys| > 0
      modifies `local, `nextBlockId, `rootId
      ensures newId == old(nextBlockId) && nextBlockId == newId + 2 && rootId == newId + 1
      ensures RootTriple(x, local, rootId, newId) && Orphans(local) && local[2].node.childLeaves[0] == x.leaf
    {
      hide LeftNode, RightNode;
      newId := SplitLeaf(0);
      rootId := nextBlockId;
      nextBlockId := nextBlockId + 1;
      var leaf := oram.RandomLeaf();
      var sep := local[1].node.keys[0];
      var root := BPlusNode.Inner([sep], [local[0].id, newId], [local[0].leaf, local[1].leaf]);
      local := local + [LocalNode(rootId, leaf, root, INVALID_KEY)];
    }

    /** Writes the new root and the two halves back. */
    method WriteRoot(ghost t: BTree, ghost m: Shelf, ghost x: LocalNode, ghost newId: int)
      requires oram.Valid() && HeldFrom(m, oram.content, [x], []) && RootTriple(x, local, rootId, newId) && Orphans(local)
      requires siblings == [] && rootId !in m && newId !in m && rootId != newId && x.id == t.id && t.id in m
      requires t.Tip? && |t.keys| == |t.vals| >= 2 && LeafHolds(x.node, t.keys, t.vals, index)
      modifies `local, `siblings, `rootLeaf, oram
      ensures oram.Valid() && oram.pending == old(oram.pending) && oram.fetches == old(oram.fetches)
      ensures local == [] && siblings == [] && oram.content.Keys == m.Keys + {rootId, newId}
      ensures Shape(NewRoot(t, rootId, newId), oram.content, index)
      ensures t.id in oram.content && newId in oram.content && rootId in oram.content
      ensures rootLeaf == oram.content[rootId].leaf && oram.content[rootId].value == old(local[2].node)
      ensures PointersRight(oram.content, {t.id, newId, rootId})
         <==> old(local[2].node).childLeaves == [oram.content[t.id].leaf, oram.content[newId].leaf]
    {
      hide StashTree.Valid, Shape, PointersRight, HeldFrom, LeftNode, RightNode, Held, ShelfOf, DistinctKeys, RootBlocks,
           LeafHolds;
      ghost var c := oram.content;
      ReassignAllLeaves(true);
      ghost var s' := local;
      RootHeld(t, m, c, index, x, s', rootId, newId);
      FlushAllToStash();
      RootWritten(m, c, x, s', rootId, newId);
      RootHolds(t, index, x, s', rootId, newId, oram.content);
      RootReads(oram.content, s');
    }

    method SplitRoot(key: int, ghost t: BTree, ghost m: Shelf)
      requires AtPut(t, m, key) && t.Tip? && |local| == 1 && siblings == [] && order >= 2 && |t.keys| == Most() + 1
      requires oram.Quiet() && Orphans(local) && nextBlockId >= 0 && forall x :: x in m ==> 0 <= x < nextBlockId
      modifies `local, `siblings, `nextBlockId, `rootId, `rootLeaf, `tree, `height, oram
      ensures oram.Quiet() && oram.fetches == old(oram.fetches) && local == [] && siblings == [] && nextBlockId >= 0
      ensures tree.Some? && height == 2 && TreeForm(tree.value, 2, Most()) && Contents(tree.value) == Contents(t)
      ensures Shape(tree.value, oram.content, index) && RootOk() && forall x :: x in oram.content ==> 0 <= x < nextBlockId
      ensures PointersRight(oram.content, Ids(tree.value)) <==> ChildrenThere(old(local[0].leaf))
    {
      hide StashTree.Valid, Prepared, Sorted, Level, Apart, Shape, PointersRight, Contents, HeldFrom, LeftNode, RightNode,
           Roomy, LeafFor, InList, LeafHolds, LeftHalf, RightHalf;
      ghost var x := local[0];
      assert local == [x];
      RootParts(t, m, oram.content, index, x);
      SortedSizes(t);
      ghost var newId := GrowRoot(t, m, x);
      ghost var root := local[2].node;
      WriteRoot(t, m, x, newId);
      NewRootForm(t, Most(), rootId, newId);
      NewRootIds(t, rootId, newId);
      NewRootKids(t, rootId, newId);
      tree, height := Some(NewRoot(t, rootId, newId)), 2;
      assert root.childLeaves == [root.childLeaves[0], root.childLeaves[1]];
    }

    /** The first entry of an empty map. */
    method InsertFirst(key: int, value: Bytes)
      requires Valid() && tree.None?
      modifies `rootId, `rootLeaf, `nextBlockId, `tree, `height, oram
      ensures Valid() && Map() == map[key := Kept(index, value)] && oram.fetches == old(oram.fetches) && height == 1
    {
      hide Holds, Placed, Contents, Pow2, TreeForm, Shape, PointersRight, Sorted, Kept, BytesToInt;
      var id, node := nextBlockId, if index then IndexLeaf([key], [BytesToInt(value)]) else Leaf([key], [value]);
      nextBlockId := nextBlockId + 1;
      var leaf := oram.RandomLeaf();
      oram.AddToStash(Block(id, leaf, node));
      rootId, rootLeaf := id, leaf;
      tree, height := Some(Tip(id, [key], [Kept(index, value)])), 1;
      OneEntry(id, key, value, index, oram.content, Most());
    }

    /** Inserts below the path, without a new root. */
    method InsertBelow(key: int, value: Bytes, ghost t: BTree, ghost m: Shelf) returns (ghost t': BTree, ghost m': Shelf)
      requires AtEnd(t, m, key) && InReach() && Lookup(t, key).None? && (HasRoom(t, key, Most()) || t.Fork?) && nextBlockId >= 0
      modifies `local, `nextBlockId
      ensures order >= 2 && TreeForm(t', height, Most()) && Prepared(t', m', oram.content, index, local, siblings)
      ensures t'.id == t.id && InList(local, t.id) && nextBlockId >= 0 && forall x :: x in m' ==> 0 <= x < nextBlockId
      ensures Sorted(t, None, None) && Sorted(t', None, None) && Contents(t') == Contents(t)[key := Kept(index, value)]
    {
      hide StashTree.Quiet, Prepared, Sorted, Level, Roomy, Apart, Contents, Put, LeafFor, Lookup, Splits, Shape, PutTip, InList,
           SplitBelow, Proper, WordsFit;
      ghost var v := Kept(index, value);
      InsertedContents(t, key, v, Most(), nextBlockId);
      ghost var newId := nextBlockId;
      InsertedForm(t, height, Most(), key, v, newId, m, oram.content, index, local, siblings);
      LeafGrows(t, key, v);
      t', m' := PutIntoLeaf(key, value, t, m);
      if |local[|local| - 1].node.keys| > Most() {
        t', m' := SplitUnderParent(key, t', m');
      }
    }

    /** Inserts a new key. A full root leaf gets a new root above it, whose pointers are not kept
        up; see `ChildrenThere`. */
    method Insert(key: int, value: Bytes) returns (r: Result<()>)
      requires Valid() && key !in Map()
      modifies this, oram
      ensures r.Err? ==> r.error == StashOverflow && oram.Overfull()
      ensures r.Ok? ==> Sound() && Map() == if old(InReach()) then old(Map())[key := Kept(index, value)] else old(Map())
      ensures r.Ok? ==> (Valid() <==> (old(FullRoot()) ==> ChildrenThere(old(rootLeaf))))
      ensures r.Ok? && old(tree.Some? && !FullRoot()) ==> height == old(height)
      ensures r.Ok? && !odsMode ==> oram.fetches == old(oram.fetches) + 3 * maxHeight
    {
      hide StashTree.Quiet, TreeForm, Prepared, Sorted, Contents, Shape, PointersRight, Lookup, StashTree.Overfull, InList,
           LeafFor;
      opCount := 0;
      IdsValid();
      if rootId == INVALID_KEY {
        InsertFirst(key, value);
        var ok := PadToBudget();
        return if ok then Ok(()) else Err(StashOverflow);
      }
      ghost var t, m := tree.value, oram.content;
      LookupContents(t, key);
      var ok := GoToLeaf(key);
      if !ok { return Err(StashOverflow); }
      var last := local[|local| - 1];
      TipAlone(last.node, t, height, Most(), key);
      if !last.node.Inner? && |last.node.keys| >= Most() && last.parentId == INVALID_KEY {
        ok := InsertAbove(key, value, t, m);
      } else {
        if !last.node.Inner? {
          ShownRoom(last.node, t, key, Most());
          t, m := InsertBelow(key, value, t, m);
        }
        ok := Finish(t, m);
      }
      r := if ok then Ok(()) else Err(StashOverflow);
    }

    /** Inserts into a full root leaf. */
    method InsertAbove(key: int, value: Bytes, ghost t: BTree, ghost m: Shelf) returns (ok: bool)
      requires AtEnd(t, m, key) && InReach() && Lookup(t, key).None? && t.Tip? && opCount <= 3 * maxHeight && maxHeight > 0
      requires |local[|local| - 1].node.keys| >= Most() && nextBlockId >= 0
      modifies `local, `siblings, `nextBlockId, `rootId, `rootLeaf, `tree, `height, `opCount, oram
      ensures !ok ==> oram.Overfull()
      ensures ok ==> Sound() && Sorted(t, None, None) && Map() == Contents(t)[key := Kept(index, value)]
      ensures ok ==> (Valid() <==> ChildrenThere(old(local[0].leaf)))
      ensures ok ==> oram.fetches == old(oram.fetches) + if odsMode then 0 else 3 * maxHeight - old(opCount)
    {
      hide StashTree.Quiet, Prepared, Contents, Shape, PointersRight, Lookup, StashTree.Overfull, InList, Sorted, Level, Apart;
      PutContents(t, key, Kept(index, value));
      LeafGrows(t, key, Kept(index, value));
      ghost var t', m' := PutIntoLeaf(key, value, t, m);
      SplitRoot(key, t', m');
      ok := PadToBudget();
    }

    /** As many fetches as any other operation. */
    method DummyAccess() returns (r: Result<()>)
      requires Valid()
      modifies `opCount, oram
      ensures r.Err? ==> r.error == StashOverflow && oram.Overfull()
      ensures r.Ok? ==> Valid() && Map() == old(Map()) && oram.content == old(oram.content)
      ensures r.Ok? ==> oram.fetches == old(oram.fetches) + if odsMode then 0 else 3 * maxHeight
    {
      hide StashTree.Quiet, TreeForm, Shape, PointersRight, StashTree.Overfull;
      opCount := 0;
      var ok := PadToBudget();
      r := if ok then Ok(()) else Err(StashOverflow);
    }
  }
}
