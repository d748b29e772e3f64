/** Many AVL trees in one ORAM (da_ost_omap, AVL inner tree): keys are hashed to positions, each
    position has its own tree, and the client keeps every tree's root pointer. */
module Forests {
  import opened Common
  import opened StashTrees
  import opened AvlTrees
  import opened AvlLocal
  import opened AvlRep
  import opened AvlInit
  import opened AvlOmaps
  import opened AvlSteps
  import opened Counters
  import opened DaOrams
  import opened Groves

  /** A root pointer: key and leaf. */
  type Root = (int, int)

  /** The trees share the blocks `c`: every block belongs to the tree its key is hashed to. */
  ghost predicate Planted<V>(trees: seq<Tree<V>>, roots: seq<Root>, c: Cells<V>, capacity: nat, pos: int -> nat) {
    && |trees| == |roots|
    && (forall p :: 0 <= p < |trees| ==> TreeOk(trees[p], c, capacity) && RootRight(roots[p].0, roots[p].1, trees[p], c))
    && (forall p, k :: 0 <= p < |trees| && k in Keys(trees[p]) ==> pos(k) == p)
    && (forall k :: k in c ==> pos(k) < |trees| && k in Keys(trees[pos(k)]))
  }

  /** The map the forest represents. */
  ghost function Union<V>(c: Cells<V>): map<int, V> {
    map k | k in c :: c[k].value.data
  }

  lemma {:induction false} StoredContents<V>(t: Tree<V>, c: Cells<V>)
    requires Stored(t, c) && Ordered(t)
    ensures forall k :: k in Keys(t) ==> k in c && k in Contents(t) && Contents(t)[k] == c[k].value.data
  {
    if t.Node? {
      StoredContents(t.left, c);
      StoredContents(t.right, c);
      ContentsKeys(t.left);
      ContentsKeys(t.right);
      OrderedNode(t);
      assert t.key in c && c[t.key].value.data == t.value;
      hide Stored, Ordered, Keys, Contents;
      forall k | k in Keys(t) ensures k in c && k in Contents(t) && Contents(t)[k] == c[k].value.data {
        NodeContents(t, k);
      }
    }
  }

  lemma TreeOkFrame<V>(t: Tree<V>, c: Cells<V>, c': Cells<V>, capacity: nat, root: Root)
    requires TreeOk(t, c, capacity) && RootRight(root.0, root.1, t, c)
    requires forall k :: k in Keys(t) ==> k in c && k in c' && c'[k] == c[k]
    ensures TreeOk(t, c', capacity) && RootRight(root.0, root.1, t, c')
  {
    hide Ordered, Balanced, Size;
    StoredFrame(t, c, c');
    RootIsKey(t);
  }

  /** An operation on one tree leaves all the others as they are. */
  lemma OneTreeChanged<V>(trees: seq<Tree<V>>, roots: seq<Root>, c: Cells<V>, c': Cells<V>, capacity: nat, pos: int -> nat,
                          p: nat, t': Tree<V>, root': Root)
    requires Planted(trees, roots, c, capacity, pos) && p < |trees|
    requires TreeOk(t', c', capacity) && RootRight(root'.0, root'.1, t', c')
    requires c' - Keys(t') == c - Keys(trees[p]) && forall k :: k in Keys(t') ==> pos(k) == p
    ensures Planted(trees[p := t'], roots[p := root'], c', capacity, pos)
  {
    hide TreeOk, RootRight, Keys;
    var ts, rs := trees[p := t'], roots[p := root'];
    TreeOkKeys(t', c', capacity);
    forall q | 0 <= q < |ts| ensures TreeOk(ts[q], c', capacity) && RootRight(rs[q].0, rs[q].1, ts[q], c') {
      if q != p {
        OthersKept(trees, c, c', pos, p, q, t', capacity);
        TreeOkFrame(trees[q], c, c', capacity, roots[q]);
      }
    }
    forall k | k in c' ensures pos(k) < |ts| && k in Keys(ts[pos(k)]) {
      if k !in Keys(t') {
        assert k in c' - Keys(t');
        assert k in c - Keys(trees[p]);
      }
    }
  }

  lemma TreeOkKeys<V>(t: Tree<V>, c: Cells<V>, capacity: nat)
    requires TreeOk(t, c, capacity)
    ensures forall k :: k in Keys(t) ==> k in c && k >= 0
  {
    StoredKeys(t, c);
  }

  lemma OthersKept<V>(trees: seq<Tree<V>>, c: Cells<V>, c': Cells<V>, pos: int -> nat, p: nat, q: nat, t': Tree<V>, capacity: nat)
    requires p < |trees| && q < |trees| && q != p && TreeOk(trees[q], c, capacity)
    requires forall r, k :: 0 <= r < |trees| && k in Keys(trees[r]) ==> pos(k) == r
    requires c' - Keys(t') == c - Keys(trees[p])
    ensures forall k :: k in Keys(trees[q]) ==> k in c && k in c' && c'[k] == c[k]
  {
    hide TreeOk, Keys;
    TreeOkKeys(trees[q], c, capacity);
    forall k | k in Keys(trees[q]) ensures k in c && k in c' && c'[k] == c[k] {
      assert pos(k) == q;
      assert k !in Keys(trees[p]);
      assert k in c - Keys(trees[p]);
      assert (c' - Keys(t'))[k] == (c - Keys(trees[p]))[k];
    }
  }

  /** What an operation on one tree does to the whole map. */
  lemma OneMapChanged<V>(trees: seq<Tree<V>>, c: Cells<V>, c': Cells<V>, p: nat, t': Tree<V>)
    requires p < |trees| && Stored(trees[p], c) && Ordered(trees[p]) && Stored(t', c') && Ordered(t')
    requires c' - Keys(t') == c - Keys(trees[p])
    ensures forall k :: k in Union(c') <==> k in Contents(t') || (k in Union(c) && k !in Contents(trees[p]))
    ensures forall k :: k in Contents(t') ==> Union(c')[k] == Contents(t')[k]
    ensures forall k :: k in Union(c) && k !in Contents(trees[p]) && k !in Contents(t') ==>
              k in Union(c') && Union(c')[k] == Union(c)[k]
    ensures forall k :: k in Contents(trees[p]) ==> k in Union(c) && Union(c)[k] == Contents(trees[p])[k]
  {
    hide Keys, Contents, Stored, Ordered;
    StoredContents(trees[p], c);
    StoredContents(t', c');
    ContentsKeys(trees[p]);
    ContentsKeys(t');
    var a, b := c' - Keys(t'), c - Keys(trees[p]);
    forall k ensures k in c' <==> k in Keys(t') || (k in c && k !in Keys(trees[p])) {
      assert k in a <==> k in b;
    }
    forall k | k in c && k !in Keys(trees[p]) && k !in Keys(t') ensures k in c' && c'[k] == c[k] {
      assert k in b && a[k] == b[k];
    }
  }

  /** The changed tree has lost, kept or gained only keys of its own position. */
  lemma SamePosition<V>(t: Tree<V>, t': Tree<V>, extra: set<int>, pos: int -> nat, p: nat)
    requires Contents(t').Keys <= Contents(t).Keys + extra
    requires (forall k :: k in Keys(t) ==> pos(k) == p) && forall k :: k in extra ==> pos(k) == p
    ensures forall k :: k in Keys(t') ==> pos(k) == p
  {
    ContentsKeys(t);
    ContentsKeys(t');
  }

  class Forest<V> {
    const inner: AvlOmap<V>
    const positions: DaOram<Root>
    const numPositions: nat
    const hash: int -> nat

    var rootCache: seq<Root>

    ghost var trees: seq<Tree<V>>

    function Position(key: int): nat
      requires numPositions > 0
    {
      hash(key) % numPositions
    }

    function PositionOf(): int -> nat {
      if numPositions > 0 then k => hash(k) % numPositions else k => 0
    }

    ghost predicate Separate() {
      && inner.oram as object != positions.store as object
      && forall i :: 0 <= i < |positions.posMaps| ==> inner.oram as object != positions.posMaps[i] as object
    }

    ghost predicate Valid()
      reads this, inner, inner.oram, positions, positions.posMaps, positions.store
    {
      && numPositions > 0 && |trees| == numPositions && Separate()
      && inner.Rooted() && inner.odsMode && Planted(trees, rootCache, inner.oram.content, inner.capacity, PositionOf())
      && positions.Valid() && positions.numData == numPositions
      && forall p :: 0 <= p < numPositions ==> p in positions.Contents()
    }

    /** The stash of one of the ORAMs has overflowed. */
    ghost predicate Overfull()
      reads inner.oram, positions.posMaps, positions.store
    {
      inner.oram.Overfull() || positions.Overfull()
    }

    ghost function Map(): map<int, V>
      reads this, inner, inner.oram
    {
      Union(inner.oram.content)
    }

    constructor Blank(capacity: nat, numPositions: nat, treeCapacity: nat, maxHeight: nat, bucketSize: nat, prf: Prf,
        hash: int -> nat)
      requires treeCapacity < Fib(maxHeight + 3) - 1 && numPositions > 0
      ensures inner.Rooted() && inner.odsMode && inner.capacity == treeCapacity && inner.maxHeight == maxHeight
      ensures positions.Built() && positions.numData == numPositions == this.numPositions
      ensures Separate() && this.hash == hash
    {
      hide AvlOmap.Rooted, DaOram.Built, DaOram.Sized, Fib;
      inner := new AvlOmap<V>.Inner(capacity, treeCapacity, maxHeight, bucketSize);
      positions := new DaOram<Root>(numPositions, bucketSize, 20, 64, 64, 10, prf);
      this.numPositions, this.hash := numPositions, hash;
      rootCache, trees := [], [];
    }

    // ----- Loading -----

    /** Entries can be distributed: real, distinct keys, and no position overfull. */
    ghost predicate Loadable(data: Entries<V>) {
      && Distinct(data) && (forall i :: 0 <= i < |data| ==> data[i].0 >= 0)
      && forall p :: 0 <= p < numPositions ==> |Hashed(data, PositionOf(), p)| <= inner.capacity
    }

    /** Builds a balanced tree at every position and loads all nodes into the one ORAM. */
    method Load(data: Entries<V>)
      requires inner.Rooted() && inner.odsMode && positions.Built() && Separate()
      requires positions.numData == numPositions > 0 && Loadable(data)
      modifies this, inner.oram, positions, positions.posMaps, positions.store
      ensures Valid() && Distinct(data) && Map() == Assoc(data)
    {
      hide AvlOmap.Rooted, AvlOmap.Valid, DaOram.Valid, DaOram.Built, DaOram.Contents, Planted, Union, Assoc, Distinct, Grove,
           HoldsHashed, Pointed;
      var pos := PositionOf();
      var roots, nodes;
      ghost var ts;
      roots, nodes, ts := Grow(data, pos, numPositions);
      nodes := FixAll(roots, nodes, pos, ts);
      var leaves := LoadNodes(nodes);
      trees := ts;
      rootCache := RootPointers(roots, leaves);
      GrovePlanted(data, ts, roots, rootCache, nodes, leaves, inner.oram.content, inner.capacity, pos);
      var shown := map p: int | 0 <= p < numPositions :: rootCache[p];
      positions.Init(shown);
    }

    /** Puts every node into a block at a random leaf, children's leaves filled in. */
    method LoadNodes(nodes: Nodes<V>) returns (leaves: map<int, nat>)
      requires inner.Rooted()
      modifies inner.oram
      ensures inner.Rooted() && leaves.Keys == nodes.Keys == inner.oram.content.Keys
      ensures forall k :: k in nodes ==> inner.oram.content[k] == Block(k, leaves[k], Pointed(nodes[k], leaves))
    {
      hide StashTree.Quiet, Pointed, Fib, StashTree.Range;
      leaves := inner.RandomLeaves(nodes.Keys);
      var pointed := PointAll(nodes, leaves);
      inner.Load(pointed, leaves);
    }

    /** Points the inner map at the tree of a position; the access to the position ORAM is only
        for show. */
    method Enter(pos: nat) returns (ok: bool)
      requires Valid() && pos < numPositions
      modifies inner`rootKey, inner`rootLeaf, inner`tree, positions, positions.posMaps, positions.store
      ensures !ok ==> Overfull()
      ensures ok ==> Valid() && inner.Valid() && inner.tree == trees[pos] && positions.Contents() == old(positions.Contents())
    {
      hide AvlOmap.Rooted, DaOram.Valid, DaOram.Contents, TreeOk, RootRight;
      var (rk, rl) := rootCache[pos];
      assert pos in positions.Contents();
      var shown := positions.Access(pos, None);
      if shown.Err? { assert shown.error.StashOverflow?; return false; }
      assert positions.Contents() == old(positions.Contents());
      inner.SetRoot(rk, rl, trees[pos]);
      inner.Selected();
      ok := true;
    }

    /** Remembers the inner map's root pointer for a position. */
    method Leave(pos: nat, ghost before: Cells<V>)
      requires pos < |rootCache| && inner.Valid() && Planted(trees, rootCache, before, inner.capacity, PositionOf())
      requires inner.oram.content - Keys(inner.tree) == before - Keys(trees[pos])
      requires forall k :: k in Keys(inner.tree) ==> PositionOf()(k) == pos
      modifies `rootCache, `trees
      ensures Planted(trees, rootCache, inner.oram.content, inner.capacity, PositionOf())
      ensures inner.Rooted() && trees == old(trees)[pos := inner.tree]
      ensures forall p :: 0 <= p < |rootCache| && p != pos ==> rootCache[p] == old(rootCache)[p]
      ensures |rootCache| == |old(rootCache)|
    {
      hide AvlOmap.Rooted, AvlOmap.Valid, Planted, TreeOk, RootRight;
      inner.Selected();
      PlantedSizes(trees, rootCache, before, inner.capacity, PositionOf());
      OneTreeChanged(trees, rootCache, before, inner.oram.content, inner.capacity, PositionOf(), pos, inner.tree,
                     (inner.rootKey, inner.rootLeaf));
      rootCache := rootCache[pos := (inner.rootKey, inner.rootLeaf)];
      trees := trees[pos := inner.tree];
    }

    /** Only the tree and root pointer of one position have changed. */
    twostate predicate OnlyAt(pos: nat)
      reads this
    {
      && |trees| == |old(trees)| && |rootCache| == |old(rootCache)|
      && (forall p :: 0 <= p < |trees| && p != pos ==> trees[p] == old(trees[p]))
      && (forall p :: 0 <= p < |rootCache| && p != pos ==> rootCache[p] == old(rootCache[p]))
    }

    /** Dummy accesses up to the budget of one operation. */
    method PadOds() returns (ok: bool)
      requires Valid() && inner.opCount <= 3 * inner.maxHeight
      modifies inner`opCount, inner.oram
      ensures !ok ==> Overfull()
      ensures ok ==> Valid() && inner.oram.content == old(inner.oram.content)
      ensures ok ==> inner.oram.fetches == old(inner.oram.fetches) + 3 * inner.maxHeight - old(inner.opCount)
    {
      hide StashTree.Quiet, Planted, DaOram.Valid, DaOram.Contents;
      ok := inner.PadToBudget(3 * inner.maxHeight);
    }

    /** The inner operation has ended: `t` was the selected tree and `before` the blocks. */
    method Finish(pos: nat, ghost t: Tree<V>, ghost before: Cells<V>, ghost extra: set<int>) returns (ok: bool)
      requires pos < numPositions && |trees| == numPositions && Separate() && inner.Valid() && inner.odsMode
      requires Planted(trees, rootCache, before, inner.capacity, PositionOf()) && t == trees[pos]
      requires inner.Foreign() == before - Keys(t) && inner.Map().Keys <= Contents(t).Keys + extra
      requires forall k :: k in extra ==> PositionOf()(k) == pos
      requires positions.Valid() && positions.numData == numPositions
      requires forall p :: 0 <= p < numPositions ==> p in positions.Contents()
      requires inner.opCount <= 3 * inner.maxHeight
      modifies `rootCache, `trees, inner`opCount, inner.oram
      ensures !ok ==> Overfull()
      ensures ok ==> Valid() && OnlyAt(pos) && inner.oram.content == old(inner.oram.content)
      ensures ok ==> inner.oram.fetches == old(inner.oram.fetches) + 3 * inner.maxHeight - old(inner.opCount)
    {
      hide AvlOmap.Rooted, AvlOmap.Valid, Planted, DaOram.Valid, DaOram.Contents, Keys, Contents, StashTree.Quiet;
      PlantedAt(trees, rootCache, before, inner.capacity, PositionOf(), pos);
      SamePosition(t, inner.tree, extra, PositionOf(), pos);
      Leave(pos, before);
      ok := PadOds();
    }

    /** Looks `key` up in its tree. */
    method Search(key: int, update: Option<V>) returns (r: Result<Option<V>>)
      requires Valid()
      modifies this, inner, inner.oram, positions, positions.posMaps, positions.store
      ensures r.Ok? ==> Valid() && r.value == if key in old(Map()) then Some(old(Map())[key]) else None
      ensures r.Ok? ==> Map() == if update.Some? && key in old(Map()) then old(Map())[key := update.value] else old(Map())
      ensures r.Ok? ==> OnlyAt(Position(key)) && inner.oram.fetches == old(inner.oram.fetches) + 3 * inner.maxHeight
      ensures r.Err? ==> r.error == StashOverflow && Overfull()
    {
      hide AvlOmap.Rooted, AvlOmap.Valid, Planted, DaOram.Valid, DaOram.Contents, Keys, Contents, Union, TreeOk, RootRight,
           DaOram.Sized, DaOram.Built;
      var pos := Position(key);
      ghost var c, t := inner.oram.content, trees[pos];
      var ok := Enter(pos);
      if !ok { return Err(StashOverflow); }
      r := inner.Search(key, update);
      if r.Err? { return; }
      inner.Selected();
      SearchedMap(trees, rootCache, c, inner.oram.content, inner.capacity, PositionOf(), pos, inner.tree, key, update);
      ok := Finish(pos, t, c, {});
      if !ok { return Err(StashOverflow); }
    }

    /** Inserts an absent key into its tree, which must have room. */
    method Insert(key: int, value: V) returns (r: Result<()>)
      requires Valid() && key >= 0 && key !in Map() && |Contents(trees[Position(key)])| < inner.capacity
      modifies this, inner, inner.oram, positions, positions.posMaps, positions.store
      ensures r.Ok? ==> Valid() && Map() == old(Map())[key := value]
      ensures r.Ok? ==> OnlyAt(Position(key)) && inner.oram.fetches == old(inner.oram.fetches) + 3 * inner.maxHeight
      ensures r.Err? ==> r.error == StashOverflow && Overfull()
    {
      hide AvlOmap.Rooted, AvlOmap.Valid, Planted, DaOram.Valid, DaOram.Contents, Keys, Contents, RootRight, TreeOk;
      var pos := Position(key);
      ghost var c, t := inner.oram.content, trees[pos];
      var ok := Enter(pos);
      if !ok { return Err(StashOverflow); }
      r := inner.Insert(key, value);
      if r.Err? { return; }
      inner.Selected();
      InsertedMap(trees, rootCache, c, inner.oram.content, inner.capacity, PositionOf(), pos, inner.tree, key, value);
      ok := Finish(pos, t, c, {key});
      if !ok { return Err(StashOverflow); }
    }

    /** Removes `key` from its tree. */
    method Remove(key: int) returns (r: Result<()>)
      requires Valid()
      modifies this, inner, inner.oram, positions, positions.posMaps, positions.store
      ensures r.Ok? ==> Valid() && Map() == old(Map()) - {key}
      ensures r.Ok? ==> OnlyAt(Position(key)) && inner.oram.fetches == old(inner.oram.fetches) + 3 * inner.maxHeight
      ensures r.Err? ==> r.error == StashOverflow && Overfull()
    {
      hide AvlOmap.Rooted, AvlOmap.Valid, Planted, DaOram.Valid, DaOram.Contents, Keys, Contents, Union, TreeOk, RootRight,
           DaOram.Sized, DaOram.Built;
      var pos := Position(key);
      ghost var c, t := inner.oram.content, trees[pos];
      var ok := Enter(pos);
      if !ok { return Err(StashOverflow); }
      r := inner.Remove(key);
      if r.Err? { return; }
      inner.Selected();
      RemovedMap(trees, rootCache, c, inner.oram.content, inner.capacity, PositionOf(), pos, inner.tree, key);
      ok := Finish(pos, t, c, {});
      if !ok { return Err(StashOverflow); }
    }
  }

  method RootPointers(roots: seq<int>, leaves: map<int, nat>) returns (r: seq<Root>)
    ensures |r| == |roots|
    ensures forall q :: 0 <= q < |roots| ==>
              r[q] == (roots[q], if roots[q] in leaves then leaves[roots[q]] else INVALID_LEAF)
  {
    r := [];
    for q := 0 to |roots|
      invariant |r| == q
      invariant forall i :: 0 <= i < q ==> r[i] == (roots[i], if roots[i] in leaves then leaves[roots[i]] else INVALID_LEAF)
    {
      r := r + [(roots[q], if roots[q] in leaves then leaves[roots[q]] else INVALID_LEAF)];
    }
  }

  /** A loaded grove is a planted forest that shows the data. */
  lemma GrovePlanted<V>(data: Entries<V>, ts: seq<Tree<V>>, keys: seq<int>, roots: seq<Root>, nodes: Nodes<V>,
                        leaves: map<int, nat>, c: Cells<V>, capacity: nat, pos: int -> nat)
    requires Distinct(data) && Grove(ts, nodes, pos, |ts|) && leaves.Keys == nodes.Keys == c.Keys
    requires forall k :: k in nodes ==> c[k] == Block(k, leaves[k], Pointed(nodes[k], leaves))
    requires |ts| == |keys| == |roots| && forall k: int :: pos(k) < |ts|
    requires forall q :: 0 <= q < |ts| ==> keys[q] == RootKey(ts[q]) && HoldsHashed(ts[q], data, pos, q)
    requires forall q :: 0 <= q < |ts| ==> |Hashed(data, pos, q)| <= capacity
    requires forall q :: 0 <= q < |ts| ==> roots[q] == (keys[q], if keys[q] in leaves then leaves[keys[q]] else INVALID_LEAF)
    ensures Planted(ts, roots, c, capacity, pos) && Union(c) == Assoc(data)
  {
    hide Ordered, Balanced, Stored, Keys, Grove, Pointed, Contents, Assoc, Hashed, Distinct, Shaped;
    forall q | 0 <= q < |ts|
      ensures TreeOk(ts[q], c, capacity) && RootRight(roots[q].0, roots[q].1, ts[q], c)
      ensures forall k :: k in Keys(ts[q]) ==> pos(k) == q
    {
      GroveStored(ts, nodes, leaves, c, pos, q);
      RootIsKey(ts[q]);
    }
    GroveMembers(ts, nodes, pos);
    forall k ensures k in Union(c) <==> k in Assoc(data) {
      GroveData(ts, data, pos, k);
      StoredContents(ts[pos(k)], c);
      ContentsKeys(ts[pos(k)]);
    }
    forall k | k in Union(c) ensures Union(c)[k] == Assoc(data)[k] {
      GroveData(ts, data, pos, k);
      StoredContents(ts[pos(k)], c);
      ContentsKeys(ts[pos(k)]);
    }
    SameMap(Union(c), Assoc(data));
  }

  lemma GroveMembers<V>(ts: seq<Tree<V>>, nodes: Nodes<V>, pos: int -> nat)
    requires Grove(ts, nodes, pos, |ts|)
    ensures forall k :: k in nodes ==> pos(k) < |ts| && k in Keys(ts[pos(k)])
  {
  }

  lemma SameMap<V>(a: map<int, V>, b: map<int, V>)
    requires forall k :: k in a <==> k in b
    requires forall k :: k in a ==> a[k] == b[k]
    ensures a == b
  {
    forall k | k in a.Keys ensures k in b.Keys {
      assert k in a;
    }
    forall k | k in b.Keys ensures k in a.Keys {
      assert k in b;
    }
    assert a.Keys == b.Keys;
    forall k | k in a ensures a[k] == b[k] {
    }
    assert a == b;
  }

  lemma PlantedAt<V>(trees: seq<Tree<V>>, roots: seq<Root>, c: Cells<V>, capacity: nat, pos: int -> nat, p: nat)
    requires Planted(trees, roots, c, capacity, pos) && p < |trees|
    ensures TreeOk(trees[p], c, capacity) && |roots| == |trees| && forall k :: k in Keys(trees[p]) ==> pos(k) == p
    ensures Stored(trees[p], c) && Ordered(trees[p])
  {
  }

  /** A key is in the map if it is in the tree of its position. */
  lemma FoundAtPosition<V>(trees: seq<Tree<V>>, roots: seq<Root>, c: Cells<V>, capacity: nat, pos: int -> nat, key: int)
    requires Planted(trees, roots, c, capacity, pos) && pos(key) < |trees|
    ensures key in Union(c) <==> key in Contents(trees[pos(key)])
    ensures key in Union(c) ==> Union(c)[key] == Contents(trees[pos(key)])[key]
  {
    hide Keys, Contents, Ordered, Balanced, Stored;
    PlantedAt(trees, roots, c, capacity, pos, pos(key));
    StoredContents(trees[pos(key)], c);
    ContentsKeys(trees[pos(key)]);
  }

  lemma SearchedMap<V>(trees: seq<Tree<V>>, roots: seq<Root>, c: Cells<V>, c': Cells<V>, capacity: nat, pos: int -> nat,
                       p: nat, t': Tree<V>, key: int, update: Option<V>)
    requires Planted(trees, roots, c, capacity, pos) && pos(key) == p < |trees|
    requires TreeOk(t', c', capacity) && c' - Keys(t') == c - Keys(trees[p])
    requires Contents(t') == if update.Some? && key in Contents(trees[p]) then Contents(trees[p])[key := update.value]
                             else Contents(trees[p])
    ensures key in Union(c) <==> key in Contents(trees[p])
    ensures key in Union(c) ==> Union(c)[key] == Contents(trees[p])[key]
    ensures Union(c') == if update.Some? && key in Union(c) then Union(c)[key := update.value]
                                else Union(c)
  {
    hide Keys, Contents, Ordered, Stored, Planted, Union;
    PlantedAt(trees, roots, c, capacity, pos, p);
    FoundAtPosition(trees, roots, c, capacity, pos, key);
    OneMapChanged(trees, c, c', p, t');
    SameMap(Union(c'), if update.Some? && key in Union(c) then Union(c)[key := update.value] else Union(c));
  }

  lemma InsertedMap<V>(trees: seq<Tree<V>>, roots: seq<Root>, c: Cells<V>, c': Cells<V>, capacity: nat, pos: int -> nat,
                       p: nat, t': Tree<V>, key: int, value: V)
    requires Planted(trees, roots, c, capacity, pos) && pos(key) == p < |trees|
    requires TreeOk(t', c', capacity) && c' - Keys(t') == c - Keys(trees[p])
    requires Contents(t') == Contents(trees[p])[key := value]
    ensures Union(c') == Union(c)[key := value]
  {
    hide Keys, Contents, Ordered, Stored, Planted, Union;
    PlantedAt(trees, roots, c, capacity, pos, p);
    FoundAtPosition(trees, roots, c, capacity, pos, key);
    OneMapChanged(trees, c, c', p, t');
    SameMap(Union(c'), Union(c)[key := value]);
  }

  lemma RemovedMap<V>(trees: seq<Tree<V>>, roots: seq<Root>, c: Cells<V>, c': Cells<V>, capacity: nat, pos: int -> nat,
                      p: nat, t': Tree<V>, key: int)
    requires Planted(trees, roots, c, capacity, pos) && pos(key) == p < |trees|
    requires TreeOk(t', c', capacity) && c' - Keys(t') == c - Keys(trees[p])
    requires Contents(t') == Contents(trees[p]) - {key}
    ensures Union(c') == Union(c) - {key}
  {
    hide Keys, Contents, Ordered, Stored, Planted, Union;
    PlantedAt(trees, roots, c, capacity, pos, p);
    FoundAtPosition(trees, roots, c, capacity, pos, key);
    OneMapChanged(trees, c, c', p, t');
    SameMap(Union(c'), Union(c) - {key});
  }

  lemma PlantedSizes<V>(trees: seq<Tree<V>>, roots: seq<Root>, c: Cells<V>, capacity: nat, pos: int -> nat)
    requires Planted(trees, roots, c, capacity, pos)
    ensures |trees| == |roots|
  {
  }
}
