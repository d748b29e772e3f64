/** AVL map over ORAM (avl_omap): every operation pulls a path of nodes into the client's list,
    works on the list, moves the nodes to fresh leaves, and writes them back. */
module AvlOmaps {
  import opened Common
  import opened Geometry
  import opened StashTrees
  import opened AvlTrees
  import opened AvlLocal
  import opened AvlRep
  import opened AvlZip
  import opened AvlClimb
  import opened AvlDescend
  import opened AvlUnlink
  import opened AvlShrink
  import opened AvlFlush
  import opened AvlSearch
  import opened AvlAttach
  import opened AvlRemoval
  import opened AvlInit
  import opened AvlSteps
  import PathOrams

  class AvlOmap<V> {
    const oram: StashTree<AvlNode<V>>
    const capacity: nat
    const maxHeight: nat
    // An inner tree of a forest does not pad its operations.
    const odsMode: bool

    var rootKey: int
    var rootLeaf: int
    var local: Local<V>
    var opCount: nat

    // The tree that the blocks represent.
    ghost var tree: Tree<V>

    /** The blocks represent an AVL tree, every child pointer carrying the child's true key,
        leaf and height, and the root pointer the root's. */
    ghost predicate Valid()
      reads this, oram
    {
      && oram.Quiet() && local == []
      && Avl(tree) && (forall k :: k in Keys(tree) ==> k >= 0)
      && Stored(tree, oram.content)
      && RootOk()
      && Size(tree) <= capacity < Fib(maxHeight + 3) - 1
    }

    ghost predicate RootOk()
      reads this, oram
    {
      && rootKey == RootKey(tree)
      && (tree.Node? ==> tree.key in oram.content && rootLeaf == oram.content[tree.key].leaf)
    }

    /** Blocks of the ORAM that are not nodes of this tree. */
    ghost function Foreign(): Cells<V>
      reads this, oram
    {
      oram.content - Keys(tree)
    }

    ghost function Map(): map<int, V>
      reads this
    {
      Contents(tree)
    }

    constructor (capacity: nat, maxHeight: nat, bucketSize: nat, odsMode: bool)
      requires capacity < Fib(maxHeight + 3) - 1
      ensures Valid() && Map() == map[] && Foreign() == map[] && oram.content == map[] && fresh(oram)
      ensures this.capacity == capacity && this.maxHeight == maxHeight && this.odsMode == odsMode
    {
      oram := new StashTree<AvlNode<V>>.Empty(capacity, bucketSize, 7);
      this.capacity, this.maxHeight, this.odsMode := capacity, maxHeight, odsMode;
      rootKey, rootLeaf, local, opCount := INVALID_KEY, INVALID_LEAF, [], 0;
      tree := Nil;
    }

    /** A key outside the map has no block if all blocks are this tree's. */
    lemma AbsentHasNoBlock(key: int)
      requires Foreign() == map[] && key !in Map()
      ensures key !in oram.content
    {
      ContentsKeys(tree);
      assert key in oram.content ==> key in Foreign();
    }

    // ----- One of many trees in the same ORAM -----

    /** A map over a tree of at most `treeCapacity` nodes that shares its ORAM with others. */
    constructor Inner(oramCapacity: nat, treeCapacity: nat, maxHeight: nat, bucketSize: nat)
      requires treeCapacity < Fib(maxHeight + 3) - 1
      ensures Rooted() && oram.content == map[] && fresh(oram)
      ensures this.capacity == treeCapacity && this.maxHeight == maxHeight && this.odsMode
    {
      oram := new StashTree<AvlNode<V>>.Empty(oramCapacity, bucketSize, 7);
      this.capacity, this.maxHeight, this.odsMode := treeCapacity, maxHeight, true;
      rootKey, rootLeaf, local, opCount := INVALID_KEY, INVALID_LEAF, [], 0;
      tree := Nil;
    }

    /** At rest, whichever tree is selected. */
    ghost predicate Rooted()
      reads this, oram
    {
      oram.Quiet() && local == [] && capacity < Fib(maxHeight + 3) - 1
    }

    /** Selects the tree `t` by its root pointer. */
    method SetRoot(key: int, leaf: int, ghost t: Tree<V>)
      requires Rooted() && TreeOk(t, oram.content, capacity) && RootRight(key, leaf, t, oram.content)
      modifies `rootKey, `rootLeaf, `tree
      ensures Valid() && tree == t
    {
      hide StashTree.Quiet, Stored, Ordered, Balanced, Size, Keys, Fib;
      rootKey, rootLeaf, tree := key, leaf, t;
    }

    /** What a caller that keeps the root pointer needs to remember. */
    lemma Selected()
      requires Valid()
      ensures Rooted() && TreeOk(tree, oram.content, capacity) && RootRight(rootKey, rootLeaf, tree, oram.content)
    {
    }

    // ----- Bulk loading -----

    /** A random leaf for each key. */
    method RandomLeaves(keys: set<int>) returns (leaves: map<int, nat>)
      ensures leaves.Keys == keys && forall k :: k in leaves ==> leaves[k] < oram.Range()
    {
      hide Pow2;
      leaves := map[];
      var todo := keys;
      while todo != {}
        invariant todo <= keys && leaves.Keys == keys - todo
        invariant forall k :: k in leaves ==> leaves[k] < oram.Range()
        decreases todo
      {
        var k := Pick(todo);
        var leaf := oram.RandomLeaf();
        leaves := leaves[k := leaf];
        todo := todo - {k};
      }
    }

    /** Makes `data` the contents. Nothing is reset when there is no data. */
    method Init(data: Entries<V>)
      requires Valid() && Distinct(data) && (forall i :: 0 <= i < |data| ==> data[i].0 >= 0) && |data| <= capacity
      modifies this, oram
      ensures Valid() && Map() == Assoc(data) && oram.fetches == old(oram.fetches)
      ensures Foreign() == if data == [] then old(oram.content) else map[]
    {
      hide Ordered, Balanced, Stored, Keys, Size, Contents, Fib, Assoc, Built, Ascending, StashTree.Quiet, StashTree.Valid;
      if data == [] {
        rootKey, rootLeaf := INVALID_KEY, INVALID_LEAF;
        tree := Nil;
        NothingBuilt(data);
        return;
      }
      var sorted := SortByKey(data);
      ghost var t := Built(sorted, 0, |sorted| - 1);
      BuiltFits(data, sorted);
      rootKey, rootLeaf := LoadTree(sorted, t);
      tree := t;
      NothingForeign(oram.content, t);
    }

    /** Makes the blocks represent the balanced tree over `sorted`. */
    method LoadTree(sorted: Entries<V>, ghost t: Tree<V>) returns (root: int, leaf: nat)
      requires oram.Quiet() && sorted != [] && Ascending(sorted)
      requires t == Built(sorted, 0, |sorted| - 1) && t.Node? && Ordered(t) && forall k :: k in Keys(t) ==> k >= 0
      modifies oram
      ensures oram.Quiet() && oram.fetches == old(oram.fetches)
      ensures root == t.key && oram.content.Keys == Keys(t) && Stored(t, oram.content)
      ensures root in oram.content && leaf == oram.content[root].leaf
    {
      hide Ordered, Stored, Keys, Built, Shaped, Ascending, Pointed, StashTree.Quiet, StashTree.Valid, StashTree.Range;
      var height;
      var nodes: map<int, AvlNode<V>> := map[];
      root, nodes := BuildBalanced(sorted, 0, |sorted| - 1, nodes);
      height, nodes := FixHeights(root, nodes, t);
      assert nodes.Keys == Keys(t);
      var leaves := RandomLeaves(nodes.Keys);
      var pointed := PointAll(nodes, leaves);
      Load(pointed, leaves);
      RootIsKey(t);
      ShapedStored(t, nodes, leaves, oram.content);
      leaf := leaves[root];
    }

    /** Replaces the blocks by those of `nodes`. */
    method Load(nodes: map<int, AvlNode<V>>, leaves: map<int, nat>)
      requires oram.Quiet() && nodes.Keys == leaves.Keys && forall k :: k in leaves ==> leaves[k] < oram.Range()
      modifies oram
      ensures oram.Quiet() && oram.fetches == old(oram.fetches)
      ensures oram.content.Keys == nodes.Keys
      ensures forall k :: k in nodes ==> oram.content[k] == Block(k, leaves[k], nodes[k])
    {
      hide Holds, Placed, Pow2;
      var blocks := PathOrams.MakeBlocks(nodes, leaves);
      oram.LoadBlocks(blocks);
      forall k | k in nodes ensures k in oram.content {
        var j :| 0 <= j < |blocks| && blocks[j].key == k;
      }
      forall k | k in oram.content ensures k in nodes && oram.content[k] == Block(k, leaves[k], nodes[k]) {
        var j :| 0 <= j < |blocks| && blocks[j] == oram.content[k];
      }
    }

    // ----- ORAM accesses -----

    /** Fetches the block of `key` along `leaf` and appends it to the list. */
    method MoveToLocal(key: int, leaf: int, parentKey: int) returns (ok: bool)
      requires oram.Quiet() && key in oram.content && leaf == oram.content[key].leaf
      modifies `local, `opCount, oram
      ensures !ok ==> oram.Overfull()
      ensures opCount == old(opCount) + 1 && oram.fetches == old(oram.fetches) + 1
      ensures ok ==> oram.Quiet() && oram.content == old(oram.content) - {key}
      ensures ok ==> local == old(local) + [Loaded(old(oram.content)[key], parentKey)]
    {
      hide Holds, Placed, PathNodes, PathSum, Maximal, SameOutside;
      opCount := opCount + 1;
      oram.ReadPaths([leaf]);
      var block := oram.ExtractFromStash(key);
      local := local + [LocalNode(key, block.value.leaf, block.value.value, parentKey)];
      ok := oram.EvictStash([leaf]);
    }

    method TrackedDummy() returns (ok: bool)
      requires oram.Quiet()
      modifies `opCount, oram
      ensures !ok ==> oram.Overfull()
      ensures opCount == old(opCount) + 1 && oram.fetches == old(oram.fetches) + 1
      ensures ok ==> oram.Quiet() && oram.content == old(oram.content)
    {
      hide Holds, Placed, PathNodes, PathSum, Maximal, SameOutside;
      opCount := opCount + 1;
      var leaf := oram.RandomLeaf();
      oram.ReadPaths([leaf]);
      ok := oram.EvictStash([leaf]);
    }

    /** Dummy accesses until `budget` accesses have been made. */
    method PadToBudget(budget: nat) returns (ok: bool)
      requires oram.Quiet()
      modifies `opCount, oram
      ensures !ok ==> oram.Overfull()
      ensures ok ==> oram.Quiet() && oram.content == old(oram.content)
      ensures ok ==> opCount == Max(old(opCount), budget)
      ensures ok ==> oram.fetches == old(oram.fetches) + opCount - old(opCount)
    {
      hide Holds, Placed;
      var pad := if budget > opCount then budget - opCount else 0;
      ghost var start := opCount;
      for i := 0 to pad
        invariant oram.Quiet() && oram.content == old(oram.content)
        invariant opCount == start + i && oram.fetches == old(oram.fetches) + i
      {
        ok := TrackedDummy();
        if !ok { return false; }
      }
      ok := true;
    }

    // ----- Writing back -----

    /** Moves every node of the list to a fresh leaf and repairs the pointers to it. */
    method ReassignLeaves()
      requires oram.Valid() && Unique(local)
      modifies `local, `rootLeaf
      ensures SameKeys(old(local), local) && Unique(local) && Released(At(old(local)), At(local))
      ensures forall j :: 0 <= j < |local| ==> local[j].leaf < oram.Range()
      ensures rootLeaf == if rootKey in At(local) then At(local)[rootKey].leaf else old(rootLeaf)
    {
      hide At, Holds, Placed, Relinked, Released;
      ghost var s := local;
      for i := |local| downto 0
        invariant oram.Valid() && SameButLeaves(s, local) && rootLeaf == old(rootLeaf)
        invariant forall j :: i <= j < |local| ==> local[j].leaf < oram.Range()
      {
        var leaf := oram.RandomLeaf();
        local := local[i := local[i].(leaf := leaf)];
      }
      ghost var moved := local;
      SameButLeavesUnique(s, local);
      local := LinkLeaves(local);
      ListReleased(s, moved, local);
      forall j | 0 <= j < |local| ensures local[j].leaf < oram.Range() {
        RelinkedLeaf(moved[j], At(moved));
      }
      var at := IndexOf(local, rootKey);
      if at >= 0 {
        AtHas(local, at);
        rootLeaf := local[at].leaf;
      }
    }

    /** Returns every node of the list to the stash. */
    method FlushLocalToStash()
      requires oram.Valid() && Unique(local)
      requires forall j :: 0 <= j < |local| ==> local[j].leaf < oram.Range()
      requires forall j :: 0 <= j < |local| ==> local[j].key !in oram.content
      modifies `local, oram
      ensures oram.Valid() && oram.pending == old(oram.pending) && local == [] && oram.fetches == old(oram.fetches)
      ensures oram.content == old(oram.content) + Blocks(At(old(local)))
    {
      hide Holds, Placed, At;
      ghost var c := oram.content;
      NothingFlushed(c);
      assert local[..0] == [];
      for i := 0 to |local|
        invariant local == old(local) && oram.Valid() && oram.pending == old(oram.pending) && oram.fetches == old(oram.fetches)
        invariant Unique(local[..i]) && oram.content == c + Blocks(At(local[..i]))
        invariant forall j :: i <= j < |local| ==> local[j].key !in oram.content
      {
        assert local[..i + 1] == local[..i] + [local[i]];
        NotYet(local, i);
        AtAppend(local[..i], local[i]);
        FlushStep(c, At(local[..i]), local[i]);
        oram.AddToStash(Block(local[i].key, local[i].leaf, local[i].avl));
      }
      assert local[..|local|] == local;
      local := [];
    }

    /** The blocks now hold every entry of `c` outside the list of keys `listed`. */
    ghost predicate KeepsOutside(c: Cells<V>, listed: set<int>)
      reads oram
    {
      && oram.content.Keys == c.Keys + listed
      && forall k :: k in c && k !in listed ==> oram.content[k] == c[k]
    }

    /** Ends an operation whose list and blocks represent `t`. */
    method WriteBack(ghost fs: seq<Frame<V>>, ghost t: Tree<V>)
      requires oram.Valid() && Zip(local, fs, 0, t, oram.content)
      requires forall j :: 0 <= j < |local| ==> local[j].key !in oram.content
      requires rootKey == RootKey(t)
      requires t.Node? && t.key !in At(local) ==> t.key in oram.content && rootLeaf == oram.content[t.key].leaf
      modifies `local, `rootLeaf, `tree, oram
      ensures oram.Valid() && oram.pending == old(oram.pending) && local == [] && tree == t && RootOk()
      ensures oram.fetches == old(oram.fetches)
      ensures Stored(t, oram.content) && Ordered(t) && forall k :: k in Keys(t) ==> k >= 0
      ensures KeepsOutside(old(oram.content), At(old(local)).Keys)
    {
      hide At, Holds, Placed, PathOk, PathSide, OrderedPath, Rep, Stored, Released, Ordered, Keys;
      ghost var c := oram.content;
      ghost var m := At(local);
      ZipWhole(local, fs, 0, t, c);
      ReassignLeaves();
      ghost var m' := At(local);
      ReleaseStores(t, ParentAt(fs, 0), m, m', c);
      ReleasedKeys(m, m');
      FlushLocalToStash();
      BlocksOver(c, m');
      tree := t;
    }

    method PadUnlessInner() returns (ok: bool)
      requires oram.Quiet() && opCount <= 3 * maxHeight
      modifies `opCount, oram
      ensures !ok ==> oram.Overfull()
      ensures ok ==> oram.Quiet() && oram.content == old(oram.content)
      ensures ok ==> oram.fetches == old(oram.fetches) + opCount - old(opCount) && opCount <= 3 * maxHeight
      ensures ok && !odsMode ==> oram.fetches == old(oram.fetches) + 3 * maxHeight - old(opCount)
    {
      hide Holds, Placed;
      ok := true;
      if !odsMode {
        ok := PadToBudget(3 * maxHeight);
      }
    }

    // ----- Going down -----

    /** The client's pointer to the root of `t` is right. */
    ghost predicate PointsAt(t: Tree<V>, key: int, leaf: int)
      reads oram
    {
      && key == RootKey(t)
      && (t.Node? ==> t.key in oram.content && leaf == oram.content[t.key].leaf)
    }

    /** The list is the path `fs` to the focus `t`; its nodes were taken out of the blocks `c`. */
    ghost predicate Descended(fs: seq<Frame<V>>, t: Tree<V>, c: Cells<V>)
      reads this, oram
    {
      oram.Quiet() && PathTaken(local, fs, t, oram.content, c)
    }

    /** Fetches the root of the focus and steps to its child on side `left`. */
    method Pull(key: int, leaf: int, ghost left: bool, ghost fs: seq<Frame<V>>, ghost t: Tree<V>, ghost c: Cells<V>)
      returns (ok: bool)
      requires Descended(fs, t, c) && t.Node? && PointsAt(t, key, leaf)
      modifies `local, `opCount, oram
      ensures !ok ==> oram.Overfull()
      ensures opCount == old(opCount) + 1 && oram.fetches == old(oram.fetches) + 1
      ensures ok ==> Descended(fs + [Step(t, left)], Child(t, left), c)
      ensures ok ==> |local| == |old(local)| + 1 && local[|local| - 1].key == t.key
      ensures ok ==> local[|local| - 1].avl.data == t.value
      ensures ok ==> PointsAt(t.left, local[|local| - 1].avl.lKey, local[|local| - 1].avl.lLeaf)
      ensures ok ==> PointsAt(t.right, local[|local| - 1].avl.rKey, local[|local| - 1].avl.rLeaf)
    {
      hide At, Holds, Placed, PathTaken, Keys, Plug, Step, Child;
      var parent := if |local| == 0 then INVALID_KEY else local[|local| - 1].key;
      TakenParent(local, fs, t, oram.content, c);
      PullTaken(local, fs, t, oram.content, c, left);
      ok := MoveToLocal(key, leaf, parent);
    }

    // ----- Search -----

    /** Writes `value` into the last node of the path. */
    method SetFound(value: V, ghost fs: seq<Frame<V>>, ghost f: Frame<V>, ghost t: Tree<V>, ghost c: Cells<V>)
      requires Descended(fs + [f], t, c)
      modifies `local
      ensures Descended(SetValue(fs + [f], value), t, c)
    {
      hide Holds, Placed, Zip, ExactPath, Keys, Plug, At;
      TakenSetData(local, fs, f, t, oram.content, c, value);
      local := SetData(local, value);
    }

    /** Writes back a path whose tree has kept its shape. */
    method FinishPath(ghost fs: seq<Frame<V>>, ghost t: Tree<V>, ghost c: Cells<V>)
      requires oram.Valid() && PathTaken(local, fs, t, oram.content, c) && |fs| > 0 && rootKey == fs[0].key
      modifies `local, `rootLeaf, `tree, oram
      ensures oram.Valid() && oram.pending == old(oram.pending) && local == [] && tree == Plug(fs, t) && RootOk()
      ensures oram.fetches == old(oram.fetches)
      ensures Stored(tree, oram.content) && Ordered(tree) && forall k :: k in Keys(tree) ==> k >= 0
      ensures Foreign() == c - Keys(tree)
    {
      hide At, Holds, Placed, Zip, ExactPath, Keys, Ordered, Stored;
      ZipUnique(local, fs, |local|, t, oram.content);
      ghost var listed, before := At(local).Keys, oram.content;
      ZipClose(local, fs, |local|, t, oram.content);
      assert fs[..|local|] == fs;
      RootOfPath(fs, t);
      AtHas(local, 0);
      LocalNotStored(local, c);
      WriteBack(fs, Plug(fs, t));
      ForeignSame(c, before, oram.content, listed, listed, Keys(tree), Keys(tree));
    }

    method FinishSearch(ghost fs: seq<Frame<V>>, ghost t: Tree<V>, ghost c: Cells<V>)
      requires Descended(fs, t, c) && |fs| > 0 && rootKey == fs[0].key
      modifies `local, `rootLeaf, `tree, oram
      ensures oram.Quiet() && local == [] && tree == Plug(fs, t) && RootOk() && oram.fetches == old(oram.fetches)
      ensures Stored(tree, oram.content) && Ordered(tree) && forall k :: k in Keys(tree) ==> k >= 0
      ensures Foreign() == c - Keys(tree)
    {
      hide PathTaken, Holds, Placed, Keys, Ordered, Stored, Plug;
      FinishPath(fs, t, c);
    }

    /** Looks `key` up and, if `update` is given and the key is present, replaces its value. */
    method Search(key: int, update: Option<V>) returns (r: Result<Option<V>>)
      requires Valid()
      modifies this, oram
      ensures r.Ok? ==> Valid() && r.value == if key in old(Map()) then Some(old(Map())[key]) else None
      ensures r.Ok? ==> Map() == if update.Some? && key in old(Map()) then old(Map())[key := update.value] else old(Map())
      ensures r.Ok? ==> Foreign() == old(Foreign())
      ensures r.Ok? && !odsMode ==> oram.fetches == old(oram.fetches) + 3 * maxHeight
      ensures r.Ok? ==> oram.fetches == old(oram.fetches) + opCount && opCount <= 3 * maxHeight
      ensures r.Err? ==> r.error == StashOverflow && oram.Overfull()
    {
      hide At, Holds, Placed, Zip, ExactPath, Keys, Plug, Ordered, Balanced, Stored, Update, Lookup, Fib, Pow2,
           Size, Contents, Height, Step, Child, Descended, StrictPath;
      opCount := 0;
      if rootKey == INVALID_KEY {
        RootMissing(tree);
        var padded := PadUnlessInner();
        return if padded then Ok(None) else Err(StashOverflow);
      }
      ghost var c, t0 := oram.content, tree;
      ghost var fs: seq<Frame<V>>, t := [], tree;
      StartDescent(key);
      local := [];
      var curKey, curLeaf := rootKey, rootLeaf;
      var found := false;
      var result: Option<V> := None;
      var d := 0;
      while d < maxHeight && curKey != INVALID_KEY && !found
        invariant Descended(fs, t, c) && d == |fs| == opCount <= maxHeight && tree == t0 && rootKey == RootKey(t0)
        invariant d > 0 ==> fs[0].key == rootKey
        invariant d == 0 ==> !found && curKey != INVALID_KEY
        invariant oram.fetches == old(oram.fetches) + opCount
        invariant Plug(fs, t) == if found && update.Some? then Update(t0, key, update.value) else t0
        invariant !found ==> StrictPath(fs, key) && PointsAt(t, curKey, curLeaf) && Height(t) <= maxHeight - d && result == None
        invariant found ==> result.Some? && result == Lookup(t0, key) && d > 0
      {
        ghost var left, up, s := key <= curKey, fs, t;
        SearchStep(up, s, t0, key, update, left);
        var pulled := Pull(curKey, curLeaf, left, fs, t, c);
        if !pulled { return Err(StashOverflow); }
        fs, t := up + [Step(s, left)], Child(s, left);
        d := d + 1;
        var node := local[|local| - 1].avl;
        if key == curKey {
          result := Some(node.data);
          found := true;
          if update.Some? {
            SetFound(update.value, up, Step(s, left), t, c);
            fs := SetValue(fs, update.value);
          }
        } else if key < curKey {
          curKey, curLeaf := node.lKey, node.lLeaf;
        } else {
          curKey, curLeaf := node.rKey, node.rLeaf;
        }
      }
      NilFocus(fs, t, c);
      SearchEnds(fs, t, t0, key, update, found, result, maxHeight - d);
      FinishSearch(fs, t, c);
      var padded := PadUnlessInner();
      r := if padded then Ok(result) else Err(StashOverflow);
    }

    lemma NilFocus(fs: seq<Frame<V>>, t: Tree<V>, c: Cells<V>)
      requires Descended(fs, t, c)
      ensures RootKey(t) == INVALID_KEY ==> t == Nil
    {
      hide At, Rep, PathOk, PathSide, OrderedPath, Holds, Placed, ExactPath, Plug;
      PathApart(fs, |local|, t);
      RootIsKey(t);
    }

    lemma StartDescent(key: int)
      requires Valid() && local == []
      ensures Descended([], tree, oram.content) && Plug([], tree) == tree && StrictPath<V>([], key)
      ensures Height(tree) <= maxHeight && (tree.Node? ==> maxHeight > 0)
    {
      ZipStart(tree, oram.content);
      TreeFits(tree, capacity, maxHeight);
      assert oram.content - {} == oram.content;
    }

    method DummyAccess() returns (r: Result<()>)
      requires Valid()
      modifies this, oram
      ensures r.Ok? ==> Valid() && Map() == old(Map()) && Foreign() == old(Foreign()) && tree == old(tree)
      ensures r.Ok? ==> oram.fetches == old(oram.fetches) + 3 * maxHeight
      ensures r.Err? ==> r.error == StashOverflow && oram.Overfull()
    {
      hide Holds, Placed, Ordered, Balanced, Stored, Fib, Pow2, Size, Contents, Keys;
      opCount := 0;
      var padded := PadToBudget(3 * maxHeight);
      r := if padded then Ok(()) else Err(StashOverflow);
    }

    // ----- Insertion -----

    /** The list is the search path `fs` of an absent key followed by its new leaf. */
    ghost predicate Grown(fs: seq<Frame<V>>, key: int, value: V, c: Cells<V>)
      reads this, oram
    {
      && oram.Quiet() && |local| == |fs| + 1 && |fs| > 0
      && Zip(local, fs + [NewFrame(key, value)], |local|, Nil, oram.content)
      && StrictPath(fs, key)
      && key !in c && oram.content == c - At(local).Keys
      && At(local).Keys <= Keys(Plug(fs, Nil)) + {key}
    }

    /** Appends the new leaf below the end of the path. */
    method AttachLeaf(left: bool, key: int, value: V, ghost fs: seq<Frame<V>>, ghost c: Cells<V>)
      requires Descended(fs, Nil, c) && |fs| > 0 && StrictPath(fs, key) && left == fs[|fs| - 1].left
      requires key >= 0 && key !in c && Keys(Plug(fs, Nil)) <= c.Keys
      modifies `local
      ensures Grown(fs, key, value, c)
    {
      hide At, Holds, Placed, Zip, ExactPath, Keys, Plug, StrictPath, Attached;
      var leaf := oram.RandomLeaf();
      ZipUnique(local, fs, |local|, Nil, oram.content);
      ZipAttach(local, fs, oram.content, key, leaf, value);
      AttachedLength(local, left, key, leaf, value);
      ghost var m := At(local);
      local := AttachToLast(local, left, key, leaf, value);
    }

    /** Rebalances along the path, from the new leaf to the root. */
    method RaiseInserted(ghost fs: seq<Frame<V>>, ghost key: int, ghost value: V, ghost c: Cells<V>)
      requires Grown(fs, key, value, c) && rootKey == fs[0].key && Balanced(Plug(fs, Nil))
      modifies `local, `rootKey
      ensures Zip(local, fs + [NewFrame(key, value)], 0, Inserted(Plug(fs, Nil), key, value), oram.content)
      ensures Unique(old(local)) && Unique(local) && At(local).Keys == At(old(local)).Keys
      ensures rootKey == RootKey(Inserted(Plug(fs, Nil), key, value)) && rootKey in At(local)
    {
      hide At, Holds, Placed, Zip, Inserted, InsertPath, Balanced, RefreshAll, Keys, Plug, NewFrame, StrictPath, Maximal;
      ghost var gs := fs + [NewFrame(key, value)];
      ZipUnique(local, gs, |local|, Nil, oram.content);
      GrownPath(fs, key, value);
      ghost var s := local;
      ZipRefreshAgain(local, gs, |local|, Nil, oram.content);
      local := UpdateHeights(local);
      local, rootKey := RebalanceAll(local, rootKey, gs, key, value, oram.content);
      SameKeysSameIndex(s, local);
    }

    /** Rebalances along the path and writes the list back. */
    method FinishInsert(ghost fs: seq<Frame<V>>, ghost key: int, ghost value: V, ghost c: Cells<V>)
      requires Grown(fs, key, value, c) && rootKey == fs[0].key
      requires Avl(Plug(fs, Nil)) && key !in Keys(Plug(fs, Nil))
      modifies `local, `rootLeaf, `rootKey, `tree, oram
      ensures oram.Quiet() && local == [] && RootOk() && oram.fetches == old(oram.fetches)
      ensures tree == Inserted(Plug(fs, Nil), key, value)
      ensures Stored(tree, oram.content) && Ordered(tree) && forall k :: k in Keys(tree) ==> k >= 0
      ensures Foreign() == c - Keys(Plug(fs, Nil))
    {
      hide At, Holds, Placed, Zip, Ordered, Stored, Inserted, Balanced, Keys, Plug, NewFrame, StrictPath, Maximal;
      ghost var t0 := Plug(fs, Nil);
      ghost var gs := fs + [NewFrame(key, value)];
      ZipUnique(local, gs, |local|, Nil, oram.content);
      ghost var listed, before := At(local).Keys, oram.content;
      RaiseInserted(fs, key, value, c);
      LocalNotStored(local, c);
      InsertContents(t0, key, value);
      WriteBack(gs, Inserted(t0, key, value));
      ForeignSame(c, before, oram.content, listed - {key}, listed, Keys(t0), Keys(tree));
    }

    /** Goes down to the empty child where `key` belongs and hangs the new leaf there. */
    method DescendAndAttach(key: int, value: V) returns (ok: bool, ghost fs: seq<Frame<V>>)
      requires Valid() && tree.Node? && key >= 0 && key !in oram.content && opCount == 0
      modifies `local, `opCount, oram
      ensures !ok ==> oram.Overfull()
      ensures opCount <= maxHeight && oram.fetches == old(oram.fetches) + opCount
      ensures ok ==> Grown(fs, key, value, old(oram.content)) && Plug(fs, Nil) == tree && fs[0].key == rootKey
    {
      hide At, Holds, Placed, Zip, ExactPath, Keys, Plug, Ordered, Balanced, Stored, Inserted, Fib, Pow2,
           Size, Contents, Height, Step, Child, Descended, StrictPath, Grown;
      ghost var c, t := oram.content, tree;
      fs := [];
      StartDescent(key);
      StoredKeys(tree, c);
      local := [];
      var curKey, curLeaf := rootKey, rootLeaf;
      var inserted := false;
      var d := 0;
      while d < maxHeight && curKey != INVALID_KEY && !inserted
        invariant d == |fs| == opCount <= maxHeight
        invariant d > 0 ==> fs[0].key == rootKey
        invariant oram.fetches == old(oram.fetches) + opCount
        invariant !inserted ==> Descended(fs, t, c) && StrictPath(fs, key) && Plug(fs, t) == tree
                                && PointsAt(t, curKey, curLeaf) && Height(t) <= maxHeight - d && t.Node?
        invariant inserted ==> Grown(fs, key, value, c) && Plug(fs, Nil) == tree && d > 0
      {
        ghost var left, up, s := key <= curKey, fs, t;
        KeyNotOnPath(up, s, c, key);
        SearchStep(up, s, tree, key, None, left);
        StepKey(s, left);
        var pulled := Pull(curKey, curLeaf, left, fs, t, c);
        if !pulled { return false, []; }
        fs, t := up + [Step(s, left)], Child(s, left);
        d := d + 1;
        NilFocus(fs, t, c);
        var node := local[|local| - 1].avl;
        if key < curKey {
          if node.lKey == INVALID_KEY {
            AttachLeaf(true, key, value, fs, c);
            inserted := true;
          } else {
            curKey, curLeaf := node.lKey, node.lLeaf;
          }
        } else {
          if node.rKey == INVALID_KEY {
            AttachLeaf(false, key, value, fs, c);
            inserted := true;
          } else {
            curKey, curLeaf := node.rKey, node.rLeaf;
          }
        }
      }
      if !inserted {
        NodeHeight(t);
        NilFocus(fs, t, c);
        assert false;
      }
      ok := true;
    }

    /** Inserts an absent key. */
    method Insert(key: int, value: V) returns (r: Result<()>)
      requires Valid() && key >= 0 && key !in oram.content && |Map()| < capacity
      modifies this, oram
      ensures r.Ok? ==> Valid() && Map() == old(Map())[key := value]
      ensures r.Ok? ==> Foreign() == old(Foreign())
      ensures r.Ok? && !odsMode ==> oram.fetches == old(oram.fetches) + 3 * maxHeight
      ensures r.Ok? ==> oram.fetches == old(oram.fetches) + opCount && opCount <= 3 * maxHeight
      ensures r.Err? ==> r.error == StashOverflow && oram.Overfull()
    {
      hide At, Holds, Placed, Keys, Plug, Ordered, Balanced, Stored, Inserted, Fib, Pow2, Size, Contents, Grown,
           StashTree.Quiet, StashTree.Valid;
      opCount := 0;
      RootMissing(tree);
      if rootKey == INVALID_KEY {
        PlantRoot(key, value);
      } else {
        var ok := InsertBelow(key, value);
        if !ok { return Err(StashOverflow); }
      }
      var padded := PadUnlessInner();
      r := if padded then Ok(()) else Err(StashOverflow);
    }

    method InsertBelow(key: int, value: V) returns (ok: bool)
      requires Valid() && tree.Node? && key >= 0 && key !in oram.content && |Map()| < capacity && opCount == 0
      modifies this, oram
      ensures !ok ==> oram.Overfull()
      ensures ok ==> Valid() && Map() == old(Map())[key := value]
      ensures ok ==> Foreign() == old(Foreign())
      ensures opCount <= maxHeight && oram.fetches == old(oram.fetches) + opCount
    {
      hide At, Holds, Placed, Keys, Plug, Ordered, Balanced, Stored, Inserted, Fib, Pow2, Size, Contents, Grown, Zip;
      ghost var c, t0 := oram.content, tree;
      StoredKeys(tree, c);
      ghost var fs;
      ok, fs := DescendAndAttach(key, value);
      if !ok { return; }
      FinishInsert(fs, key, value, c);
      InsertedFits(t0, key, value, capacity);
    }

    /** The first entry becomes the root, directly in the stash. */
    method PlantRoot(key: int, value: V)
      requires Valid() && tree == Nil && key >= 0 && key !in oram.content && 0 < capacity
      modifies `rootKey, `rootLeaf, `tree, oram
      ensures Valid() && Map() == old(Map())[key := value] && oram.fetches == old(oram.fetches)
      ensures Foreign() == old(Foreign())
    {
      hide Holds, Placed, Pow2, Fib, Stored, Ordered, Balanced, Keys, Size, Contents;
      var leaf := oram.RandomLeaf();
      oram.AddToStash(Block(key, leaf, FreshNode(value)));
      rootKey, rootLeaf := key, leaf;
      tree := Node(Nil, key, value, Nil);
      SingleNode(key, leaf, value, oram.content);
    }

    lemma KeyNotOnPath(fs: seq<Frame<V>>, t: Tree<V>, c: Cells<V>, key: int)
      requires Descended(fs, t, c) && t.Node? && key !in c
      ensures key != t.key
    {
      hide At, Zip, Holds, Placed, ExactPath, Plug;
      FocusPointer(local, fs, t, oram.content);
    }

    // ----- Removal: finding the target and its successor -----

    /** Goes down to `key`. If it is found, `s` is its subtree, entered on the right if it has
        two children and on the left otherwise. */
    method FindTarget(key: int) returns (ok: bool, found: bool, twoChild: bool, ghost up: seq<Frame<V>>, ghost s: Tree<V>)
      requires Valid() && tree.Node? && opCount == 0
      modifies `local, `opCount, oram
      ensures !ok ==> oram.Overfull()
      ensures opCount <= maxHeight && oram.fetches == old(oram.fetches) + opCount
      ensures ok ==> StrictPath(up, key) && Plug(up, s) == tree && opCount == |local|
      ensures ok && !found ==> s == Nil && Descended(up, Nil, old(oram.content)) && |up| > 0
      ensures ok && found ==>
                && s.Node? && s.key == key && (twoChild <==> s.left.Node? && s.right.Node?)
                && |local| == |up| + 1
                && Descended(up + [Step(s, !twoChild)], Child(s, !twoChild), old(oram.content))
      ensures ok && twoChild ==>
                found && PointsAt(s.right, local[|local| - 1].avl.rKey, local[|local| - 1].avl.rLeaf)
                && Height(s.right) < maxHeight - |up|
      ensures ok && |up| > 0 ==> up[0].key == rootKey
    {
      hide At, Holds, Placed, Zip, ExactPath, Keys, Plug, Ordered, Balanced, Stored, Fib, Pow2, Size, Contents,
           Height, Step, Child, Descended, StrictPath;
      ghost var c := oram.content;
      up, s := [], tree;
      StartDescent(key);
      local := [];
      found, twoChild := false, false;
      var curKey, curLeaf := rootKey, rootLeaf;
      var d := 0;
      RootIsKey(tree);
      while d < maxHeight && curKey != INVALID_KEY && !found
        invariant opCount == |local| == d <= maxHeight && oram.fetches == old(oram.fetches) + opCount
        invariant StrictPath(up, key) && Plug(up, s) == tree
        invariant |up| > 0 ==> up[0].key == rootKey
        invariant !found ==> Descended(up, s, c) && d == |up| && PointsAt(s, curKey, curLeaf) && Height(s) <= maxHeight - d
        invariant d == 0 ==> !found && curKey != INVALID_KEY
        invariant !found ==> !twoChild
        invariant found ==> s.Node? && s.key == key && (twoChild <==> s.left.Node? && s.right.Node?)
                            && d == |up| + 1 && Descended(up + [Step(s, !twoChild)], Child(s, !twoChild), c)
                            && PointsAt(s.right, local[|local| - 1].avl.rKey, local[|local| - 1].avl.rLeaf)
                            && Height(s.right) < maxHeight - |up|
      {
        ghost var left := if key == s.key then !(s.left.Node? && s.right.Node?) else key < s.key;
        TargetStep(up, s, tree, key, left);
        var pulled := Pull(curKey, curLeaf, left, up, s, c);
        if !pulled { return false, false, false, [], Nil; }
        d := d + 1;
        var node := local[|local| - 1].avl;
        if key == curKey {
          found := true;
          ChildrenPositive(up, s, left, c);
          twoChild := node.lKey != INVALID_KEY && node.rKey != INVALID_KEY;
        } else {
          if key < curKey {
            curKey, curLeaf := node.lKey, node.lLeaf;
          } else {
            curKey, curLeaf := node.rKey, node.rLeaf;
          }
          up, s := up + [Step(s, left)], Child(s, left);
        }
      }
      if !found {
        NilFocus(up, s, c);
        if s.Node? { NodeHeight(s); }
      }
      ok := true;
    }

    /** From the right child of `s` down its left spine to the successor `m` of `s`. */
    method FindSuccessor(ghost up: seq<Frame<V>>, ghost s: Tree<V>, ghost c: Cells<V>)
      returns (ok: bool, ghost down: seq<Frame<V>>, ghost m: Tree<V>)
      requires s.Node? && s.right.Node? && Height(s.right) < maxHeight - |up|
      requires opCount == |local| == |up| + 1 && Descended(up + [Step(s, false)], s.right, c)
      requires PointsAt(s.right, local[|up|].avl.rKey, local[|up|].avl.rLeaf)
      modifies `local, `opCount, oram
      ensures !ok ==> oram.Overfull()
      ensures opCount <= maxHeight && oram.fetches == old(oram.fetches) + opCount - old(opCount)
      ensures ok ==> m.Node? && m.left == Nil && LeftSpine(down) && Plug(down, m) == s.right
      ensures ok ==> opCount == |local| == |up| + |down| + 2
      ensures ok ==> Descended(up + [Step(s, false)] + down + [Step(m, true)], Nil, c)
    {
      hide At, Holds, Placed, Zip, ExactPath, Keys, Plug, Height, Step, Child, Descended;
      ghost var path, t := up + [Step(s, false)], s.right;
      down, m := [], s.right;
      NodeHeight(s.right);
      assert path + [] == path;
      PlugNothing(s.right);
      var last := false;
      var sKey, sLeaf := local[|local| - 1].avl.rKey, local[|local| - 1].avl.rLeaf;
      var sd := |local|;
      while sd < maxHeight && !last
        invariant sd == opCount == |local| <= maxHeight && LeftSpine(down) && t.Node? && m.Node?
        invariant oram.fetches == old(oram.fetches) + opCount - old(opCount)
        invariant !last ==> sd == |up| + 1 + |down| && Descended(path + down, t, c) && PointsAt(t, sKey, sLeaf)
                            && Height(t) <= maxHeight - sd && Plug(down, t) == s.right
        invariant last ==> m.left == Nil && sd == |up| + |down| + 2 && Plug(down, m) == s.right
                           && Descended(path + down + [Step(m, true)], Nil, c)
      {
        ghost var at := path + down;
        SpineStep(down, t);
        m := t;
        var pulled := Pull(sKey, sLeaf, true, at, t, c);
        if !pulled { return false, down, m; }
        sd := sd + 1;
        NilFocus(at + [Step(t, true)], t.left, c);
        var node := local[|local| - 1].avl;
        if node.lKey == INVALID_KEY {
          last := true;
        } else {
          sKey, sLeaf := node.lKey, node.lLeaf;
          assert path + (down + [Step(t, true)]) == at + [Step(t, true)];
          down, t := down + [Step(t, true)], t.left;
        }
      }
      NodeHeight(t);
      ok := true;
    }

    /** Fetches a node needed for a rotation, or accesses a random path if the list has it. */
    method FetchOrDummy(key: int, leaf: int, parent: int, ghost fs: seq<Frame<V>>, ghost d: nat, ghost t: Tree<V>,
                        ghost c: Cells<V>, ghost gone: set<int>)
      returns (ok: bool)
      requires Climbing(fs, d, t, c, gone) && t.Node? && t.key in At(local) && gone <= Keys(tree)
      requires key !in At(local) ==>
                 Fetchable(local, fs, d, t, oram.content, key, parent) && leaf == oram.content[key].leaf && key in Keys(tree)
      modifies `local, `opCount, oram
      ensures !ok ==> oram.Overfull()
      ensures opCount == old(opCount) + 1 && oram.fetches == old(oram.fetches) + 1
      ensures ok ==> Climbing(fs, d, t, c, gone) && key in At(local) && old(At(local).Keys) <= At(local).Keys
      ensures ok ==> old(local) <= local
    {
      hide At, Holds, Placed, Zip, Keys, Loaded;
      ZipUnique(local, fs, d, t, oram.content);
      var at := IndexOf(local, key);
      if at < 0 {
        ZipFetch(local, fs, d, t, oram.content, key, parent);
        ghost var before, b := local, oram.content;
        ok := MoveToLocal(key, leaf, parent);
        if ok { MoreTaken(c, b, oram.content, At(before).Keys, gone, key); }
      } else {
        ok := TrackedDummy();
      }
    }

    /** The lowest path node takes the true heights of its children and joins the focus. */
    method RefreshTip(key: int, ghost fs: seq<Frame<V>>, ghost d: nat, ghost t: Tree<V>, ghost c: Cells<V>, ghost gone: set<int>)
      returns (at: nat)
      requires 0 < d && Climbing(fs, d, t, c, gone) && key == fs[d - 1].key
      modifies `local
      ensures at == d - 1 < |local| && local[at].key == key && Join(fs[d - 1], t).Node? && Join(fs[d - 1], t).key == key
      ensures Climbing(fs, d - 1, Join(fs[d - 1], t), c, gone)
    {
      hide At, Holds, Placed, Zip, Keys, Refresh, Join, Maximal, SameButHeights;
      ZipUnique(local, fs, d, t, oram.content);
      JoinKeys(fs[d - 1], t);
      ghost var s := local;
      at := IndexOf(local, key);
      assert at == d - 1;
      RefreshKeeps(local[at], At(local));
      ZipRefreshNode(local, fs, d, t, oram.content);
      var node := RefreshNode(local, at);
      AtUpdate(local, at, node);
      local := local[at := node];
      AtHas(local, at);
      SameKeysSameIndex(s, local);
    }

    /** Fetches the taller child and, for a double rotation, its inner child. */
    method LoadPivots(at: nat, ghost fs: seq<Frame<V>>, ghost d: nat, ghost t: Tree<V>, ghost c: Cells<V>, ghost gone: set<int>)
      returns (ok: bool)
      requires Climbing(fs, d, t, c, gone) && at == d < |local| && t.Node? && local[at].key == t.key
      requires gone <= Keys(tree) && Keys(t) <= Keys(tree)
      requires Tilt(t) > 1 || Tilt(t) < -1
      modifies `local, `opCount, oram
      ensures !ok ==> oram.Overfull()
      ensures ok ==> opCount == old(opCount) + 2 && oram.fetches == old(oram.fetches) + 2
      ensures ok ==> at < |local| && local[at].key == t.key && Unique(local) && Climbing(fs, d, t, c, gone)
      ensures ok ==> PivotsLoaded(t, At(local))
    {
      hide At, Holds, Placed, Zip, Keys, Fetchable, Tilt, PivotsLoaded, RootAt, Unique, Maximal;
      NodeRead(local, fs, d, t, oram.content);
      ghost var left := Tilt(t) > 1;
      var bal, ndKey := local[at].avl.Balance(), local[at].key;
      var tallKey := if bal > 1 then local[at].avl.lKey else local[at].avl.rKey;
      var tallLeaf := if bal > 1 then local[at].avl.lLeaf else local[at].avl.rLeaf;
      ChildFetchable(local, fs, d, t, oram.content, left);
      ChildWithin(t, left);
      ok := FetchOrDummy(tallKey, tallLeaf, ndKey, fs, d, t, c, gone);
      if ok {
        ok := LoadInner(at, bal, tallKey, left, fs, d, t, c, gone);
      }
    }

    /** Fetches the inner child if the taller child `tallKey` leans towards it. */
    method LoadInner(at: nat, bal: int, tallKey: int, ghost left: bool, ghost fs: seq<Frame<V>>, ghost d: nat,
                     ghost t: Tree<V>, ghost c: Cells<V>, ghost gone: set<int>)
      returns (ok: bool)
      requires Climbing(fs, d, t, c, gone) && at == d < |local| && t.Node? && local[at].key == t.key
      requires gone <= Keys(tree) && Keys(t) <= Keys(tree)
      requires bal == Tilt(t) && left == (bal > 1) && (bal > 1 || bal < -1)
      requires Child(t, left).Node? && tallKey == Child(t, left).key && tallKey in At(local)
      modifies `local, `opCount, oram
      ensures !ok ==> oram.Overfull()
      ensures ok ==> opCount == old(opCount) + 1 && oram.fetches == old(oram.fetches) + 1
      ensures ok ==> at < |local| && local[at].key == t.key && Unique(local) && Climbing(fs, d, t, c, gone)
      ensures ok ==> PivotsLoaded(t, At(local))
    {
      hide At, Holds, Placed, Zip, Keys, Fetchable, Tilt, PivotsLoaded, RootAt, Unique, Maximal;
      ZipUnique(local, fs, d, t, oram.content);
      var tall := IndexOf(local, tallKey);
      ChildRead(local, fs, d, t, oram.content, left, tall);
      var tallBal := local[tall].avl.Balance();
      var needInner := (bal > 1 && tallBal < 0) || (bal < -1 && tallBal > 0);
      if needInner {
        var innerKey := if bal > 1 then local[tall].avl.rKey else local[tall].avl.lKey;
        var innerLeaf := if bal > 1 then local[tall].avl.rLeaf else local[tall].avl.lLeaf;
        GrandFetchable(local, fs, d, t, oram.content, left, !left);
        GrandWithin(t, left);
        NodeRead(local, fs, d, t, oram.content);
        ok := FetchOrDummy(innerKey, innerLeaf, tallKey, fs, d, t, c, gone);
      } else {
        ok := TrackedDummy();
      }
      if ok {
        ZipUnique(local, fs, d, t, oram.content);
        AllLoaded(t, At(local), left);
      }
    }

    /** Rebalances the root of the focus. */
    method Turn(ndKey: int, ghost fs: seq<Frame<V>>, ghost d: nat, ghost t: Tree<V>, ghost c: Cells<V>, ghost gone: set<int>)
      requires Climbing(fs, d, t, c, gone) && d < |local| && t.Node? && local[d].key == t.key == ndKey
      requires PivotsLoaded(t, At(local))
      modifies `local, `rootKey
      ensures Climbing(fs, d, Rebalance(t), c, gone)
    {
      hide At, Holds, Placed, Zip, Keys, Tilt, PivotsLoaded, RootAt, Rebalance, RefreshAll;
      ghost var s := local;
      ZipUnique(local, fs, d, t, oram.content);
      ZipRefreshAgain(local, fs, d, t, oram.content);
      local := UpdateHeights(local);
      SameKeysSameIndex(s, local);
      LoadedByKeys(t, At(s), At(local));
      RebalanceIsNode(t);
      var at := IndexOf(local, ndKey);
      assert at == d;
      ghost var s1 := local;
      local, rootKey := BalanceFocus(local, rootKey, at, fs, t, oram.content);
      SameKeysSameIndex(s1, local);
      ghost var s2 := local;
      ZipRefreshAgain(local, fs, d, Rebalance(t), oram.content);
      local := UpdateHeights(local);
      SameKeysSameIndex(s2, local);
    }

    /** One level of the climb: exactly two accesses, whether or not anything is rotated. */
    method ClimbStep(key: int, ghost fs: seq<Frame<V>>, ghost d: nat, ghost t: Tree<V>, ghost c: Cells<V>, ghost gone: set<int>)
      returns (ok: bool)
      requires 0 < d && Climbing(fs, d, t, c, gone) && key == fs[d - 1].key
      requires gone <= Keys(tree) && Keys(Plug(fs[..d], t)) <= Keys(tree)
      modifies `local, `rootKey, `opCount, oram
      ensures !ok ==> oram.Overfull()
      ensures ok ==> opCount == old(opCount) + 2 && oram.fetches == old(oram.fetches) + 2
      ensures ok ==> Climbing(fs, d - 1, Rebalance(Join(fs[d - 1], t)), c, gone)
    {
      hide At, Holds, Placed, Zip, Keys, Tilt, PivotsLoaded, RootAt, Rebalance, Join, Plug;
      ghost var joined := Join(fs[d - 1], t);
      JoinWithin(fs, d, t);
      var at := RefreshTip(key, fs, d, t, c, gone);
      NodeRead(local, fs, d - 1, joined, oram.content);
      RebalanceIsNode(joined);
      var bal := local[at].avl.Balance();
      if -1 <= bal <= 1 {
        ok := TrackedDummy();
        if ok { ok := TrackedDummy(); }
      } else {
        ok := LoadPivots(at, fs, d - 1, joined, c, gone);
        if ok { Turn(key, fs, d - 1, joined, c, gone); }
      }
    }

    /** Climbs back to the root, rebalancing at every node of the path. */
    method ClimbBack(ghost fs: seq<Frame<V>>, ghost t: Tree<V>, ghost c: Cells<V>, ghost gone: set<int>) returns (ok: bool)
      requires |local| == |fs| && Climbing(fs, |fs|, t, c, gone) && gone <= Keys(tree) && Keys(Plug(fs, t)) <= Keys(tree)
      modifies `local, `rootKey, `opCount, oram
      ensures !ok ==> oram.Overfull()
      ensures ok ==> opCount == old(opCount) + 2 * |fs| && oram.fetches == old(oram.fetches) + 2 * |fs|
      ensures ok ==> Climbing(fs, 0, Climb(fs, t), c, gone)
    {
      hide At, Holds, Placed, Zip, Keys, RootAt, Rebalance, Join, Plug, Climb;
      ZipUnique(local, fs, |fs|, t, oram.content);
      var pathKeys := [];
      for i := 0 to |local|
        invariant |pathKeys| == i && forall j :: 0 <= j < i ==> pathKeys[j] == local[j].key
      {
        pathKeys := pathKeys + [local[i].key];
      }
      ghost var focus := t;
      assert fs[..|fs|] == fs;
      ok := true;
      for pi := |pathKeys| downto 0
        invariant ok && Climbing(fs, pi, focus, c, gone) && Climb(fs[..pi], focus) == Climb(fs, t)
        invariant Keys(Plug(fs[..pi], focus)) <= Keys(tree)
        invariant opCount == old(opCount) + 2 * (|fs| - pi) && oram.fetches == old(oram.fetches) + 2 * (|fs| - pi)
      {
        ClimbUp(fs, pi + 1, focus);
        ClimbWithin(local, fs, pi + 1, focus, oram.content);
        ok := ClimbStep(pathKeys[pi], fs, pi + 1, focus, c, gone);
        if !ok { return; }
        focus := Rebalance(Join(fs[pi], focus));
      }
      assert fs[..0] == [];
      ClimbNothing(focus);
    }

    /** Climbs back and writes the tree without `key` to the blocks. */
    method FinishRemove(ghost key: int, ghost fs: seq<Frame<V>>, ghost t: Tree<V>, ghost c: Cells<V>) returns (ok: bool)
      requires |local| == |fs| && Climbing(fs, |fs|, t, c, Keys(tree) * {key})
      requires Ordered(tree) && Climb(fs, t) == Removed(tree, key) && Keys(Plug(fs, t)) <= Keys(tree)
      modifies `local, `rootKey, `rootLeaf, `tree, `opCount, oram
      ensures !ok ==> oram.Overfull()
      ensures ok ==> opCount == old(opCount) + 2 * |fs| && oram.fetches == old(oram.fetches) + 2 * |fs|
      ensures ok ==> oram.Quiet() && local == [] && RootOk() && tree == Removed(old(tree), key)
      ensures ok ==> Stored(tree, oram.content) && Ordered(tree) && forall k :: k in Keys(tree) ==> k >= 0
      ensures ok ==> Foreign() == c - Keys(old(tree))
    {
      hide At, Holds, Placed, Zip, Keys, Ordered, Plug, Climb, Removed, Stored, Maximal;
      ghost var t0, gone := tree, Keys(tree) * {key};
      ok := ClimbBack(fs, t, c, gone);
      if !ok { return; }
      ZipUnique(local, fs, 0, Removed(t0, key), oram.content);
      ghost var listed, before := At(local).Keys, oram.content;
      LocalTaken(local, c, gone);
      RemoveContents(t0, key);
      WriteBack(fs, Removed(t0, key));
      OthersStay(c, before, listed, Keys(t0), key);
      ForeignSame(c, before, oram.content, listed + gone, listed, Keys(t0), Keys(tree));
    }

    /** Finds the target and unlinks it, or stops at the empty child where it would be. */
    method FindAndUnlink(key: int) returns (ok: bool, ghost fs: seq<Frame<V>>, ghost t: Tree<V>)
      requires Valid() && tree.Node? && opCount == 0
      modifies `local, `rootKey, `rootLeaf, `opCount, oram
      ensures !ok ==> oram.Overfull()
      ensures opCount <= maxHeight && oram.fetches == old(oram.fetches) + opCount
      ensures ok ==> |local| == |fs| <= opCount && Climbing(fs, |fs|, t, old(oram.content), Keys(tree) * {key})
      ensures ok ==> Climb(fs, t) == Removed(tree, key) && Keys(Plug(fs, t)) <= Keys(tree)
    {
      hide At, Holds, Placed, Zip, ExactPath, Keys, Plug, Ordered, Balanced, Stored, Fib, Pow2, Size, Contents,
           Height, Step, Descended, StrictPath, Climb, Removed, Climbing, LeftSpine;
      ghost var c := oram.content;
      ghost var up, s, down, m;
      var found, twoChild;
      ok, found, twoChild, up, s := FindTarget(key);
      if !ok { return false, [], Nil; }
      if found {
        var target := |local| - 1;
        if twoChild {
          ok, down, m := FindSuccessor(up, s, c);
          if !ok { return false, [], Nil; }
        } else {
          down, m := [], Nil;
        }
        fs, t := Unlink(target, twoChild, up, s, down, m, c);
        FoundKey(up, s);
      } else {
        fs, t := up, Nil;
        MissingRemoved(up, key);
        MissedPath(up, key, c);
      }
    }

    lemma MissedPath(up: seq<Frame<V>>, key: int, c: Cells<V>)
      requires Descended(up, Nil, c) && Plug(up, Nil) == tree && StrictPath(up, key) && Ordered(tree)
      requires |up| > 0 && up[0].key == rootKey
      ensures Climbing(up, |up|, Nil, c, Keys(tree) * {key})
      ensures Keys(tree) * {key} == {} && |local| == |up|
    {
      hide At, Holds, Placed, Zip, ExactPath, Plug, Ordered, StrictPath;
      StrictAbsent(up, Nil, key);
    }

    /** Removes `key`; an absent key changes nothing. */
    method Remove(key: int) returns (r: Result<()>)
      requires Valid()
      modifies this, oram
      ensures r.Ok? ==> Valid() && Map() == old(Map()) - {key}
      ensures r.Ok? ==> Foreign() == old(Foreign())
      ensures r.Ok? && !odsMode ==> oram.fetches == old(oram.fetches) + 3 * maxHeight
      ensures r.Ok? ==> oram.fetches == old(oram.fetches) + opCount && opCount <= 3 * maxHeight
      ensures r.Err? ==> r.error == StashOverflow && oram.Overfull()
    {
      hide At, Holds, Placed, Keys, Plug, Ordered, Balanced, Stored, Removed, Fib, Pow2, Size, Contents, Climb, Climbing;
      opCount := 0;
      RootMissing(tree);
      RemovalFits(tree, key, capacity);
      if rootKey != INVALID_KEY {
        ghost var c := oram.content;
        var ok;
        ghost var fs, t;
        ok, fs, t := FindAndUnlink(key);
        if ok { ok := FinishRemove(key, fs, t, c); }
        if !ok { return Err(StashOverflow); }
      } else {
        assert Map() == map[];
      }
      var padded := PadUnlessInner();
      r := if padded then Ok(()) else Err(StashOverflow);
    }

    lemma ChildrenPositive(up: seq<Frame<V>>, s: Tree<V>, left: bool, c: Cells<V>)
      requires s.Node? && Descended(up + [Step(s, left)], Child(s, left), c)
      ensures s.left.Node? ==> s.left.key >= 0
      ensures s.right.Node? ==> s.right.key >= 0
    {
      hide At, Rep, PathOk, PathSide, OrderedPath, Holds, Placed, ExactPath, Keys;
      var fs := up + [Step(s, left)];
      ZipPathOrder(local, fs, Child(s, left), oram.content);
      StoredPositive(fs, Child(s, left));
    }

    // ----- Removal: unlinking and climbing back -----

    /** The list is the path `fs[..d]` and nodes of the focus `t`; the entries `gone` have been
        unlinked, and the rest of the tree is in the blocks. */
    ghost predicate Climbing(fs: seq<Frame<V>>, d: nat, t: Tree<V>, c: Cells<V>, gone: set<int>)
      reads this, oram
    {
      && oram.Quiet() && d <= |fs| && d <= |local| && Zip(local, fs, d, t, oram.content)
      && oram.content == c - (At(local).Keys + gone)
      && At(local).Keys <= Keys(tree) - gone
      && rootKey == RootAt(fs, d, t)
      && (d == 0 && t.Node? && t.key !in At(local) ==> t.key in oram.content && rootLeaf == oram.content[t.key].leaf)
    }

    /** The path to a target with at most one child. */
    ghost predicate FoundOne(up: seq<Frame<V>>, s: Tree<V>, c: Cells<V>)
      reads this, oram
    {
      && s.Node? && (s.left == Nil || s.right == Nil) && |local| == |up| + 1
      && Descended(up + [Step(s, true)], s.left, c)
    }

    /** The path to a target with two children and on to its successor `m`. */
    ghost predicate FoundTwo(up: seq<Frame<V>>, s: Tree<V>, down: seq<Frame<V>>, m: Tree<V>, c: Cells<V>)
      reads this, oram
    {
      && s.Node? && s.left.Node? && m.Node? && m.left == Nil && LeftSpine(down) && Plug(down, m) == s.right
      && |local| == |up| + |down| + 2
      && Descended(up + [Step(s, false)] + down + [Step(m, true)], Nil, c)
    }

    /** Unlinks the target `s`. */
    method Unlink(target: nat, twoChild: bool, ghost up: seq<Frame<V>>, ghost s: Tree<V>, ghost down: seq<Frame<V>>,
                  ghost m: Tree<V>, ghost c: Cells<V>)
      returns (ghost fs: seq<Frame<V>>, ghost t: Tree<V>)
      requires s.Node? && StrictPath(up, s.key) && Plug(up, s) == tree && target == |up| && rootKey == RootKey(tree)
      requires Ordered(tree)
      requires if twoChild then FoundTwo(up, s, down, m, c) else FoundOne(up, s, c)
      modifies `local, `rootKey, `rootLeaf
      ensures |local| == |fs| == old(|local|) - 1 && Climbing(fs, |fs|, t, c, {s.key})
      ensures Climb(fs, t) == Removed(tree, s.key) && Keys(Plug(fs, t)) <= Keys(tree)
    {
      hide At, Holds, Placed, Zip, ExactPath, Keys, Ordered, Plug, StrictPath, Step, LeftSpine, Linked, RenamedAt, DropLast,
           Removed, Climb, OnlyChildKey, OnlyChildLeaf, Successed, SameKeys, Unique, Maximal, Fib, Pow2;
      ghost var before := local;
      if twoChild {
        TwoChildPath(up, s, down, m);
        ghost var path := up + [Step(s, false)] + down + [Step(m, true)];
        ZipUnique(local, path, |local|, Nil, oram.content);
        ZipLinked(local, path, Nil, oram.content);
        StepKey(s, false);
        LastNode(local, path, m, oram.content);
      } else {
        PlugStep(up, s, true);
        ZipUnique(local, up + [Step(s, true)], |local|, s.left, oram.content);
        ZipLinked(local, up + [Step(s, true)], s.left, oram.content);
        StepKey(s, true);
        UnlinkedOne(local, up, s, oram.content);
      }
      RootAlong(up, s);
      AtHas(local, target);
      local, rootKey, rootLeaf := DeleteTarget(local, rootKey, rootLeaf, target, twoChild);
      if twoChild {
        fs, t := Successed(up, s, down, m), m.right;
        UnlinkedTwo(before, up, s, down, m, local, oram.content);
        RemoveTwo(up, s, down, m);
        SuccessedPath(up, s, down, m);
      } else {
        fs, t := up, OnlySubtree(s);
        RemoveOne(up, s);
      }
      KeyTaken(c, oram.content, At(before).Keys, At(local).Keys, s.key);
      if t.Node? { ZipRootPositive(local, fs, |fs|, t, oram.content); }
    }
  }
}
