/** The AVL map for lookups over one ORAM or two (avl_omap): nodes above a chosen depth live in the
    upper one, where fewer blocks make shorter paths. */
module AvlSplits {
  import opened Common
  import opened Geometry
  import opened StashTrees
  import opened AvlTrees
  import opened AvlLocal
  import opened AvlRep
  import opened AvlZip
  import opened AvlClimb
  import opened AvlDescend
  import opened AvlShrink
  import opened AvlFlush
  import opened AvlSearch
  import opened AvlInit
  import opened AvlSteps
  import PathOrams

  /** Exactly the nodes above depth `split` are in the upper ORAM; this subtree starts at depth `d`. */
  ghost predicate Layered<V>(t: Tree<V>, d: nat, split: nat, up: set<int>, low: set<int>) {
    t.Node? ==>
      && (if d < split then t.key in up && t.key !in low else t.key in low && t.key !in up)
      && Layered(t.left, d + 1, split, up, low) && Layered(t.right, d + 1, split, up, low)
  }

  lemma {:induction false} LayeredUpdate<V>(t: Tree<V>, d: nat, split: nat, up: set<int>, low: set<int>, key: int, value: V)
    requires Layered(t, d, split, up, low)
    ensures Layered(Update(t, key, value), d, split, up, low)
  {
    if t.Node? {
      LayeredUpdate(t.left, d + 1, split, up, low, key, value);
      LayeredUpdate(t.right, d + 1, split, up, low, key, value);
    }
  }

  /** Where a subtree is right at depth `d`, one level down it is right iff none of it crosses the split. */
  lemma {:induction false} LevelsShift<V>(t: Tree<V>, d: nat, split: nat, up: set<int>, low: set<int>)
    ensures Layered(t, d, split, up, low) && Layered(t, d + 1, split, up, low) ==> d >= split || d + Height(t) < split
    ensures d >= split || d + Height(t) < split ==> (Layered(t, d, split, up, low) <==> Layered(t, d + 1, split, up, low))
  {
    if t.Node? {
      LevelsShift(t.left, d + 1, split, up, low);
      LevelsShift(t.right, d + 1, split, up, low);
    }
  }

  /** A rotation at depth `d` leaves every node in the ORAM of its depth iff it and all that moves with
      it are on one side of the split. */
  lemma RotatedLayers<V>(t: Tree<V>, d: nat, split: nat, up: set<int>, low: set<int>)
    requires t.Node? && t.right.Node? && Layered(t, d, split, up, low)
    ensures Layered(RotateLeft(t), d, split, up, low) <==>
              d >= split || d + 1 + Max(Height(t.left), Height(t.right.right)) < split
  {
    var r := RotateLeft(t);
    assert Layered(t.right, d + 1, split, up, low);
    assert Layered(r, d, split, up, low) ==> Layered(r.left, d + 1, split, up, low);
    LevelsShift(t.left, d + 1, split, up, low);
    LevelsShift(t.right.right, d + 1, split, up, low);
  }

  lemma RotatedRightLayers<V>(t: Tree<V>, d: nat, split: nat, up: set<int>, low: set<int>)
    requires t.Node? && t.left.Node? && Layered(t, d, split, up, low)
    ensures Layered(RotateRight(t), d, split, up, low) <==>
              d >= split || d + 1 + Max(Height(t.right), Height(t.left.left)) < split
  {
    var r := RotateRight(t);
    assert Layered(t.left, d + 1, split, up, low);
    assert Layered(r, d, split, up, low) ==> Layered(r.right, d + 1, split, up, low);
    LevelsShift(t.right, d + 1, split, up, low);
    LevelsShift(t.left.left, d + 1, split, up, low);
  }

  /** Each node of the path came from the ORAM of its depth. */
  ghost predicate FromHome<V>(s: Local<V>, split: nat, up: set<int>, low: set<int>) {
    forall i :: 0 <= i < |s| ==> if i < split then s[i].key in up && s[i].key !in low else s[i].key in low && s[i].key !in up
  }

  /** One of the first `n` nodes of the list. */
  ghost predicate Listed<V>(s: Local<V>, n: nat, k: int) {
    exists j :: 0 <= j < n <= |s| && s[j].key == k
  }

  /** The keys of an ORAM while the first `n` nodes of the list are back, and the others not. */
  ghost predicate Remaining<V>(now: set<int>, all: set<int>, s: Local<V>, n: nat) {
    forall k :: k in now <==> k in all && (Listed(s, |s|, k) ==> Listed(s, n, k))
  }

  lemma ListedMore<V>(s: Local<V>, n: nat, k: int)
    requires n < |s|
    ensures Listed(s, n + 1, k) <==> Listed(s, n, k) || k == s[n].key
  {
    if Listed(s, n, k) {
      var j :| 0 <= j < n && s[j].key == k;
      assert s[j].key == k;
    }
    assert k == s[n].key ==> Listed(s, n + 1, k);
  }

  lemma ReturnStep<V>(upNow: set<int>, up: set<int>, lowNow: set<int>, low: set<int>, s: Local<V>, n: nat, split: nat)
    requires n < |s| && Unique(s) && FromHome(s, split, up, low)
    requires Remaining(upNow, up, s, n) && Remaining(lowNow, low, s, n)
    ensures s[n].key !in upNow && s[n].key !in lowNow
    ensures Remaining(if n < split then upNow + {s[n].key} else upNow, up, s, n + 1)
    ensures Remaining(if n < split then lowNow else lowNow + {s[n].key}, low, s, n + 1)
  {
    assert Listed(s, |s|, s[n].key) && !Listed(s, n, s[n].key);
    hide Listed;
    forall k ensures Listed(s, n + 1, k) <==> Listed(s, n, k) || k == s[n].key {
      ListedMore(s, n, k);
    }
  }

  lemma AllReturned<V>(now: set<int>, all: set<int>, s: Local<V>)
    requires Remaining(now, all, s, |s|)
    ensures now == all
  {
    forall k ensures k in now <==> k in all {
    }
  }

  /** Fetches the path of `leaf` for the block of `key`. */
  method FetchBlock<V>(oram: StashTree<AvlNode<V>>, key: int, leaf: nat) returns (ok: bool, block: Block<AvlNode<V>>)
    requires oram.Quiet() && key in oram.content && leaf == oram.content[key].leaf
    modifies oram
    ensures !ok ==> oram.Overfull()
    ensures oram.fetches == old(oram.fetches) + 1 && block == old(oram.content)[key] && block.key == key
    ensures ok ==> oram.Quiet() && oram.content == old(oram.content) - {key}
  {
    hide Holds, Placed, PathNodes, PathSum, Maximal, SameOutside;
    oram.ReadPaths([leaf]);
    var r := oram.ExtractFromStash(key);
    block := r.value;
    ok := oram.EvictStash([leaf]);
  }

  function Min(a: nat, b: nat): nat {
    if a < b then a else b
  }

  class SplitAvl<V> {
    const upper: StashTree<AvlNode<V>>
    const lower: StashTree<AvlNode<V>>
    const splitDepth: nat
    const capacity: nat
    const maxHeight: nat

    var rootKey: int
    var rootLeaf: int
    var local: Local<V>
    // Fetches of this operation from either ORAM.
    var upperOps: nat
    var lowerOps: nat

    ghost var tree: Tree<V>

    /** The ORAM of the nodes at depth `d`. */
    function OramForDepth(d: nat): StashTree<AvlNode<V>> {
      if d < splitDepth then upper else lower
    }

    ghost predicate Separate()
      reads upper, lower
    {
      upper != lower && upper.content.Keys !! lower.content.Keys
    }

    /** All blocks. */
    ghost function Content(): Cells<V>
      reads upper, lower
    {
      upper.content + lower.content
    }

    /** The blocks represent an AVL tree, each node in the ORAM of its depth. */
    ghost predicate Valid()
      reads this, upper, lower
    {
      && Separate() && upper.Quiet() && lower.Quiet() && local == [] && splitDepth <= maxHeight
      && Avl(tree) && (forall k :: k in Keys(tree) ==> k >= 0)
      && Stored(tree, Content()) && RootRight(rootKey, rootLeaf, tree, Content())
      && Layered(tree, 0, splitDepth, upper.content.Keys, lower.content.Keys)
      && Size(tree) <= capacity < Fib(maxHeight + 3) - 1
    }

    /** Blocks that are not nodes of the tree. */
    ghost function Foreign(): Cells<V>
      reads this, upper, lower
    {
      Content() - Keys(tree)
    }

    ghost function Map(): map<int, V>
      reads this
    {
      Contents(tree)
    }

    predicate Overfull()
      reads upper, lower
    {
      upper.Overfull() || lower.Overfull()
    }

    /** Path fetches from both. */
    ghost function Fetches(): nat
      reads upper, lower
    {
      upper.fetches + lower.fetches
    }

    constructor (capacity: nat, maxHeight: nat, bucketSize: nat, splitDepth: nat, upperCapacity: nat)
      requires capacity < Fib(maxHeight + 3) - 1
      ensures Valid() && Map() == map[] && Content() == map[] && Foreign() == map[] && fresh(upper) && fresh(lower)
      ensures this.capacity == capacity && this.maxHeight == maxHeight && this.splitDepth == Min(splitDepth, maxHeight)
    {
      upper := new StashTree<AvlNode<V>>.Empty(if upperCapacity < 1 then 1 else upperCapacity, bucketSize, 7);
      lower := new StashTree<AvlNode<V>>.Empty(capacity, bucketSize, 7);
      this.capacity, this.maxHeight, this.splitDepth := capacity, maxHeight, Min(splitDepth, maxHeight);
      rootKey, rootLeaf, local, upperOps, lowerOps := INVALID_KEY, INVALID_LEAF, [], 0, 0;
      tree := Nil;
    }

    // ----- ORAM accesses -----

    ghost predicate Quiet()
      reads upper, lower
    {
      Separate() && upper.Quiet() && lower.Quiet()
    }

    /** Fetches the block of `key` along `leaf` and appends it to the list. */
    method MoveToLocal(key: int, leaf: nat, parentKey: int) returns (ok: bool)
      requires Quiet() && key in OramForDepth(|local|).content && leaf == OramForDepth(|local|).content[key].leaf
      modifies `local, `upperOps, `lowerOps, OramForDepth(|local|)
      ensures !ok ==> Overfull()
      ensures upperOps == old(upperOps) + (if |old(local)| < splitDepth then 1 else 0)
      ensures lowerOps == old(lowerOps) + (if |old(local)| < splitDepth then 0 else 1)
      ensures OramForDepth(|old(local)|).fetches == old(OramForDepth(|local|).fetches) + 1
      ensures ok ==> Quiet() && OramForDepth(|old(local)|).content == old(OramForDepth(|local|).content) - {key}
      ensures ok ==> Content() == old(Content()) - {key} && key in old(Content())
      ensures ok ==> local == old(local) + [Loaded(old(Content())[key], parentKey)]
    {
      hide StashTree.Quiet, StashTree.Overfull;
      var block;
      ok, block := FetchBlock(OramForDepth(|local|), key, leaf);
      if |local| < splitDepth { upperOps := upperOps + 1; } else { lowerOps := lowerOps + 1; }
      local := local + [LocalNode(key, block.leaf, block.value, parentKey)];
    }

    /** Dummy accesses of one of the two ORAMs. */
    method Dummies(oram: StashTree<AvlNode<V>>, count: nat) returns (ok: bool)
      requires Quiet() && (oram == upper || oram == lower)
      modifies oram
      ensures !ok ==> Overfull()
      ensures ok ==> Quiet() && oram.content == old(oram.content) && oram.fetches == old(oram.fetches) + count
    {
      hide Holds, Placed, PathNodes, PathSum, Maximal, SameOutside;
      for i := 0 to count
        invariant Quiet() && oram.content == old(oram.content) && oram.fetches == old(oram.fetches) + i
      {
        var leaf := oram.RandomLeaf();
        oram.ReadPaths([leaf]);
        ok := oram.EvictStash([leaf]);
        if !ok { return; }
      }
      ok := true;
    }

    /** Dummy accesses until each ORAM has had its share of the budget. */
    method PadToBudget() returns (ok: bool)
      requires Quiet()
      modifies `upperOps, `lowerOps, upper, lower
      ensures !ok ==> Overfull()
      ensures ok ==> Quiet() && upper.content == old(upper.content) && lower.content == old(lower.content)
      ensures ok ==> upper.fetches - old(upper.fetches) == Max(UpperShare() - old(upperOps), 0)
      ensures ok ==> lower.fetches - old(lower.fetches) == Max(3 * maxHeight - UpperShare() - old(lowerOps), 0)
    {
      hide StashTree.Quiet, StashTree.Overfull;
      var share := UpperShare();
      var pad := if share > upperOps then share - upperOps else 0;
      ok := Dummies(upper, pad);
      if !ok { return; }
      upperOps := upperOps + pad;
      pad := if 3 * maxHeight - share > lowerOps then 3 * maxHeight - share - lowerOps else 0;
      ok := Dummies(lower, pad);
      lowerOps := lowerOps + pad;
    }

    /** The fetches of an operation that go to the upper ORAM. */
    function UpperShare(): nat {
      Min(splitDepth, 3 * maxHeight)
    }

    // ----- Writing back -----

    /** Moves every node of the list to a fresh leaf of its ORAM and repairs the pointers to it. */
    method ReassignLeaves()
      requires upper.Valid() && lower.Valid() && Unique(local)
      modifies `local, `rootLeaf
      ensures SameKeys(old(local), local) && Unique(local) && Released(At(old(local)), At(local))
      ensures forall j :: 0 <= j < |local| ==> local[j].leaf < OramForDepth(j).Range()
      ensures rootLeaf == if rootKey in At(local) then At(local)[rootKey].leaf else old(rootLeaf)
    {
      hide At, Holds, Placed, Relinked, Released, StashTree.Valid, Pow2;
      ghost var s := local;
      for i := |local| downto 0
        invariant SameButLeaves(s, local) && rootLeaf == old(rootLeaf)
        invariant forall j :: i <= j < |local| ==> local[j].leaf < OramForDepth(j).Range()
      {
        var leaf := OramForDepth(i).RandomLeaf();
        local := local[i := local[i].(leaf := leaf)];
      }
      ghost var moved := local;
      SameButLeavesUnique(s, local);
      local := LinkLeaves(local);
      ListReleased(s, moved, local);
      forall j | 0 <= j < |local| ensures local[j].leaf < OramForDepth(j).Range() {
        RelinkedLeaf(moved[j], At(moved));
      }
      var at := IndexOf(local, rootKey);
      if at >= 0 {
        AtHas(local, at);
        rootLeaf := local[at].leaf;
      }
    }

    /** Returns node `i` of the list to the stash of its ORAM. */
    method ReturnNode(i: nat)
      requires i < |local| && upper != lower && upper.Valid() && lower.Valid() && local[i].leaf < OramForDepth(i).Range()
      requires local[i].key !in upper.content && local[i].key !in lower.content
      modifies OramForDepth(i)
      ensures OramForDepth(i).Valid() && OramForDepth(i).pending == old(OramForDepth(i).pending)
      ensures OramForDepth(i).fetches == old(OramForDepth(i).fetches)
      ensures OramForDepth(i).content.Keys == old(OramForDepth(i).content.Keys) + {local[i].key}
      ensures Content() == old(Content())[local[i].key := Block(local[i].key, local[i].leaf, local[i].avl)]
    {
      hide StashTree.Valid;
      var oram := OramForDepth(i);
      oram.AddToStash(Block(local[i].key, local[i].leaf, local[i].avl));
    }

    /** Returns every node of the list to the stash of its ORAM. */
    method FlushLocalToStash(ghost up: set<int>, ghost low: set<int>)
      requires upper != lower && upper.Valid() && lower.Valid() && Unique(local) && up !! low
      requires FromHome(local, splitDepth, up, low)
      requires Remaining(upper.content.Keys, up, local, 0) && Remaining(lower.content.Keys, low, local, 0)
      requires forall j :: 0 <= j < |local| ==> local[j].leaf < OramForDepth(j).Range()
      modifies `local, upper, lower
      ensures upper.Valid() && upper.pending == old(upper.pending) && upper.fetches == old(upper.fetches)
      ensures lower.Valid() && lower.pending == old(lower.pending) && lower.fetches == old(lower.fetches)
      ensures local == [] && Content() == old(Content()) + Blocks(At(old(local)))
      ensures upper.content.Keys == up && lower.content.Keys == low
    {
      hide At, StashTree.Valid, Pow2, Blocks, Remaining, FromHome, Unique;
      ghost var c := Content();
      NothingFlushed(c);
      NoneUnique<V>();
      assert local[..0] == [];
      for i := 0 to |local|
        invariant local == old(local) && upper.Valid() && lower.Valid() && Unique(local[..i])
        invariant upper.pending == old(upper.pending) && upper.fetches == old(upper.fetches)
        invariant lower.pending == old(lower.pending) && lower.fetches == old(lower.fetches)
        invariant Content() == c + Blocks(At(local[..i]))
        invariant Remaining(upper.content.Keys, up, local, i) && Remaining(lower.content.Keys, low, local, i)
      {
        assert local[..i + 1] == local[..i] + [local[i]];
        NotYet(local, i);
        NextUnique(local, i);
        AtAppend(local[..i], local[i]);
        FlushStep(c, At(local[..i]), local[i]);
        ReturnStep(upper.content.Keys, up, lower.content.Keys, low, local, i, splitDepth);
        ReturnNode(i);
      }
      assert local[..|local|] == local;
      AllReturned(upper.content.Keys, up, local);
      AllReturned(lower.content.Keys, low, local);
      local := [];
    }

    /** Each node is in the list or in the ORAM that it belongs to; `up` and `low` are the keys of the
        two ORAMs with the list. */
    ghost predicate AtHome(up: set<int>, low: set<int>)
      reads this, upper, lower
    {
      && Separate() && upper.Valid() && lower.Valid() && up !! low && FromHome(local, splitDepth, up, low)
      && Remaining(upper.content.Keys, up, local, 0) && Remaining(lower.content.Keys, low, local, 0)
    }

    /** The path `fs` to the focus `t` is in the list; `c` are the blocks with it. */
    ghost predicate Descended(fs: seq<Frame<V>>, t: Tree<V>, c: Cells<V>, up: set<int>, low: set<int>)
      reads this, upper, lower
    {
      AtHome(up, low) && PathTaken(local, fs, t, Content(), c)
    }

    /** Writes back a path whose tree has kept its shape. */
    method FinishPath(ghost fs: seq<Frame<V>>, ghost t: Tree<V>, ghost c: Cells<V>, ghost up: set<int>, ghost low: set<int>)
      requires Descended(fs, t, c, up, low) && |fs| > 0 && rootKey == fs[0].key
      modifies `local, `rootLeaf, `tree, upper, lower
      ensures upper.Valid() && upper.pending == old(upper.pending) && upper.fetches == old(upper.fetches)
      ensures lower.Valid() && lower.pending == old(lower.pending) && lower.fetches == old(lower.fetches)
      ensures local == [] && tree == Plug(fs, t) && upper.content.Keys == up && lower.content.Keys == low && Separate()
      ensures Stored(tree, Content()) && Ordered(tree) && RootRight(rootKey, rootLeaf, tree, Content())
      ensures Content() - Keys(tree) == c - Keys(tree)
    {
      hide At, StashTree.Valid, Zip, ExactPath, Keys, Ordered, Stored, Released, FromHome, Remaining;
      ghost var s, before, whole := local, Content(), Plug(fs, t);
      PathWhole(s, fs, t, before, c);
      ReassignLeaves();
      ghost var m, m' := At(s), At(local);
      HomeStays(s, local, splitDepth, up, low, upper.content.Keys, lower.content.Keys);
      ReleaseStores(whole, ParentAt(fs, 0), m, m', before);
      ReleasedKeys(m, m');
      FlushLocalToStash(up, low);
      BlocksOver(before, m');
      tree := whole;
      ForeignSame(c, before, Content(), m.Keys, m.Keys, Keys(whole), Keys(whole));
    }

    // ----- Search -----

    /** Fetches the root of the focus and steps to its child on side `left`. */
    method Pull(key: int, leaf: int, ghost left: bool, ghost fs: seq<Frame<V>>, ghost t: Tree<V>, ghost c: Cells<V>,
        ghost up: set<int>, ghost low: set<int>) returns (ok: bool)
      requires Quiet() && Descended(fs, t, c, up, low) && t.Node? && RootRight(key, leaf, t, Content())
      requires Layered(t, |fs|, splitDepth, up, low)
      modifies `local, `upperOps, `lowerOps, upper, lower
      ensures !ok ==> Overfull()
      ensures upperOps == old(upperOps) + (if |old(local)| < splitDepth then 1 else 0)
      ensures lowerOps == old(lowerOps) + (if |old(local)| < splitDepth then 0 else 1)
      ensures upper.fetches - old(upper.fetches) == upperOps - old(upperOps)
      ensures lower.fetches - old(lower.fetches) == lowerOps - old(lowerOps)
      ensures ok ==> Quiet() && Descended(fs + [Step(t, left)], Child(t, left), c, up, low)
      ensures ok ==> |local| == |old(local)| + 1 && local[|local| - 1].avl.data == t.value && |fs| == |old(local)|
      ensures ok ==> RootRight(local[|local| - 1].avl.lKey, local[|local| - 1].avl.lLeaf, t.left, Content())
      ensures ok ==> RootRight(local[|local| - 1].avl.rKey, local[|local| - 1].avl.rLeaf, t.right, Content())
    {
      hide At, StashTree.Valid, PathTaken, Keys, Plug, Step, Child, FromHome, Remaining;
      var parent := if |local| == 0 then INVALID_KEY else local[|local| - 1].key;
      PathLength(local, fs, t, Content(), c);
      TakenParent(local, fs, t, Content(), c);
      BothKeyed();
      PullTaken(local, fs, t, Content(), c, left);
      RestHome(upper.content.Keys, up, lower.content.Keys, low, local, key);
      ghost var n := Loaded(Content()[key], parent);
      FromHomeMore(upper.content.Keys, up, lower.content.Keys, low, local, n, splitDepth);
      ok := MoveToLocal(key, leaf, parent);
    }

    lemma BothKeyed()
      requires upper.Valid() && lower.Valid()
      ensures Keyed(Content())
    {
      hide Holds, Placed;
    }

    lemma StartDescent(key: int)
      requires Valid()
      ensures Descended([], tree, Content(), upper.content.Keys, lower.content.Keys) && Quiet()
      ensures Plug([], tree) == tree && StrictPath<V>([], key)
      ensures Layered(tree, 0, splitDepth, upper.content.Keys, lower.content.Keys)
      ensures Height(tree) <= maxHeight && (tree.Node? ==> maxHeight > 0) && RootRight(rootKey, rootLeaf, tree, Content())
      ensures rootKey == INVALID_KEY <==> tree == Nil
    {
      hide StashTree.Valid, Layered, Stored, Ordered, Balanced, Keys, Fib, Size;
      RootMissing(tree);
      RootIsKey(tree);
      ZipStart(tree, Content());
      TreeFits(tree, capacity, maxHeight);
      assert Content() - {} == Content();
    }

    /** A search on its way: what it has found so far, or where it goes next. */
    ghost predicate Searching(key: int, update: Option<V>, found: bool, result: Option<V>, curKey: int, curLeaf: int,
                              fs: seq<Frame<V>>, t: Tree<V>, t0: Tree<V>, c: Cells<V>, up: set<int>, low: set<int>)
      reads this, upper, lower
    {
      && Quiet() && Descended(fs, t, c, up, low) && |fs| == |local| <= maxHeight && rootKey == RootKey(t0)
      && (|fs| > 0 ==> fs[0].key == rootKey)
      && Plug(fs, t) == (if found && update.Some? then Update(t0, key, update.value) else t0)
      && (found ==> result.Some? && result == Lookup(t0, key) && |fs| > 0)
      && (!found ==>
           && StrictPath(fs, key) && RootRight(curKey, curLeaf, t, Content()) && Height(t) <= maxHeight - |fs|
           && result == None && Layered(t, |fs|, splitDepth, up, low) && (|fs| == 0 ==> curKey != INVALID_KEY))
    }

    /** One level of a search. */
    method SearchLevel(key: int, update: Option<V>, curKey: int, curLeaf: int, ghost fs: seq<Frame<V>>, ghost t: Tree<V>,
        ghost t0: Tree<V>, ghost c: Cells<V>, ghost up: set<int>, ghost low: set<int>)
      returns (ok: bool, found: bool, result: Option<V>, nextKey: int, nextLeaf: int, ghost fs': seq<Frame<V>>, ghost t': Tree<V>)
      requires Searching(key, update, false, None, curKey, curLeaf, fs, t, t0, c, up, low)
      requires curKey != INVALID_KEY && |fs| < maxHeight
      modifies `local, `upperOps, `lowerOps, upper, lower
      ensures !ok ==> Overfull()
      ensures ok ==> Searching(key, update, found, result, nextKey, nextLeaf, fs', t', t0, c, up, low)
      ensures ok ==> |fs'| == |fs| + 1 && (!found ==> result == None)
      ensures upperOps == old(upperOps) + (if |fs| < splitDepth then 1 else 0)
      ensures lowerOps == old(lowerOps) + (if |fs| < splitDepth then 0 else 1)
      ensures upper.fetches - old(upper.fetches) == upperOps - old(upperOps)
      ensures lower.fetches - old(lower.fetches) == lowerOps - old(lowerOps)
    {
      hide Quiet, Descended, Plug, StrictPath, Height, Step, Child, Update, Lookup, Keys, Layered, Content, Overfull, SetValue;
      ghost var left := key <= curKey;
      found, result, nextKey, nextLeaf := false, None, curKey, curLeaf;
      FocusThere(curKey, curLeaf, t, Content());
      LayeredChild(t, |fs|, splitDepth, up, low, left);
      SearchStep(fs, t, t0, key, update, left);
      fs', t' := fs + [Step(t, left)], Child(t, left);
      ok := Pull(curKey, curLeaf, left, fs, t, c, up, low);
      if !ok { return; }
      var node := local[|local| - 1].avl;
      if key == curKey {
        result, found := Some(node.data), true;
        if update.Some? {
          SetFound(update.value, fs, Step(t, left), t', c, up, low);
          fs' := SetValue(fs', update.value);
          SetValueHead(fs, Step(t, left), update.value);
        }
      } else if key < curKey {
        nextKey, nextLeaf := node.lKey, node.lLeaf;
      } else {
        nextKey, nextLeaf := node.rKey, node.rLeaf;
      }
    }

    lemma SearchStarts(key: int, update: Option<V>)
      requires Valid() && tree.Node?
      ensures Searching(key, update, false, None, rootKey, rootLeaf, [], tree, tree, Content(), upper.content.Keys,
                        lower.content.Keys)
      ensures Avl(tree) && maxHeight > 0 && rootKey != INVALID_KEY
    {
      hide Descended, Quiet, Content;
      StartDescent(key);
      assert local == [] && Avl(tree);
    }

    /** The loop of a search: goes down until the key, a missing child or the height limit. */
    method Traverse(key: int, update: Option<V>) returns (ok: bool, result: Option<V>, ghost fs: seq<Frame<V>>, ghost t: Tree<V>)
      requires Valid() && tree.Node?
      modifies `local, `upperOps, `lowerOps, upper, lower
      ensures !ok ==> Overfull()
      ensures ok ==> Quiet() && Descended(fs, t, old(Content()), old(upper.content.Keys), old(lower.content.Keys))
      ensures ok ==> 0 < |fs| <= maxHeight && fs[0].key == rootKey
      ensures ok ==> result == if key in Contents(tree) then Some(Contents(tree)[key]) else None
      ensures ok ==> Plug(fs, t) == if update.Some? && key in Contents(tree) then Update(tree, key, update.value) else tree
      ensures ok ==> upperOps == old(upperOps) + Min(|fs|, splitDepth) && lowerOps == old(lowerOps) + |fs| - Min(|fs|, splitDepth)
      ensures ok ==> upper.fetches - old(upper.fetches) == upperOps - old(upperOps)
      ensures ok ==> lower.fetches - old(lower.fetches) == lowerOps - old(lowerOps)
    {
      hide Searching, Valid, Descended, Quiet, Content, Overfull, Contents, StashTree.Overfull, Plug, Update, Ordered, Balanced;
      ghost var t0, c, up, low := tree, Content(), upper.content.Keys, lower.content.Keys;
      SearchStarts(key, update);
      fs, t, result := [], t0, None;
      var curKey, curLeaf := rootKey, rootLeaf;
      var found := false;
      ok := true;
      var d := 0;
      while d < maxHeight && curKey != INVALID_KEY && !found
        invariant Searching(key, update, found, result, curKey, curLeaf, fs, t, t0, c, up, low) && d == |fs| && tree == t0
        invariant d <= maxHeight && (!found ==> result == None) && (d == 0 ==> !found && curKey != INVALID_KEY)
        invariant upperOps == old(upperOps) + Min(d, splitDepth) && lowerOps == old(lowerOps) + d - Min(d, splitDepth)
        invariant upper.fetches - old(upper.fetches) == upperOps - old(upperOps)
        invariant lower.fetches - old(lower.fetches) == lowerOps - old(lowerOps)
      {
        ok, found, result, curKey, curLeaf, fs, t := SearchLevel(key, update, curKey, curLeaf, fs, t, t0, c, up, low);
        if !ok { return; }
        d := d + 1;
      }
      SearchOver(key, update, found, result, curKey, curLeaf, fs, t, t0, c, up, low);
    }

    lemma SearchOver(key: int, update: Option<V>, found: bool, result: Option<V>, curKey: int, curLeaf: int,
                     fs: seq<Frame<V>>, t: Tree<V>, t0: Tree<V>, c: Cells<V>, up: set<int>, low: set<int>)
      requires Searching(key, update, found, result, curKey, curLeaf, fs, t, t0, c, up, low) && Avl(t0) && maxHeight > 0
      requires found || curKey == INVALID_KEY || |fs| >= maxHeight
      ensures Quiet() && Descended(fs, t, c, up, low) && |fs| > 0 && fs[0].key == rootKey
      ensures result == if key in Contents(t0) then Some(Contents(t0)[key]) else None
      ensures Plug(fs, t) == if update.Some? && key in Contents(t0) then Update(t0, key, update.value) else t0
    {
      hide Quiet, Descended, Content, Contents, Update, Layered, Ordered, Balanced, Keys;
      NilFocus(fs, t, c, up, low);
      SearchEnds(fs, t, t0, key, update, found, result, maxHeight - |fs|);
      LookupContents(t0, key);
    }

    /** Writes `value` into the last node of the path. */
    method SetFound(value: V, ghost fs: seq<Frame<V>>, ghost f: Frame<V>, ghost t: Tree<V>, ghost c: Cells<V>,
        ghost up: set<int>, ghost low: set<int>)
      requires Descended(fs + [f], t, c, up, low)
      modifies `local
      ensures Descended(SetValue(fs + [f], value), t, c, up, low) && |local| == |old(local)|
    {
      hide StashTree.Valid, PathTaken, Keys, Plug;
      TakenSetData(local, fs, f, t, Content(), c, value);
      PathLength(local, fs + [f], t, Content(), c);
      DataHome(local, value, splitDepth, up, low, upper.content.Keys, lower.content.Keys);
      local := SetData(local, value);
    }

    lemma NilFocus(fs: seq<Frame<V>>, t: Tree<V>, c: Cells<V>, up: set<int>, low: set<int>)
      requires Descended(fs, t, c, up, low)
      ensures RootKey(t) == INVALID_KEY ==> t == Nil
    {
      hide At, Rep, PathOk, PathSide, OrderedPath, StashTree.Valid, ExactPath, Plug;
      PathApart(fs, |local|, t);
      RootIsKey(t);
    }

    /** Looks `key` up and, if `update` is given and the key is present, replaces its value. Either
        ORAM has its share of the fetches, whatever the key. */
    method Search(key: int, update: Option<V>) returns (r: Result<Option<V>>)
      requires Valid()
      modifies `local, `rootLeaf, `upperOps, `lowerOps, `tree, upper, lower
      ensures r.Err? ==> r.error == StashOverflow && Overfull()
      ensures r.Ok? ==> Valid() && r.value == if key in old(Map()) then Some(old(Map())[key]) else None
      ensures r.Ok? ==> Map() == if update.Some? && key in old(Map()) then old(Map())[key := update.value] else old(Map())
      ensures r.Ok? ==> Foreign() == old(Foreign())
      ensures r.Ok? ==> upper.fetches == old(upper.fetches) + UpperShare()
      ensures r.Ok? ==> lower.fetches == old(lower.fetches) + 3 * maxHeight - UpperShare()
    {
      hide Descended, Overfull, Contents, StashTree.Valid, Plug, Update, Ordered, Balanced, Keys, Stored, Fib, Size, Layered;
      upperOps, lowerOps := 0, 0;
      RootMissing(tree);
      if rootKey == INVALID_KEY {
        var padded := PadToBudget();
        return if padded then Ok(None) else Err(StashOverflow);
      }
      ghost var t0, up, low := tree, upper.content.Keys, lower.content.Keys;
      ghost var c := Content();
      ghost var fs, t;
      var ok, result;
      ok, result, fs, t := Traverse(key, update);
      if !ok { return Err(StashOverflow); }
      FinishPath(fs, t, c, up, low);
      SearchedTree(t0, key, update, splitDepth, up, low);
      ok := PadToBudget();
      r := if ok then Ok(result) else Err(StashOverflow);
    }

    method DummyAccess() returns (r: Result<()>)
      requires Valid()
      modifies `upperOps, `lowerOps, upper, lower
      ensures r.Err? ==> r.error == StashOverflow && Overfull()
      ensures r.Ok? ==> Valid() && Map() == old(Map()) && Foreign() == old(Foreign())
      ensures r.Ok? ==> upper.content == old(upper.content) && lower.content == old(lower.content)
      ensures r.Ok? ==> upper.fetches == old(upper.fetches) + UpperShare()
      ensures r.Ok? ==> lower.fetches == old(lower.fetches) + 3 * maxHeight - UpperShare()
    {
      hide StashTree.Valid, Ordered, Balanced, Keys, Stored, Fib, Size, Layered, Overfull;
      upperOps, lowerOps := 0, 0;
      var ok := PadToBudget();
      r := if ok then Ok(()) else Err(StashOverflow);
    }

    /** In split mode, the upper ORAM's share and a single fetch from the lower one. */
    method PartialDummyAccess() returns (r: Result<()>)
      requires Valid()
      modifies `upperOps, `lowerOps, upper, lower
      ensures r.Err? ==> r.error == StashOverflow && Overfull()
      ensures r.Ok? ==> Valid() && Map() == old(Map()) && Foreign() == old(Foreign())
      ensures r.Ok? ==> upper.content == old(upper.content) && lower.content == old(lower.content)
      ensures r.Ok? ==> upper.fetches == old(upper.fetches) + UpperShare()
      ensures r.Ok? ==> lower.fetches == old(lower.fetches) + if splitDepth == 0 then 3 * maxHeight else 1
    {
      hide StashTree.Valid, Ordered, Balanced, Keys, Stored, Fib, Size, Layered, Overfull;
      if splitDepth == 0 {
        r := DummyAccess();
        return;
      }
      upperOps, lowerOps := UpperShare(), 1;
      var ok := Dummies(upper, UpperShare());
      if !ok { return Err(StashOverflow); }
      ok := Dummies(lower, 1);
      r := if ok then Ok(()) else Err(StashOverflow);
    }

    // ----- Bulk loading -----

    /** A random leaf for every node of a subtree, from the ORAM of its depth; the nodes of the upper
        ORAM are collected. */
    method AssignLeaves(key: int, d: nat, nodes: Nodes<V>, start: map<int, nat>, above: set<int>, ghost t: Tree<V>)
      returns (leaves: map<int, nat>, up: set<int>)
      requires Ordered(t) && Shaped(t, nodes, true) && key == RootKey(t) && forall k :: k in Keys(t) ==> k >= 0
      ensures leaves.Keys == start.Keys + Keys(t) && up == above + Top(t, d, splitDepth)
      ensures forall k :: k in start && k !in Keys(t) ==> leaves[k] == start[k]
      ensures forall k :: k in Keys(t) ==> leaves[k] < (if k in Top(t, d, splitDepth) then upper else lower).Range()
      decreases t
    {
      hide Ordered, Keys, Shaped, Top, Pow2;
      RootIsKey(t);
      if key == INVALID_KEY {
        NoTop(t, d, splitDepth);
        return start, above;
      }
      OrderedNode(t);
      ExactParts(t, nodes);
      TopParts(t, d, splitDepth);
      var leaf := OramForDepth(d).RandomLeaf();
      leaves, up := start[key := leaf], if d < splitDepth then above + {key} else above;
      leaves, up := AssignLeaves(nodes[key].lKey, d + 1, nodes, leaves, up, t.left);
      leaves, up := AssignLeaves(nodes[key].rKey, d + 1, nodes, leaves, up, t.right);
    }

    /** Makes the blocks represent the balanced tree over `sorted`, each node in its ORAM. */
    method LoadTree(sorted: Entries<V>, ghost t: Tree<V>) returns (root: int, leaf: nat)
      requires Quiet() && sorted != [] && Ascending(sorted)
      requires t == Built(sorted, 0, |sorted| - 1) && t.Node? && Ordered(t) && forall k :: k in Keys(t) ==> k >= 0
      modifies upper, lower
      ensures Quiet() && upper.fetches == old(upper.fetches) && lower.fetches == old(lower.fetches)
      ensures Content().Keys == Keys(t) && Stored(t, Content()) && RootRight(root, leaf, t, Content())
      ensures Layered(t, 0, splitDepth, upper.content.Keys, lower.content.Keys)
    {
      hide Ordered, Stored, Keys, Built, Shaped, Ascending, Pointed, StashTree.Quiet, StashTree.Range, Top, Layered;
      var height;
      var nodes: Nodes<V> := map[];
      root, nodes := BuildBalanced(sorted, 0, |sorted| - 1, nodes);
      height, nodes := FixHeights(root, nodes, t);
      var leaves, up := AssignLeaves(root, 0, nodes, map[], {}, t);
      var pointed := PointAll(nodes, leaves);
      TopInside(t, 0, splitDepth);
      FillBoth(pointed, leaves, up);
      RootIsKey(t);
      ShapedStored(t, nodes, leaves, Content());
      TopLayered(t, 0, splitDepth, upper.content.Keys, lower.content.Keys);
      leaf := leaves[root];
    }

    /** Loads the nodes in `up` into the upper ORAM and the others into the lower one. */
    method FillBoth(nodes: Nodes<V>, leaves: map<int, nat>, up: set<int>)
      requires Quiet() && nodes.Keys == leaves.Keys && up <= nodes.Keys
      requires forall k :: k in nodes ==> leaves[k] < (if k in up then upper else lower).Range()
      modifies upper, lower
      ensures Quiet() && upper.fetches == old(upper.fetches) && lower.fetches == old(lower.fetches)
      ensures upper.content.Keys == up && lower.content.Keys == nodes.Keys - up && Content().Keys == nodes.Keys
      ensures forall k :: k in nodes ==> Content()[k] == Block(k, leaves[k], nodes[k])
    {
      hide StashTree.Quiet, StashTree.Range;
      var above := map k | k in nodes && k in up :: nodes[k];
      var below := map k | k in nodes && k !in up :: nodes[k];
      FillOram(upper, above, leaves);
      FillOram(lower, below, leaves);
      forall k ensures k in Content() <==> k in nodes {
      }
    }

    /** Makes `data` the contents. Nothing is reset when there is no data. */
    method Init(data: Entries<V>)
      requires Valid() && Distinct(data) && (forall i :: 0 <= i < |data| ==> data[i].0 >= 0) && |data| <= capacity
      modifies this, upper, lower
      ensures Valid() && Map() == Assoc(data) && upper.fetches == old(upper.fetches) && lower.fetches == old(lower.fetches)
      ensures Foreign() == if data == [] then old(Content()) else map[]
    {
      hide Ordered, Balanced, Stored, Keys, Size, Contents, Fib, Assoc, Built, Ascending, StashTree.Quiet, Layered;
      if data == [] {
        rootKey, rootLeaf := INVALID_KEY, INVALID_LEAF;
        tree := Nil;
        NothingBuilt(data);
        NothingLayered<V>(splitDepth, upper.content.Keys, lower.content.Keys);
        return;
      }
      var sorted := SortByKey(data);
      ghost var t := Built(sorted, 0, |sorted| - 1);
      BuiltFits(data, sorted);
      rootKey, rootLeaf := LoadTree(sorted, t);
      tree := t;
      NothingForeign(Content(), t);
    }
  }

  lemma NothingLayered<V>(split: nat, up: set<int>, low: set<int>)
    ensures Layered<V>(Nil, 0, split, up, low)
  {
  }

  /** The keys of a subtree at depth `d` that are above depth `split`. */
  ghost function Top<V>(t: Tree<V>, d: nat, split: nat): set<int> {
    match t
    case Nil => {}
    case Node(l, k, _, r) => Top(l, d + 1, split) + (if d < split then {k} else {}) + Top(r, d + 1, split)
  }

  lemma NoTop<V>(t: Tree<V>, d: nat, split: nat)
    requires t == Nil
    ensures Top(t, d, split) == {} && Keys(t) == {}
  {
  }

  lemma TopParts<V>(t: Tree<V>, d: nat, split: nat)
    requires t.Node?
    ensures Top(t, d, split) == Top(t.left, d + 1, split) + (if d < split then {t.key} else {}) + Top(t.right, d + 1, split)
    ensures Top(t.left, d + 1, split) <= Keys(t.left) && Top(t.right, d + 1, split) <= Keys(t.right)
  {
    TopInside(t.left, d + 1, split);
    TopInside(t.right, d + 1, split);
  }

  lemma {:induction false} TopInside<V>(t: Tree<V>, d: nat, split: nat)
    ensures Top(t, d, split) <= Keys(t)
  {
    if t.Node? {
      TopInside(t.left, d + 1, split);
      TopInside(t.right, d + 1, split);
    }
  }

  lemma ExactParts<V>(t: Tree<V>, nodes: Nodes<V>)
    requires t.Node? && Shaped(t, nodes, true)
    ensures t.key in nodes && nodes[t.key].lKey == RootKey(t.left) && nodes[t.key].rKey == RootKey(t.right)
    ensures Shaped(t.left, nodes, true) && Shaped(t.right, nodes, true)
  {
  }

  /** So sorted, every node is in the ORAM of its depth. */
  lemma {:induction false} TopLayered<V>(t: Tree<V>, d: nat, split: nat, up: set<int>, low: set<int>)
    requires Ordered(t)
    requires forall k :: k in Keys(t) ==> (k in up <==> k in Top(t, d, split)) && (k in low <==> k !in Top(t, d, split))
    ensures Layered(t, d, split, up, low)
  {
    if t.Node? {
      OrderedNode(t);
      TopParts(t, d, split);
      hide Ordered, Top, Keys;
      TopLayered(t.left, d + 1, split, up, low);
      TopLayered(t.right, d + 1, split, up, low);
    }
  }

  /** Makes `nodes` the blocks of one of the ORAMs. */
  method FillOram<V>(oram: StashTree<AvlNode<V>>, nodes: Nodes<V>, leaves: map<int, nat>)
    requires oram.Quiet() && nodes.Keys <= leaves.Keys && forall k :: k in nodes ==> leaves[k] < oram.Range()
    modifies oram
    ensures oram.Quiet() && oram.fetches == old(oram.fetches) && oram.content.Keys == nodes.Keys
    ensures forall k :: k in nodes ==> oram.content[k] == Block(k, leaves[k], nodes[k])
  {
    hide Holds, Placed, Pow2;
    var blocks := PathOrams.MakeBlocks(nodes, leaves);
    oram.LoadBlocks(blocks);
    forall k | k in nodes ensures k in oram.content {
      var j :| 0 <= j < |blocks| && blocks[j].key == k;
    }
    forall k | k in oram.content ensures k in nodes && oram.content[k] == Block(k, leaves[k], nodes[k]) {
      var j :| 0 <= j < |blocks| && blocks[j] == oram.content[k];
    }
  }

  /** A tree that was searched has kept its shape, and so its layers. */
  lemma SearchedTree<V>(t: Tree<V>, key: int, update: Option<V>, split: nat, up: set<int>, low: set<int>)
    requires Avl(t) && Layered(t, 0, split, up, low)
    ensures var t' := if update.Some? && key in Contents(t) then Update(t, key, update.value) else t;
            && Avl(t') && Size(t') == Size(t) && Keys(t') == Keys(t) && Layered(t', 0, split, up, low)
            && Contents(t') == if update.Some? && key in Contents(t) then Contents(t)[key := update.value] else Contents(t)
  {
    hide Ordered, Balanced, Keys, Contents, Update, Size, Layered;
    ContentsKeys(t);
    if update.Some? && key in Contents(t) {
      UpdateShape(t, key, update.value);
      UpdateContents(t, key, update.value);
      LayeredUpdate(t, 0, split, up, low, key, update.value);
    }
  }

  lemma SetValueHead<V>(fs: seq<Frame<V>>, f: Frame<V>, value: V)
    ensures |SetValue(fs + [f], value)| == |fs| + 1 && SetValue(fs + [f], value)[0].key == (fs + [f])[0].key
  {
  }

  lemma FocusThere<V>(key: int, leaf: int, t: Tree<V>, b: Cells<V>)
    requires RootRight(key, leaf, t, b) && key != INVALID_KEY
    ensures t.Node? && key == t.key
  {
  }

  lemma LayeredChild<V>(t: Tree<V>, d: nat, split: nat, up: set<int>, low: set<int>, left: bool)
    requires t.Node? && Layered(t, d, split, up, low)
    ensures Layered(Child(t, left), d + 1, split, up, low)
  {
  }

  lemma DataHome<V>(s: Local<V>, value: V, split: nat, up: set<int>, low: set<int>, upNow: set<int>, lowNow: set<int>)
    requires |s| > 0 && FromHome(s, split, up, low) && Remaining(upNow, up, s, 0) && Remaining(lowNow, low, s, 0)
    ensures var s' := SetData(s, value);
            && |s'| == |s| && FromHome(s', split, up, low) && Remaining(upNow, up, s', 0) && Remaining(lowNow, low, s', 0)
  {
    var s' := SetData(s, value);
    forall k ensures Listed(s', |s'|, k) <==> Listed(s, |s|, k) {
      if j :| 0 <= j < |s| && s[j].key == k { assert s'[j].key == k; }
      if j :| 0 <= j < |s'| && s'[j].key == k { assert s[j].key == k; }
    }
  }

  lemma PathLength<V>(s: Local<V>, fs: seq<Frame<V>>, t: Tree<V>, b: Cells<V>, c: Cells<V>)
    requires PathTaken(s, fs, t, b, c)
    ensures |s| == |fs|
  {
  }

  /** A key that is not in the list is where it was. */
  lemma RestHome<V>(upNow: set<int>, up: set<int>, lowNow: set<int>, low: set<int>, s: Local<V>, key: int)
    requires Remaining(upNow, up, s, 0) && Remaining(lowNow, low, s, 0)
    ensures (key in upNow ==> key in up) && (key in lowNow ==> key in low)
  {
  }

  lemma FromHomeMore<V>(upNow: set<int>, up: set<int>, lowNow: set<int>, low: set<int>, s: Local<V>, n: LocalNode<V>, split: nat)
    requires FromHome(s, split, up, low) && Remaining(upNow, up, s, 0) && Remaining(lowNow, low, s, 0) && up !! low
    requires if |s| < split then n.key in up else n.key in low
    ensures FromHome(s + [n], split, up, low)
    ensures Remaining(if |s| < split then upNow - {n.key} else upNow, up, s + [n], 0)
    ensures Remaining(if |s| < split then lowNow else lowNow - {n.key}, low, s + [n], 0)
  {
    var s' := s + [n];
    forall k ensures Listed(s', |s'|, k) <==> Listed(s, |s|, k) || k == n.key {
      if j :| 0 <= j < |s| && s[j].key == k { assert s'[j].key == k; }
      assert s'[|s|].key == n.key;
    }
  }

  /** The list and the blocks represent the whole tree. */
  lemma PathWhole<V>(s: Local<V>, fs: seq<Frame<V>>, t: Tree<V>, b: Cells<V>, c: Cells<V>)
    requires PathTaken(s, fs, t, b, c) && |fs| > 0
    ensures Unique(s) && Whole(Plug(fs, t), ParentAt(fs, 0), At(s), b) && Zip(s, fs, 0, Plug(fs, t), b)
    ensures Plug(fs, t).Node? && Plug(fs, t).key == fs[0].key && fs[0].key in At(s)
    ensures Ordered(Plug(fs, t))
  {
    hide At, Zip, ExactPath, Keys, Ordered;
    ZipUnique(s, fs, |s|, t, b);
    ZipClose(s, fs, |s|, t, b);
    assert fs[..|s|] == fs;
    RootOfPath(fs, t);
    AtHas(s, 0);
    ZipWhole(s, fs, 0, Plug(fs, t), b);
  }

  /** New leaves do not change where a node belongs. */
  lemma HomeStays<V>(s: Local<V>, s': Local<V>, split: nat, up: set<int>, low: set<int>, upNow: set<int>, lowNow: set<int>)
    requires SameKeys(s, s') && FromHome(s, split, up, low) && Remaining(upNow, up, s, 0) && Remaining(lowNow, low, s, 0)
    ensures FromHome(s', split, up, low) && Remaining(upNow, up, s', 0) && Remaining(lowNow, low, s', 0)
  {
    forall k ensures Listed(s', |s'|, k) <==> Listed(s, |s|, k) {
      if Listed(s, |s|, k) {
        var j :| 0 <= j < |s| && s[j].key == k;
        assert s'[j].key == k;
      }
      if Listed(s', |s'|, k) {
        var j :| 0 <= j < |s'| && s'[j].key == k;
        assert s[j].key == k;
      }
    }
  }

  lemma NextUnique<V>(s: Local<V>, i: nat)
    requires Unique(s) && i < |s|
    ensures Unique(s[..i]) && Unique(s[..i + 1]) && s[i].key >= 0
  {
  }

  lemma NoneUnique<V>()
    ensures Unique<V>([])
  {
  }
}
