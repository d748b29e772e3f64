/** The enclave's AVL map (tee_avl_omap): the operations of the AVL map written without branches
    over a list padded with dummies, each with the same number of ORAM steps whatever it does. */
module TeeAvls {
  import opened Common
  import opened Geometry
  import opened StashTrees
  import opened AvlTrees
  import opened AvlLocal
  import opened AvlRep
  import opened AvlZip
  import opened AvlClimb
  import opened AvlDescend
  import opened AvlUnlink
  import opened AvlShrink
  import opened AvlFlush
  import opened AvlSearch
  import opened AvlAttach
  import opened AvlRemoval
  import opened AvlInit
  import opened AvlSteps
  import opened EnclaveSlots
  import opened EnclaveOrams
  import opened TeeLists
  import opened TeeBalance
  import opened TeeFlush
  import opened TeeUnlink
  import opened TeeReach
  import opened TeeCalm
  import Compaction

  class TeeAvl<V> {
    const oram: EnclaveOram<AvlNode<V>>
    const maxHeight: nat
    const zero: V

    var rootKey: int
    var rootLeaf: int
    var local: Padded<V>

    // The tree that the blocks represent.
    ghost var tree: Tree<V>

    /** The blocks are the nodes of an ordered tree, every child pointer carrying the child's true
        key, leaf and height, and the root pointer the root's. The tree need not be balanced. */
    ghost predicate Valid()
      reads this, oram
    {
      && oram.Valid() && !oram.padded && local == [] && maxHeight > 0
      && Ordered(tree) && (forall k :: k in Keys(tree) ==> k >= 0)
      && Stored(tree, oram.content) && oram.content.Keys == Keys(tree)
      && RootRight(rootKey, rootLeaf, tree, oram.content)
    }

    ghost function Map(): map<int, V>
      reads this
    {
      Contents(tree)
    }

    /** Node accesses of `n` ORAM steps. */
    function Cost(n: nat): nat {
      n * (2 * oram.level)
    }

    lemma CostStep(n: nat)
      ensures Cost(n + 1) == Cost(n) + 2 * oram.level && Cost(0) == 0
    {
    }

    constructor (capacity: nat, maxHeight: nat, bucketSize: nat, zero: V)
      requires maxHeight > 0
      ensures Valid() && Map() == map[] && fresh(oram) && this.maxHeight == maxHeight && this.zero == zero
    {
      oram := new EnclaveOram<AvlNode<V>>(capacity, bucketSize, 7, AvlNode(zero, 0, 0, 0, 0, 0, 0), false);
      this.maxHeight, this.zero := maxHeight, zero;
      rootKey, rootLeaf, local := INVALID_KEY, INVALID_LEAF, [];
      tree := Nil;
    }

    // ----- Bulk loading -----

    /** A random leaf for each key. */
    method RandomLeaves(keys: set<int>) returns (leaves: map<int, nat>)
      ensures leaves.Keys == keys && forall k :: k in leaves ==> leaves[k] < oram.Range()
    {
      hide Pow2;
      leaves := map[];
      var todo := keys;
      while todo != {}
        invariant todo <= keys && leaves.Keys == keys - todo
        invariant forall k :: k in leaves ==> leaves[k] < oram.Range()
        decreases todo
      {
        var k := Pick(todo);
        var leaf := oram.RandomLeaf();
        leaves := leaves[k := leaf];
        todo := todo - {k};
      }
    }

    /** Puts every node of the table into a block at its leaf. */
    method LoadNodes(nodes: Nodes<V>, leaves: map<int, nat>)
      requires oram.Valid() && !oram.padded && oram.content == map[] && leaves.Keys == nodes.Keys
      requires forall k :: k in nodes ==> k >= 0 && leaves[k] < oram.Range()
      modifies oram
      ensures oram.Valid() && oram.content.Keys == nodes.Keys
      ensures forall k :: k in nodes ==> oram.content[k] == Block(k, leaves[k], nodes[k])
    {
      hide EnclaveOram.Valid, Pow2;
      var all := TableEntries(nodes);
      var placed := oram.Init(all, leaves);
      forall k | k in nodes ensures k in oram.content && oram.content[k] == Block(k, leaves[k], nodes[k]) {
        var i :| 0 <= i < |all| && all[i].0 == k;
      }
      forall k | k in oram.content ensures k in nodes {
        var i :| 0 <= i < |all| && all[i].0 == k;
      }
    }

    /** Fills an empty map with `data`, as a balanced tree. Without data the ORAM is not touched. */
    method Init(data: Entries<V>)
      requires Valid() && Map() == map[] && Distinct(data) && forall i :: 0 <= i < |data| ==> data[i].0 >= 0
      modifies this, oram
      ensures Valid() && Map() == Assoc(data)
      ensures Balanced(tree) && Size(tree) == |data| && Height(tree) == HalvingHeight(|data|)
    {
      hide Ordered, Balanced, Stored, Keys, Size, Contents, Assoc, Built, Ascending, EnclaveOram.Valid, Shaped, Pointed, Pow2;
      EmptyContents(tree);
      if data == [] {
        rootKey, rootLeaf := INVALID_KEY, INVALID_LEAF;
        tree := Nil;
        NothingBuilt(data);
        return;
      }
      var sorted := SortByKey(data);
      ghost var t := Built(sorted, 0, |sorted| - 1);
      BuiltFits(data, sorted);
      BuiltBalanced(sorted, 0, |sorted| - 1);
      var height;
      var nodes: Nodes<V> := map[];
      rootKey, nodes := BuildBalanced(sorted, 0, |sorted| - 1, nodes);
      height, nodes := FixHeights(rootKey, nodes, t);
      assert nodes.Keys == Keys(t);
      var leaves := RandomLeaves(nodes.Keys);
      var pointed := PointAll(nodes, leaves);
      LoadNodes(pointed, leaves);
      RootIsKey(t);
      ShapedStored(t, nodes, leaves, oram.content);
      rootLeaf := leaves[rootKey];
      tree := t;
    }

    // ----- One ORAM step -----

    /** Fetches the block of `key` and appends it to the list, or does the same on a random path
        and appends a dummy. Exactly 2 * level nodes are touched. */
    method OramStep(key: int, leaf: int, wanted: bool, parentKey: int) returns (ok: bool)
      requires oram.Valid() && !oram.padded && (wanted ==> key >= 0 && key in oram.content && leaf == oram.content[key].leaf)
      modifies `local, oram
      ensures oram.Valid() && (!ok ==> oram.Overfull())
      ensures oram.nodeAccesses == old(oram.nodeAccesses) + 2 * oram.level
      ensures |local| == |old(local)| + 1 && local[..|old(local)|] == old(local)
      ensures wanted ==>
                && oram.content == old(oram.content) - {key}
                && local[|old(local)|] == Entry(key, leaf, old(oram.content)[key].value, parentKey)
      ensures !wanted ==> oram.content == old(oram.content) && !local[|old(local)|].Real()
    {
      hide Holding, WellPlaced, LeavesOk, OnPath, Pow2;
      var random := oram.RandomLeaf();
      var useLeaf := if wanted then leaf else random;
      var nodes := oram.ReadPath(useLeaf);
      if wanted {
        ghost var at := DrainedIsStashed(oram.stash, oram.tree, oram.content, oram.Range(), oram.bucketSize, useLeaf, key);
        oram.KeyedAt(oram.content, key);
      } else {
        NoSuchSlot(oram.stash, oram.tree, oram.content, -2);
      }
      var block := oram.ExtractFromStash(if wanted then key else -2);
      local := local + [Entry(if wanted then key else INVALID_KEY, if wanted then block.leaf else INVALID_LEAF, block.value,
                              if wanted then parentKey else INVALID_KEY)];
      ok := oram.EvictOnePath(useLeaf);
    }

    /** The same accesses without touching the list. */
    method PadStep() returns (ok: bool)
      requires oram.Valid() && !oram.padded
      modifies oram
      ensures oram.Valid() && oram.content == old(oram.content) && (!ok ==> oram.Overfull())
      ensures oram.nodeAccesses == old(oram.nodeAccesses) + 2 * oram.level
    {
      hide Holding, WellPlaced, LeavesOk, OnPath, Pow2;
      var leaf := oram.RandomLeaf();
      var nodes := oram.ReadPath(leaf);
      NoSuchSlot(oram.stash, oram.tree, oram.content, -2);
      var block := oram.ExtractFromStash(-2);
      ok := oram.EvictOnePath(leaf);
    }

    /** Pads an operation of `done` steps to 3 * maxHeight steps. */
    method PadOps(done: nat) returns (ok: bool)
      requires oram.Valid() && !oram.padded && done <= 3 * maxHeight
      modifies oram
      ensures oram.Valid() && oram.content == old(oram.content) && (!ok ==> oram.Overfull())
      ensures ok ==> oram.nodeAccesses == old(oram.nodeAccesses) + Cost(3 * maxHeight - done)
    {
      hide Cost, EnclaveOram.Valid;
      ok := true;
      CostStep(0);
      for i := 0 to 3 * maxHeight - done
        invariant ok && oram.Valid() && oram.content == old(oram.content)
        invariant oram.nodeAccesses == old(oram.nodeAccesses) + Cost(i)
      {
        CostStep(i);
        ok := PadStep();
        if !ok { return; }
      }
    }

    // ----- Writing back -----

    /** Draws a fresh leaf for every real entry. */
    method DrawLeaves()
      requires Sound(local)
      modifies `local
      ensures SameButOwnLeaves(old(local), local) && Sound(local)
      ensures forall j :: 0 <= j < |local| && local[j].Real() ==> local[j].leaf < oram.Range()
    {
      hide Pow2;
      ghost var p := local;
      for i := |local| downto 0
        invariant SameButOwnLeaves(p, local) && Sound(local)
        invariant forall j :: i <= j < |local| && local[j].Real() ==> local[j].leaf < oram.Range()
      {
        var leaf := oram.RandomLeaf();
        local := local[i := local[i].(leaf := if local[i].Real() then leaf else local[i].leaf)];
      }
    }

    /** Copies the root's leaf, if the root is in the list. */
    method FindRootLeaf()
      requires Sound(local)
      modifies `rootLeaf
      ensures rootLeaf == if rootKey in Slots(local) then Slots(local)[rootKey].leaf else old(rootLeaf)
    {
      hide Slots, Sound;
      ghost var at := FindSlot(local, rootKey);
      SoundLeaves(local);
      for i := 0 to |local|
        invariant rootLeaf == if 0 <= at < i then local[at].leaf else old(rootLeaf)
      {
        var isRoot := local[i].key == rootKey && local[i].Real();
        rootLeaf := if isRoot then local[i].leaf else rootLeaf;
      }
    }

    /** Moves every real entry to a fresh leaf and repairs the pointers to it, by full scans. */
    method ReassignLeaves()
      requires Sound(local)
      modifies `local, `rootLeaf
      ensures SameShape(old(local), local) && Sound(local) && Released(Slots(old(local)), Slots(local))
      ensures forall j :: 0 <= j < |local| && local[j].Real() ==> local[j].leaf < oram.Range()
      ensures rootLeaf == if rootKey in Slots(local) then Slots(local)[rootKey].leaf else old(rootLeaf)
    {
      hide Slots, Released, Fed, Sound, Pow2;
      ghost var p := local;
      DrawLeaves();
      ghost var q := local;
      local := FeedParents(local);
      FedReleased(p, q, local);
      FindRootLeaf();
    }

    /** Puts every entry, real or not, into the stash. */
    method FlushLocalToStash()
      requires oram.Valid() && !oram.padded && Sound(local)
      requires forall j :: 0 <= j < |local| && local[j].Real() ==> local[j].leaf < oram.Range()
      requires Slots(local).Keys !! oram.content.Keys
      modifies `local, oram
      ensures oram.Valid() && local == [] && oram.nodeAccesses == old(oram.nodeAccesses)
      ensures oram.content == old(oram.content) + Blocks(Slots(old(local)))
    {
      hide At, EnclaveOram.Valid, Pow2, Reals, Blocks, Slots;
      ghost var c := oram.content;
      NothingYet(local, c);
      for i := 0 to |local|
        invariant local == old(local) && oram.Valid() && oram.nodeAccesses == old(oram.nodeAccesses)
        invariant Sound(local[..i]) && oram.content == c + Blocks(Slots(local[..i]))
      {
        FlushEntry(local, i, c);
        oram.AddToStash(local[i].key, local[i].leaf, local[i].avl);
      }
      assert local[..|local|] == local;
      local := [];
    }

    /** Ends an operation whose list and blocks represent `t`. */
    method WriteBack(ghost fs: seq<Frame<V>>, ghost t: Tree<V>)
      requires oram.Valid() && !oram.padded && Sound(local) && Zip(Reals(local), fs, 0, t, oram.content)
      requires Slots(local).Keys !! oram.content.Keys && rootKey == RootKey(t)
      requires t.Node? && t.key !in Slots(local) ==> t.key in oram.content && rootLeaf == oram.content[t.key].leaf
      requires Keys(t) == oram.content.Keys + Slots(local).Keys && maxHeight > 0
      modifies `local, `rootLeaf, `tree, oram
      ensures Valid() && tree == t && oram.nodeAccesses == old(oram.nodeAccesses)
    {
      hide At, EnclaveOram.Valid, PathOk, PathSide, OrderedPath, Rep, Stored, Released, Ordered, Keys, Reals, Slots, Zip, Pow2;
      ghost var c, m := oram.content, Slots(local);
      SlotsOf(local);
      ZipWhole(Reals(local), fs, 0, t, c);
      ReassignLeaves();
      ghost var m' := Slots(local);
      ReleaseStores(t, ParentAt(fs, 0), m, m', c);
      ReleasedKeys(m, m');
      FlushLocalToStash();
      BlocksOver(c, m');
      tree := t;
    }

    // ----- Going down -----

    /** The real entries are the path `fs` to the focus `t`; they were taken out of the blocks `c`. */
    ghost predicate Down(fs: seq<Frame<V>>, t: Tree<V>, c: Cells<V>)
      reads this, oram
    {
      oram.Valid() && !oram.padded && Sound(local) && PathTaken(Reals(local), fs, t, oram.content, c)
    }

    /** One step of a descent: the root of the focus is fetched, or a dummy is appended. */
    method Advance(key: int, leaf: int, wanted: bool, parentKey: int, ghost left: bool, ghost fs: seq<Frame<V>>,
                   ghost t: Tree<V>, ghost c: Cells<V>)
      returns (ok: bool)
      requires oram.Valid() && !oram.padded && Sound(local)
      requires wanted ==> Down(fs, t, c) && t.Node? && RootRight(key, leaf, t, oram.content) && parentKey == ParentAt(fs, |fs|)
      modifies `local, oram
      ensures oram.Valid() && Sound(local) && (!ok ==> oram.Overfull())
      ensures oram.nodeAccesses == old(oram.nodeAccesses) + 2 * oram.level
      ensures |local| == |old(local)| + 1 && local[..|old(local)|] == old(local)
      ensures !wanted ==> oram.content == old(oram.content) && !local[|local| - 1].Real() && Reals(local) == Reals(old(local))
      ensures wanted ==> Down(fs + [Step(t, left)], Child(t, left), c)
      ensures wanted ==>
                var e := local[|local| - 1];
                && e.Real() && e.key == t.key && e.avl.data == t.value
                && RootRight(e.avl.lKey, e.avl.lLeaf, t.left, oram.content)
                && RootRight(e.avl.rKey, e.avl.rLeaf, t.right, oram.content)
    {
      hide EnclaveOram.Valid, Reals, Sound, PathTaken, Keyed, Step, Child, At;
      ghost var p, b := local, oram.content;
      if wanted {
        BlocksKeyed();
        PullTaken(Reals(p), fs, t, b, c, left);
        SlotsOf(p);
      }
      ok := OramStep(key, leaf, wanted, parentKey);
      ghost var e := local[|p|];
      assert local == p + [e];
      RealsAppend(p, e);
      SoundAppend(p, e);
      assert Reals(p) + [] == Reals(p);
    }

    /** The parent key that the code passes on is that of the last path node. */
    lemma ParentIs(fs: seq<Frame<V>>, t: Tree<V>, c: Cells<V>)
      requires Down(fs, t, c) && (local == [] || local[|local| - 1].Real())
      ensures ParentAt(fs, |fs|) == if local == [] then INVALID_KEY else local[|local| - 1].key
    {
      hide EnclaveOram.Valid, Sound, PathTaken, At;
      TakenParent(Reals(local), fs, t, oram.content, c);
      if local != [] { LastReal(local); }
    }

    lemma StartDown()
      requires Valid()
      ensures Down([], tree, oram.content) && Plug([], tree) == tree
      ensures rootKey == INVALID_KEY <==> tree == Nil
    {
      hide EnclaveOram.Valid, Keyed;
      ZipStart(tree, oram.content);
      assert oram.content - {} == oram.content;
      RootIsKey(tree);
    }

    lemma NothingTaken(t: Tree<V>, c: Cells<V>)
      requires Down([], t, c)
      ensures oram.content == c
    {
      hide EnclaveOram.Valid;
      assert Reals(local) == [];
      assert c - {} == c;
    }

    /** Nothing hangs below a focus whose key is invalid. */
    lemma NilBelow(fs: seq<Frame<V>>, t: Tree<V>, c: Cells<V>)
      requires Down(fs, t, c)
      ensures RootKey(t) == INVALID_KEY ==> t == Nil
    {
      hide At, Rep, PathOk, PathSide, OrderedPath, EnclaveOram.Valid, ExactPath, Plug, Reals;
      PathApart(fs, |fs|, t);
      RootIsKey(t);
    }

    lemma BlocksKeyed()
      requires oram.Valid() && !oram.padded
      ensures Keyed(oram.content)
    {
      HoldingKeyed(oram.stash, oram.tree, oram.content);
    }

    // ----- Search -----

    /** Writes `value` into the last real entry. */
    method SetFound(at: nat, value: V, ghost fs: seq<Frame<V>>, ghost f: Frame<V>, ghost t: Tree<V>, ghost c: Cells<V>)
      requires Down(fs + [f], t, c) && at < |local| && local[at].Real() && Rank(local, at) + 1 == |Reals(local)|
      modifies `local
      ensures Down(SetValue(fs + [f], value), t, c)
      ensures |local| == |old(local)| && forall i :: 0 <= i < |local| ==>
                local[i] == if i == at then old(local)[i].(avl := old(local)[i].avl.(data := value)) else old(local)[i]
      ensures Rank(local, at) + 1 == |Reals(local)|
    {
      hide EnclaveOram.Valid, Reals, Rank, PathTaken;
      TakenSetData(Reals(local), fs, f, t, oram.content, c, value);
      ghost var e := local[at].(avl := local[at].avl.(data := value));
      RealsPrefix(local, at);
      RealsUpdate(local, at, e);
      SoundUpdate(local, at, e);
      SameRankAt(local, local[at := e], at);
      local := local[at := local[at].(avl := local[at].avl.(data := value))];
    }

    /** The search loop: always maxHeight steps, dummies once the search is over. If the key is
        found, `s` is its subtree, `up` the path to it and `at` its entry. */
    method Locate(key: int, wanted: bool, update: Option<V>)
      returns (ok: bool, found: bool, at: nat, result: V, ghost up: seq<Frame<V>>, ghost s: Tree<V>)
      requires Valid()
      modifies `local, oram
      ensures !ok ==> oram.Overfull()
      ensures ok ==> oram.nodeAccesses == old(oram.nodeAccesses) + Cost(maxHeight)
      ensures ok ==> Plug(up, s) == tree
      ensures ok && !found ==> result == zero && Down(up, s, old(oram.content))
      ensures ok && !found && wanted ==> StrictPath(up, key) && (s == Nil || |up| == maxHeight)
      ensures ok && found ==>
                && wanted && StrictPath(up, key) && |up| < maxHeight && s.Node? && s.key == key && result == s.value
                && Down(Entered(up, s, update), s.left, old(oram.content))
                && at < |local| && local[at].Real() && Rank(local, at) + 1 == |Reals(local)|
    {
      hide EnclaveOram.Valid, Reals, Rank, PathTaken, Plug, StrictPath, Step, Child, Sound, Keys, Ordered, Stored, Cost, Entered;
      ghost var c := oram.content;
      StartDown();
      local := [];
      up, s := [], tree;
      ok, found, at, result := true, false, 0, zero;
      var curKey, curLeaf := if wanted then rootKey else INVALID_KEY, if wanted then rootLeaf else INVALID_LEAF;
      NoPath<V>(key);
      CostStep(0);
      for d := 0 to maxHeight
        invariant ok && |local| == d && Plug(up, s) == tree && oram.Valid()
        invariant oram.nodeAccesses == old(oram.nodeAccesses) + Cost(d)
        invariant !found ==> result == zero && Down(up, s, c)
        invariant !found && wanted ==> StrictPath(up, key) && (curKey == INVALID_KEY ==> s == Nil)
        invariant curKey != INVALID_KEY ==>
                    && wanted && !found && |up| == d && s.Node? && RootRight(curKey, curLeaf, s, oram.content)
                    && (d > 0 ==> local[d - 1].Real())
        invariant found ==> curKey == INVALID_KEY
        invariant found ==>
                    && wanted && StrictPath(up, key) && |up| < maxHeight && s.Node? && s.key == key && result == s.value
                    && Down(Entered(up, s, update), s.left, c)
                    && at < |local| && local[at].Real() && Rank(local, at) + 1 == |Reals(local)|
      {
        CostStep(d);
        var searching := curKey != INVALID_KEY && !found;
        var parent := if d == 0 then INVALID_KEY else local[d - 1].key;
        ghost var left := key <= curKey;
        if searching {
          ParentIs(up, s, c);
          SearchStep(up, s, tree, key, update, left);
        }
        ghost var fs, t := if found then Entered(up, s, update) else up, if found then s.left else s;
        ghost var p := local;
        ok := Advance(curKey, curLeaf, searching, if searching then parent else INVALID_KEY, left, fs, t, c);
        if !ok { return; }
        var e := local[d];
        assert local == p + [e];
        var match_ := searching && e.key == key;
        result := if match_ then e.avl.data else result;
        if searching {
          LastReal(local);
          NilBelow(up + [Step(s, left)], Child(s, left), c);
          if match_ {
            EnteredIs(up, s, update);
            if update.Some? { SetFound(d, update.value, up, Step(s, true), s.left, c); }
          } else {
            SideOf(s, left);
            up, s := up + [Step(s, left)], Child(s, left);
          }
        } else {
          DummyAppended(p, e, if found then at else 0);
        }
        at := if match_ then d else at;
        found := found || match_;
        var goLeft := searching && !match_ && key < curKey;
        var next, nextLeaf := if goLeft then e.avl.lKey else e.avl.rKey, if goLeft then e.avl.lLeaf else e.avl.rLeaf;
        var still := searching && !match_;
        curKey, curLeaf := if still then next else INVALID_KEY, if still then nextLeaf else INVALID_LEAF;
      }
    }

    /** Writes back a path whose tree has kept its shape. */
    method FinishSearch(ghost fs: seq<Frame<V>>, ghost t: Tree<V>, ghost c: Cells<V>)
      requires Down(fs, t, c) && rootKey == RootKey(Plug(fs, t)) && Keys(Plug(fs, t)) == c.Keys && maxHeight > 0
      requires fs == [] && t.Node? ==> RootRight(rootKey, rootLeaf, t, oram.content)
      modifies `local, `rootLeaf, `tree, oram
      ensures Valid() && tree == Plug(fs, t) && oram.nodeAccesses == old(oram.nodeAccesses)
    {
      hide EnclaveOram.Valid, Reals, Sound, At, Zip, ExactPath, Keys, Plug, Ordered, Stored;
      SlotsOf(local);
      ZipClose(Reals(local), fs, |fs|, t, oram.content);
      assert fs[..|fs|] == fs;
      if fs != [] {
        RootOfPath(fs, t);
        ZipUnique(Reals(local), fs, |fs|, t, oram.content);
        AtHas(Reals(local), 0);
      } else {
        PlugNothing(t);
      }
      WriteBack(fs, Plug(fs, t));
    }

    lemma CostSum(m: nat, n: nat)
      ensures Cost(m) + Cost(n) == Cost(m + n)
    {
    }

    /** Looks `key` up, optionally replaces its value, and then optionally transforms it; or does
        the same accesses for nothing. A key deeper than the search reaches is not found. */
    method SearchOrDummy(key: int, wanted: bool, update: Option<V>, transform: Option<V -> V>)
      returns (r: Result<V>, found: bool)
      requires Valid()
      modifies this, oram
      ensures r.Ok? ==> Valid() && (found <==> wanted && key in old(Map()) && Depth(old(tree), key) < maxHeight)
      ensures r.Ok? ==> r.value == if found then old(Map())[key] else zero
      ensures r.Ok? ==> Map() == if found && transform.Some? then old(Map())[key := transform.value(old(Map())[key])]
                                 else if found && update.Some? then old(Map())[key := update.value] else old(Map())
      ensures r.Ok? ==> Height(tree) == Height(old(tree)) && (Balanced(old(tree)) ==> Balanced(tree))
      ensures r.Ok? ==> oram.nodeAccesses == old(oram.nodeAccesses) + Cost(3 * maxHeight)
      ensures r.Err? ==> r.error == StashOverflow && oram.Overfull()
    {
      hide EnclaveOram.Valid, Reals, Rank, Plug, StrictPath, Step, Sound, Keys, Ordered, Stored, Cost, Entered, Update, Contents,
           Balanced, Height, Depth, PathTaken;
      ghost var c, t0 := oram.content, tree;
      var ok, at, result;
      ghost var up, s;
      ok, found, at, result, up, s := Locate(key, wanted, update);
      if !ok { return Err(StashOverflow), false; }
      ghost var final := update;
      if transform.Some? {
        var value := transform.value(result);
        if found {
          EnteredForm(up, s, update, value);
          SetFound(at, value, up, Last(s, update), s.left, c);
          final := Some(value);
        }
      }
      SearchOutcome(up, s, t0, key, wanted, found, final, maxHeight);
      ghost var fs, t := if found then Entered(up, s, final) else up, if found then s.left else s;
      if !found && up == [] {
        PlugNothing(s);
        NothingTaken(s, c);
      }
      if found { EnteredForm(up, s, final, result); }
      FinishSearch(fs, t, c);
      ok := PadOps(maxHeight);
      CostSum(maxHeight, 2 * maxHeight);
      r := if ok then Ok(result) else Err(StashOverflow);
    }

    // ----- Insertion -----

    /** The real entries are the path `s`; if `hung`, its last node already points at a new leaf. */
    ghost predicate Hanging(s: Local<V>, fs: seq<Frame<V>>, t: Tree<V>, c: Cells<V>, hung: bool, key: int, leaf: int)
      reads this, oram
    {
      && oram.Valid() && Sound(local) && PathTaken(s, fs, t, oram.content, c)
      && (!hung ==> Reals(local) == s)
      && (hung ==> t == Nil && |s| > 0 && |fs| > 0
                   && Reals(local) == s[|s| - 1 := WithChild(s[|s| - 1], fs[|fs| - 1].left, key, leaf)])
    }

    /** Points the last entry at a new leaf on the side where it has no child. */
    method HangChild(key: int, leaf: int, left: bool, ghost fs: seq<Frame<V>>, ghost c: Cells<V>)
      requires Down(fs, Nil, c) && |local| > 0 && local[|local| - 1].Real() && fs != [] && fs[|fs| - 1].left == left
      modifies `local
      ensures Hanging(Reals(old(local)), fs, Nil, c, true, key, leaf)
      ensures |local| == |old(local)|
    {
      hide EnclaveOram.Valid, Reals, Rank, Zip, ExactPath;
      var d := |local| - 1;
      var n := local[d].avl;
      var hung := if left then n.(lKey := key, lLeaf := leaf, lHeight := 1) else n.(rKey := key, rLeaf := leaf, rHeight := 1);
      LastReal(local);
      RealsUpdate(local, d, local[d].(avl := hung));
      SoundUpdate(local, d, local[d].(avl := hung));
      local := local[d := local[d].(avl := hung)];
    }

    /** The descent of an insertion: always maxHeight steps. `hung` says whether the place for the
        key was reached; then `parent` and `leaf` are those of the new node. */
    method DescendAndHang(key: int)
      returns (ok: bool, hung: bool, parent: int, leaf: int, ghost s: Local<V>, ghost fs: seq<Frame<V>>, ghost t: Tree<V>)
      requires Valid() && (key == INVALID_KEY || (key >= 0 && key !in Map()))
      modifies `local, oram
      ensures !ok ==> oram.Overfull()
      ensures ok ==> oram.nodeAccesses == old(oram.nodeAccesses) + Cost(maxHeight)
      ensures ok ==> Hanging(s, fs, t, old(oram.content), hung, key, leaf) && Plug(fs, t) == tree
      ensures ok && key == INVALID_KEY ==> fs == [] && !hung
      ensures ok && key != INVALID_KEY ==> StrictPath(fs, key) && (hung || tree == Nil || (t.Node? && |fs| == maxHeight))
      ensures ok && tree == Nil ==> !hung && fs == []
      ensures ok && hung ==> |fs| <= maxHeight && parent == s[|s| - 1].key && 0 <= leaf < oram.Range()
    {
      hide EnclaveOram.Valid, Reals, Rank, PathTaken, Plug, StrictPath, Step, Child, Sound, Keys, Ordered, Stored, Cost, Pow2,
           WithChild, Contents;
      ghost var c := oram.content;
      StartDown();
      local := [];
      fs, t, s := [], tree, [];
      ok, hung, parent, leaf := true, false, INVALID_KEY, INVALID_LEAF;
      var wanted := key != INVALID_KEY;
      var curKey, curLeaf := if wanted then rootKey else INVALID_KEY, if wanted then rootLeaf else INVALID_LEAF;
      NoPath<V>(key);
      NoReals<V>();
      CostStep(0);
      for d := 0 to maxHeight
        invariant ok && |local| == d && oram.nodeAccesses == old(oram.nodeAccesses) + Cost(d)
        invariant Hanging(s, fs, t, c, hung, key, leaf) && Plug(fs, t) == tree
        invariant !wanted || tree == Nil ==> fs == [] && !hung && curKey == INVALID_KEY
        invariant wanted ==> StrictPath(fs, key)
        invariant wanted && tree.Node? && !hung ==> curKey != INVALID_KEY
        invariant curKey != INVALID_KEY ==>
                    && wanted && !hung && |fs| == d && t.Node? && RootRight(curKey, curLeaf, t, oram.content)
                    && (d > 0 ==> local[d - 1].Real())
        invariant hung ==> wanted && |fs| <= d && parent == s[|s| - 1].key && 0 <= leaf < oram.Range()
      {
        CostStep(d);
        var searching := curKey != INVALID_KEY && !hung;
        var par := if d == 0 then INVALID_KEY else local[d - 1].key;
        var left := key < curKey;
        if searching {
          ParentIs(fs, t, c);
          AbsentHere(fs, t, key);
          TargetStep(fs, t, tree, key, left);
        }
        ghost var p := local;
        ok := Advance(curKey, curLeaf, searching, if searching then par else INVALID_KEY, left, fs, t, c);
        if !ok { return; }
        var e := local[d];
        var goLeft := searching && left;
        var child, childLeaf := if goLeft then e.avl.lKey else e.avl.rKey, if goLeft then e.avl.lLeaf else e.avl.rLeaf;
        var hang := searching && child == INVALID_KEY;
        var newLeaf := oram.RandomLeaf();
        if searching {
          StepLeft(t, left);
          ghost var up := fs;
          fs, t := fs + [Step(t, left)], Child(t, left);
          s := Reals(local);
          NilBelow(fs, t, c);
          LastReal(local);
          if hang {
            HangChild(key, newLeaf, left, fs, c);
          }
        }
        parent, leaf := if hang then e.key else parent, if hang then newLeaf else leaf;
        hung := hung || hang;
        var still := searching && !hung;
        curKey, curLeaf := if still then child else INVALID_KEY, if still then childLeaf else INVALID_LEAF;
      }
    }

    lemma AbsentHere(fs: seq<Frame<V>>, t: Tree<V>, key: int)
      requires Ordered(tree) && Plug(fs, t) == tree && t.Node? && key !in Map()
      ensures key != t.key
    {
      ContentsKeys(tree);
      PlugKeys(fs, t);
    }

    /** Rebalances along the path with what is in the list, and writes the list back. */
    method SettleAndWrite(ghost fs: seq<Frame<V>>, ghost t: Tree<V>)
      requires oram.Valid() && !oram.padded && Sound(local) && |Reals(local)| == |fs| && Zip(Reals(local), fs, |fs|, t,
               oram.content)
      requires rootKey == RootAt(fs, |fs|, t) && Slots(local).Keys !! oram.content.Keys
      requires Ordered(Plug(fs, t)) && Keys(Plug(fs, t)) == oram.content.Keys + Slots(local).Keys
      requires fs == [] && t.Node? ==> t.key in oram.content && rootLeaf == oram.content[t.key].leaf
      requires maxHeight > 0
      modifies `local, `rootKey, `rootLeaf, `tree, oram
      ensures Valid() && tree == Settle(fs, t, Slots(old(local)).Keys) && oram.nodeAccesses == old(oram.nodeAccesses)
    {
      hide EnclaveOram.Valid, Reals, At, Zip, Keys, Plug, Ordered, Stored, Settle, Slots, RefreshAll, Sound, RootAt;
      ghost var p, loaded := local, Slots(local).Keys;
      SettleKeeps(fs, t, loaded);
      if fs != [] {
        PathLoaded(local, fs, t, oram.content);
        SettleRoot(fs, t, loaded);
      } else {
        SettleEnds(t, loaded);
      }
      ZipRefreshAgain(Reals(local), fs, |fs|, t, oram.content);
      local := TeeLists.UpdateHeights(local);
      SameSlotKeys(p, local);
      SameRanks(p, local);
      ghost var q := local;
      local, rootKey := RebalanceLoaded(local, rootKey, fs, t, oram.content);
      SameSlotKeys(q, local);
      WriteBack(fs, Settle(fs, t, loaded));
    }

    /** Appends the new node below the path, or a dummy; either way one entry. */
    method Seat(key: int, value: V, hung: bool, wasEmpty: bool, parent: int, leaf: int,
                ghost s: Local<V>, ghost fs: seq<Frame<V>>, ghost t: Tree<V>, ghost c: Cells<V>)
      requires Hanging(s, fs, t, c, hung, key, leaf) && Ordered(Plug(fs, t)) && c.Keys == Keys(Plug(fs, t))
      requires hung || wasEmpty ==> key >= 0 && StrictPath(fs, key) && key !in Keys(Plug(fs, t)) && 0 <= leaf
      requires hung ==> parent == s[|s| - 1].key
      requires wasEmpty ==> !hung && fs == [] && t == Nil && parent == INVALID_KEY
      modifies `local
      ensures var gs, focus := SeatPath(fs, key, value, hung || wasEmpty), if hung || wasEmpty then Nil else t;
              && oram.Valid() && Sound(local) && |Reals(local)| == |gs| && Zip(Reals(local), gs, |gs|, focus, oram.content)
              && Slots(local).Keys !! oram.content.Keys
              && c.Keys + (if hung || wasEmpty then {key} else {}) == oram.content.Keys + Slots(local).Keys
    {
      hide EnclaveOram.Valid, At, Zip, ExactPath, Ordered, Keys, Plug, StrictPath, Reals, Sound, Slots, NewFrame, WithChild;
      var actual := hung || wasEmpty;
      var e := Entry(if actual then key else INVALID_KEY, if actual then leaf else INVALID_LEAF, FreshNode(value),
                     if actual then parent else INVALID_KEY);
      ghost var p := local;
      NotTaken(s, fs, t, c);
      RealsAppend(p, e);
      if hung {
        ZipAttach(s, fs, oram.content, key, leaf, value);
        HungKeys(p, s, fs, key, leaf);
      } else if wasEmpty {
        FirstNode(key, leaf, value, oram.content);
        NoNodes<V>();
        assert s == [] && Reals(p) + [AsLocal(e)] == [AsLocal(e)];
        SlotsOf(p);
      } else {
        assert Reals(p) + [] == Reals(p);
        SlotsOf(p);
      }
      SoundAppend(p, e);
      local := local + [e];
      SlotsOf(local);
      assert Slots(local).Keys == At(s).Keys + (if actual then {key} else {});
    }

    /** A removal that found nothing writes the path back as it is. */
    lemma MissedRemoval(p: Padded<V>, up: seq<Frame<V>>, s: Tree<V>, c: Cells<V>, t0: Tree<V>, root: int)
      requires Sound(p) && PathTaken(Reals(p), up, s, oram.content, c) && Plug(up, s) == t0 && c.Keys == Keys(t0)
      requires Ordered(t0) && root == RootKey(t0)
      ensures |Reals(p)| == |up| && Zip(Reals(p), up, |up|, s, oram.content) && root == RootAt(up, |up|, s)
      ensures Slots(p).Keys !! oram.content.Keys && Keys(t0) == oram.content.Keys + Slots(p).Keys
    {
      hide At, Zip, ExactPath, Keys, Plug, Reals, Sound, Ordered;
      SlotsOf(p);
      NotTaken(Reals(p), up, s, c);
      if up != [] { RootOfPath(up, s); } else { PlugNothing(s); }
    }

    /** The taken path is apart from the remaining blocks and holds keys of the tree. */
    lemma NotTaken(s: Local<V>, fs: seq<Frame<V>>, t: Tree<V>, c: Cells<V>)
      requires PathTaken(s, fs, t, oram.content, c) && c.Keys == Keys(Plug(fs, t))
      ensures Unique(s) && At(s).Keys !! oram.content.Keys && At(s).Keys + oram.content.Keys == c.Keys
    {
      hide At, Zip, ExactPath, Keys, Plug;
      ZipUnique(s, fs, |s|, t, oram.content);
    }

    /** Inserts an absent key, or with the invalid key does the same accesses for nothing. A key
        whose place is deeper than `maxHeight` is dropped without a word. One whose place is just
        there is put into the tree, but a search reaches it only if a rotation lifts it: a later
        search finds the key iff its depth in the new tree is below `maxHeight`. */
    method Insert(key: int, value: V) returns (r: Result<()>)
      requires Valid() && (key == INVALID_KEY || (key >= 0 && key !in Map()))
      modifies this, oram
      ensures r.Ok? ==> Valid()
      ensures r.Ok? ==> Map() == if key != INVALID_KEY && Depth(old(tree), key) <= maxHeight then old(Map())[key := value]
                                 else old(Map())
      ensures r.Ok? ==> Height(tree) <= if key != INVALID_KEY && Depth(old(tree), key) <= maxHeight then
                                          Max(Height(old(tree)), Depth(old(tree), key) + 1) else Height(old(tree))
      ensures r.Ok? && key != INVALID_KEY && Depth(old(tree), key) <= maxHeight ==> Depth(tree, key) <= Depth(old(tree), key)
      ensures r.Ok? && key != INVALID_KEY && Depth(old(tree), key) <= maxHeight && CalmPut(old(tree), key, value) ==>
                tree == Attach(old(tree), key, value)
      ensures r.Ok? && key != INVALID_KEY && Depth(old(tree), key) <= maxHeight && Balanced(old(tree)) ==>
                tree == Inserted(old(tree), key, value)
      ensures r.Ok? ==> oram.nodeAccesses == old(oram.nodeAccesses) + Cost(3 * maxHeight)
      ensures r.Err? ==> r.error == StashOverflow && oram.Overfull()
    {
      hide Valid, Contents, Balanced, Height, Depth, Inserted, CalmPut, Attach, Cost;
      r := InsertTree(key, value);
    }

    method InsertTree(key: int, value: V) returns (r: Result<()>)
      requires Valid() && (key == INVALID_KEY || (key >= 0 && key !in Map()))
      modifies this, oram
      ensures r.Ok? ==> Valid() && Outcome(old(tree), key, value, maxHeight, tree)
      ensures r.Ok? ==> oram.nodeAccesses == old(oram.nodeAccesses) + Cost(3 * maxHeight)
      ensures r.Err? ==> r.error == StashOverflow && oram.Overfull()
    {
      hide EnclaveOram.Valid, Reals, Rank, Plug, StrictPath, Step, Sound, Keys, Ordered, Stored, Cost, Contents, Outcome,
           Depth, PathTaken, Slots, Zip, Settle, SeatPath, Pow2;
      ghost var c, t0 := oram.content, tree;
      var wasEmpty := key != INVALID_KEY && rootKey == INVALID_KEY;
      StartDown();
      var ok, hung, parent, leaf;
      ghost var s, fs, t;
      ok, hung, parent, leaf, s, fs, t := DescendAndHang(key);
      if !ok { return Err(StashOverflow); }
      var emptyLeaf := oram.RandomLeaf();
      leaf := if wasEmpty then emptyLeaf else leaf;
      if fs == [] { PlugNothing(t); }
      if key != INVALID_KEY { AbsentKeys(t0, key); }
      Seat(key, value, hung, wasEmpty, if hung then parent else INVALID_KEY, leaf, s, fs, t, c);
      ghost var gs, focus := SeatPath(fs, key, value, hung || wasEmpty), if hung || wasEmpty then Nil else t;
      RootAlongSeat(fs, t, t0, key, value, hung || wasEmpty);
      rootKey := if wasEmpty then key else rootKey;
      OthersUnloaded(Reals(local), gs, focus, oram.content);
      SlotsOf(local);
      PathLoaded(local, gs, focus, oram.content);
      SeatedTree(fs, t, t0, key, value, hung || wasEmpty, Slots(local), maxHeight);
      if gs == [] { NoPathTaken(s, t, oram.content, c); }
      SettleAndWrite(gs, focus);
      ok := PadOps(maxHeight);
      CostSum(maxHeight, 2 * maxHeight);
      r := if ok then Ok(()) else Err(StashOverflow);
    }

    /** While the tree is balanced and the map below the bound on the budget, the number of steps
        loses nothing. */
    lemma InReach(key: int)
      requires Valid() && Balanced(tree) && |Map()| < Fib(maxHeight + 3) - 1
      ensures Depth(tree, key) <= maxHeight && (key in Map() ==> Depth(tree, key) < maxHeight)
    {
      hide Fib, Ordered, Balanced, Depth, Keys, Contents, Size, Stored;
      OrderedSize(tree);
      ContentsKeys(tree);
      BalancedReach(tree, key, maxHeight);
    }

    /** And where it does lose something: a map loaded as a full tree of maxHeight + 1 levels
        reports success for every further insertion, and keeps none of them. */
    method LoadBeyondReach(data: Entries<V>, key: int, value: V) returns (r: Result<()>)
      requires Valid() && Map() == map[] && Distinct(data) && forall i :: 0 <= i < |data| ==> data[i].0 >= 0
      requires |data| == Pow2(maxHeight + 1) - 1 && key >= 0 && key !in Assoc(data)
      modifies this, oram
      ensures r.Ok? ==> Valid() && Map() == Assoc(data) && key !in Map()
      ensures r.Err? ==> oram.Overfull()
    {
      hide EnclaveOram.Valid, Keys, Ordered, Stored, Contents, Balanced, Height, Depth, Size, Assoc, Pow2, HalvingHeight;
      Init(data);
      FullHalving(maxHeight + 1);
      ContentsKeys(tree);
      FullDepth(tree, key, maxHeight + 1);
      r := Insert(key, value);
    }

    /** An insertion and a search for the same key. The key is found iff its depth in the tree `t`
        between the two is below `maxHeight`: always if its place was less deep than that, and on a
        balanced tree while the map stays below the bound on the budget. */
    method InsertThenSearch(key: int, value: V) returns (r: Result<V>, found: bool, ghost t: Tree<V>)
      requires Valid() && key >= 0 && key !in Map()
      modifies this, oram
      ensures r.Ok? ==> Valid() && Contents(t) == Map()
      ensures r.Ok? ==> Map() == if Depth(old(tree), key) <= maxHeight then old(Map())[key := value] else old(Map())
      ensures r.Ok? ==> (found <==> key in Map() && Depth(t, key) < maxHeight) && (found ==> r.value == value)
      ensures r.Ok? && Balanced(old(tree)) && key in Map() ==> t == Inserted(old(tree), key, value)
      ensures r.Ok? && Depth(old(tree), key) < maxHeight ==> found
      ensures r.Ok? && Balanced(old(tree)) && |old(Map())| + 1 < Fib(maxHeight + 3) - 1 ==> found
      ensures r.Err? ==> r.error == StashOverflow && oram.Overfull()
    {
      hide EnclaveOram.Valid, Keys, Ordered, Stored, Contents, Balanced, Height, Depth, Size, Inserted, CalmPut, Attach, Fib,
           Cost;
      found, t := false, tree;
      ghost var t0 := tree;
      if Balanced(t0) && |Map()| + 1 < Fib(maxHeight + 3) - 1 { InReach(key); }
      var put := Insert(key, value);
      if put.Err? { return Err(StashOverflow), false, tree; }
      t := tree;
      if Balanced(t0) && key in Map() { InsertBalanced(t0, key, value); }
      if Balanced(tree) && |Map()| < Fib(maxHeight + 3) - 1 { InReach(key); }
      r, found := SearchOrDummy(key, true, None, None);
    }

    /** The first level that is lost: a map loaded as a full tree of maxHeight levels takes a further
        key in, and the next search does not find it. */
    method LoadToReach(data: Entries<V>, key: int, value: V) returns (r: Result<V>, found: bool)
      requires Valid() && Map() == map[] && Distinct(data) && forall i :: 0 <= i < |data| ==> data[i].0 >= 0
      requires |data| == Pow2(maxHeight) - 1 && key >= 0 && key !in Assoc(data)
      modifies this, oram
      ensures r.Ok? ==> Valid() && Map() == Assoc(data)[key := value] && !found && Height(tree) == maxHeight + 1
      ensures r.Err? ==> oram.Overfull()
    {
      hide EnclaveOram.Valid, Keys, Ordered, Stored, Contents, Balanced, Height, Depth, Size, Assoc, Pow2, HalvingHeight, CalmPut,
           Attach, Inserted, Cost;
      Init(data);
      FullHalving(maxHeight);
      ContentsKeys(tree);
      FullDepth(tree, key, maxHeight);
      FullInserted(tree, key, value, maxHeight);
      ghost var t0 := tree;
      var put := Insert(key, value);
      if put.Err? { return Err(StashOverflow), false; }
      r, found := SearchOrDummy(key, true, None, None);
    }

    // ----- Removal -----

    /** The descent of a removal: always maxHeight steps. If the key is found, `s` is its subtree,
        entered on the right if it has two children and on the left otherwise. */
    method FindTarget(key: int) returns (ok: bool, found: bool, target: int, ghost up: seq<Frame<V>>, ghost s: Tree<V>)
      requires Valid() && Height(tree) <= maxHeight
      modifies `local, oram
      ensures !ok ==> oram.Overfull()
      ensures ok ==> oram.nodeAccesses == old(oram.nodeAccesses) + Cost(maxHeight)
      ensures ok ==> Plug(up, s) == tree && |local| == maxHeight && oram.Valid() && Sound(local)
      ensures ok && !found ==> Down(up, s, old(oram.content)) && key !in Map()
      ensures ok && !found && s.Node? ==> up == []
      ensures ok && found ==>
                && oram.Valid() && TargetAt(local, oram.content, up, s, key, target, old(oram.content))
                && Height(s.right) < maxHeight
    {
      hide EnclaveOram.Valid, Reals, Rank, PathTaken, Plug, StrictPath, Step, Child, Sound, Keys, Ordered, Stored, Cost, Height,
           Contents, TargetAt;
      ghost var c := oram.content;
      StartDown();
      local := [];
      up, s := [], tree;
      ok, found, target := true, false, -1;
      var wanted := rootKey != INVALID_KEY && key != INVALID_KEY;
      var curKey, curLeaf := if wanted then rootKey else INVALID_KEY, if wanted then rootLeaf else INVALID_LEAF;
      NoPath<V>(key);
      CostStep(0);
      for d := 0 to maxHeight
        invariant ok && |local| == d && Plug(up, s) == tree && oram.Valid() && Sound(local) && |up| <= d
        invariant oram.nodeAccesses == old(oram.nodeAccesses) + Cost(d)
        invariant !found ==> Down(up, s, c) && (!wanted ==> up == [])
        invariant !found && wanted ==> StrictPath(up, key) && (curKey == INVALID_KEY ==> s == Nil)
        invariant curKey != INVALID_KEY ==>
                    && wanted && !found && |up| == d && s.Node? && RootRight(curKey, curLeaf, s, oram.content)
                    && (d > 0 ==> local[d - 1].Real()) && Height(s) <= maxHeight - d
        invariant found ==>
                    && curKey == INVALID_KEY && TargetAt(local, oram.content, up, s, key, target, c)
                    && s.Node? && Height(s.right) < maxHeight
      {
        CostStep(d);
        var searching := curKey != INVALID_KEY && !found;
        var parent := if d == 0 then INVALID_KEY else local[d - 1].key;
        ghost var left := if searching && key == s.key then !(s.left.Node? && s.right.Node?) else key < curKey;
        if searching {
          ParentIs(up, s, c);
          TargetStep(up, s, tree, key, left);
        }
        ghost var p := local;
        ok := Advance(curKey, curLeaf, searching, if searching then parent else INVALID_KEY, left, up, s, c);
        if !ok { return; }
        var e := local[d];
        assert local == p + [e];
        var match_ := searching && e.key == key;
        if searching {
          LastReal(local);
          NilBelow(up + [Step(s, left)], Child(s, left), c);
          SideOf(s, left);
          if match_ {
            TargetFound(local, oram.content, up, s, key, d, c);
          } else {
            up, s := up + [Step(s, left)], Child(s, left);
          }
        } else {
          if found { TargetKept(p, e, oram.content, up, s, key, target, c); }
        }
        target := if match_ then d else target;
        found := found || match_;
        var goLeft := searching && !match_ && key < curKey;
        var next, nextLeaf := if goLeft then e.avl.lKey else e.avl.rKey, if goLeft then e.avl.lLeaf else e.avl.rLeaf;
        var still := searching && !match_;
        curKey, curLeaf := if still then next else INVALID_KEY, if still then nextLeaf else INVALID_LEAF;
      }
      if !found {
        NotThere(up, s, tree, key, wanted);
      }
    }

    /** From the right child of a target with two children down to its successor `m`: always
        maxHeight steps, all dummies if there is no such target. */
    method FindSuccessor(key: int, found: bool, target: int, ghost up: seq<Frame<V>>, ghost s: Tree<V>, ghost c: Cells<V>)
      returns (ok: bool, hasTwo: bool, succ: int, ghost down: seq<Frame<V>>, ghost m: Tree<V>)
      requires oram.Valid() && !oram.padded && Sound(local)
      requires found ==> TargetAt(local, oram.content, up, s, key, target, c) && Height(s.right) < maxHeight
      modifies `local, oram
      ensures !ok ==> oram.Overfull()
      ensures ok ==> oram.Valid() && Sound(local) && oram.nodeAccesses == old(oram.nodeAccesses) + Cost(maxHeight)
      ensures ok ==> |local| >= |old(local)| && (hasTwo ==> found)
      ensures ok && !hasTwo ==> Reals(local) == Reals(old(local)) && oram.content == old(oram.content)
      ensures ok && found && !hasTwo ==> TargetAt(local, oram.content, up, s, key, target, c) && (s.left == Nil || s.right == Nil)
      ensures ok && hasTwo ==> found && SuccessorAt(local, oram.content, up, s, down, m, key, target, succ, c)
    {
      hide EnclaveOram.Valid, Reals, Rank, PathTaken, Plug, StrictPath, Step, Child, Sound, Keys, Ordered, Stored, Cost, Height,
           TargetAt, SuccessorAt, SpineAt;
      var right, rightLeaf, left := INVALID_KEY, INVALID_LEAF, INVALID_KEY;
      for i := 0 to |local|
        invariant if found && 0 <= target < i
                  then right == local[target].avl.rKey && rightLeaf == local[target].avl.rLeaf && left == local[target].avl.lKey
                  else right == INVALID_KEY && left == INVALID_KEY
      {
        var match_ := found && i == target;
        right := if match_ then local[i].avl.rKey else right;
        rightLeaf := if match_ then local[i].avl.rLeaf else rightLeaf;
        left := if match_ then local[i].avl.lKey else left;
      }
      hasTwo := found && left != INVALID_KEY && right != INVALID_KEY;
      ghost var t := Nil;
      down, m := [], Nil;
      if found { TargetChildren(local, oram.content, up, s, key, target, c); }
      if hasTwo {
        t := s.right;
        SpineStart(local, oram.content, up, s, key, target, c);
      }
      var sKey, sLeaf := if hasTwo then right else INVALID_KEY, if hasTwo then rightLeaf else INVALID_LEAF;
      var last := false;
      ok, succ := true, -1;
      CostStep(0);
      for sd := 0 to maxHeight
        invariant ok && oram.Valid() && Sound(local) && oram.nodeAccesses == old(oram.nodeAccesses) + Cost(sd)
        invariant |local| == |old(local)| + sd
        invariant !hasTwo ==>
                  sKey == INVALID_KEY && !last && Reals(local) == Reals(old(local)) && oram.content == old(oram.content)
        invariant found && !hasTwo ==> TargetAt(local, oram.content, up, s, key, target, c)
        invariant hasTwo && !last ==>
                    && SpineAt(local, oram.content, up, s, down, t, key, target, c) && t.Node? && |down| == sd
                    && RootRight(sKey, sLeaf, t, oram.content) && sKey != INVALID_KEY && Height(t) < maxHeight - sd
                    && (sd > 0 ==> local[|local| - 1].Real())
        invariant last ==> hasTwo && sKey == INVALID_KEY && SuccessorAt(local, oram.content, up, s, down, m, key, target, succ, c)
      {
        CostStep(sd);
        var going := !last && sKey != INVALID_KEY;
        var parent := if sd == 0 then key else local[|local| - 1].key;
        ghost var fs := [];
        if going {
          SpineParent(local, oram.content, up, s, down, t, key, target, c);
          fs := up + [Step(s, false)] + down;
          SpineStep(down, t);
        }
        ghost var p, b := local, oram.content;
        ok := Advance(sKey, sLeaf, going, if going then parent else INVALID_KEY, true, fs, t, c);
        if !ok { return; }
        var e := local[|local| - 1];
        assert local == p + [e];
        var isLast := going && e.avl.lKey == INVALID_KEY;
        if going {
          NilBelow(fs + [Step(t, true)], Child(t, true), c);
          if isLast {
            m := t;
            SuccessorFound(p, e, b, oram.content, up, s, down, t, key, target, c);
          } else {
            SpineGrows(p, e, b, oram.content, up, s, down, t, key, target, c);
            down, t := down + [Step(t, true)], t.left;
          }
        } else if last {
          SuccessorKept(p, e, oram.content, up, s, down, m, key, target, succ, c);
        } else if found {
          TargetKept(p, e, oram.content, up, s, key, target, c);
        }
        succ := if isLast then |local| - 1 else succ;
        last := last || isLast;
        var still := going && !last;
        sKey, sLeaf := if still then e.avl.lKey else INVALID_KEY, if still then e.avl.lLeaf else INVALID_LEAF;
      }
      if hasTwo && !last { NodeHeight(t); }
    }

    /** The surgery: unlinks the target, or its successor after taking over its entry; nothing if
        there is no target. */
    method Unlink(key: int, found: bool, hasTwo: bool, target: int, succ: int, ghost up: seq<Frame<V>>, ghost s: Tree<V>,
                  ghost down: seq<Frame<V>>, ghost m: Tree<V>, ghost c: Cells<V>)
      requires oram.Valid() && !oram.padded && Sound(local) && |local| > 0 && (hasTwo ==> found) && rootKey == RootKey(tree)
      requires found ==> Plug(up, s) == tree && (if hasTwo then SuccessorAt(local, oram.content, up, s, down, m, key, target,
               succ, c)
                         else TargetAt(local, oram.content, up, s, key, target, c) && (s.left == Nil || s.right == Nil))
      modifies `local, `rootKey, `rootLeaf
      ensures !found ==> local == old(local) && rootKey == old(rootKey) && rootLeaf == old(rootLeaf)
      ensures found ==> s.Node? && (hasTwo ==> m.Node?)
      ensures found ==>
                var fs, t := Remaining(up, s, down, m, hasTwo), Replacing(s, m, hasTwo);
                && Sound(local) && Reached(Reals(local), fs, t, oram.content) && rootKey == RootAt(fs, |fs|, t)
                && Unique(Reals(old(local))) && Slots(local).Keys == At(Reals(old(local))).Keys - {key}
                && (fs == [] && t.Node? ==> t.key in oram.content && rootLeaf == oram.content[t.key].leaf)
    {
      hide EnclaveOram.Valid, Reals, Rank, PathTaken, Plug, StrictPath, Step, Sound, Keys, At, Zip, Droppable, OnlyNext,
           RenamedAt,
           DropLast, TargetAt, SuccessorAt, Remaining, Replacing, Reached, RootAt, OnlyChildKey, OnlyChildLeaf, Slots;
      ghost var p, b := local, oram.content;
      if found {
        if hasTwo { TwoIsReady(p, b, up, s, down, m, key, target, succ, c); } else { OneIsReady(p, b, up, s, key, target, c); }
      }
      local, rootKey := TeeUnlink.TakeSuccessor(local, rootKey, hasTwo, target, succ, zero);
      ghost var p1 := local;
      var del := if hasTwo then succ else target;
      if hasTwo {
        TakenIsReady(p, p1, b, up, s, down, m, key, target, succ, c);
      }
      local, rootKey, rootLeaf := TeeUnlink.UnlinkLast(local, rootKey, rootLeaf, found, del);
      if found {
        if hasTwo {
          TwoUnlinked(p, p1, b, up, s, down, m, key, target, succ, c, local);
        } else {
          OneUnlinked(p, b, up, s, key, target, c, local, down, m);
        }
        SoundLeaves(p);
        UniqueSound(local);
        SlotsOf(local);
        RootAlong(up, s);
        RootRemains(up, s, down, m, key, hasTwo);
      }
    }

    /** Removes `key`; an absent key changes nothing. The tree may lose balance, but not its height
        bound, order or contents; from a balanced tree it is the plain deletion. */
    method Remove(key: int) returns (r: Result<()>)
      requires Valid() && Height(tree) <= maxHeight
      modifies this, oram
      ensures r.Ok? ==> Valid() && Map() == old(Map()) - {key}
      ensures r.Ok? ==> Height(tree) <= Height(old(tree))
      ensures r.Ok? && (Balanced(old(tree)) || (key in old(Map()) && CalmDrop(old(tree), key))) ==>
                tree == Deleted(old(tree), key)
      ensures r.Ok? ==> oram.nodeAccesses == old(oram.nodeAccesses) + Cost(3 * maxHeight)
      ensures r.Err? ==> r.error == StashOverflow && oram.Overfull()
    {
      hide Balanced, Deleted, CalmDrop, EnclaveOram.Valid, Reals, PathTaken, Plug, StrictPath, Sound, Keys, Ordered, Stored, Cost,
           Contents, Height, Zip,
           TargetAt, SuccessorAt, Remaining, Replacing, Reached, RootAt, Slots, Settle, At;
      ghost var c, t0 := oram.content, tree;
      var ok, found, target, hasTwo, succ;
      ghost var up, s, down, m;
      ok, found, target, up, s := FindTarget(key);
      if !ok { return Err(StashOverflow); }
      ok, hasTwo, succ, down, m := FindSuccessor(key, found, target, up, s, c);
      if !ok { return Err(StashOverflow); }
      ghost var p := local;
      Unlink(key, found, hasTwo, target, succ, up, s, down, m, c);
      ghost var fs, t := up, s;
      if found {
        fs, t := Remaining(up, s, down, m, hasTwo), Replacing(s, m, hasTwo);
        FoundRemoval(p, oram.content, up, s, down, m, key, target, succ, c, hasTwo, t0, Reals(local));
      } else {
        MissedRemoval(p, up, s, c, t0, rootKey);
        AbsentKeys(t0, key);
        OthersUnloaded(Reals(p), up, s, oram.content);
        if Balanced(t0) { IdleMissed(up, s, key, At(Reals(p)).Keys); }
        if fs == [] {
          PlugNothing(s);
          NothingTaken(s, c);
        }
      }
      ghost var loaded := Slots(local).Keys;
      SlotsOf(local);
      SettleKeeps(fs, t, loaded);
      SettleHeight(fs, t, loaded);
      SettleAndWrite(fs, t);
      ok := PadOps(2 * maxHeight);
      CostSum(maxHeight, maxHeight);
      CostSum(2 * maxHeight, maxHeight);
      r := if ok then Ok(()) else Err(StashOverflow);
    }
  }

  /** What the path that remains after a deletion represents. */
  lemma FoundRemoval<V>(p: Padded<V>, b: Cells<V>, up: seq<Frame<V>>, s: Tree<V>, down: seq<Frame<V>>, m: Tree<V>, key: int,
                        at: int, succ: int, c: Cells<V>, hasTwo: bool, t0: Tree<V>, r: Local<V>)
    requires Plug(up, s) == t0 && Ordered(t0) && c.Keys == Keys(t0) && s.Node? && (hasTwo ==> m.Node?)
    requires if hasTwo then SuccessorAt(p, b, up, s, down, m, key, at, succ, c)
             else TargetAt(p, b, up, s, key, at, c) && (s.left == Nil || s.right == Nil)
    requires Reached(r, Remaining(up, s, down, m, hasTwo), Replacing(s, m, hasTwo), b)
    ensures var fs, t := Remaining(up, s, down, m, hasTwo), Replacing(s, m, hasTwo);
            && |r| == |fs| && Zip(r, fs, |fs|, t, b)
            && Ordered(Plug(fs, t)) && Contents(Plug(fs, t)) == Contents(t0) - {key}
            && Height(Plug(fs, t)) <= Height(t0)
            && Unique(Reals(p)) && (At(Reals(p)).Keys - {key}) !! b.Keys
            && Keys(Plug(fs, t)) == b.Keys + (At(Reals(p)).Keys - {key})
            && Unique(r) && (Balanced(t0) || CalmDrop(t0, key) ==> Settle(fs, t, At(r).Keys) == Deleted(t0, key))
  {
    hide Settle, Balanced, Deleted, CalmDrop, Reals, Plug, StrictPath, Sound, Keys, Ordered, Contents, Height, Zip, RootAt, At,
         ExactPath, Climb, Removed, Successed, LeftSpine;
    var fs, t := Remaining(up, s, down, m, hasTwo), Replacing(s, m, hasTwo);
    ZipOrder(r, fs, t, b);
    PathIsOrdered(fs, t);
    if hasTwo {
      RemoveTwo(up, s, down, m);
      TwoLower(up, s, down, m);
      TakenParts(Reals(p), up + [Step(s, false)] + down + [Step(m, true)], Nil, b, c);
      TwoIsReady(p, b, up, s, down, m, key, at, succ, c);
      TwoChildPath(up, s, down, m);
    } else {
      OneSided(s);
      PlugStep(up, s, true);
      RemoveOne(up, s);
      OneLower(up, s);
      TakenParts(Reals(p), up + [OnwardStep(s)], Onward(s), b, c);
      OneIsReady(p, b, up, s, key, at, c);
    }
    OthersUnloaded(r, fs, t, b);
    if CalmDrop(t0, key) {
      CalmHasOneChild(up, s);
      if hasTwo { PlugHasRoot(down, m); }
      CalmDeletion(up, s, At(r).Keys);
    } else if Balanced(t0) {
      if hasTwo { IdleTwo(up, s, down, m, At(r).Keys); } else { IdleOne(up, s, At(r).Keys); }
    }
    ClimbKeeps(fs, t);
    RemoveContents(t0, key);
    SlotsOf(p);
    SlotHas(p, at);
    TargetIs(p, up, s, down, m, key, at, succ, b, c, hasTwo);
  }

  lemma {:induction false} PlugHasRoot<V>(fs: seq<Frame<V>>, t: Tree<V>)
    requires t.Node?
    ensures Plug(fs, t).Node?
  {
    if fs != [] { PlugHasRoot(fs[..|fs| - 1], Join(fs[|fs| - 1], t)); }
  }

  lemma TargetIs<V>(p: Padded<V>, up: seq<Frame<V>>, s: Tree<V>, down: seq<Frame<V>>, m: Tree<V>, key: int,
                    at: int, succ: int, b: Cells<V>, c: Cells<V>, hasTwo: bool)
    requires if hasTwo then SuccessorAt(p, b, up, s, down, m, key, at, succ, c)
             else TargetAt(p, b, up, s, key, at, c) && (s.left == Nil || s.right == Nil)
    ensures 0 <= at < |p| && p[at].key == key
  {
    hide Zip, ExactPath, Reals, Rank, Plug, Sound, StrictPath, At, Keys;
    if hasTwo {
      TwoIsReady(p, b, up, s, down, m, key, at, succ, c);
    } else {
      OneIsReady(p, b, up, s, key, at, c);
      ZipUnique(Reals(p), up + [OnwardStep(s)], |up| + 1, Onward(s), b);
    }
  }

  /** The taken nodes and the blocks left make up the whole. */
  lemma TakenParts<V>(s: Local<V>, fs: seq<Frame<V>>, t: Tree<V>, b: Cells<V>, c: Cells<V>)
    requires PathTaken(s, fs, t, b, c)
    ensures Unique(s) && At(s).Keys !! b.Keys && c.Keys <= At(s).Keys + b.Keys && b.Keys <= c.Keys
    ensures At(s).Keys <= Keys(Plug(fs, t))
  {
    hide At, Zip, ExactPath, Keys, Plug;
    ZipUnique(s, fs, |s|, t, b);
  }

  lemma OneLower<V>(up: seq<Frame<V>>, s: Tree<V>)
    requires s.Node?
    ensures Height(Plug(up, OnlySubtree(s))) <= Height(Plug(up, s))
  {
    hide Plug;
    PlugHeight(up, s, OnlySubtree(s));
  }

  lemma TwoLower<V>(up: seq<Frame<V>>, s: Tree<V>, down: seq<Frame<V>>, m: Tree<V>)
    requires s.Node? && m.Node? && Plug(down, m) == s.right
    ensures Height(Plug(Successed(up, s, down, m), m.right)) <= Height(Plug(up, s))
  {
    hide Plug;
    var mid := [Frame(m.key, m.value, false, s.left)];
    PlugAppend(up + mid, down, m.right);
    PlugAppend(up, mid, Plug(down, m.right));
    PlugOne(mid[0], Plug(down, m.right));
    PlugHeight(down, m, m.right);
    PlugHeight(up, s, Join(mid[0], Plug(down, m.right)));
  }

  lemma EmptyContents<V>(t: Tree<V>)
    ensures Contents(t) == map[] ==> t == Nil && Keys(t) == {}
  {
    if t.Node? { assert t.key in Contents(t); }
  }

  // ----- The surgery, on values -----

  /** The path that remains after the target `s` has been deleted, and the subtree at its end. */
  function Remaining<V>(up: seq<Frame<V>>, s: Tree<V>, down: seq<Frame<V>>, m: Tree<V>, hasTwo: bool): seq<Frame<V>>
    requires s.Node? && (hasTwo ==> m.Node?)
  {
    if hasTwo then Successed(up, s, down, m) else up
  }

  function Replacing<V>(s: Tree<V>, m: Tree<V>, hasTwo: bool): Tree<V>
    requires s.Node? && (hasTwo ==> m.Node?)
  {
    if hasTwo then m.right else OnlySubtree(s)
  }

  /** The list is the whole path `fs` to the focus `t`. */
  ghost predicate Reached<V>(s: Local<V>, fs: seq<Frame<V>>, t: Tree<V>, b: Cells<V>) {
    |s| == |fs| && Zip(s, fs, |fs|, t, b)
  }

  lemma RootRemains<V>(up: seq<Frame<V>>, s: Tree<V>, down: seq<Frame<V>>, m: Tree<V>, key: int, hasTwo: bool)
    requires s.Node? && (hasTwo ==> m.Node?) && StrictPath(up, key)
    ensures var fs, t := Remaining(up, s, down, m, hasTwo), Replacing(s, m, hasTwo);
            && RootAt(fs, |fs|, t) == (if up != [] then up[0].key else if hasTwo then m.key else RootKey(OnlySubtree(s)))
            && (up != [] ==> up[0].key != key)
            && (fs == [] <==> up == [] && !hasTwo) && (!hasTwo ==> t == OnlySubtree(s))
  {
    hide StrictPath;
    if hasTwo { SuccessedPath(up, s, down, m); }
    if up != [] { StrictHead(up, key); }
  }

  lemma SoundLeaves<V>(p: Padded<V>)
    requires Sound(p)
    ensures forall i :: 0 <= i < |p| && p[i].Real() ==> p[i].leaf >= 0
  {
  }

  lemma StrictHead<V>(up: seq<Frame<V>>, key: int)
    requires StrictPath(up, key) && up != []
    ensures up[0].key != key
  {
  }

  /** The list satisfies what the surgery on a target with at most one child needs. */
  lemma OneIsReady<V>(p: Padded<V>, b: Cells<V>, up: seq<Frame<V>>, s: Tree<V>, key: int, at: int, c: Cells<V>)
    requires TargetAt(p, b, up, s, key, at, c) && (s.left == Nil || s.right == Nil)
    ensures s.Node? && StrictPath(up, key) && s.key == key
    ensures 0 <= at < |p| && p[at].Real() && Rank(p, at) + 1 == |Reals(p)| && Droppable(Reals(p))
    ensures |Reals(p)| == |up| + 1 && Reals(p)[|up|] == AsLocal(p[at])
  {
    hide Zip, ExactPath, Keys, Plug, Reals, Rank, At, Sound, StrictPath, Droppable;
    OneSided(s);
    RealsPrefix(p, at);
    ZipDroppable(Reals(p), up + [OnwardStep(s)], Onward(s), b);
  }

  lemma OneSided<V>(s: Tree<V>)
    requires s.Node? && (s.left == Nil || s.right == Nil)
    ensures OnwardStep(s) == Step(s, true) && Onward(s) == s.left && OnwardStep(s).other == s.right
  {
  }

  lemma OneUnlinked<V>(p: Padded<V>, b: Cells<V>, up: seq<Frame<V>>, s: Tree<V>, key: int, at: int, c: Cells<V>, r: Padded<V>,
                       down: seq<Frame<V>>, m: Tree<V>)
    requires TargetAt(p, b, up, s, key, at, c) && (s.left == Nil || s.right == Nil)
    requires |Reals(p)| > 0 && Reals(r) == DropLast(Reals(p))
    ensures Unique(Reals(p)) && Unique(Reals(r)) && Reached(Reals(r), Remaining(up, s, down, m, false), Replacing(s, m, false), b)
    ensures At(Reals(r)).Keys == At(Reals(p)).Keys - {key}
    ensures OnlyChildKey(p[at].avl) == RootKey(OnlySubtree(s))
    ensures OnlySubtree(s).Node? ==>
              OnlySubtree(s).key >= 0 && OnlySubtree(s).key in b && OnlyChildLeaf(p[at].avl) == b[OnlySubtree(s).key].leaf
  {
    hide Zip, ExactPath, Keys, Plug, Reals, Rank, At, Sound, StrictPath, DropLast, OnlyChildKey, OnlyChildLeaf;
    OneSided(s);
    RealsPrefix(p, at);
    UnlinkedOne(Reals(p), up, s, b);
    ZipPathOrder(Reals(p), up + [OnwardStep(s)], Onward(s), b);
    StoredPositive(up + [OnwardStep(s)], Onward(s));
  }

  lemma TwoIsReady<V>(p: Padded<V>, b: Cells<V>, up: seq<Frame<V>>, s: Tree<V>, down: seq<Frame<V>>, m: Tree<V>, key: int,
                      at: int, succ: int, c: Cells<V>)
    requires SuccessorAt(p, b, up, s, down, m, key, at, succ, c)
    ensures s.Node? && m.Node? && StrictPath(up, key) && s.key == key
    ensures 0 <= at < |p| && p[at].Real() && Rank(p, at) == |up| < |Reals(p)| - 1 && OnlyNext(Reals(p), |up|)
    ensures 0 <= succ < |p| && p[succ].Real() && Rank(p, succ) + 1 == |Reals(p)| && at != succ
    ensures Unique(Reals(p)) && Droppable(Reals(p)) && Reals(p)[|Reals(p)| - 1].key == p[succ].key == m.key
    ensures Reals(p)[|Reals(p)| - 1].avl.data == p[succ].avl.data
    ensures p[at].key == key
  {
    hide Zip, ExactPath, Keys, Plug, Reals, Rank, At, Sound, StrictPath, Droppable, OnlyNext, LeftSpine;
    var fs := up + [Step(s, false)] + down + [Step(m, true)];
    ZipUnique(Reals(p), fs, |fs|, Nil, b);
    ZipOnlyNext(Reals(p), fs, Nil, b, |up|);
    ZipDroppable(Reals(p), fs, Nil, b);
    RealsPrefix(p, at);
    RealsPrefix(p, succ);
    LastNode(Reals(p), fs, m, b);
    StepKey(s, false);
    assert fs[|up|] == Step(s, false);
  }

  lemma TakenIsReady<V>(p: Padded<V>, p1: Padded<V>, b: Cells<V>, up: seq<Frame<V>>, s: Tree<V>, down: seq<Frame<V>>, m: Tree<V>,
                        key: int, at: int, succ: int, c: Cells<V>)
    requires SuccessorAt(p, b, up, s, down, m, key, at, succ, c)
    requires SameKinds(p, p1) && 0 <= at < |p| && 0 <= succ < |p| && |up| < |Reals(p)|
    requires RenamedAt(Reals(p), |up|, p[succ].key, p[succ].avl.data, Reals(p1))
    ensures p1[succ].Real() && Rank(p1, succ) + 1 == |Reals(p1)| == |Reals(p)| && |Reals(p)| > 1 && Droppable(Reals(p1))
  {
    hide Zip, ExactPath, Keys, Plug, Reals, Rank, At, Sound, StrictPath, Droppable, OnlyNext, LeftSpine, PathTaken, RenamedAt;
    TwoIsReady(p, b, up, s, down, m, key, at, succ, c);
    SameKindRanks(p, p1);
    SameKindRank(p, p1, succ);
    RenamedDroppable(Reals(p), |up|, p[succ].key, p[succ].avl.data, Reals(p1));
  }

  lemma TwoUnlinked<V>(p: Padded<V>, p1: Padded<V>, b: Cells<V>, up: seq<Frame<V>>, s: Tree<V>, down: seq<Frame<V>>, m: Tree<V>,
                       key: int, at: int, succ: int, c: Cells<V>, r: Padded<V>)
    requires SuccessorAt(p, b, up, s, down, m, key, at, succ, c)
    requires 0 <= succ < |p| && |up| < |Reals(p)| && |Reals(p1)| > 0 && Reals(r) == DropLast(Reals(p1))
    requires RenamedAt(Reals(p), |up|, p[succ].key, p[succ].avl.data, Reals(p1))
    ensures Unique(Reals(p)) && Unique(Reals(r)) && Reached(Reals(r), Remaining(up, s, down, m, true), Replacing(s, m, true), b)
    ensures At(Reals(r)).Keys == At(Reals(p)).Keys - {key}
  {
    hide Zip, ExactPath, Keys, Plug, Reals, Rank, At, Sound, StrictPath, Droppable, OnlyNext, LeftSpine, RenamedAt, DropLast,
         Successed;
    TwoIsReady(p, b, up, s, down, m, key, at, succ, c);
    DropLastSize(Reals(p));
    RenameThenDrop(Reals(p), |up|, p[succ].key, p[succ].avl.data, Reals(p1));
    UnlinkedTwo(Reals(p), up, s, down, m, Reals(r), b);
  }

  lemma NotThere<V>(up: seq<Frame<V>>, s: Tree<V>, t0: Tree<V>, key: int, wanted: bool)
    requires Ordered(t0) && (forall k :: k in Keys(t0) ==> k >= 0) && Plug(up, s) == t0
    requires !wanted ==> up == [] && (t0 == Nil || key < 0)
    requires wanted ==> StrictPath(up, key) && (s == Nil || Height(s) <= 0)
    ensures key !in Contents(t0) && (wanted ==> s == Nil)
  {
    ContentsKeys(t0);
    if wanted {
      NodeHeightPositive(s);
      StrictAbsent(up, s, key);
    }
  }

  /** The list `p` is the path `up` to the target `s`, its entry at `at` being the last real one. */
  ghost predicate TargetAt<V>(p: Padded<V>, b: Cells<V>, up: seq<Frame<V>>, s: Tree<V>, key: int, at: int, c: Cells<V>) {
    && s.Node? && s.key == key && StrictPath(up, key)
    && Sound(p) && PathTaken(Reals(p), up + [OnwardStep(s)], Onward(s), b, c)
    && 0 <= at < |p| && p[at].Real() && Rank(p, at) + 1 == |Reals(p)|
    && RootRight(p[at].avl.lKey, p[at].avl.lLeaf, s.left, b)
    && RootRight(p[at].avl.rKey, p[at].avl.rLeaf, s.right, b)
  }

  lemma TargetFound<V>(p: Padded<V>, b: Cells<V>, up: seq<Frame<V>>, s: Tree<V>, key: int, at: nat, c: Cells<V>)
    requires s.Node? && s.key == key && StrictPath(up, key)
    requires var left := !(s.left.Node? && s.right.Node?);
             Sound(p) && PathTaken(Reals(p), up + [Step(s, left)], Child(s, left), b, c)
    requires at == |p| - 1 && p[at].Real()
    requires RootRight(p[at].avl.lKey, p[at].avl.lLeaf, s.left, b) && RootRight(p[at].avl.rKey, p[at].avl.rLeaf, s.right, b)
    ensures TargetAt(p, b, up, s, key, at, c)
  {
    hide PathTaken, Sound, Reals, Rank, Step, Child;
    OnwardIs(s);
    LastReal(p);
  }

  lemma TargetKept<V>(p: Padded<V>, e: Entry<V>, b: Cells<V>, up: seq<Frame<V>>, s: Tree<V>, key: int, at: int, c: Cells<V>)
    requires TargetAt(p, b, up, s, key, at, c) && !e.Real() && Sound(p + [e])
    ensures TargetAt(p + [e], b, up, s, key, at, c)
  {
    hide PathTaken, Sound, Reals, Rank, OnwardStep, Onward, StrictPath;
    DummyAppended(p, e, at);
  }

  /** The frame by which the search for a successor, or else nothing, goes on below `s`. */
  function OnwardStep<V>(s: Tree<V>): Frame<V>
    requires s.Node?
  {
    Step(s, !(s.left.Node? && s.right.Node?))
  }

  function Onward<V>(s: Tree<V>): Tree<V>
    requires s.Node?
  {
    Child(s, !(s.left.Node? && s.right.Node?))
  }

  lemma OnwardIs<V>(s: Tree<V>)
    requires s.Node?
    ensures OnwardStep(s) == Step(s, !(s.left.Node? && s.right.Node?)) && Onward(s) == Child(s, !(s.left.Node? && s.right.Node?))
  {
  }

  lemma NodeHeightPositive<V>(t: Tree<V>)
    ensures Height(t) <= 0 ==> t == Nil
  {
  }

  // ----- The way to the successor, on values -----

  /** Below the target `s` the list goes on along the left spine `down` to the focus `t`. */
  ghost predicate SpineAt<V>(p: Padded<V>, b: Cells<V>, up: seq<Frame<V>>, s: Tree<V>, down: seq<Frame<V>>, t: Tree<V>,
                             key: int, at: int, c: Cells<V>) {
    && s.Node? && s.key == key && StrictPath(up, key) && s.left.Node? && LeftSpine(down) && Plug(down, t) == s.right
    && Sound(p) && PathTaken(Reals(p), up + [Step(s, false)] + down, t, b, c)
    && 0 <= at < |p| && p[at].Real() && Rank(p, at) == |up|
  }

  /** The list goes on to the successor `m` of the target, its entry at `succ` being the last real one. */
  ghost predicate SuccessorAt<V>(p: Padded<V>, b: Cells<V>, up: seq<Frame<V>>, s: Tree<V>, down: seq<Frame<V>>, m: Tree<V>,
                                 key: int, at: int, succ: int, c: Cells<V>) {
    && s.Node? && s.key == key && StrictPath(up, key) && s.left.Node?
    && m.Node? && m.left == Nil && LeftSpine(down) && Plug(down, m) == s.right
    && Sound(p) && PathTaken(Reals(p), up + [Step(s, false)] + down + [Step(m, true)], Nil, b, c)
    && 0 <= at < |p| && p[at].Real() && Rank(p, at) == |up|
    && 0 <= succ < |p| && p[succ].Real() && Rank(p, succ) + 1 == |Reals(p)|
  }

  lemma TargetChildren<V>(p: Padded<V>, b: Cells<V>, up: seq<Frame<V>>, s: Tree<V>, key: int, at: int, c: Cells<V>)
    requires TargetAt(p, b, up, s, key, at, c)
    ensures s.Node? && 0 <= at < |p|
    ensures p[at].avl.lKey != INVALID_KEY <==> s.left.Node?
    ensures p[at].avl.rKey != INVALID_KEY <==> s.right.Node?
    ensures RootRight(p[at].avl.rKey, p[at].avl.rLeaf, s.right, b)
  {
    hide At, Rep, PathOk, PathSide, OrderedPath, ExactPath, Keys, Reals, StrictPath, Plug;
    var fs := up + [OnwardStep(s)];
    ZipPathOrder(Reals(p), fs, Onward(s), b);
    StoredPositive(fs, Onward(s));
    RootsOfChildren(s);
  }

  lemma RootsOfChildren<V>(s: Tree<V>)
    requires s.Node?
    ensures {Onward(s), OnwardStep(s).other} == {s.left, s.right}
  {
  }

  lemma SpineStart<V>(p: Padded<V>, b: Cells<V>, up: seq<Frame<V>>, s: Tree<V>, key: int, at: int, c: Cells<V>)
    requires TargetAt(p, b, up, s, key, at, c) && s.left.Node? && s.right.Node?
    ensures SpineAt(p, b, up, s, [], s.right, key, at, c)
  {
    hide Zip, ExactPath, Keys, Reals, Rank, Plug, At, Sound, StrictPath;
    PlugNothing(s.right);
    assert up + [Step(s, false)] + [] == up + [OnwardStep(s)];
  }

  lemma SpineParent<V>(p: Padded<V>, b: Cells<V>, up: seq<Frame<V>>, s: Tree<V>, down: seq<Frame<V>>, t: Tree<V>,
                       key: int, at: int, c: Cells<V>)
    requires SpineAt(p, b, up, s, down, t, key, at, c) && |p| > 0 && (down != [] ==> p[|p| - 1].Real())
    ensures s.Node?
    ensures var fs := up + [Step(s, false)] + down;
            && PathTaken(Reals(p), fs, t, b, c) && LeftSpine(down)
            && ParentAt(fs, |fs|) == if down == [] then key else p[|p| - 1].key
  {
    hide PathTaken, Reals, Rank, Plug, Sound, StrictPath;
    var fs := up + [Step(s, false)] + down;
    TakenParent(Reals(p), fs, t, b, c);
    if down != [] {
      LastReal(p);
    } else {
      StepKey(s, false);
      assert fs[|fs| - 1] == Step(s, false);
    }
  }

  lemma SpineGrows<V>(p: Padded<V>, e: Entry<V>, b: Cells<V>, b': Cells<V>, up: seq<Frame<V>>, s: Tree<V>, down: seq<Frame<V>>,
                      t: Tree<V>, key: int, at: int, c: Cells<V>)
    requires SpineAt(p, b, up, s, down, t, key, at, c) && t.Node? && Sound(p + [e])
    requires PathTaken(Reals(p + [e]), up + [Step(s, false)] + down + [Step(t, true)], t.left, b', c)
    ensures SpineAt(p + [e], b', up, s, down + [Step(t, true)], t.left, key, at, c)
  {
    hide PathTaken, Reals, Plug, Sound, StrictPath, LeftSpine, Step;
    SpineStep(down, t);
    assert up + [Step(s, false)] + down + [Step(t, true)] == up + [Step(s, false)] + (down + [Step(t, true)]);
    assert (p + [e])[..at] == p[..at];
  }

  lemma SuccessorFound<V>(p: Padded<V>, e: Entry<V>, b: Cells<V>, b': Cells<V>, up: seq<Frame<V>>, s: Tree<V>,
                          down: seq<Frame<V>>, m: Tree<V>, key: int, at: int, c: Cells<V>)
    requires SpineAt(p, b, up, s, down, m, key, at, c) && m.Node? && m.left == Nil && Sound(p + [e]) && e.Real()
    requires PathTaken(Reals(p + [e]), up + [Step(s, false)] + down + [Step(m, true)], Nil, b', c)
    ensures SuccessorAt(p + [e], b', up, s, down, m, key, at, |p|, c)
  {
    hide PathTaken, Reals, Plug, Sound, StrictPath, LeftSpine, Step;
    LastReal(p + [e]);
    assert (p + [e])[..at] == p[..at];
  }

  lemma SuccessorKept<V>(p: Padded<V>, e: Entry<V>, b: Cells<V>, up: seq<Frame<V>>, s: Tree<V>, down: seq<Frame<V>>, m: Tree<V>,
                         key: int, at: int, succ: int, c: Cells<V>)
    requires SuccessorAt(p, b, up, s, down, m, key, at, succ, c) && !e.Real() && Sound(p + [e])
    ensures SuccessorAt(p + [e], b, up, s, down, m, key, at, succ, c)
  {
    hide PathTaken, Reals, Rank, Plug, Sound, StrictPath, LeftSpine, Step;
    DummyAppended(p, e, at);
    DummyAppended(p, e, succ);
  }

  lemma AbsentKeys<V>(t: Tree<V>, key: int)
    requires key !in Contents(t)
    ensures key !in Keys(t)
  {
    ContentsKeys(t);
  }

  lemma NoPathTaken<V>(s: Local<V>, t: Tree<V>, b: Cells<V>, c: Cells<V>)
    requires PathTaken(s, [], t, b, c)
    ensures b == c
  {
    assert s == [] && c - {} == c;
  }

  lemma RootAlongSeat<V>(fs: seq<Frame<V>>, t: Tree<V>, t0: Tree<V>, key: int, value: V, actual: bool)
    requires Plug(fs, t) == t0 && (actual ==> t == Nil)
    ensures var gs, focus := SeatPath(fs, key, value, actual), if actual then Nil else t;
            RootAt(gs, |gs|, focus) == if actual && t0 == Nil then key else RootKey(t0)
    ensures if actual then SeatPath(fs, key, value, actual) != [] else SeatPath(fs, key, value, actual) == fs
  {
    hide Plug;
    if fs == [] {
      PlugNothing(t);
    } else {
      RootOfPath(fs, t);
    }
  }

  /** The tree after an insertion, from its path. */
  /** What an insertion makes of the tree `t0`. */
  ghost predicate Outcome<V>(t0: Tree<V>, key: int, value: V, reach: nat, t1: Tree<V>) {
    if key != INVALID_KEY && Depth(t0, key) <= reach then
      && Contents(t1) == Contents(t0)[key := value] && Height(t1) <= Max(Height(t0), Depth(t0, key) + 1)
      && Depth(t1, key) <= Depth(t0, key)
      && (CalmPut(t0, key, value) ==> t1 == Attach(t0, key, value))
      && (Balanced(t0) ==> t1 == Inserted(t0, key, value))
    else Contents(t1) == Contents(t0) && Height(t1) <= Height(t0)
  }

  lemma SeatedTree<V>(fs: seq<Frame<V>>, t: Tree<V>, t0: Tree<V>, key: int, value: V, actual: bool, m: Index<V>, reach: nat)
    requires Ordered(t0) && Plug(fs, t) == t0 && (actual ==> t == Nil && key >= 0 && key !in Keys(t0))
    requires key != INVALID_KEY ==> StrictPath(fs, key) && key !in Keys(t0)
                                    && (actual ==> |fs| <= reach) && (!actual ==> t.Node? && |fs| == reach)
    requires forall j :: 0 <= j < |SeatPath(fs, key, value, actual)| ==>
               SeatPath(fs, key, value, actual)[j].key in m && RootKey(SeatPath(fs, key, value, actual)[j].other) !in m
    ensures var gs, focus := SeatPath(fs, key, value, actual), if actual then Nil else t;
            && Ordered(Plug(gs, focus)) && Keys(Plug(gs, focus)) == Keys(t0) + (if actual then {key} else {})
            && Outcome(t0, key, value, reach, Settle(gs, focus, m.Keys))
  {
    hide Plug, Ordered, Keys, Contents, StrictPath, Height, Balanced, Inserted, Settle, NewFrame, CalmPut, Attach, Depth;
    var gs, focus := SeatPath(fs, key, value, actual), if actual then Nil else t;
    if key != INVALID_KEY {
      PlaceDepth(fs, t, key);
    }
    if actual {
      AttachAlong(fs, Nil, key, value);
      PlugNew(fs, key, value);
      AttachContents(t0, key, value);
      AttachedHeight(t0, key, value);
      SeatedDepth(fs, t0, key, value, m);
      if Balanced(t0) { SeatedBalanced(fs, t0, key, value, m); }
    }
    SettleKeeps(gs, focus, m.Keys);
    SettleHeight(gs, focus, m.Keys);
  }

  /** The depth of an absent key's place, as far as the path goes. */
  lemma PlaceDepth<V>(fs: seq<Frame<V>>, t: Tree<V>, key: int)
    requires StrictPath(fs, key) && key !in Keys(Plug(fs, t))
    ensures Depth(Plug(fs, t), key) >= |fs| && (Depth(Plug(fs, t), key) == |fs| <==> t == Nil)
  {
    hide Plug, StrictPath;
    DepthAlong(fs, t, key);
    PlugKeys(fs, t);
    RootIsKey(t);
  }

  lemma {:induction false} AttachedHeight<V>(t: Tree<V>, key: int, value: V)
    requires key !in Keys(t)
    ensures Height(Attach(t, key, value)) == Max(Height(t), Depth(t, key) + 1)
  {
    if t.Node? { AttachedHeight(if key < t.key then t.left else t.right, key, value); }
  }

  lemma SeatedDepth<V>(fs: seq<Frame<V>>, t0: Tree<V>, key: int, value: V, m: Index<V>)
    requires StrictPath(fs, key) && Plug(fs, Nil) == t0 && Ordered(t0) && key !in Keys(t0)
    requires forall j :: 0 <= j < |fs| + 1 ==> RootKey((fs + [NewFrame(key, value)])[j].other) !in m
    ensures var t1 := Settle(fs + [NewFrame(key, value)], Nil, m.Keys);
            Depth(t1, key) <= |fs| && (CalmPut(t0, key, value) ==> t1 == Attach(t0, key, value))
  {
    hide Plug, StrictPath, Settle, Ordered, Keys, CalmPut, Attach, NewFrame, Depth;
    var gs := fs + [NewFrame(key, value)];
    forall j | 0 <= j < |fs| ensures RootKey(fs[j].other) !in m { assert gs[j] == fs[j]; }
    AttachAlong(fs, Nil, key, value);
    PlugNew(fs, key, value);
    AttachOrder(t0, key, value);
    NewDepth(fs, key, value, m.Keys);
    if CalmPut(t0, key, value) { CalmInsertion(fs, key, value, m.Keys); }
  }

  lemma PlugNew<V>(fs: seq<Frame<V>>, key: int, value: V)
    ensures Plug(fs + [NewFrame(key, value)], Nil) == Plug(fs, Node(Nil, key, value, Nil))
    ensures Attach(Nil, key, value) == Node(Nil, key, value, Nil)
  {
    var gs := fs + [NewFrame(key, value)];
    assert gs[..|gs| - 1] == fs;
  }

  lemma SeatedBalanced<V>(fs: seq<Frame<V>>, t0: Tree<V>, key: int, value: V, m: Index<V>)
    requires StrictPath(fs, key) && Plug(fs, Nil) == t0 && Balanced(t0)
    requires forall j :: 0 <= j < |fs| + 1 ==> (fs + [NewFrame(key, value)])[j].key in m
    ensures Settle(fs + [NewFrame(key, value)], Nil, m.Keys) == Inserted(t0, key, value)
  {
    hide Plug, StrictPath, Balanced, InsertPath, Settle;
    if fs == [] {
      PlugNothing<V>(Nil);
      SeatedFirst(key, value, m.Keys);
      assert fs + [NewFrame(key, value)] == [NewFrame(key, value)];
    } else {
      GrownPath(fs, key, value);
      SettleInserts(fs + [NewFrame(key, value)], key, value, m);
    }
  }

  lemma SeatedFirst<V>(key: int, value: V, loaded: set<int>)
    ensures Settle([NewFrame(key, value)], Nil, loaded) == Inserted(Nil, key, value)
  {
    var fs := [NewFrame<V>(key, value)];
    assert fs[..0] == [] && Join(fs[0], Nil) == Node(Nil, key, value, Nil);
  }

  /** The path of the new list. */
  function SeatPath<V>(fs: seq<Frame<V>>, key: int, value: V, actual: bool): seq<Frame<V>> {
    if actual then fs + [NewFrame(key, value)] else fs
  }

  lemma HungKeys<V>(p: Padded<V>, s: Local<V>, fs: seq<Frame<V>>, key: int, leaf: int)
    requires Sound(p) && Unique(s) && |s| > 0 && |fs| > 0
    requires Reals(p) == s[|s| - 1 := WithChild(s[|s| - 1], fs[|fs| - 1].left, key, leaf)]
    ensures Slots(p).Keys == At(s).Keys
  {
    hide At, Reals;
    AtUpdate(s, |s| - 1, WithChild(s[|s| - 1], fs[|fs| - 1].left, key, leaf));
    SlotsOf(p);
    AtHas(s, |s| - 1);
  }

  lemma NoNodes<V>()
    ensures Unique<V>([]) && At<V>([]).Keys == {}
  {
  }

  lemma OneNode<V>(n: LocalNode<V>)
    requires n.key >= 0
    ensures Unique([n]) && At([n]).Keys == {n.key}
  {
    AtHas([n], 0);
  }

  /** A list with only the new node, when the tree was empty. */
  lemma FirstNode<V>(key: int, leaf: nat, value: V, c: Cells<V>)
    requires key >= 0
    ensures var r := [LocalNode(key, leaf, FreshNode(value), INVALID_KEY)];
            Unique(r) && At(r).Keys == {key} && Zip(r, [] + [NewFrame(key, value)], 1, Nil, c)
  {
    hide At, Rep;
    var r, fs := [LocalNode(key, leaf, FreshNode(value), INVALID_KEY)], [NewFrame<V>(key, value)];
    OneNode(r[0]);
    assert [] + fs == fs && fs[..1] == fs && fs[..0] == [];
    NewNode(key, leaf, value, INVALID_KEY, At(r), c);
    NilRep(key, At(r), c);
    PlugOne(fs[0], Nil);
    assert fs == [fs[0]] && Join(fs[0], Nil) == Node(Nil, key, value, Nil);
    SingleEntry(key, value);
  }

  function Last<V>(s: Tree<V>, update: Option<V>): Frame<V>
    requires s.Node?
  {
    if update.Some? then Step(s, true).(value := update.value) else Step(s, true)
  }

  lemma EnteredForm<V>(up: seq<Frame<V>>, s: Tree<V>, update: Option<V>, value: V)
    requires s.Node?
    ensures Entered(up, s, update) == up + [Last(s, update)]
    ensures SetValue(up + [Last(s, update)], value) == Entered(up, s, Some(value))
  {
  }

  /** What the end of the search loop means. */
  lemma SearchOutcome<V>(up: seq<Frame<V>>, s: Tree<V>, t0: Tree<V>, key: int, wanted: bool, found: bool, update: Option<V>,
      reach: nat)
    requires Ordered(t0) && Plug(up, s) == t0
    requires !found && wanted ==> StrictPath(up, key) && (s == Nil || |up| == reach)
    requires found ==> wanted && StrictPath(up, key) && |up| < reach && s.Node? && s.key == key
    ensures found <==> wanted && key in Contents(t0) && Depth(t0, key) < reach
    ensures found ==> Contents(t0)[key] == s.value
    ensures var t1 := if found then Plug(Entered(up, s, update), s.left) else t0;
            && Keys(t1) == Keys(t0) && RootKey(t1) == RootKey(t0) && Height(t1) == Height(t0)
            && (Balanced(t0) ==> Balanced(t1))
            && Contents(t1) == if found && update.Some? then Contents(t0)[key := update.value] else Contents(t0)
  {
    hide Plug, Ordered, Keys, Contents, StrictPath, Update, Balanced, Height, Step, Entered, Size;
    LookupContents(t0, key);
    ContentsKeys(t0);
    if wanted {
      LookupAlong(up, s, key);
      DepthAlong(up, s, key);
    }
    if found {
      EnteredIs(up, s, update);
      SearchStep(up, s, t0, key, update, true);
      PlugStep(up, s, true);
      if update.Some? {
        UpdateShape(t0, key, update.value);
        UpdateContents(t0, key, update.value);
        UpdateRoot(t0, key, update.value);
      }
    }
  }

  lemma UpdateRoot<V>(t: Tree<V>, key: int, value: V)
    ensures RootKey(Update(t, key, value)) == RootKey(t)
  {
  }

  lemma NoReals<V>()
    ensures Reals<V>([]) == []
  {
  }

  lemma StepLeft<V>(t: Tree<V>, left: bool)
    requires t.Node?
    ensures Step(t, left).left == left && Child(t, left) == if left then t.left else t.right
  {
  }

  lemma NoPath<V>(key: int)
    ensures StrictPath<V>([], key)
  {
  }

  /** The path into the found node, its value already replaced. */
  function Entered<V>(up: seq<Frame<V>>, s: Tree<V>, update: Option<V>): seq<Frame<V>>
    requires s.Node?
  {
    var fs := up + [Step(s, true)];
    if update.Some? then SetValue(fs, update.value) else fs
  }

  lemma EnteredIs<V>(up: seq<Frame<V>>, s: Tree<V>, update: Option<V>)
    requires s.Node?
    ensures Entered(up, s, update) == if update.Some? then SetValue(up + [Step(s, true)], update.value) else up + [Step(s, true)]
    ensures Child(s, true) == s.left
  {
  }

  lemma SideOf<V>(s: Tree<V>, left: bool)
    requires s.Node?
    ensures Child(s, left) == if left then s.left else s.right
  {
  }

  lemma PathLoaded<V>(p: Padded<V>, fs: seq<Frame<V>>, t: Tree<V>, c: Cells<V>)
    requires Sound(p) && |Reals(p)| == |fs| && Zip(Reals(p), fs, |fs|, t, c)
    ensures forall j :: 0 <= j < |fs| ==> fs[j].key in Slots(p)
  {
    hide Zip, At, Reals;
    SlotsOf(p);
    ZipUnique(Reals(p), fs, |fs|, t, c);
    forall j | 0 <= j < |fs| ensures fs[j].key in Slots(p) {
      AtHas(Reals(p), j);
    }
  }

  /** No block has a key below the real ones. */
  lemma NoSuchSlot<V>(stash: Compaction.Slots<V>, tree: seq<Compaction.Slots<V>>, content: map<int, Block<V>>, key: int)
    requires Holding(stash, tree, content) && key < 0 && forall k :: k in content ==> k >= 0
    ensures forall i :: 0 <= i < |stash| && stash[i].Real() ==> stash[i].key != key
  {
    hide Holding;
    forall i | 0 <= i < |stash| && stash[i].Real() ensures stash[i].key != key {
      StashedIsContent(stash, tree, content, i);
    }
  }

  lemma NothingYet<V>(p: Padded<V>, c: Cells<V>)
    ensures Sound(p[..0]) && c + Blocks(Slots(p[..0])) == c
  {
    assert p[..0] == [];
    NothingFlushed(c);
  }

  lemma FlushEntry<V>(p: Padded<V>, i: nat, c: Cells<V>)
    requires Sound(p) && i < |p| && Sound(p[..i]) && Slots(p).Keys !! c.Keys
    ensures Sound(p[..i + 1])
    ensures p[i].Real() ==>
              && p[i].key >= 0 && p[i].leaf >= 0 && p[i].key !in c + Blocks(Slots(p[..i]))
              && c + Blocks(Slots(p[..i + 1])) == (c + Blocks(Slots(p[..i])))[p[i].key := Block(p[i].key, p[i].leaf, p[i].avl)]
    ensures !p[i].Real() ==> Slots(p[..i + 1]) == Slots(p[..i])
  {
    hide At, Blocks;
    var q, q' := p[..i], p[..i + 1];
    assert Sound(q');
    assert q'[..i] == q;
    SoundUnique(q);
    SoundUnique(q');
    if p[i].Real() {
      SlotHas(p, i);
      NotAmong(p, i);
      AtAppend(Reals(q), AsLocal(p[i]));
      FlushStep(c, Slots(q), AsLocal(p[i]));
      BlocksOver(c, Slots(q));
    } else {
      assert Reals(q') == Reals(q);
    }
  }

  lemma NotAmong<V>(p: Padded<V>, i: nat)
    requires Sound(p) && i < |p| && p[i].Real() && Sound(p[..i])
    ensures p[i].key !in Slots(p[..i])
  {
    hide Slots;
    if p[i].key in Slots(p[..i]) {
      var j := SlotOf(p[..i], p[i].key);
    }
  }
}
