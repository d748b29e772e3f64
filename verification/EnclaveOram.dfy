/** Path ORAM inside an enclave (tee/enclave_oram): the same store, written as fixed numbers of
    unconditional slot scans. Keys and leaves are 32-bit words in the program; what its masked
    moves compute is shown in module Oblivious, and appears here as conditional expressions. */
module EnclaveOrams {
  import opened Common
  import opened Geometry
  import opened StashTrees
  import opened Compaction
  import opened EnclaveSlots

  /** Does the path of `leaf` contain `node`? Always `level` steps. */
  method PathContains(level: nat, leaf: int, node: nat) returns (found: bool)
    requires level > 0 && node < Pow2(level) - 1
    ensures 0 <= leaf < Pow2(level - 1) ==> (found <==> OnPath(Pow2(level - 1), leaf, node))
  {
    ghost var start := Pow2(level - 1) - 1 + leaf;
    ghost var valid := 0 <= leaf < Pow2(level - 1);
    var cur := Pow2(level - 1) - 1 + leaf;
    found := false;
    for d := 0 to level
      invariant valid ==> cur >= 0 && cur == Up(start, d)
      invariant valid ==> (found <==> node in UpSet(start, d))
    {
      if valid {
        UpSetStep(start, d);
        UpStep(start, d);
      }
      found := found || cur == node;
      cur := if cur > 0 then Parent(cur) else 0;
    }
    if valid {
      UpReachesRoot(level, start);
    }
  }

  lemma UpSetStep(node: nat, d: nat)
    ensures UpSet(node, d + 1) == UpSet(node, d) + {Up(node, d)}
  {
    forall x | x in UpSet(node, d + 1) ensures x in UpSet(node, d) + {Up(node, d)} {
      var e :| 0 <= e < d + 1 && x == Up(node, e);
    }
    forall x | x in UpSet(node, d) + {Up(node, d)} ensures x in UpSet(node, d + 1) {
      if x == Up(node, d) {
      } else {
        var e :| 0 <= e < d && x == Up(node, e);
      }
    }
  }

  /** `at` is the first stashed block that may go to `node`, or the stash has none (`at` = |stash|). */
  ghost predicate FirstCandidate<V>(stash: Slots<V>, range: nat, node: nat, at: nat)
    requires range > 0
  {
    && at <= |stash|
    && (forall i :: 0 <= i < at && stash[i].Real() ==> stash[i].leaf >= 0 && !OnPath(range, stash[i].leaf, node))
    && (at < |stash| ==> stash[at].Real() && stash[at].leaf >= 0 && OnPath(range, stash[at].leaf, node))
  }

  /** One bucket slot scans the whole stash and takes the first block that may go there. */
  method TakeCandidate<V>(stash: Slots<V>, slot: Slot<V>, level: nat, node: nat)
    returns (stash': Slots<V>, slot': Slot<V>, ghost at: nat)
    requires level > 0 && node < Pow2(level) - 1 && LeavesOk(stash, Pow2(level - 1))
    ensures FirstCandidate(stash, Pow2(level - 1), node, at)
    ensures at < |stash| ==> stash' == stash[at := Cleared(stash[at])] && slot' == stash[at]
    ensures at == |stash| ==> stash' == stash && slot' == slot
  {
    hide Pow2, OnPath;
    stash', slot' := stash, slot;
    var filled := false;
    at := |stash|;
    for si := 0 to |stash|
      invariant !filled ==> stash' == stash && slot' == slot && at == |stash|
      invariant !filled ==> forall i :: 0 <= i < si && stash[i].Real() ==>
                              stash[i].leaf >= 0 && !OnPath(Pow2(level - 1), stash[i].leaf, node)
      invariant filled ==> at < si && FirstCandidate(stash, Pow2(level - 1), node, at)
                           && stash' == stash[at := Cleared(stash[at])] && slot' == stash[at]
    {
      var sb := stash'[si];
      var onPath := PathContains(level, sb.leaf, node);
      var candidate := sb.Real() && onPath && !filled;
      slot' := if candidate then sb else slot';
      stash' := stash'[si := if candidate then Cleared(sb) else sb];
      if candidate { at := si; }
      filled := filled || candidate;
    }
  }

  /** Every slot is compared with `key`; the match is read and rewritten. */
  method Rewrite<V>(stash: Slots<V>, key: int, wanted: bool, leaf: nat, newValue: Option<V>, zero: V, ghost at: nat)
    returns (stash': Slots<V>, result: V)
    requires wanted ==> key != INVALID_KEY
    requires at <= |stash| && forall i :: 0 <= i < |stash| ==> (stash[i].key == key && wanted <==> i == at)
    ensures at < |stash| ==>
              && result == stash[at].value
              && stash' == stash[at := Slot(key, leaf, if newValue.Some? then newValue.value else stash[at].value)]
    ensures at == |stash| ==> stash' == stash && result == zero
  {
    stash', result := stash, zero;
    for i := 0 to |stash|
      invariant |stash'| == |stash|
      invariant result == if at < i then stash[at].value else zero
      invariant stash' == if at < i then stash[at := Slot(key, leaf, if newValue.Some? then newValue.value else stash[at].value)]
                          else stash
    {
      var sb := stash'[i];
      var match_ := wanted && sb.key == key;
      result := if match_ then sb.value else result;
      var value := if match_ && newValue.Some? then newValue.value else sb.value;
      stash' := stash'[i := Slot(sb.key, if match_ then leaf else sb.leaf, value)];
    }
  }

  class EnclaveOram<V> {
    const level: nat
    const bucketSize: nat
    const stashMax: nat
    const zero: V
    // Whether there may be padding: blocks with negative keys that stand for nothing.
    ghost const padded: bool

    var tree: seq<Slots<V>>
    var stash: Slots<V>
    var nodeAccesses: nat

    ghost var content: map<int, Block<V>>

    function Range(): (r: nat)
      ensures r > 0
    {
      Pow2(if level > 0 then level - 1 else 0)
    }

    function Dummy(): Slot<V> {
      Slot(INVALID_KEY, INVALID_LEAF, zero)
    }

    ghost predicate Valid()
      reads this
    {
      && level > 0 && |tree| == Pow2(level) - 1
      && (forall k :: k in content ==> k != INVALID_KEY && (k >= 0 || padded) && content[k].leaf < Range())
      && Holding(stash, tree, content) && WellPlaced(tree, Range(), bucketSize) && LeavesOk(stash, Range())
    }

    /** More blocks than the stash may keep after an eviction. */
    predicate Overfull()
      reads this
    {
      |Kept(stash, true)| > stashMax
    }

    /** The path of `leaf` has been emptied into the stash. */
    ghost predicate Drained(leaf: nat)
      reads this
    {
      forall i :: 0 <= i < |tree| && OnPath(Range(), leaf, i) ==> AllDummy(tree[i])
    }

    constructor (numData: int, bucketSize: nat, stashScale: nat, zero: V, ghost padded: bool)
      ensures this.padded == padded && this.zero == zero
      ensures Valid() && content == map[] && stash == [] && nodeAccesses == 0
      ensures level == (if CeilLog2(numData) > 1 then CeilLog2(numData) else 1)
    {
      var l := if CeilLog2(numData) > 1 then CeilLog2(numData) else 1;
      level := l;
      this.bucketSize, this.zero, this.padded := bucketSize, zero, padded;
      stashMax := stashScale * l;
      tree := seq(Pow2(l) - 1, _ => seq(bucketSize, _ => Slot(INVALID_KEY, INVALID_LEAF, zero)));
      stash, content, nodeAccesses := [], map[], 0;
      new;
      EmptyHolding(tree);
    }

    // ----- Loading -----

    /** Puts a new block into the first free slot from its leaf upwards, or else into the stash. A
        block with the invalid key leaves the slot free. */
    method PlaceOne(key: int, leaf: nat, value: V)
      requires Valid() && leaf < Range() && (key != INVALID_KEY ==> (key >= 0 || padded) && key !in content)
      modifies `tree, `stash, `content
      ensures Valid()
      ensures content == if key == INVALID_KEY then old(content) else old(content)[key := Block(key, leaf, value)]
    {
      hide Holding, WellPlaced, LeavesOk, Pow2, Ancestors;
      var x := Slot(key, leaf, value);
      assert Range() - 1 + leaf < |tree| by { LeafNodeInTree(level, leaf); }
      var node := Range() - 1 + leaf;
      while true
        invariant node in Ancestors(Range() - 1 + leaf) && node < |tree|
        invariant Valid() && content == old(content)
        decreases node
      {
        BucketSizes(node);
        for j := 0 to bucketSize
          invariant Valid() && content == old(content) && |tree[node]| == bucketSize && node < |tree|
        {
          if tree[node][j].key == INVALID_KEY {
            if x.Real() {
              PlaceNew(stash, tree, content, Range(), bucketSize, node, j, x);
              content := content[key := AsBlock(x)];
            } else {
              DummyInto(stash, tree, content, Range(), bucketSize, node, j, x);
            }
            tree := tree[node := tree[node][j := x]];
            return;
          }
        }
        if node == 0 { break; }
        AncestorsCompose(node, Range() - 1 + leaf);
        ParentIsAncestor(node);
        node := Parent(node);
      }
      AddToStash(key, leaf, value);
    }

    /** Loads `data` into a new ORAM, at the given leaves or at random ones, and pads the stash. */
    method Init(data: seq<(int, V)>, preset: map<int, nat>) returns (leaves: map<int, nat>)
      requires Valid() && content == map[] && forall k :: k in preset ==> preset[k] < Range()
      requires forall i :: 0 <= i < |data| ==> data[i].0 >= 0 || padded
      requires forall i, j :: 0 <= i < j < |data| ==> data[i].0 != data[j].0
      modifies this
      ensures Valid() && |stash| >= stashMax
      ensures forall k :: k in leaves <==> exists i :: 0 <= i < |data| && data[i].0 == k
      ensures forall k :: k in content <==> k in leaves && k != INVALID_KEY
      ensures forall i :: 0 <= i < |data| && data[i].0 in content ==>
                content[data[i].0] == Block(data[i].0, leaves[data[i].0], data[i].1)
      ensures forall k :: k in leaves && k in preset ==> leaves[k] == preset[k]
    {
      hide Valid, Pow2, LoadedFrom;
      leaves := map[];
      NothingLoaded(data, preset);
      for i := 0 to |data|
        invariant Valid() && LoadedFrom(content, leaves, data, i, preset)
      {
        var leaf := RandomLeaf();
        if data[i].0 in preset {
          leaf := preset[data[i].0];
        }
        NotLoadedYet(content, leaves, data, i, preset);
        LoadStep(content, leaves, data, i, preset, leaf);
        leaves := leaves[data[i].0 := leaf];
        PlaceOne(data[i].0, leaf, data[i].1);
      }
      LoadEnds(content, leaves, data, preset);
      PadStash();
    }

    method PadStash()
      requires Valid()
      modifies `stash
      ensures Valid() && Kept(stash, true) == Kept(old(stash), true)
      ensures |stash| == if old(|stash|) < stashMax then stashMax else old(|stash|)
    {
      hide WellPlaced, Pow2, RealBag, Stock, Kept;
      while |stash| < stashMax
        invariant Valid() && Kept(stash, true) == Kept(old(stash), true) && |stash| >= old(|stash|)
        invariant |stash| > old(|stash|) ==> |stash| <= stashMax
      {
        PaddedBag(stash, Dummy());
        KeptAppend(stash, [Dummy()], true);
        KeptOne(Dummy(), true);
        stash := stash + [Dummy()];
      }
    }

    // ----- Reading a path -----

    ghost function Start(leaf: nat): nat {
      Range() - 1 + leaf
    }

    /** `nodes` is the path of `leaf`, leaf first. */
    ghost predicate PathOf(nodes: seq<nat>, leaf: nat) {
      |nodes| == level && forall d :: 0 <= d < |nodes| ==> nodes[d] == Up(Start(leaf), d)
    }

    lemma PathInTree(leaf: nat)
      requires level > 0 && leaf < Range()
      ensures forall d :: 0 <= d < level ==> Up(Start(leaf), d) < Pow2(level) - 1
      ensures forall d, e :: 0 <= d < e < level ==> Up(Start(leaf), d) != Up(Start(leaf), e)
      ensures Up(Start(leaf), level - 1) == 0
      ensures forall i: nat :: OnPath(Range(), leaf, i) <==> i in UpSet(Start(leaf), level)
      ensures forall d :: 0 <= d < level ==> OnPath(Range(), leaf, Up(Start(leaf), d))
    {
      hide Pow2, Up;
      LeafNodeInTree(level, leaf);
      UpReachesRoot(level, Start(leaf));
      forall d | 0 <= d < level ensures Up(Start(leaf), d) in UpSet(Start(leaf), level) {
      }
    }

    /** Every slot of a bucket goes to the stash, real or not. */
    method DrainBucket(node: nat)
      requires Valid() && node < |tree|
      modifies `tree, `stash
      ensures Valid() && |stash| >= old(|stash|) && |tree| == old(|tree|)
      ensures AllDummy(tree[node]) && forall i :: 0 <= i < |tree| && i != node ==> tree[i] == old(tree[i])
    {
      hide Holding, WellPlaced, LeavesOk, Pow2;
      assert |tree[node]| == bucketSize by { BucketSizes(node); }
      for j := 0 to bucketSize
        invariant Valid() && |stash| >= old(|stash|) && |tree| == old(|tree|) && |tree[node]| == bucketSize
        invariant forall i :: 0 <= i < |tree| && i != node ==> tree[i] == old(tree[i])
        invariant forall e :: 0 <= e < j ==> !tree[node][e].Real()
      {
        DrainSlot(stash, tree, content, Range(), bucketSize, node, j, Dummy());
        stash := stash + [tree[node][j]];
        tree := tree[node := tree[node][j := Dummy()]];
      }
    }

    lemma BucketSizes(node: nat)
      requires Valid() && node < |tree|
      ensures |tree[node]| == bucketSize
    {
    }

    /** Reads a path: exactly one access to each of its `level` nodes. */
    method ReadPath(leaf: nat) returns (nodes: seq<nat>)
      requires Valid() && leaf < Range()
      modifies `tree, `stash, `nodeAccesses
      ensures Valid() && Drained(leaf) && PathOf(nodes, leaf) && |stash| >= old(|stash|)
      ensures nodeAccesses == old(nodeAccesses) + level
    {
      hide Holding, WellPlaced, LeavesOk, Pow2, OnPath, Up;
      PathInTree(leaf);
      assert Up(Start(leaf), 0) == Start(leaf) by { UpZero(Start(leaf)); }
      nodes := [];
      var node := Range() - 1 + leaf;
      var d := 0;
      while d < level
        invariant 0 <= d <= level && |nodes| == d && Valid() && |stash| >= old(|stash|)
        invariant d < level ==> node == Up(Start(leaf), d)
        invariant forall e :: 0 <= e < d ==> nodes[e] == Up(Start(leaf), e) && AllDummy(tree[nodes[e]])
        invariant nodeAccesses == old(nodeAccesses) + d
      {
        nodes := nodes + [node];
        nodeAccesses := nodeAccesses + 1;
        DrainBucket(node);
        d := d + 1;
        if node == 0 {
          ghost var e, last := d - 1, level - 1;
          assert Up(Start(leaf), e) == Up(Start(leaf), last) == 0;
          assert e == last;
          break;
        }
        UpStep(Start(leaf), d - 1);
        node := Parent(node);
      }
      forall i | 0 <= i < |tree| && OnPath(Range(), leaf, i) ensures AllDummy(tree[i]) {
        assert i in UpSet(Start(leaf), level);
        var e :| 0 <= e < level && i == Up(Start(leaf), e);
        assert nodes[e] == i;
      }
    }

    // ----- Evicting along a path -----

    /** Every slot of an empty bucket takes the first stashed block that may go there. */
    method FillBucket(node: nat)
      requires Valid() && node < |tree| && AllDummy(tree[node])
      modifies `tree, `stash
      ensures Valid() && Shrunk(old(stash), stash) && |tree| == old(|tree|)
      ensures forall i :: 0 <= i < |tree| && i != node ==> tree[i] == old(tree[i])
      ensures Exhausted(stash, tree[node], Range(), node)
    {
      hide Holding, WellPlaced, LeavesOk, Pow2, OnPath;
      BucketSizes(node);
      for j := 0 to bucketSize
        invariant Valid() && Shrunk(old(stash), stash) && |tree| == old(|tree|) && |tree[node]| == bucketSize
        invariant forall i :: 0 <= i < |tree| && i != node ==> tree[i] == old(tree[i])
        invariant forall e :: j <= e < bucketSize ==> !tree[node][e].Real()
        invariant (forall e :: 0 <= e < j ==> tree[node][e].Real()) || FirstCandidate(stash, Range(), node, |stash|)
      {
        ghost var at, was := 0, stash;
        var stash', slot';
        stash', slot', at := TakeCandidate(stash, tree[node][j], level, node);
        if at < |stash| {
          FillMove(stash, tree, content, Range(), bucketSize, node, j, at);
          StillNone(was, stash', Range(), node, at);
        } else {
          assert tree[node][j := slot'] == tree[node];
          assert tree[node := tree[node]] == tree;
        }
        stash := stash';
        tree := tree[node := tree[node][j := slot']];
      }
    }

    /** Writes a drained path back, compacts the stash, and cuts it to its usual size. No block is
        lost even on overflow; afterwards no stashed block fits on the path any more. */
    method EvictPath(nodes: seq<nat>, ghost leaf: nat) returns (ok: bool)
      requires Valid() && leaf < Range() && Drained(leaf) && PathOf(nodes, leaf)
      modifies `tree, `stash, `nodeAccesses
      ensures Valid() && nodeAccesses == old(nodeAccesses) + level
      ensures forall d :: 0 <= d < level ==> nodes[d] < |tree|
      ensures forall d :: 0 <= d < level ==> Exhausted(stash, tree[nodes[d]], Range(), nodes[d])
      ensures ok <==> !Overfull()
      ensures ok ==> |stash| == stashMax
    {
      hide Holding, WellPlaced, LeavesOk, Pow2, OnPath, Kept, Exhausted;
      PathInTree(leaf);
      for pi := 0 to |nodes|
        invariant Valid() && nodeAccesses == old(nodeAccesses) + pi && |tree| == old(|tree|)
        invariant forall d :: pi <= d < level ==> AllDummy(tree[nodes[d]])
        invariant forall d :: 0 <= d < pi ==> Exhausted(stash, tree[nodes[d]], Range(), nodes[d])
      {
        var node := nodes[pi];
        nodeAccesses := nodeAccesses + 1;
        ghost var was := stash;
        FillBucket(node);
        forall d | 0 <= d < pi ensures Exhausted(stash, tree[nodes[d]], Range(), nodes[d]) {
          ShrunkExhausted(was, stash, tree[nodes[d]], Range(), nodes[d]);
        }
      }
      ok := Tidy();
    }

    /** Moves the real slots to the front and drops or adds dummies. */
    method Tidy() returns (ok: bool)
      requires Valid()
      modifies `stash
      ensures Valid() && Kept(stash, true) == Kept(old(stash), true)
      ensures forall bucket, node: nat :: Exhausted(old(stash), bucket, Range(), node) ==> Exhausted(stash, bucket, Range(), node)
      ensures ok <==> !Overfull()
      ensures ok ==> |stash| == stashMax
    {
      hide WellPlaced, LeavesOk, Pow2, OnPath, Kept, Exhausted, RealBag, Stock;
      ghost var was := stash;
      var compacted := Compact(stash);
      CompactFacts(stash, compacted);
      var valid := CountReal(compacted);
      var size := if valid > stashMax then valid else stashMax;
      if size <= |compacted| {
        CutKeepsReal(compacted, size);
        stash := compacted[..size];
      } else {
        stash := compacted;
      }
      RealBagKept(was);
      RealBagKept(stash);
      KeptLeaves(was, stash, Range());
      PadStash();
      forall bucket, node: nat | Exhausted(was, bucket, Range(), node) ensures Exhausted(stash, bucket, Range(), node) {
        KeptExhausted(was, stash, bucket, Range(), node);
      }
      ok := valid <= stashMax;
    }

    // ----- Accesses -----

    method RandomLeaf() returns (leaf: nat)
      ensures leaf < Range()
    {
      leaf :| 0 <= leaf < Range();
    }

    /** Reads, optionally rewrites and moves the block of `key`, or makes the same accesses for
        nothing. Either way exactly 2 * level nodes are touched. */
    method AccessOrDummy(key: int, oldLeaf: nat, newLeaf: nat, wanted: bool, newValue: Option<V>) returns (r: Result<V>)
      requires Valid() && (wanted ==> key != INVALID_KEY && oldLeaf < Range() && newLeaf < Range())
      requires wanted && key in content ==> content[key].leaf == oldLeaf
      modifies this
      ensures Valid() && nodeAccesses == 2 * level
      ensures r.Ok? ==> r.value == if wanted && key in old(content) then old(content)[key].value else zero
      ensures content == if wanted && key in old(content)
                         then old(content)[key := Block(key, newLeaf, if newValue.Some? then newValue.value
                                                                      else old(content)[key].value)]
                         else old(content)
      ensures r.Ok? ==> |stash| == stashMax
      ensures r.Err? ==> r.error == StashOverflow && Overfull()
    {
      hide Holding, WellPlaced, LeavesOk, Pow2, OnPath, Kept, Exhausted, Up, UpSet;
      nodeAccesses := 0;
      var dummyLeaf := RandomLeaf();
      var useLeaf := if wanted then oldLeaf else dummyLeaf;
      var nodes := ReadPath(useLeaf);
      ghost var at := WhereStashed(key, wanted, useLeaf);
      ghost var was := stash;
      var result;
      stash, result := Rewrite(stash, key, wanted, newLeaf, newValue, zero, at);
      if at < |was| {
        var value := if newValue.Some? then newValue.value else was[at].value;
        HoldingRewrite(was, tree, content, at, newLeaf, value);
        RewriteLeaves(was, at, Slot(key, newLeaf, value), Range());
        content := content[key := Block(key, newLeaf, value)];
      }
      var ok := EvictPath(nodes, useLeaf);
      r := if ok then Ok(result) else Err(StashOverflow);
    }

    /** Position of the wanted block in the stash after its path has been drained, or |stash|. */
    lemma WhereStashed(key: int, wanted: bool, leaf: nat) returns (at: nat)
      requires Valid() && Drained(leaf) && (wanted ==> key != INVALID_KEY)
      requires wanted && key in content ==> content[key].leaf == leaf
      ensures at <= |stash| && forall i :: 0 <= i < |stash| ==> (stash[i].key == key && wanted <==> i == at)
      ensures at < |stash| <==> wanted && key in content
      ensures at < |stash| ==> stash[at].Real() && stash[at].value == content[key].value
    {
      hide Holding, WellPlaced, LeavesOk, OnPath;
      at := |stash|;
      if wanted && key in content {
        at := DrainedIsStashed(stash, tree, content, Range(), bucketSize, leaf, key);
        StashedIsContent(stash, tree, content, at);
        KeyedAt(content, key);
      }
      forall i | 0 <= i < |stash| ensures stash[i].key == key && wanted <==> i == at {
        if stash[i].key == key && wanted {
          StashedIsContent(stash, tree, content, i);
        }
      }
    }

    lemma KeyedAt(c: map<int, Block<V>>, key: int)
      requires Holding(stash, tree, c) && key in c
      ensures c[key].key == key
    {
    }

    method DummyAccess() returns (r: Result<()>)
      requires Valid()
      modifies this
      ensures Valid() && content == old(content) && nodeAccesses == 2 * level
      ensures r.Err? ==> r.error == StashOverflow && Overfull()
    {
      var leaf := RandomLeaf();
      var discard := AccessOrDummy(INVALID_KEY, leaf, leaf, false, None);
      r := if discard.Ok? then Ok(()) else Err(StashOverflow);
    }

    // ----- The steps of a longer operation -----

    /** Takes the block of `key` out of the stash; a dummy slot comes back if it is not there. */
    method ExtractFromStash(key: int) returns (r: Slot<V>)
      requires Valid()
      modifies `stash, `content
      ensures Valid() && |stash| == old(|stash|)
      ensures r.Real() ==>
                && r.leaf >= 0 && r.key == key && key in old(content) && AsBlock(r) == old(content)[key]
                && content == old(content) - {key}
      ensures !r.Real() ==> content == old(content) && stash == old(stash)
      ensures r.Real() <==> exists i :: 0 <= i < old(|stash|) && old(stash)[i].Real() && old(stash)[i].key == key
    {
      hide Holding, WellPlaced, LeavesOk, Pow2;
      r := Dummy();
      ghost var was := stash;
      for i := 0 to |stash|
        invariant content == old(content) && |stash| == |was|
        invariant !r.Real() ==> stash == was && forall j :: 0 <= j < i ==> !(was[j].Real() && was[j].key == key)
        invariant r.Real() ==> exists at: nat :: at < i && was[at].Real() && was[at].key == key && r == was[at]
                                                 && stash == was[at := Cleared(was[at])]
      {
        var match_ := stash[i].key == key && stash[i].Real();
        if r.Real() {
          ghost var at: nat :| at < i && was[at].Real() && was[at].key == key && r == was[at]
              && stash == was[at := Cleared(was[at])];
          StashedIsContent(was, tree, content, at);
        }
        r := if match_ then stash[i] else r;
        stash := stash[i := if match_ then Cleared(stash[i]) else stash[i]];
      }
      if r.Real() {
        ghost var at: nat :| at < |was| && was[at].Real() && was[at].key == key && r == was[at]
            && stash == was[at := Cleared(was[at])];
        StashedIsContent(was, tree, content, at);
        HoldingExtract(was, tree, content, at);
        SlotLeaf(was, Range(), at);
        RewriteLeaves(was, at, Cleared(was[at]), Range());
        content := content - {key};
      }
    }

    /** Puts a block, or with the invalid key a dummy, into the stash. */
    method AddToStash(key: int, leaf: int, value: V)
      requires Valid() && (key != INVALID_KEY ==> (key >= 0 || padded) && key !in content && 0 <= leaf < Range())
      modifies `stash, `content
      ensures Valid() && |stash| == old(|stash|) + 1
      ensures content == if key == INVALID_KEY then old(content) else old(content)[key := Block(key, leaf, value)]
    {
      hide Holding, WellPlaced, LeavesOk, Pow2;
      var x := Slot(key, leaf, value);
      AddedLeaves(stash, x, Range());
      if key == INVALID_KEY {
        HoldingDummy(stash, tree, content, x);
        stash := stash + [x];
      } else {
        HoldingAdd(stash, tree, content, x);
        stash := stash + [x];
        content := content[key := AsBlock(x)];
      }
    }

    /** The path of `leaf`, leaf first. */
    method PathNodesOf(leaf: nat) returns (nodes: seq<nat>)
      requires level > 0 && leaf < Range()
      ensures PathOf(nodes, leaf)
    {
      hide Pow2, OnPath, Up, UpSet;
      PathInTree(leaf);
      assert Up(Start(leaf), 0) == Start(leaf) by { UpZero(Start(leaf)); }
      nodes := [];
      var node := Range() - 1 + leaf;
      var d := 0;
      while d < level
        invariant 0 <= d <= level && |nodes| == d
        invariant d < level ==> node == Up(Start(leaf), d)
        invariant forall e :: 0 <= e < d ==> nodes[e] == Up(Start(leaf), e)
      {
        nodes := nodes + [node];
        d := d + 1;
        if node == 0 {
          ghost var e, last := d - 1, level - 1;
          assert Up(Start(leaf), e) == Up(Start(leaf), last) == 0;
          assert e == last;
          break;
        }
        UpStep(Start(leaf), d - 1);
        node := Parent(node);
      }
    }

    /** Evicts along the path that was read last. */
    method EvictOnePath(leaf: nat) returns (ok: bool)
      requires Valid() && leaf < Range() && Drained(leaf)
      modifies `tree, `stash, `nodeAccesses
      ensures Valid() && nodeAccesses == old(nodeAccesses) + level
      ensures forall i :: 0 <= i < |tree| && OnPath(Range(), leaf, i) ==> Exhausted(stash, tree[i], Range(), i)
      ensures ok <==> !Overfull()
      ensures ok ==> |stash| == stashMax
    {
      hide Holding, WellPlaced, LeavesOk, Pow2, OnPath, Kept, Exhausted, Up, UpSet;
      var nodes := PathNodesOf(leaf);
      ok := EvictPath(nodes, leaf);
      forall i | 0 <= i < |tree| && OnPath(Range(), leaf, i) ensures Exhausted(stash, tree[i], Range(), i) {
        var d := StepTo(leaf, i);
        assert nodes[d] == i;
      }
    }

    /** How many steps towards the root lead to the node `i` of the path. */
    lemma StepTo(leaf: nat, i: nat) returns (d: nat)
      requires level > 0 && leaf < Range() && OnPath(Range(), leaf, i)
      ensures d < level && i == Up(Start(leaf), d)
    {
      hide Pow2, OnPath, Up;
      PathInTree(leaf);
      d :| d < level && i == Up(Start(leaf), d);
    }
  }

  /** The first `n` entries of `data` are in blocks at `leaves`. */
  ghost predicate LoadedFrom<V>(c: map<int, Block<V>>, leaves: map<int, nat>, data: seq<(int, V)>, n: nat, preset: map<int, nat>)
    requires n <= |data|
  {
    && (forall k :: k in leaves <==> exists j :: 0 <= j < n && data[j].0 == k)
    && (forall k :: k in c <==> k in leaves && k != INVALID_KEY)
    && (forall j :: 0 <= j < n && data[j].0 in c ==> c[data[j].0] == Block(data[j].0, leaves[data[j].0], data[j].1))
    && (forall k :: k in leaves && k in preset ==> leaves[k] == preset[k])
  }

  lemma NothingLoaded<V>(data: seq<(int, V)>, preset: map<int, nat>)
    ensures LoadedFrom<V>(map[], map[], data, 0, preset)
  {
    var c: map<int, nat> := map[];
    assert forall k :: k !in c;
  }

  lemma NotLoadedYet<V>(c: map<int, Block<V>>, leaves: map<int, nat>, data: seq<(int, V)>, n: nat, preset: map<int, nat>)
    requires n < |data| && LoadedFrom(c, leaves, data, n, preset)
    requires forall i, j :: 0 <= i < j < |data| ==> data[i].0 != data[j].0
    ensures data[n].0 !in leaves && data[n].0 !in c
  {
    var k := data[n].0;
    assert !exists j :: 0 <= j < n && data[j].0 == k;
  }

  lemma LoadStep<V>(c: map<int, Block<V>>, leaves: map<int, nat>, data: seq<(int, V)>, n: nat, preset: map<int, nat>, leaf: nat)
    requires n < |data| && LoadedFrom(c, leaves, data, n, preset) && data[n].0 !in leaves
    requires data[n].0 in preset ==> leaf == preset[data[n].0]
    ensures LoadedFrom(if data[n].0 == INVALID_KEY then c else c[data[n].0 := Block(data[n].0, leaf, data[n].1)],
                       leaves[data[n].0 := leaf], data, n + 1, preset)
  {
    var k, leaves' := data[n].0, leaves[data[n].0 := leaf];
    forall x ensures x in leaves' <==> exists j :: 0 <= j < n + 1 && data[j].0 == x {
      if x in leaves {
        var j :| 0 <= j < n && data[j].0 == x;
      }
      if x == k { assert data[n].0 == x; }
    }
    forall j | 0 <= j < n ensures data[j].0 in leaves {
    }
  }

  lemma LoadEnds<V>(c: map<int, Block<V>>, leaves: map<int, nat>, data: seq<(int, V)>, preset: map<int, nat>)
    requires LoadedFrom(c, leaves, data, |data|, preset)
    ensures forall k :: k in leaves <==> exists i :: 0 <= i < |data| && data[i].0 == k
    ensures forall k :: k in c <==> k in leaves && k != INVALID_KEY
    ensures forall i :: 0 <= i < |data| && data[i].0 in c ==> c[data[i].0] == Block(data[i].0, leaves[data[i].0], data[i].1)
    ensures forall k :: k in leaves && k in preset ==> leaves[k] == preset[k]
  {
  }

  lemma RewriteLeaves<V>(s: Slots<V>, at: nat, x: Slot<V>, range: nat)
    requires LeavesOk(s, range) && at < |s| && (x.Real() ==> 0 <= x.leaf < range)
    ensures LeavesOk(s[at := x], range)
  {
  }

  lemma SlotLeaf<V>(s: Slots<V>, range: nat, at: nat)
    requires LeavesOk(s, range) && at < |s| && s[at].Real()
    ensures 0 <= s[at].leaf < range
  {
  }

  lemma AddedLeaves<V>(s: Slots<V>, x: Slot<V>, range: nat)
    requires LeavesOk(s, range) && (x.Real() ==> 0 <= x.leaf < range)
    ensures LeavesOk(s + [x], range)
  {
  }

  lemma ParentIsAncestor(node: nat)
    requires node > 0
    ensures Parent(node) in Ancestors(node)
  {
  }

  lemma UpZero(node: nat)
    ensures Up(node, 0) == node
  {
  }

  /** Taking out a block of `node` does not create candidates for it. */
  lemma StillNone<V>(was: Slots<V>, now: Slots<V>, range: nat, node: nat, at: nat)
    requires range > 0 && at < |was| && now == was[at := Cleared(was[at])]
    ensures FirstCandidate(was, range, node, |was|) ==> FirstCandidate(now, range, node, |now|)
  {
  }

  lemma CompactFacts<V>(s: Slots<V>, r: Slots<V>)
    requires r == Kept(s, true) + Kept(s, false)
    ensures Kept(r, true) == Kept(s, true) && Kept(r, false) == Kept(s, false) && |r| == |s|
    ensures |Kept(r, true)| <= |r|
  {
    KeptAppend(Kept(s, true), Kept(s, false), true);
    KeptAppend(Kept(s, true), Kept(s, false), false);
    AllKept(Kept(s, true), true);
    AllKept(Kept(s, false), false);
    KeptSizes(s);
  }

  lemma {:induction false} KeptSizes<V>(s: Slots<V>)
    ensures |Kept(s, true)| + |Kept(s, false)| == |s|
  {
    if s != [] {
      KeptSizes(s[..|s| - 1]);
    }
  }

  lemma EmptyHolding<V>(tree: seq<Slots<V>>)
    requires forall i :: 0 <= i < |tree| ==> AllDummy(tree[i])
    ensures Holding([], tree, map[])
  {
    EmptyStock(tree, |tree|);
  }

  lemma {:induction false} EmptyStock<V>(tree: seq<Slots<V>>, n: nat)
    requires n <= |tree| && forall i :: 0 <= i < |tree| ==> AllDummy(tree[i])
    ensures Stock(tree, n) == multiset{}
  {
    if n > 0 {
      EmptyStock(tree, n - 1);
      DummyBag(tree[n - 1]);
    }
  }
}
