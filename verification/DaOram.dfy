/** Counter-based ORAM with a recursive position map and de-amortised resets (da_oram). Layer 0
    holds the data; layer i + 1 holds the counter blocks that place layer i; the counter blocks
    that place the last layer are kept by the client. */
module DaOrams {
  import opened Common
  import opened Geometry
  import opened StashTrees
  import opened Counters
  import opened DaLedgers
  import PathOrams

  /** Uses slot `offset` once; `cur` is where its block is, `next` where it must go. */
  method UpdateCounterIn(prf: Prf, cb: CounterBlock, offset: nat, managedKey: int, range: nat, icMax: int, ghost n: nat)
    returns (r: CounterBlock, cur: nat, next: nat)
    requires cb.Shaped(n) && offset < n
    ensures r == Updated(cb, offset, icMax)
    ensures cur == LeafOf(prf, managedKey, cb, offset, range) && next == LeafOf(prf, managedKey, r, offset, range)
  {
    var gc, curIc := cb.gc, cb.ic[offset];
    var nextGc, nextIc;
    r := cb;
    if cb.backup[offset] {
      nextIc, nextGc := 0, gc;
      gc := (gc - 1) % GC_MOD;
      r := r.(backup := r.backup[offset := false]);
    } else if curIc + 1 >= icMax {
      nextIc, nextGc := 0, (gc + 1) % GC_MOD;
      r := r.(gc := nextGc);
      for i := 0 to |r.ic|
        invariant r.ic == cb.ic && r.gc == nextGc && |r.backup| == |cb.backup|
        invariant forall j :: 0 <= j < |cb.backup| ==> r.backup[j] == if j < i && j != offset then true else cb.backup[j]
      {
        if i != offset {
          r := r.(backup := r.backup[i := true]);
        }
      }
    } else {
      nextIc, nextGc := (curIc + 1) % IC_MOD, gc;
    }
    r := r.(ic := r.ic[offset := nextIc]);
    assert r.backup == Updated(cb, offset, icMax).backup;
    cur := PrfLeaf(prf, managedKey, gc, curIc, range);
    next := PrfLeaf(prf, managedKey, nextGc, nextIc, range);
  }

  /** Catches up the first late slot that manages a block. */
  method PerformResetIn(prf: Prf, cb: CounterBlock, baseKey: nat, numManaged: nat, range: nat, ghost m: nat, ghost n: nat)
    returns (r: CounterBlock, resetKey: int, cur: nat, next: int)
    requires cb.Shaped(n) && m <= n && range > 0
    requires m == if numManaged <= baseKey then 0 else if numManaged - baseKey >= n then n else numManaged - baseKey
    ensures r == CaughtUp(cb, m)
    ensures var i := FirstLate(cb.backup, m);
            if i < m then
              && resetKey == baseKey + i
              && cur == LeafOf(prf, resetKey, cb, i, range) && next == LeafOf(prf, resetKey, r, i, range)
            else resetKey == -1 && cur < range && next == -1
  {
    r := cb;
    for i := 0 to |cb.ic|
      invariant r == cb && forall j :: 0 <= j < i && j < m ==> !cb.backup[j]
    {
      if cb.backup[i] {
        var managedKey := baseKey + i;
        if managedKey < numManaged {
          FirstLateIs(cb.backup, m, i);
          cur := PrfLeaf(prf, managedKey, (cb.gc - 1) % GC_MOD, cb.ic[i], range);
          next := PrfLeaf(prf, managedKey, cb.gc, 0, range);
          r := r.(ic := r.ic[i := 0], backup := r.backup[i := false]);
          return r, managedKey, cur, next;
        }
      }
    }
    resetKey, next := -1, -1;
    cur :| 0 <= cur < range;
  }

  /** One step of the group of `target`. */
  method StepGroup(prf: Prf, cb: CounterBlock, target: nat, total: nat, range: nat, n: nat, icMax: int)
    returns (r: CounterBlock, mv: Move)
    requires n > 0 && cb.Shaped(n) && target < total && range > 0
    ensures r == Stepped(cb, Slot(target, n), Managed(Group(target, n), total, n), icMax)
    ensures mv.target == target && GroupMove(mv, prf, cb, n, total, range, icMax)
  {
    hide Updated, LeafOf, FirstLate;
    var g := Group(target, n);
    ghost var m := Managed(g, total, n);
    SteppedShape(cb, Slot(target, n), m, n, icMax);
    var u, cur, next := UpdateCounterIn(prf, cb, Slot(target, n), target, range, icMax, n);
    var resetKey, resetCur, resetNext;
    r, resetKey, resetCur, resetNext := PerformResetIn(prf, u, g * n, total, range, m, n);
    mv := Move(target, cur, next, resetKey, resetCur, resetNext);
  }

  /** Fetches both paths of `mv`. */
  method FetchTarget<T>(st: StashTree<T>, mv: Move, ghost l: Ledger, n: nat, ghost prf: Prf) returns (at: int)
    requires n > 0 && st.Quiet() && Tracks(st.content, l, n, st.Range(), prf)
    requires mv.cur < st.Range() && mv.resetCur < st.Range()
    requires Covered(l, mv.target, n) && mv.cur == Place(prf, l, mv.target, n, st.Range())
    requires mv.reset >= 0 ==> Covered(l, mv.reset, n) && mv.resetCur == Place(prf, l, mv.reset, n, st.Range())
    modifies st
    ensures st.Valid() && st.content == old(st.content) && st.pending == PathNodes(st.Range(), [mv.cur, mv.resetCur])
    ensures st.fetches == old(st.fetches) + 1
    ensures -1 <= at < |st.stash| && (at >= 0 <==> mv.target in st.content)
    ensures at >= 0 ==> st.stash[at].key == mv.target && st.stash[at] == st.content[mv.target]
    ensures mv.reset >= 0 && mv.reset in st.content ==> st.content[mv.reset] in st.stash
  {
    hide Holds, Placed, PathNodes, PathSum, Pow2, LeafOf;
    st.ReadPaths([mv.cur, mv.resetCur]);
    at := st.FindInStash(mv.target);
  }

  /** Gives the fetched target its new leaf and value and the late block its new leaf, and
      evicts. */
  method MoveBlocks<T>(st: StashTree<T>, at: nat, mv: Move, value: T) returns (ok: bool)
    requires st.Valid() && st.pending == PathNodes(st.Range(), [mv.cur, mv.resetCur])
    requires at < |st.stash| && st.stash[at].key == mv.target
    requires mv.next < st.Range() && mv.reset != mv.target
    requires mv.reset >= 0 ==> 0 <= mv.resetNext < st.Range()
    requires mv.reset >= 0 && mv.reset in st.content ==> st.content[mv.reset] in st.stash
    modifies st
    ensures st.fetches == old(st.fetches)
    ensures !ok ==> st.Overfull()
    ensures ok ==> st.Quiet() && st.content == Relocated(old(st.content), mv, value)
  {
    hide Holds, Placed, PathNodes, PathSum, Pow2, Maximal, SameOutside;
    ghost var c := st.content;
    ghost var held := st.stash;
    st.UpdateInStash(at, mv.next, value);
    if mv.reset >= 0 {
      if mv.reset in c {
        var j :| 0 <= j < |held| && held[j] == c[mv.reset];
        assert st.stash[j] == c[mv.reset];
      }
      var late := st.FindInStash(mv.reset);
      if late >= 0 {
        st.UpdateInStash(late, mv.resetNext, st.stash[late].value);
      }
    }
    ok := st.EvictStash([mv.cur, mv.resetCur]);
  }

  lemma GroupsLess(total: nat, n: nat)
    requires n > 0
    ensures Groups(total, n) <= total
    ensures n >= 2 && total >= 2 ==> Groups(total, n) < total
  {
    GroupParts(total + n - 1, n);
    var g := Groups(total, n);
    if g > total {
      MulLess(total, g, n);
      if total > 0 { MulAtLeast(n, total); }
      assert false;
    }
    if n >= 2 && total >= 2 && g == total {
      MulBoth(total, n);
      assert false;
    }
  }

  lemma MulBoth(a: nat, b: nat)
    requires a >= 2 && b >= 2
    ensures a * b >= a + b
  {
    assert (a - 1) * (b - 1) >= 1;
  }

  function SizeAt(numData: nat, sizes: seq<nat>, i: nat): nat
    requires i <= |sizes|
  {
    if i == 0 then numData else sizes[i - 1]
  }

  /** Each layer of counter blocks groups the one below it. */
  ghost predicate Leveled(numData: nat, sizes: seq<nat>, n: nat)
    requires n > 0
  {
    forall i :: 0 <= i < |sizes| ==> sizes[i] == Groups(SizeAt(numData, sizes, i), n)
  }

  lemma LevelAdded(numData: nat, sizes: seq<nat>, n: nat, size: nat)
    requires n > 0 && Leveled(numData, sizes, n) && size == Groups(SizeAt(numData, sizes, |sizes|), n)
    ensures Leveled(numData, sizes + [size], n)
  {
    var r := sizes + [size];
    forall i | 0 <= i < |r| ensures r[i] == Groups(SizeAt(numData, r, i), n) {
      assert i < |sizes| ==> r[i] == sizes[i] && SizeAt(numData, r, i) == SizeAt(numData, sizes, i);
    }
  }

  /** Adding layers comes to an end: groups of one never get fewer, and one group stays one. */
  predicate Fits(numData: nat, n: nat, onChipMem: nat) {
    numData == 0 || numData <= onChipMem || (n >= 2 && onChipMem >= 1)
  }

  lemma {:induction false} NeverFits(numData: nat, n: nat, onChipMem: nat, sizes: seq<nat>)
    requires n > 0 && !Fits(numData, n, onChipMem) && Leveled(numData, sizes, n)
    ensures Groups(SizeAt(numData, sizes, |sizes|), n) > onChipMem
    ensures n == 1 ==> Groups(SizeAt(numData, sizes, |sizes|), n) == numData
  {
    hide Groups;
    if sizes == [] {
      SomeGroup(numData, n);
    } else {
      var i := |sizes| - 1;
      assert Leveled(numData, sizes[..i], n) by {
        forall j | 0 <= j < i ensures sizes[..i][j] == Groups(SizeAt(numData, sizes[..i], j), n) {
          assert SizeAt(numData, sizes[..i], j) == SizeAt(numData, sizes, j);
        }
      }
      NeverFits(numData, n, onChipMem, sizes[..i]);
      SomeGroup(sizes[i], n);
    }
  }

  lemma SomeGroup(total: nat, n: nat)
    requires n > 0
    ensures total > 0 ==> Groups(total, n) > 0
    ensures n == 1 ==> Groups(total, n) == total
  {
  }

  /** Sizes of the layers of counter blocks: as many as needed for the last layer's groups to
      fit the client's memory, and no more. */
  method LevelSizes(numData: nat, n: nat, onChipMem: nat) returns (sizes: seq<nat>)
    requires n > 0 && Fits(numData, n, onChipMem)
    ensures Leveled(numData, sizes, n)
    ensures forall i :: 0 <= i < |sizes| ==> onChipMem < sizes[i] <= numData
    ensures Groups(SizeAt(numData, sizes, |sizes|), n) <= onChipMem
  {
    hide Groups, Leveled;
    sizes := [];
    assert Leveled(numData, [], n) by { NoLevels(numData, n); }
    var cur := numData;
    while true
      invariant cur == SizeAt(numData, sizes, |sizes|) && cur <= numData
      invariant Leveled(numData, sizes, n)
      invariant forall i :: 0 <= i < |sizes| ==> onChipMem < sizes[i] <= numData
      invariant Fits(cur, n, onChipMem)
      decreases cur
    {
      var groups := Groups(cur, n);
      GroupsLess(cur, n);
      if groups <= onChipMem { break; }
      LevelAdded(numData, sizes, n, groups);
      sizes := sizes + [groups];
      cur := groups;
    }
  }

  lemma NoLevels(numData: nat, n: nat)
    requires n > 0
    ensures Leveled(numData, [], n)
  {
  }

  /** A layer of counter blocks as it is first loaded. */
  ghost predicate Loaded(c: map<int, Block<CounterBlock>>, size: nat, n: nat, range: nat, prf: Prf) {
    && (forall k :: k in c <==> 0 <= k < size)
    && (forall k :: k in c ==> c[k].leaf == PrfLeaf(prf, k, 0, 0, range) && c[k].value == Fresh(n))
  }

  class DaOram<V> {
    const prf: Prf
    const numIc: nat
    const icMax: int
    const numData: nat
    const levelSizes: seq<nat>
    const posMaps: seq<StashTree<CounterBlock>>
    const store: StashTree<V>
    var onChip: seq<CounterBlock>

    /** Number of keys in layer `i`. */
    function Total(i: nat): nat
      requires i <= |levelSizes|
    {
      SizeAt(numData, levelSizes, i)
    }

    /** The sizes of the layers, and own counters spacious enough for every group. */
    ghost predicate Sized() {
      && numIc > 0 && |posMaps| == |levelSizes|
      && Leveled(numData, levelSizes, numIc)
      && (forall i :: 0 <= i <= |levelSizes| ==> Spacious(icMax, Smaller(numIc, Total(i))))
      && (forall i, j :: 0 <= i < j < |posMaps| ==> posMaps[i] != posMaps[j])
      && (forall i :: 0 <= i < |posMaps| ==> posMaps[i] as object != store as object)
    }

    /** The counter blocks that place layer `i`. */
    ghost function LedgerAt(i: nat): Ledger
      requires i <= |posMaps|
      reads if i < |posMaps| then {posMaps[i] as object} else {this}
    {
      if i == |posMaps| then OnChipLedger(onChip) else Values(posMaps[i].content)
    }

    ghost predicate CountersOk(i: nat)
      requires Sized() && i <= |posMaps|
      reads if i < |posMaps| then {posMaps[i] as object} else {this}
    {
      LedgerOk(LedgerAt(i), Total(i), numIc, icMax)
    }

    /** Every block of layer `i + 1` is where the layer above places it. */
    ghost predicate LayerOk(i: nat)
      requires Sized() && i < |posMaps|
      reads posMaps[i], if i + 1 < |posMaps| then {posMaps[i + 1] as object} else {this}
    {
      posMaps[i].Quiet() && Tracks(posMaps[i].content, LedgerAt(i + 1), numIc, posMaps[i].Range(), prf)
    }

    ghost predicate DataIn(c: map<int, Block<V>>) {
      forall k :: k in c ==> 0 <= k < numData
    }

    ghost predicate Valid()
      reads this, posMaps, store
    {
      && Sized()
      && (forall i :: 0 <= i <= |posMaps| ==> CountersOk(i))
      && (forall i :: 0 <= i < |posMaps| ==> LayerOk(i))
      && store.Quiet() && DataIn(store.content)
      && Tracks(store.content, LedgerAt(0), numIc, store.Range(), prf)
    }

    ghost function Contents(): map<int, V>
      reads store
    {
      Values(store.content)
    }

    /** The stash of some layer has overflowed. */
    ghost predicate Overfull()
      reads posMaps, store
    {
      store.Overfull() || exists i :: 0 <= i < |posMaps| && posMaps[i].Overfull()
    }

    /** All stores are at rest and the client has a counter block for every group of the top layer. */
    ghost predicate Built()
      reads this, posMaps, store
    {
      && Sized() && store.Quiet() && (forall i :: 0 <= i < |posMaps| ==> posMaps[i].Quiet())
    }

    constructor (numData: nat, bucketSize: nat, stashScale: nat, numIc: nat, icMax: int, onChipMem: nat, prf: Prf)
      requires numIc > 0 && Fits(numData, numIc, onChipMem) && Spacious(icMax, Smaller(numIc, numData))
      ensures Built() && this.numData == numData
      ensures |onChip| <= onChipMem
      ensures fresh(store) && fresh(posMaps)
    {
      hide Groups, Holds, Placed, Leveled, StashTree.Quiet;
      var sizes := LevelSizes(numData, numIc, onChipMem);
      var maps: seq<StashTree<CounterBlock>> := [];
      for i := 0 to |sizes|
        invariant |maps| == i && fresh(maps) && forall j :: 0 <= j < i ==> maps[j].Quiet()
        invariant forall j, k :: 0 <= j < k < i ==> maps[j] != maps[k]
      {
        var m := new StashTree<CounterBlock>.Empty(sizes[i], bucketSize, 7);
        maps := maps + [m];
      }
      store := new StashTree<V>.Empty(numData, bucketSize, stashScale);
      this.numData, this.numIc, this.icMax, this.prf := numData, numIc, icMax, prf;
      levelSizes, posMaps := sizes, maps;
      onChip := seq(Groups(SizeAt(numData, sizes, |sizes|), numIc), _ => Fresh(numIc));
    }

    /** Loads every layer of counter blocks with fresh counters. */
    method LoadLayers()
      requires Built()
      modifies posMaps
      ensures Built()
      ensures forall i :: 0 <= i < |posMaps| ==> Loaded(posMaps[i].content, levelSizes[i], numIc, posMaps[i].Range(), prf)
    {
      hide Holds, Placed, Pow2, Groups, PrfLeaf, Loaded, Leveled, StashTree.Quiet, StashTree.Range;
      for level := |posMaps| downto 0
        invariant Built()
        invariant forall i :: level <= i < |posMaps| ==>
                    Loaded(posMaps[i].content, levelSizes[i], numIc, posMaps[i].Range(), prf)
      {
        LoadLayer(posMaps[level], levelSizes[level], numIc, prf);
      }
    }

    /** Fresh counters everywhere, and `data` as the contents. */
    method Init(data: map<int, V>)
      requires Built() && forall k :: k in data ==> 0 <= k < numData
      modifies this, posMaps, store
      ensures Valid() && Contents() == data
    {
      hide Holds, Placed, Pow2, Groups, PrfLeaf, Loaded, Leveled, LedgerOk, Tracks, StashTree.Quiet, StashTree.Range;
      onChip := seq(Groups(Total(|posMaps|), numIc), _ => Fresh(numIc));
      LoadLayers();
      LoadData(store, data, prf);
      ContentsAre(store.content, data);
      forall i | 0 <= i <= |posMaps| ensures CountersOk(i) && forall g :: g in LedgerAt(i) ==> LedgerAt(i)[g] == Fresh(numIc) {
        LoadedLedger(i);
      }
      forall i | 0 <= i < |posMaps| ensures LayerOk(i) {
        LoadedTracks(posMaps[i].content, LedgerAt(i + 1), Total(i + 1), numIc, posMaps[i].Range(), icMax, prf);
      }
      FreshTracks(store.content, LedgerAt(0), Total(0), numIc, store.Range(), icMax, prf);
    }

    lemma LoadedLedger(i: nat)
      requires Sized() && i <= |posMaps|
      requires onChip == seq(Groups(Total(|posMaps|), numIc), _ => Fresh(numIc))
      requires i < |posMaps| ==> Loaded(posMaps[i].content, levelSizes[i], numIc, posMaps[i].Range(), prf)
      ensures CountersOk(i) && forall g :: g in LedgerAt(i) ==> LedgerAt(i)[g] == Fresh(numIc)
    {
      hide Groups, PrfLeaf, LedgerOk;
      FreshLedger(LedgerAt(i), Total(i), numIc, icMax);
    }

    /** Every data block is in the stash or in a bucket on the path to the leaf that its counters
        give, so reading that one path is enough. */
    lemma BlockIsWhereCountersSay(key: int)
      requires Valid() && key in store.content
      ensures key >= 0 && Covered(LedgerAt(0), key, numIc)
      ensures var leaf := Place(prf, LedgerAt(0), key, numIc, store.Range());
              || store.content[key] in store.stash
              || exists i :: 0 <= i < |store.tree| && OnPath(store.Range(), leaf, i) && store.content[key] in store.tree[i]
    {
      hide Place, Covered;
      store.BlockIsOnItsPath(key);
    }

    // ----- Access -----

    function RangeAt(i: nat): (r: nat)
      requires i <= |posMaps|
      ensures r > 0
    {
      if i == 0 then store.Range() else posMaps[i - 1].Range()
    }

    /** The key of layer `i` on the way to `key`. */
    function KeyAt(key: nat, i: nat): nat
      requires numIc > 0
    {
      if i == 0 then key else Group(KeyAt(key, i - 1), numIc)
    }

    lemma {:induction false} KeyAtInRange(key: nat, i: nat)
      requires Sized() && key < numData && i <= |posMaps|
      ensures KeyAt(key, i) < Total(i)
    {
      hide Group, Groups;
      if i > 0 {
        KeyAtInRange(key, i - 1);
        GroupInRange(KeyAt(key, i - 1), Total(i - 1), numIc);
      }
    }

    /** The counters have moved on from `l` as `mv` says, but the blocks of layer `i` have not. */
    ghost predicate InFlight(i: nat, l: Ledger, mv: Move)
      requires Sized() && i <= |posMaps|
      reads if i < |posMaps| then {posMaps[i] as object} else {this}
    {
      && MoveFor(mv, prf, l, LedgerAt(i), Total(i), numIc, RangeAt(i))
      && OthersStay(mv, prf, l, LedgerAt(i), Total(i), numIc, RangeAt(i))
    }

    /** Moves the blocks of one layer of counter blocks and steps the counters they hold. */
    method StepLevel(level: nat, mv: Move, nextKey: nat, ghost l: Ledger) returns (ok: bool, mv': Move)
      requires Sized() && level < |posMaps| && posMaps[level].Quiet() && CountersOk(level)
      requires Tracks(posMaps[level].content, l, numIc, posMaps[level].Range(), prf) && InFlight(level + 1, l, mv)
      requires nextKey < Total(level) && Group(nextKey, numIc) == mv.target
      modifies posMaps[level]
      ensures posMaps[level].fetches == old(posMaps[level].fetches) + 1
      ensures !ok ==> posMaps[level].Overfull()
      ensures ok ==> LayerOk(level) && CountersOk(level)
      ensures ok ==> InFlight(level, old(LedgerAt(level)), mv') && mv'.target == nextKey
    {
      hide Holds, Placed, Pow2, Group, Groups, Tracks, LeafOf, MoveFor, OthersStay, GroupMove, Relocated, Stepped, Managed,
           Bounded;
      ghost var c, below := posMaps[level].content, LedgerAt(level);
      var st := posMaps[level];
      MoveFacts(mv, l, LedgerAt(level + 1), Total(level + 1), RangeAt(level + 1));
      StoredKeysAre(level, nextKey);
      var at := FetchTarget(st, mv, l, numIc, prf);
      var cb := st.stash[at].value;
      var cb';
      cb', mv' := StepGroup(prf, cb, nextKey, Total(level), RangeAt(level), numIc, icMax);
      LedgerStep(mv', prf, below, Total(level), numIc, RangeAt(level), icMax);
      RelocatedTracks(c, mv, cb', prf, l, LedgerAt(level + 1), Total(level + 1), numIc, RangeAt(level + 1));
      RelocatedValues(c, mv, cb');
      ok := MoveBlocks(st, at, mv, cb');
    }

    lemma MoveFacts(mv: Move, l: Ledger, l': Ledger, total: nat, range: nat)
      requires numIc > 0 && range > 0 && MoveFor(mv, prf, l, l', total, numIc, range)
      ensures mv.cur < range && mv.next < range && mv.resetCur < range && mv.target < total
      ensures mv.reset != mv.target && mv.reset < total
      ensures Covered(l, mv.target, numIc) && mv.cur == Place(prf, l, mv.target, numIc, range)
      ensures mv.reset >= 0 ==> Covered(l, mv.reset, numIc) && mv.resetCur == Place(prf, l, mv.reset, numIc, range)
      ensures mv.reset >= 0 ==> 0 <= mv.resetNext < range
    {
    }

    /** Layer `level + 1` holds one counter block for each group of layer `level`. */
    lemma StoredKeysAre(level: nat, key: nat)
      requires Sized() && level < |posMaps| && CountersOk(level) && key < Total(level)
      ensures forall k :: k in posMaps[level].content <==> 0 <= k < Total(level + 1)
      ensures Covered(LedgerAt(level), key, numIc) && Group(key, numIc) in posMaps[level].content
      ensures LedgerAt(level)[Group(key, numIc)] == posMaps[level].content[Group(key, numIc)].value
      ensures LedgerAt(level)[Group(key, numIc)].Shaped(numIc)
      ensures Spacious(icMax, if numIc < Total(level) then numIc else Total(level))
    {
      hide Groups, Bounded;
      LedgerCovers(LedgerAt(level), Total(level), numIc, icMax, key);
      assert levelSizes[level] == Groups(Total(level), numIc);
      assert Spacious(icMax, Smaller(numIc, Total(level)));
      assert forall k :: k in LedgerAt(level) <==> k in posMaps[level].content;
    }

    /** The keys of the layers of counter blocks on the way to `key`, lowest layer first. */
    method PosKeys(key: nat) returns (keys: seq<nat>)
      requires numIc > 0
      ensures |keys| == |posMaps| && forall i :: 0 <= i < |keys| ==> keys[i] == KeyAt(key, i + 1)
    {
      keys := [];
      var cur := key;
      for i := 0 to |posMaps|
        invariant |keys| == i && cur == KeyAt(key, i)
        invariant forall j :: 0 <= j < i ==> keys[j] == KeyAt(key, j + 1)
      {
        cur := Group(cur, numIc);
        keys := keys + [cur];
      }
    }

    /** Steps the client's own counters, which place the top layer. */
    method StepOnChip(target: nat) returns (mv: Move)
      requires Sized() && CountersOk(|posMaps|) && target < Total(|posMaps|)
      modifies `onChip
      ensures CountersOk(|posMaps|)
      ensures InFlight(|posMaps|, old(LedgerAt(|posMaps|)), mv) && mv.target == target
    {
      hide Group, Groups, LeafOf, MoveFor, OthersStay, GroupMove, Stepped, Managed, Bounded;
      var top, g := |posMaps|, Group(target, numIc);
      ghost var l := LedgerAt(top);
      LedgerCovers(l, Total(top), numIc, icMax, target);
      assert Spacious(icMax, Smaller(numIc, Total(top)));
      var cb;
      cb, mv := StepGroup(prf, onChip[g], target, Total(top), RangeAt(top), numIc, icMax);
      LedgerStep(mv, prf, l, Total(top), numIc, RangeAt(top), icMax);
      onChip := onChip[g := cb];
      assert LedgerAt(top) == l[g := cb];
    }

    /** The layers of counter blocks from `level` up are in place and every counter is within its
        bound; the layer below them is in flight. */
    ghost predicate Reached(level: nat, l: Ledger, mv: Move)
      requires Sized() && level <= |posMaps|
      reads this, posMaps
    {
      && (forall j :: level <= j < |posMaps| ==> LayerOk(j))
      && (forall j :: 0 <= j <= |posMaps| ==> CountersOk(j))
      && InFlight(level, l, mv)
    }

    /** Goes down one layer. */
    method Descend(level: nat, mv: Move, nextKey: nat, ghost l: Ledger) returns (ok: bool, mv': Move)
      requires Sized() && level < |posMaps| && posMaps[level].Quiet() && Reached(level + 1, l, mv)
      requires Tracks(posMaps[level].content, l, numIc, posMaps[level].Range(), prf)
      requires nextKey < Total(level) && Group(nextKey, numIc) == mv.target
      modifies posMaps[level]
      ensures posMaps[level].fetches == old(posMaps[level].fetches) + 1
      ensures !ok ==> posMaps[level].Overfull()
      ensures ok ==> Reached(level, old(LedgerAt(level)), mv') && mv'.target == nextKey
    {
      hide Group, Groups, Tracks, Leveled, StashTree.Quiet, StashTree.Valid, LayerOk, CountersOk, InFlight, LedgerAt;
      ok, mv' := StepLevel(level, mv, nextKey, l);
    }

    /** Walks the position map from the client's counters down to the data layer. */
    method Traverse(key: nat) returns (ok: bool, mv: Move)
      requires Valid() && key < numData
      modifies `onChip, posMaps
      ensures !ok ==> exists i :: 0 <= i < |posMaps| && posMaps[i].Overfull()
      ensures ok ==> mv.target == key && Reached(0, old(LedgerAt(0)), mv)
      ensures ok ==> forall i :: 0 <= i < |posMaps| ==> posMaps[i].fetches == old(posMaps[i].fetches) + 1
    {
      hide Group, Groups, Tracks, Leveled, StashTree.Quiet, StashTree.Valid, LedgerAt, Reached, CountersOk, LayerOk,
           StashTree.Range, Spacious;
      var keys := PosKeys(key);
      mv := StartDown(if |keys| > 0 then keys[|keys| - 1] else key, key);
      for level := |posMaps| downto 0
        invariant forall j :: 0 <= j < level ==> unchanged(posMaps[j])
        invariant forall j :: level <= j < |posMaps| ==> posMaps[j].fetches == old(posMaps[j].fetches) + 1
        invariant Reached(level, old(LedgerAt(level)), mv) && mv.target == KeyAt(key, level)
        modifies posMaps
      {
        KeyAtInRange(key, level);
        LayerWas(level);
        ok, mv := Descend(level, mv, if level == 0 then key else keys[level - 1], old(LedgerAt(level + 1)));
        if !ok { return; }
      }
      ok := true;
    }

    /** Steps the client's counters for the top-layer key of `key`. */
    method StartDown(target: nat, ghost key: nat) returns (mv: Move)
      requires Valid() && key < numData && target == KeyAt(key, |posMaps|)
      modifies `onChip
      ensures Reached(|posMaps|, old(LedgerAt(|posMaps|)), mv) && mv.target == KeyAt(key, |posMaps|)
    {
      hide Group, Groups, Tracks, Leveled, StashTree.Quiet, StashTree.Valid, LayerOk, CountersOk, InFlight, LedgerAt;
      assert CountersOk(|posMaps|);
      KeyAtInRange(key, |posMaps|);
      mv := StepOnChip(target);
      forall j | 0 <= j <= |posMaps| ensures CountersOk(j) {
        assert old(CountersOk(j));
      }
    }

    twostate lemma LayerWas(level: nat)
      requires old(Valid()) && level < |posMaps| && unchanged(posMaps[level])
      ensures posMaps[level].Quiet()
      ensures Tracks(posMaps[level].content, old(LedgerAt(level + 1)), numIc, posMaps[level].Range(), prf)
    {
      hide Tracks, StashTree.Valid;
      assert old(LayerOk(level));
    }

    /** Reads key `key`, optionally overwrites it, and catches up one late block per layer. */
    method Access(key: nat, newValue: Option<V>) returns (r: Result<V>)
      requires Valid() && key < numData
      modifies this, posMaps, store
      ensures r.Ok? ==> Valid() && key in old(Contents()) && r.value == old(Contents())[key]
      ensures r.Ok? ==> Contents() == old(Contents())[key := if newValue.Some? then newValue.value else r.value]
      ensures r == Err(KeyNotFound) ==> key !in old(Contents())
      ensures r == Err(StashOverflow) ==> Overfull()
      ensures r.Ok? ==> store.fetches == old(store.fetches) + 1
      ensures r.Ok? ==> forall i :: 0 <= i < |posMaps| ==> posMaps[i].fetches == old(posMaps[i].fetches) + 1
    {
      hide Group, Groups, Tracks, LeafOf, MoveFor, OthersStay, Leveled, Relocated, Place, StashTree.Quiet, StashTree.Valid,
           LayerOk, CountersOk, LedgerAt, Covered;
      ghost var l, c := LedgerAt(0), store.content;
      var ok, mv := Traverse(key);
      if !ok { return Err(StashOverflow); }
      MoveFacts(mv, l, LedgerAt(0), Total(0), RangeAt(0));
      var at := FetchTarget(store, mv, l, numIc, prf);
      if at < 0 { return Err(KeyNotFound); }
      var result := store.stash[at].value;
      ok := MoveBlocks(store, at, mv, if newValue.Some? then newValue.value else result);
      if !ok { return Err(StashOverflow); }
      RelocatedTracks(c, mv, if newValue.Some? then newValue.value else result, prf, l, LedgerAt(0), numData, numIc, RangeAt(0));
      RelocatedValues(c, mv, if newValue.Some? then newValue.value else result);
      r := Ok(result);
    }

    /** Two random paths per layer; no logical effect. */
    method DummyAccess() returns (r: Result<()>)
      requires Valid()
      modifies posMaps, store
      ensures r.Ok? ==> Valid() && Contents() == old(Contents())
      ensures r.Ok? ==> store.fetches == old(store.fetches) + 1
      ensures r.Ok? ==> forall i :: 0 <= i < |posMaps| ==> posMaps[i].fetches == old(posMaps[i].fetches) + 1
      ensures r.Err? ==> r.error == StashOverflow && Overfull()
    {
      hide Tracks, LedgerOk, Leveled, Values, OnChipLedger, StashTree.Quiet, StashTree.Valid;
      forall j | 0 <= j < |posMaps| ensures posMaps[j].Quiet() {
        assert LayerOk(j);
      }
      for level := |posMaps| downto 0
        invariant forall j :: 0 <= j < level ==> unchanged(posMaps[j])
        invariant forall j :: 0 <= j < |posMaps| ==> posMaps[j].Quiet() && posMaps[j].content == old(posMaps[j].content)
        invariant forall j :: level <= j < |posMaps| ==> posMaps[j].fetches == old(posMaps[j].fetches) + 1
        modifies posMaps
      {
        var ok := TouchTwo(posMaps[level]);
        if !ok { return Err(StashOverflow); }
      }
      var ok := TouchTwo(store);
      if !ok { return Err(StashOverflow); }
      forall i | 0 <= i <= |posMaps| ensures CountersOk(i) && LedgerAt(i) == old(LedgerAt(i)) {
        assert old(CountersOk(i));
      }
      forall i | 0 <= i < |posMaps| ensures LayerOk(i) {
        assert old(LayerOk(i));
      }
      r := Ok(());
    }
  }

  /** Fetches two random paths and evicts along them. */
  method TouchTwo<T>(st: StashTree<T>) returns (ok: bool)
    requires st.Quiet()
    modifies st
    ensures st.fetches == old(st.fetches) + 1
    ensures !ok ==> st.Overfull()
    ensures ok ==> st.Quiet() && st.content == old(st.content)
  {
    hide Holds, Placed, PathNodes, PathSum, Pow2, Maximal, SameOutside;
    var l1 := st.RandomLeaf();
    var l2 := st.RandomLeaf();
    st.ReadPaths([l1, l2]);
    ok := st.EvictStash([l1, l2]);
  }

  method LoadLayer(st: StashTree<CounterBlock>, size: nat, n: nat, prf: Prf)
    requires st.Quiet()
    modifies st
    ensures st.Quiet() && Loaded(st.content, size, n, st.Range(), prf)
  {
    hide Holds, Placed, Pow2, PrfLeaf;
    var range := st.Range();
    var blocks := seq(size, k requires 0 <= k < size => Block(k, PrfLeaf(prf, k, 0, 0, range), Fresh(n)));
    st.LoadBlocks(blocks);
    forall k | 0 <= k < size ensures k in st.content {
      assert blocks[k].key == k;
    }
  }

  method LoadData<V>(st: StashTree<V>, data: map<int, V>, prf: Prf)
    requires st.Quiet()
    modifies st
    ensures st.Quiet() && forall k :: k in st.content <==> k in data
    ensures forall k :: k in data ==> st.content[k].value == data[k]
                                      && st.content[k].leaf == PrfLeaf(prf, k, 0, 0, st.Range())
  {
    hide Holds, Placed, Pow2, PrfLeaf;
    var range := st.Range();
    var leaves := map k | k in data :: PrfLeaf(prf, k, 0, 0, range);
    var blocks := PathOrams.MakeBlocks(data, leaves);
    st.LoadBlocks(blocks);
    forall k | k in data ensures k in st.content {
      var j :| 0 <= j < |blocks| && blocks[j].key == k;
    }
    forall k | k in st.content
      ensures k in data && st.content[k].value == data[k] && st.content[k].leaf == PrfLeaf(prf, k, 0, 0, range)
    {
      var j :| 0 <= j < |blocks| && blocks[j] == st.content[k];
    }
  }

  lemma ContentsAre<V>(c: map<int, Block<V>>, data: map<int, V>)
    requires forall k :: k in c <==> k in data
    requires forall k :: k in data ==> c[k].value == data[k]
    ensures Values(c) == data
  {
    var v := Values(c);
    assert forall k :: k in v <==> k in c;
    assert forall k :: k in v <==> k in data;
    assert v.Keys == data.Keys;
    forall k | k in v ensures v[k] == data[k] {
      assert k in data;
    }
  }

  lemma LoadedTracks(content: map<int, Block<CounterBlock>>, l: Ledger, total: nat, n: nat, range: nat, icMax: int, prf: Prf)
    requires n > 0 && range > 0 && LedgerOk(l, total, n, icMax) && forall g :: g in l ==> l[g] == Fresh(n)
    requires Loaded(content, total, n, range, prf)
    ensures Tracks(content, l, n, range, prf)
  {
    hide LedgerOk, Tracks, PrfLeaf;
    FreshTracks(content, l, total, n, range, icMax, prf);
  }

  function Smaller(a: nat, b: nat): nat {
    if a < b then a else b
  }
}
