/** The tiered map with dynamic maintenance (tiered_omap, sequential epoch path). Keys migrate
    between a hot and a cold index, a client cache and a pending slot; their data blocks stay. */
module TieredOmaps {
  import opened Common
  import opened StashTrees
  import opened AvlTrees
  import opened AvlInit
  import opened AvlOmaps
  import opened PathOrams
  import opened Maintenance
  import opened TieredParts
  import opened TieredData

  /** Result of serving a data block. */
  datatype Served<+V> = Served(value: Option<V>, fp: nat)

  /** Some cached key has a count below `fp`. */
  ghost predicate Cheaper(cache: seq<CacheEntry>, fp: nat) {
    exists i :: 0 <= i < |cache| && cache[i].fp < fp
  }

  /** The count of `key` that an access in `epoch` finds. */
  ghost function NextCount<V>(c: map<int, Stored<V>>, ids: Refs, key: int, epoch: nat): nat {
    if key in ids && ids[key] in c then UpdateMeta(c[ids[key]].meta, epoch).fp else 0
  }

  class TieredOmap<V> {
    const hot: AvlOmap<int>
    const cold: AvlOmap<int>
    const data: PathOram<Stored<V>>
    const maint: MaintenanceManager
    const cacheSize: nat

    var hotKeys: set<int>
    var physHot: set<int>
    var hotList: seq<int>
    var cacheKeys: set<int>
    var cacheRefs: Refs
    var pendingKey: int
    var pendingRef: Option<int>

    // Each key's data block, fixed when the map is loaded.
    ghost var ids: Refs
    // The keys of all accesses so far.
    ghost var log: seq<int>
    // The access count at which the current swap began.
    ghost var pendingSince: nat

    ghost predicate Separate() {
      && hot != cold && hot.oram != cold.oram
      && hot.oram as object != data.store as object && cold.oram as object != data.store as object
    }

    ghost predicate IndexOk(index: AvlOmap<int>)
      reads index, index.oram
    {
      index.Valid() && index.Foreign() == map[] && !index.odsMode
    }

    ghost predicate StoresOk()
      reads hot, hot.oram, cold, cold.oram, data, data.store
    {
      IndexOk(hot) && IndexOk(cold) && data.Valid()
    }

    /** The stash of one of the three ORAMs has overflowed. */
    ghost predicate Overfull()
      reads hot.oram, cold.oram, data.store
    {
      hot.oram.Overfull() || cold.oram.Overfull() || data.store.Overfull()
    }

    ghost function Books(): Client
      reads this, maint
    {
      Client(hotKeys, physHot, hotList, cacheKeys, cacheRefs, pendingKey, pendingRef, maint.cache, maint.swapState)
    }

    /** Each key's reference is in exactly one place, and the client knows where. */
    ghost predicate ClientOk()
      reads this, maint, hot, cold
    {
      && Consistent(Books(), ids, hot.Map(), cold.Map())
      && |hotKeys| <= hot.capacity && |ids| - |hotKeys| <= cold.capacity
    }

    /** No insertion has been due since the swap began. */
    ghost predicate SwapOk(upTo: int)
      reads this, maint
    {
      && maint.Valid()
      && (maint.swapState != Idle ==>
            && maint.obsEpoch > 0 && pendingSince <= maint.totalAccesses
            && forall t: nat :: pendingSince <= t <= upTo ==> t % maint.swapInterval != DuePhase(maint.swapState))
    }

    /** The phase at which a pending entry is inserted. */
    function DuePhase(state: SwapState): nat {
      if state == ColdPend then ColdInsertPhase(maint.swapInterval) else HotInsertPhase(maint.swapInterval)
    }

    ghost predicate Core(upTo: int)
      reads this, maint, hot, hot.oram, cold, cold.oram, data, data.store
    {
      && Separate() && StoresOk() && ClientOk() && SwapOk(upTo)
      && BlocksOk(ids, data.Contents())
    }

    ghost predicate Valid()
      reads this, maint, hot, hot.oram, cold, cold.oram, data, data.store
    {
      && Core(maint.totalAccesses)
      && MetasExact(ids, data.Contents(), log, maint.window) && |log| == maint.totalAccesses
    }

    ghost function Map(): map<int, V>
      reads this, data, data.store
    {
      View(ids, data.Contents())
    }

    constructor Blank(hotCapacity: nat, hotHeight: nat, coldCapacity: nat, coldHeight: nat, dataCapacity: nat,
                      bucketSize: nat, window: nat, swapInterval: nat, cacheSize: nat)
      requires hotCapacity < Fib(hotHeight + 3) - 1 && coldCapacity < Fib(coldHeight + 3) - 1
      requires window > 0 && swapInterval > 0
      ensures Empty() && ids == map[]
      ensures hot.capacity == hotCapacity && cold.capacity == coldCapacity && this.cacheSize == cacheSize
    {
      hide AvlOmap.Valid, AvlOmap.Map, AvlOmap.Foreign, PathOram.Valid, PathOram.Contents, Fib, StashTree.Valid, StashTree.Quiet,
           Consistent, BlocksOk;
      StartEmpty<V>();
      hot := new AvlOmap<int>(hotCapacity, hotHeight, bucketSize, false);
      cold := new AvlOmap<int>(coldCapacity, coldHeight, bucketSize, false);
      data := new PathOram<Stored<V>>(dataCapacity, bucketSize, 7);
      maint := new MaintenanceManager(window, swapInterval);
      this.cacheSize := cacheSize;
      hotKeys, physHot, hotList, cacheKeys, cacheRefs := {}, {}, [], {}, map[];
      pendingKey, pendingRef := INVALID_KEY, None;
      ids, log, pendingSince := map[], [], 0;
    }

    // ----- Loading -----

    ghost predicate Empty()
      reads this, maint, hot, hot.oram, cold, cold.oram, data, data.store
    {
      && Core(0) && maint.totalAccesses == 0 && log == []
      && maint.swapState == Idle && maint.cache == [] && pendingKey == INVALID_KEY && pendingRef == None
      && hot.oram.content == map[] && cold.oram.content == map[]
    }

    /** The data can be loaded: real, distinct keys, the hot ones among them, and room. */
    ghost predicate Loadable(allData: Entries<V>, hotSeq: seq<int>) {
      && Distinct(allData) && (forall i :: 0 <= i < |allData| ==> allData[i].0 >= 0)
      && (forall i, j :: 0 <= i < j < |hotSeq| ==> hotSeq[i] != hotSeq[j])
      && (forall k :: k in KeySet(hotSeq) ==> k in Assoc(allData))
      && |hotSeq| <= hot.capacity && |allData| - |hotSeq| <= cold.capacity
    }

    /** Loads `allData`: references to the hot keys go to the hot index, the others to the cold
        one; then the least hot keys fill the cache. */
    method Load(allData: Entries<V>, hotSeq: seq<int>) returns (ok: bool)
      requires Empty() && Loadable(allData, hotSeq)
      modifies this, maint, hot, hot.oram, cold, cold.oram, data, data.store
      ensures !ok ==> Overfull()
      ensures ok ==> Valid() && Distinct(allData) && Map() == Assoc(allData) && hotKeys == KeySet(hotSeq)
      ensures ok ==> |maint.cache| == if cacheSize < |hotSeq| then cacheSize else |hotSeq|
    {
      hide AvlOmap.Valid, AvlOmap.Map, AvlOmap.Foreign, PathOram.Valid, PathOram.Contents, Consistent, BlocksOk, MetasExact,
           Assoc, Numbered, KeySet, Distinct, Sorted, View, IndexOk, ClientOk, StoresOk;
      assert forall i, j :: 0 <= i < j < |hotSeq| ==> hotSeq[i] != hotSeq[j];
      hide Loadable;
      hotKeys, physHot := KeySet(hotSeq), KeySet(hotSeq);
      hotList := SortKeys(hotSeq);
      cacheKeys, cacheRefs := {}, map[];
      LoadStores(allData, hotSeq);
      ok := FillCache();
    }

    /** Fills the data blocks and both indexes. */
    method LoadStores(allData: Entries<V>, ghost hotSeq: seq<int>)
      requires Separate() && StoresOk() && maint.Valid() && Loadable(allData, hotSeq)
      requires hot.oram.content == map[] && cold.oram.content == map[]
      requires maint.swapState == Idle && maint.cache == [] && pendingKey == INVALID_KEY && pendingRef == None
      requires hotKeys == physHot == KeySet(hotSeq) && Sorted(hotList, hotKeys) && cacheKeys == {} && cacheRefs == map[]
      modifies `ids, hot, hot.oram, cold, cold.oram, data, data.store
      ensures Core(0) && Distinct(allData) && View(ids, data.Contents()) == Assoc(allData)
      ensures MetasExact(ids, data.Contents(), [], maint.window)
    {
      hide AvlOmap.Valid, AvlOmap.Map, AvlOmap.Foreign, PathOram.Valid, PathOram.Contents, Consistent, BlocksOk, MetasExact,
           Assoc, Numbered, KeySet, Distinct, Selects, Sorted, View, Within;
      var blocks, hotRefs, coldRefs := Distribute(allData, physHot);
      LoadedSizes(allData, hotSeq, hotRefs, coldRefs);
      LoadedKeys(allData, hotRefs, coldRefs, hotKeys);
      LoadedData(allData, blocks, maint.window);
      ids := Numbered(allData, |allData|);
      StartConsistent(ids, Assoc(hotRefs), Assoc(coldRefs), hotKeys, hotList);
      InitStores(blocks, hotRefs, coldRefs);
    }

    method InitStores(blocks: map<int, Stored<V>>, hotRefs: Entries<int>, coldRefs: Entries<int>)
      requires Separate() && StoresOk() && hot.oram.content == map[] && cold.oram.content == map[]
      requires Distinct(hotRefs) && (forall i :: 0 <= i < |hotRefs| ==> hotRefs[i].0 >= 0) && |hotRefs| <= hot.capacity
      requires Distinct(coldRefs) && (forall i :: 0 <= i < |coldRefs| ==> coldRefs[i].0 >= 0) && |coldRefs| <= cold.capacity
      modifies hot, hot.oram, cold, cold.oram, data, data.store
      ensures StoresOk() && data.Contents() == blocks
      ensures Distinct(hotRefs) && hot.Map() == Assoc(hotRefs) && Distinct(coldRefs) && cold.Map() == Assoc(coldRefs)
    {
      hide AvlOmap.Valid, AvlOmap.Map, AvlOmap.Foreign, PathOram.Valid, PathOram.Contents, Assoc, Distinct;
      data.Init(blocks);
      hot.Init(hotRefs);
      cold.Init(coldRefs);
    }

    /** Moves the first hot keys, up to the cache size, from the hot index to the cache. */
    method FillCache() returns (ok: bool)
      requires Core(0) && maint.swapState == Idle && maint.cache == []
      modifies `hotList, `physHot, `cacheKeys, `cacheRefs, maint`cache, hot, hot.oram
      ensures !ok ==> Overfull()
      ensures ok ==> Core(0)
      ensures ok ==> |maint.cache| == if cacheSize < |old(hotList)| then cacheSize else |old(hotList)|
    {
      hide AvlOmap.Valid, AvlOmap.Map, AvlOmap.Foreign, PathOram.Valid, PathOram.Contents, Consistent, BlocksOk, Sorted;
      var count := if cacheSize < |hotList| then cacheSize else |hotList|;
      var list, entries := hotList, [];
      for i := 0 to count
        invariant IndexOk(hot) && hotList == list && maint.cache == [] && |entries| == i
        invariant Consistent(Books().(hotList := list[i..], cache := entries), ids, hot.Map(), cold.Map())
      {
        ok, entries := Extract(list, i, entries);
        if !ok { return; }
      }
      hotList := hotList[count..];
      maint.cache := entries;
      assert Books() == Books().(hotList := list[count..], cache := entries);
      ok := true;
    }

    /** Moves the key at index `i` of the sorted hot keys from the hot index to the cache. */
    method Extract(list: seq<int>, i: nat, entries: seq<CacheEntry>) returns (ok: bool, entries': seq<CacheEntry>)
      requires i < |list| && Separate() && IndexOk(hot) && maint.swapState == Idle
      requires Consistent(Books().(hotList := list[i..], cache := entries), ids, hot.Map(), cold.Map())
      modifies `physHot, `cacheKeys, `cacheRefs, hot, hot.oram
      ensures !ok ==> Overfull()
      ensures ok ==> IndexOk(hot) && |entries'| == |entries| + 1
      ensures ok ==> Consistent(Books().(hotList := list[i + 1..], cache := entries'), ids, hot.Map(), cold.Map())
    {
      hide AvlOmap.Valid, AvlOmap.Map, AvlOmap.Foreign, Consistent, Sorted;
      ghost var was, index := Books().(hotList := list[i..], cache := entries), hot.Map();
      var k := list[i];
      ConsistentCache(was, ids, index, cold.Map());
      SortedTail(list[i..], physHot);
      assert list[i..][1..] == list[i + 1..];
      NotHeld(was, ids, index, cold.Map(), k);
      ExtractedConsistent(was, ids, index, cold.Map(), k, list[i + 1..]);
      entries' := entries + [CacheEntry(k, 0)];
      var ref := hot.Search(k, None);
      if ref.Err? { return false, entries'; }
      var removed := hot.Remove(k);
      if removed.Err? { return false, entries'; }
      physHot := physHot - {k};
      cacheKeys := cacheKeys + {k};
      cacheRefs := cacheRefs[k := ref.value.value];
      ok := true;
    }

    // ----- Serving an access -----

    /** Reads a data block, updates its access counts and writes it back; without a block, two
        random paths are accessed instead. */
    method ServeBlock(ref: Option<int>, newValue: Option<V>) returns (r: Result<Served<V>>)
      requires data.Valid() && (ref.Some? ==> ref.value in data.Contents())
      modifies data, data.store
      ensures r.Ok? ==> data.Valid()
      ensures r.Ok? && ref.None? ==> data.Contents() == old(data.Contents()) && r.value == Served(newValue, 0)
      ensures r.Ok? && ref.Some? ==>
                var w := Touched(old(data.Contents())[ref.value], newValue, maint.obsEpoch);
                data.Contents() == old(data.Contents())[ref.value := w] && r.value == Served(Some(w.value), w.meta.fp)
      ensures r.Err? ==> r.error == StashOverflow && Overfull()
    {
      hide PathOram.Valid, PathOram.Contents;
      if ref.None? {
        var first := data.DummyAccess();
        if first.Err? { return Err(StashOverflow); }
        var second := data.DummyAccess();
        if second.Err? { return Err(StashOverflow); }
        return Ok(Served(newValue, UpdateMeta(MISSING_META, maint.obsEpoch).fp));
      }
      var read := data.Access(ref.value, None);
      if read.Err? { return Err(StashOverflow); }
      ghost var c := data.Contents();
      var now := Touched(read.value, newValue, maint.obsEpoch);
      assert c.Keys == old(data.Contents()).Keys;
      var write := data.Access(ref.value, Some(now));
      if write.Err? { assert write.error.StashOverflow?; return Err(StashOverflow); }
      r := Ok(Served(Some(now.value), now.meta.fp));
    }

    /** One padded dummy operation on each index. */
    method DummyBoth() returns (ok: bool)
      requires IndexOk(hot) && IndexOk(cold) && Separate()
      modifies hot, hot.oram, cold, cold.oram
      ensures !ok ==> Overfull()
      ensures ok ==> IndexOk(hot) && IndexOk(cold) && hot.Map() == old(hot.Map()) && cold.Map() == old(cold.Map())
      ensures ok ==> hot.oram.fetches == old(hot.oram.fetches) + 3 * hot.maxHeight
      ensures ok ==> cold.oram.fetches == old(cold.oram.fetches) + 3 * cold.maxHeight
    {
      hide AvlOmap.Valid, AvlOmap.Map, AvlOmap.Foreign;
      var h := hot.DummyAccess();
      if h.Err? { return false; }
      var c := cold.DummyAccess();
      ok := c.Ok?;
    }

    /** Takes `key`, just removed from the cold index `before`, into the cache; the least popular
        cached key becomes pending. */
    method SwapIn(key: int, ref: int, fp: nat, ghost before: Refs)
      requires Consistent(Books(), ids, hot.Map(), before) && maint.Valid() && maint.swapState == Idle
      requires key in before && before[key] == ref && maint.obsEpoch > 0
      requires exists i :: 0 <= i < |maint.cache| && maint.cache[i].fp < fp
      modifies this, maint
      ensures Consistent(Books(), ids, hot.Map(), before - {key}) && SameBooks() && maint.Valid()
      ensures |hotKeys| == old(|hotKeys|) && |maint.cache| == old(|maint.cache|)
      ensures maint.swapState == ColdPend && pendingKey in old(cacheKeys) && pendingKey != key && key in cacheKeys
      ensures pendingSince == maint.totalAccesses
    {
      hide AvlOmap.Map, Consistent, FirstExtreme, Admitted, CacheOf;
      ghost var was := Books();
      var evicted;
      ghost var at;
      evicted, at := maint.CacheAdmit(key, fp, false);
      CacheHasRef(was, ids, hot.Map(), before, at);
      PromotedConsistent(was, ids, hot.Map(), before, key, fp, at);
      SwapSize(hotKeys, key, evicted.key);
      ConsistentCache(was, ids, hot.Map(), before);
      Exchange(key, ref, evicted.key);
      hotKeys := hotKeys - {evicted.key};
      hotKeys := hotKeys + {key};
      maint.swapState := ColdPend;
      pendingSince := maint.totalAccesses;
      assert Books() == Promoted(was, key, ref, fp, at);
    }

    /** The reference of `key` goes to the cache, that of `y` from the cache to the pending slot. */
    method Exchange(key: int, ref: int, y: int)
      requires y in cacheRefs && cacheRefs.Keys == cacheKeys && key != y
      modifies `pendingKey, `pendingRef, `cacheKeys, `cacheRefs
      ensures pendingKey == y && pendingRef == Some(old(cacheRefs)[y])
      ensures cacheRefs == old(cacheRefs)[key := ref] - {y}
      ensures cacheKeys == old(cacheKeys) + {key} - {y} && cacheKeys == cacheRefs.Keys
    {
      pendingKey := y;
      pendingRef := Some(cacheRefs[y]);
      cacheKeys := cacheKeys - {y};
      cacheRefs := cacheRefs - {y};
      cacheKeys := cacheKeys + {key};
      cacheRefs := cacheRefs[key := ref];
      assert cacheRefs == old(cacheRefs)[key := ref] - {y};
    }

    /** After a cold access: a swap into the cache if the key has become more popular than some
        cached one and no swap is under way, and otherwise a dummy of the same shape. */
    method PromoteOrDummy(key: int, ref: int, fp: nat, ghost upTo: int) returns (ok: bool, promoted: bool)
      requires Core(upTo) && upTo < maint.totalAccesses && key in cold.Map() && cold.Map()[key] == ref
      requires fp > 0 ==> maint.obsEpoch > 0
      modifies this, maint, cold, cold.oram
      ensures !ok ==> Overfull()
      ensures promoted <==> old(maint.swapState) == Idle && exists i :: 0 <= i < |old(maint.cache)| && old(maint.cache)[i].fp < fp
      ensures ok ==> Core(upTo) && SameBooks() && |hotKeys| == old(|hotKeys|) && |maint.cache| == old(|maint.cache|)
      ensures ok ==> cold.oram.fetches == old(cold.oram.fetches) + 3 * cold.maxHeight
      ensures ok && promoted ==>
                && maint.swapState == ColdPend && pendingKey in old(cacheKeys) && pendingKey != key && key in cacheKeys
                && pendingSince == maint.totalAccesses
      ensures ok && !promoted ==> maint.swapState == old(maint.swapState) && Frozen() && cold.Map() == old(cold.Map())
    {
      hide AvlOmap.Valid, AvlOmap.Map, AvlOmap.Foreign, PathOram.Valid, PathOram.Contents, Consistent, FirstExtreme, Admitted;
      promoted := false;
      if maint.swapState == Idle {
        promoted := maint.ShouldPromote(fp);
      }
      if promoted {
        ghost var index := cold.Map();
        var removed := cold.Remove(key);
        if removed.Err? { return false, promoted; }
        ok := true;
        SwapIn(key, ref, fp, index);
      } else {
        var dummy := cold.DummyAccess();
        ok := dummy.Ok?;
      }
    }

    /** What no maintenance step changes. */
    twostate predicate SameBooks()
      reads this, maint
    {
      && ids == old(ids) && log == old(log)
      && maint.totalAccesses == old(maint.totalAccesses) && maint.obsEpoch == old(maint.obsEpoch)
    }

    /** The client's books on the tiers are as before: no key has moved, and the same one waits. */
    twostate predicate Frozen()
      reads this
    {
      && hotKeys == old(hotKeys) && physHot == old(physHot) && hotList == old(hotList)
      && cacheKeys == old(cacheKeys) && cacheRefs == old(cacheRefs)
      && pendingKey == old(pendingKey) && pendingRef == old(pendingRef) && pendingSince == old(pendingSince)
    }

    /** A padded search of one index, and later a padded dummy operation on the other. */
    method SearchIndex(key: int, inHot: bool) returns (r: Result<Option<int>>)
      requires IndexOk(hot) && IndexOk(cold) && Separate()
      modifies hot, hot.oram, cold, cold.oram
      ensures r.Ok? ==> IndexOk(hot) && IndexOk(cold) && hot.Map() == old(hot.Map()) && cold.Map() == old(cold.Map())
      ensures r.Ok? && inHot ==> r.value == if key in hot.Map() then Some(hot.Map()[key]) else None
      ensures r.Ok? && !inHot ==> r.value == if key in cold.Map() then Some(cold.Map()[key]) else None
      ensures r.Ok? ==> hot.oram.fetches == old(hot.oram.fetches) + (if inHot then 3 * hot.maxHeight else 0)
      ensures r.Ok? ==> cold.oram.fetches == old(cold.oram.fetches) + (if inHot then 0 else 3 * cold.maxHeight)
      ensures r.Err? ==> r.error == StashOverflow && Overfull()
    {
      hide AvlOmap.Valid, AvlOmap.Map, AvlOmap.Foreign;
      if inHot {
        r := hot.Search(key, None);
      } else {
        r := cold.Search(key, None);
      }
    }

    method DummyIndex(inHot: bool) returns (ok: bool)
      requires IndexOk(hot) && IndexOk(cold) && Separate()
      modifies hot, hot.oram, cold, cold.oram
      ensures !ok ==> Overfull()
      ensures ok ==> IndexOk(hot) && IndexOk(cold) && hot.Map() == old(hot.Map()) && cold.Map() == old(cold.Map())
      ensures ok ==> hot.oram.fetches == old(hot.oram.fetches) + (if inHot then 3 * hot.maxHeight else 0)
      ensures ok ==> cold.oram.fetches == old(cold.oram.fetches) + (if inHot then 0 else 3 * cold.maxHeight)
    {
      hide AvlOmap.Valid, AvlOmap.Map, AvlOmap.Foreign;
      if inHot {
        var h := hot.DummyAccess();
        ok := h.Ok?;
      } else {
        var c := cold.DummyAccess();
        ok := c.Ok?;
      }
    }

    /** Path fetches on the cold index: a found key is followed by a removal or a dummy like it. */
    function ColdFetches(found: bool): nat {
      if found then 2 * (3 * cold.maxHeight) else 3 * cold.maxHeight
    }

    /** An access to a key that is neither cached nor pending. */
    method ServeIndexed(key: int, newValue: Option<V>) returns (r: Result<Option<V>>)
      requires Core(maint.totalAccesses - 1) && key !in cacheKeys && key != pendingKey
      requires MetasExact(ids, data.Contents(), log, maint.window) && maint.obsEpoch == EpochOf(|log|, maint.window)
      modifies this, maint, hot, hot.oram, cold, cold.oram, data, data.store
      ensures r.Ok? ==> Core(maint.totalAccesses - 1) && SameBooks()
      ensures r.Ok? ==> |hotKeys| == old(|hotKeys|) && |maint.cache| == old(|maint.cache|)
      ensures r.Ok? ==> data.Contents() == AfterAccess(old(data.Contents()), ids, key, newValue, maint.obsEpoch)
      ensures r.Ok? ==> r.value == Answer(old(data.Contents()), ids, key, newValue)
      ensures r.Ok? ==> hot.oram.fetches == old(hot.oram.fetches) + 3 * hot.maxHeight
      ensures r.Ok? ==> cold.oram.fetches == old(cold.oram.fetches) + ColdFetches(key in old(cold.Map()))
      ensures r.Ok? ==> if maint.swapState == old(maint.swapState) then Frozen()
                        else old(maint.swapState) == Idle && maint.swapState == ColdPend && pendingSince == maint.totalAccesses
      ensures r.Ok? && old(maint.swapState) == Idle && key in old(cold.Map()) ==>
                (maint.swapState == ColdPend <==>
                   Cheaper(old(maint.cache), NextCount(old(data.Contents()), ids, key, maint.obsEpoch)))
      ensures r.Ok? && maint.swapState != old(maint.swapState) ==>
                key in old(cold.Map()) && pendingKey in old(cacheKeys) && key in cacheKeys
      ensures r.Err? ==> r.error == StashOverflow && Overfull()
    {
      hide AvlOmap.Valid, AvlOmap.Map, AvlOmap.Foreign, PathOram.Valid, PathOram.Contents, Consistent, MetasExact, BlocksOk,
           EpochOf,
           UpdateMeta;
      ghost var c := data.Contents();
      var isHotLogical, isHotPhysical := key in hotKeys, key in physHot;
      FoundInIndex(Books(), ids, hot.Map(), cold.Map(), key);
      var found := SearchIndex(key, isHotPhysical);
      if found.Err? { return Err(StashOverflow); }
      var ref := found.value;
      if key in ids { BlockThere(ids, c, key); }
      var served := ServeBlock(ref, newValue);
      if served.Err? { return Err(StashOverflow); }
      AccessKeepsBlocks(ids, c, key, newValue, maint.obsEpoch);
      var ok := DummyIndex(!isHotPhysical);
      if !ok { return Err(StashOverflow); }
      if !isHotLogical && ref.Some? {
        if served.value.fp > 0 { PositiveCount(ids, c, log, maint.window, key, newValue); }
        var promoted;
        ok, promoted := PromoteOrDummy(key, ref.value, served.value.fp, maint.totalAccesses - 1);
        if !ok { return Err(StashOverflow); }
      }
      r := Ok(served.value.value);
    }

    /** Notes the new count of a cached key. */
    method RecordCount(key: int, fp: nat, ghost upTo: int)
      requires Core(upTo)
      modifies maint
      ensures Core(upTo) && SameBooks() && |maint.cache| == old(|maint.cache|) && maint.swapState == old(maint.swapState)
    {
      hide AvlOmap.Valid, AvlOmap.Map, AvlOmap.Foreign, PathOram.Valid, PathOram.Contents, Consistent, BlocksOk;
      ghost var was := Books();
      maint.UpdateCacheFp(key, fp);
      CacheRecounted(was, ids, hot.Map(), cold.Map(), maint.cache);
      assert Books() == was.(cache := maint.cache);
    }

    /** An access to a key held by the client: two dummy operations hide that. */
    method ServeHeld(key: int, newValue: Option<V>) returns (r: Result<Option<V>>)
      requires Core(maint.totalAccesses - 1) && (key in cacheKeys || key == pendingKey)
      modifies maint, hot, hot.oram, cold, cold.oram, data, data.store
      ensures r.Ok? ==> Core(maint.totalAccesses - 1) && SameBooks()
      ensures r.Ok? ==> |hotKeys| == old(|hotKeys|) && |maint.cache| == old(|maint.cache|)
      ensures r.Ok? ==> data.Contents() == AfterAccess(old(data.Contents()), ids, key, newValue, maint.obsEpoch)
      ensures r.Ok? ==> r.value == Answer(old(data.Contents()), ids, key, newValue)
      ensures r.Ok? ==> hot.oram.fetches == old(hot.oram.fetches) + 3 * hot.maxHeight
      ensures r.Ok? ==> cold.oram.fetches == old(cold.oram.fetches) + ColdFetches(key in old(cold.Map()))
      ensures r.Ok? ==> maint.swapState == old(maint.swapState)
      ensures r.Err? ==> r.error == StashOverflow && Overfull()
    {
      hide AvlOmap.Valid, AvlOmap.Map, AvlOmap.Foreign, PathOram.Valid, PathOram.Contents, Consistent, BlocksOk, UpdateMeta;
      ghost var c, was := data.Contents(), Books();
      HeldByClient(was, ids, hot.Map(), cold.Map(), key);
      HeldNotIndexed(was, ids, hot.Map(), cold.Map(), key);
      if key in ids { BlockThere(ids, c, key); }
      var ref := if key == pendingKey then pendingRef else Some(cacheRefs[key]);
      var served := ServeBlock(ref, newValue);
      if served.Err? { return Err(StashOverflow); }
      AccessKeepsBlocks(ids, c, key, newValue, maint.obsEpoch);
      if key != pendingKey {
        RecordCount(key, served.value.fp, maint.totalAccesses - 1);
      }
      var ok := DummyBoth();
      if !ok { return Err(StashOverflow); }
      r := Ok(served.value.value);
    }

    // ----- Maintenance steps -----

    /** Looks at the next hot key and, if a cached key has become more popular, moves it into the
        cache and the most popular cached key to the pending slot. */
    method DoScanStep(ghost upTo: int) returns (ok: bool)
      requires Core(upTo) && upTo < maint.totalAccesses && maint.obsEpoch > 0
      modifies this, maint, hot, hot.oram, data, data.store
      ensures !ok ==> Overfull()
      ensures ok ==> Core(upTo) && SameBooks() && hotKeys == old(hotKeys) && |maint.cache| == old(|maint.cache|)
      ensures ok ==> data.Contents() == old(data.Contents())
      ensures ok ==> if maint.swapState == old(maint.swapState) then Frozen()
                     else old(maint.swapState) == Idle && maint.swapState == HotPend && pendingSince == maint.totalAccesses
      ensures ok && maint.swapState != old(maint.swapState) ==>
                maint.scanPtr in old(physHot) && maint.scanPtr in cacheKeys && pendingKey in old(cacheKeys)
      ensures ok && old(maint.swapState) == Idle && old(hotList) != [] ==> NextAfter(old(physHot), old(maint.scanPtr),
              maint.scanPtr)
    {
      hide AvlOmap.Valid, AvlOmap.Map, AvlOmap.Foreign, PathOram.Valid, PathOram.Contents, Consistent, BlocksOk, NextAfter,
           Sorted;
      if maint.swapState != Idle || hotList == [] {
        var h := hot.DummyAccess();
        if h.Err? { return false; }
        var d := data.DummyAccess();
        return d.Ok?;
      }
      ConsistentCache(Books(), ids, hot.Map(), cold.Map());
      var scanKey := ScanNext(hotList, maint.scanPtr, physHot);
      maint.scanPtr := scanKey;
      NextIsKey(physHot, old(maint.scanPtr), scanKey);
      ok := ScanKey(scanKey, upTo);
    }

    /** Compares a hot key's count with the cache and starts a swap if it is due. */
    method ScanKey(scanKey: int, ghost upTo: int) returns (ok: bool)
      requires Core(upTo) && upTo < maint.totalAccesses && maint.obsEpoch > 0
      requires maint.swapState == Idle && scanKey in physHot
      modifies this, maint, hot, hot.oram, data, data.store
      ensures !ok ==> Overfull()
      ensures ok ==> Core(upTo) && SameBooks() && hotKeys == old(hotKeys) && |maint.cache| == old(|maint.cache|)
      ensures ok ==> data.Contents() == old(data.Contents()) && maint.scanPtr == old(maint.scanPtr)
      ensures ok ==> if maint.swapState == Idle then Frozen()
                     else maint.swapState == HotPend && pendingSince == maint.totalAccesses
      ensures ok && maint.swapState == HotPend ==> scanKey in cacheKeys && pendingKey in old(cacheKeys)
    {
      hide AvlOmap.Valid, AvlOmap.Map, AvlOmap.Foreign, PathOram.Valid, PathOram.Contents, Consistent, BlocksOk;
      ghost var c := data.Contents();
      NotHeld(Books(), ids, hot.Map(), cold.Map(), scanKey);
      BlockThere(ids, c, scanKey);
      var ref := hot.Search(scanKey, None);
      if ref.Err? { return false; }
      var raw := data.Access(ref.value.value, None);
      if raw.Err? { assert raw.error.StashOverflow?; return false; }
      assert data.Contents() == c;
      var demote := maint.ShouldDemoteCache(raw.value.meta.fp);
      if demote {
        ghost var index := hot.Map();
        var removed := hot.Remove(scanKey);
        if removed.Err? { return false; }
        SwapOut(scanKey, ref.value.value, raw.value.meta.fp, index);
      }
      ok := true;
    }

    /** Takes `key`, just removed from the hot index `before`, into the cache; the most popular
        cached key becomes pending. */
    method SwapOut(key: int, ref: int, fp: nat, ghost before: Refs)
      requires Consistent(Books(), ids, before, cold.Map()) && maint.Valid() && maint.swapState == Idle
      requires key in before && before[key] == ref && maint.obsEpoch > 0
      requires exists i :: 0 <= i < |maint.cache| && fp < maint.cache[i].fp
      modifies this, maint
      ensures Consistent(Books(), ids, before - {key}, cold.Map()) && SameBooks() && maint.Valid()
      ensures hotKeys == old(hotKeys) && |maint.cache| == old(|maint.cache|) && maint.scanPtr == old(maint.scanPtr)
      ensures maint.swapState == HotPend && pendingKey in old(cacheKeys) && key in cacheKeys
      ensures pendingSince == maint.totalAccesses
    {
      hide AvlOmap.Map, Consistent, FirstExtreme, Admitted, CacheOf, Sorted;
      ghost var was := Books();
      var evicted;
      ghost var at;
      evicted, at := maint.CacheAdmit(key, fp, true);
      ConsistentCache(was, ids, before, cold.Map());
      CacheHasRef(was, ids, before, cold.Map(), at);
      hotList := EraseKey(hotList, key, physHot);
      ScannedConsistent(was, ids, before, cold.Map(), key, fp, at, hotList);
      physHot := physHot - {key};
      Exchange(key, ref, evicted.key);
      maint.swapState := HotPend;
      pendingSince := maint.totalAccesses;
      assert Books() == Scanned(was, key, ref, fp, at, hotList);
    }

    /** The pending entry has been inserted into the hot index `before`. */
    method NoteHot(ghost before: Refs)
      requires Consistent(Books(), ids, before, cold.Map()) && maint.swapState == HotPend && pendingRef.Some?
      modifies this, maint
      ensures Consistent(Books(), ids, before[old(pendingKey) := old(pendingRef).value], cold.Map())
      ensures SameBooks() && hotKeys == old(hotKeys) && maint.cache == old(maint.cache) && maint.swapState == Idle
      ensures physHot == old(physHot) + {old(pendingKey)}
    {
      hide AvlOmap.Map, Consistent, Sorted;
      ghost var was := Books();
      ConsistentCache(was, ids, before, cold.Map());
      PendingOutside(was, ids, before, cold.Map());
      hotList := InsertKey(hotList, pendingKey, physHot);
      HotInsertedConsistent(was, ids, before, cold.Map(), hotList);
      physHot := physHot + {pendingKey};
      pendingKey, pendingRef := INVALID_KEY, None;
      maint.swapState := Idle;
    }

    /** Inserts the pending entry of a scan into the hot index. */
    method DoHotInsertStep(ghost upTo: int) returns (ok: bool)
      requires Core(upTo)
      modifies this, maint, hot, hot.oram
      ensures !ok ==> Overfull()
      ensures ok ==> Core(upTo) && SameBooks() && hotKeys == old(hotKeys) && maint.cache == old(maint.cache)
      ensures ok ==> if old(maint.swapState) == HotPend then maint.swapState == Idle
                     else maint.swapState == old(maint.swapState) && Frozen()
      ensures ok && old(maint.swapState) == HotPend ==> physHot == old(physHot) + {old(pendingKey)}
      ensures ok ==> hot.oram.fetches == old(hot.oram.fetches) + 3 * hot.maxHeight
    {
      hide AvlOmap.Valid, AvlOmap.Map, AvlOmap.Foreign, PathOram.Valid, PathOram.Contents, Consistent, BlocksOk, Sorted;
      if maint.swapState == HotPend {
        ghost var was, index := Books(), hot.Map();
        PendingOutside(was, ids, index, cold.Map());
        HotRoom(was, ids, index, cold.Map());
        hot.AbsentHasNoBlock(pendingKey);
        var inserted := hot.Insert(pendingKey, pendingRef.value);
        if inserted.Err? { return false; }
        NoteHot(index);
        ok := true;
      } else {
        var h := hot.DummyAccess();
        ok := h.Ok?;
      }
    }

    /** Inserts the pending entry of a promotion into the cold index. */
    method DoColdInsertStep(ghost upTo: int) returns (ok: bool)
      requires Core(upTo)
      modifies this, maint, cold, cold.oram
      ensures !ok ==> Overfull()
      ensures ok ==> Core(upTo) && SameBooks() && hotKeys == old(hotKeys) && maint.cache == old(maint.cache)
      ensures ok ==> if old(maint.swapState) == ColdPend then maint.swapState == Idle
                     else maint.swapState == old(maint.swapState) && Frozen()
      ensures ok && old(maint.swapState) == ColdPend ==> old(pendingKey) in cold.Map()
      ensures ok ==> cold.oram.fetches == old(cold.oram.fetches) + 3 * cold.maxHeight
    {
      hide AvlOmap.Valid, AvlOmap.Map, AvlOmap.Foreign, PathOram.Valid, PathOram.Contents, Consistent, BlocksOk, Sorted;
      if maint.swapState == ColdPend {
        ghost var was, index := Books(), cold.Map();
        PendingOutside(was, ids, hot.Map(), index);
        ColdRoom(was, ids, hot.Map(), index);
        cold.AbsentHasNoBlock(pendingKey);
        var inserted := cold.Insert(pendingKey, pendingRef.value);
        if inserted.Err? { return false; }
        ColdInsertedConsistent(was, ids, hot.Map(), index);
        pendingKey, pendingRef := INVALID_KEY, None;
        maint.swapState := Idle;
        ok := true;
      } else {
        var c := cold.DummyAccess();
        ok := c.Ok?;
      }
    }

    /** The maintenance step that is due after an access, if any. */
    method Maintain() returns (ok: bool)
      requires Core(maint.totalAccesses - 1)
      modifies this, maint, hot, hot.oram, cold, cold.oram, data, data.store
      ensures !ok ==> Overfull()
      ensures ok ==> Core(maint.totalAccesses) && SameBooks()
      ensures ok ==> |hotKeys| == old(|hotKeys|) && |maint.cache| == old(|maint.cache|)
      ensures ok ==> data.Contents() == old(data.Contents())
      ensures ok && old(maint.swapState) != Idle ==>
                if maint.CanMaintain() && maint.Phase() == DuePhase(old(maint.swapState)) then maint.swapState == Idle
                else maint.swapState == old(maint.swapState) && Frozen()
      ensures ok && old(maint.swapState) == Idle && maint.swapState != Idle ==> pendingSince == maint.totalAccesses
    {
      hide AvlOmap.Valid, AvlOmap.Map, AvlOmap.Foreign, PathOram.Valid, PathOram.Contents, Consistent, BlocksOk, StoresOk,
           NextAfter;
      PhasesDiffer(maint.swapInterval);
      ghost var upTo := maint.totalAccesses - 1;
      ok := true;
      if maint.ShouldScan() {
        ok := DoScanStep(upTo);
        if !ok { return; }
      }
      if maint.ShouldHotInsert() {
        ok := DoHotInsertStep(upTo);
        if !ok { return; }
      }
      if maint.ShouldColdInsert() {
        ok := DoColdInsertStep(upTo);
        if !ok { return; }
      }
    }

    /** Counts the access. */
    method BeginAccess()
      requires Core(maint.totalAccesses)
      modifies maint
      ensures Core(maint.totalAccesses - 1) && maint.totalAccesses == old(maint.totalAccesses) + 1
      ensures maint.obsEpoch == EpochOf(old(maint.totalAccesses), maint.window)
      ensures maint.swapState == old(maint.swapState) && maint.cache == old(maint.cache)
    {
      hide AvlOmap.Valid, AvlOmap.Map, AvlOmap.Foreign, PathOram.Valid, PathOram.Contents, Consistent, BlocksOk, StoresOk,
           EpochOf;
      maint.Tick();
    }

    ghost method Remember(key: int)
      requires Core(maint.totalAccesses - 1)
      modifies `log
      ensures Core(maint.totalAccesses - 1) && log == old(log) + [key]
    {
      hide AvlOmap.Valid, AvlOmap.Map, AvlOmap.Foreign, PathOram.Valid, PathOram.Contents, Consistent, BlocksOk, StoresOk;
      log := log + [key];
    }

    /** Answers an access to any key and starts a swap if it is due. */
    method Serve(key: int, newValue: Option<V>) returns (r: Result<Option<V>>)
      requires Core(maint.totalAccesses - 1)
      requires MetasExact(ids, data.Contents(), log, maint.window) && maint.obsEpoch == EpochOf(|log|, maint.window)
      modifies this, maint, hot, hot.oram, cold, cold.oram, data, data.store
      ensures r.Ok? ==> Core(maint.totalAccesses - 1) && SameBooks()
      ensures r.Ok? ==> |hotKeys| == old(|hotKeys|) && |maint.cache| == old(|maint.cache|)
      ensures r.Ok? ==> data.Contents() == AfterAccess(old(data.Contents()), ids, key, newValue, maint.obsEpoch)
      ensures r.Ok? ==> r.value == Answer(old(data.Contents()), ids, key, newValue)
      ensures r.Ok? ==> if maint.swapState == old(maint.swapState) then Frozen()
                        else old(maint.swapState) == Idle && maint.swapState == ColdPend && pendingSince == maint.totalAccesses
                             && pendingKey in old(cacheKeys)
      ensures r.Ok? && old(maint.swapState) == Idle && key in old(cold.Map())
              && Cheaper(old(maint.cache), NextCount(old(data.Contents()), ids, key, maint.obsEpoch)) ==>
                maint.swapState == ColdPend
      ensures r.Err? ==> r.error == StashOverflow && Overfull()
    {
      hide AvlOmap.Valid, AvlOmap.Map, AvlOmap.Foreign, PathOram.Valid, PathOram.Contents, Consistent, MetasExact, BlocksOk,
           EpochOf,
           UpdateMeta, Cheaper, NextCount, StoresOk, Separate;
      if key == pendingKey || key in cacheKeys {
        HeldNotIndexed(Books(), ids, hot.Map(), cold.Map(), key);
        r := ServeHeld(key, newValue);
      } else {
        r := ServeIndexed(key, newValue);
      }
    }

    /** Looks `key` up and, if `newValue` is given and the key exists, replaces its value; then
        does the maintenance step that is due. */
    method Access(key: int, newValue: Option<V>) returns (r: Result<Option<V>>)
      requires Valid()
      modifies this, maint, hot, hot.oram, cold, cold.oram, data, data.store
      ensures r.Ok? ==> Valid() && ids == old(ids) && log == old(log) + [key]
      ensures r.Ok? ==> r.value == if newValue.Some? then newValue else if key in old(Map()) then Some(old(Map())[key]) else None
      ensures r.Ok? ==> Map() == if newValue.Some? && key in old(Map()) then old(Map())[key := newValue.value] else old(Map())
      ensures r.Ok? ==> |hotKeys| == old(|hotKeys|) && |maint.cache| == old(|maint.cache|)
      ensures r.Ok? && old(maint.swapState) != Idle ==>
                if maint.Phase() == DuePhase(old(maint.swapState)) then maint.swapState == Idle
                else maint.swapState == old(maint.swapState) && Frozen()
      ensures r.Ok? && old(maint.swapState) == Idle && maint.swapState != Idle ==> pendingSince == maint.totalAccesses
      ensures r.Ok? && old(maint.swapState) == Idle && maint.Phase() != DuePhase(ColdPend) && key in old(cold.Map())
              && Cheaper(old(maint.cache), NextCount(old(data.Contents()), ids, key, maint.obsEpoch)) ==>
                maint.swapState == ColdPend && pendingKey in old(cacheKeys)
      ensures r.Err? ==> r.error == StashOverflow && Overfull()
    {
      hide AvlOmap.Valid, AvlOmap.Map, AvlOmap.Foreign, PathOram.Valid, PathOram.Contents, Consistent, BlocksOk, StoresOk,
           MetasExact, EpochOf, UpdateMeta, ClientOk, Separate, Cheaper, NextCount;
      ghost var c, h := data.Contents(), log;
      BeginAccess();
      r := Serve(key, newValue);
      if r.Err? { return; }
      AccessKeepsMetas(ids, c, log, maint.window, key, newValue);
      AccessView(ids, c, key, newValue, maint.obsEpoch);
      AnswerIsView(ids, c, key, newValue);
      Remember(key);
      var ok := Maintain();
      if !ok { return Err(StashOverflow); }
    }

    /** A swap that has begun is over within `swapInterval` - 1 accesses. */
    lemma SwapIsShort()
      requires Valid() && maint.swapState != Idle && maint.swapInterval >= 3
      ensures maint.totalAccesses - pendingSince <= maint.swapInterval - 2
    {
      hide AvlOmap.Valid, AvlOmap.Map, PathOram.Valid, PathOram.Contents, Consistent, BlocksOk, StoresOk, ClientOk,
           HotInsertPhase, ColdInsertPhase;
      PhasesComeUp(maint.swapInterval);
      PhaselessIsShort(pendingSince, maint.totalAccesses, DuePhase(maint.swapState), maint.swapInterval);
    }

    /** The maintenance that would end a swap never becomes due exactly for intervals below 3 when
        the cold index waits, and for interval 1 when the hot one does. */
    lemma StuckIntervals()
      requires maint.swapInterval > 0
      ensures DuePhase(ColdPend) >= maint.swapInterval <==> maint.swapInterval < 3
      ensures DuePhase(HotPend) >= maint.swapInterval <==> maint.swapInterval < 2
    {
    }

    /** Any run of accesses. If a swap is pending whose insertion never becomes due, the tiers are
        frozen: no key moves any more and the same one stays pending. Otherwise `swapInterval`
        accesses are enough to end it. */
    method AccessAll(requests: seq<(int, Option<V>)>) returns (ok: bool)
      requires Valid()
      modifies this, maint, hot, hot.oram, cold, cold.oram, data, data.store
      ensures !ok ==> Overfull()
      ensures ok ==> Valid() && ids == old(ids) && |log| == |old(log)| + |requests|
      ensures ok ==> Map() == AfterAll(old(Map()), requests)
      ensures ok && old(maint.swapState) != Idle && DuePhase(old(maint.swapState)) >= maint.swapInterval ==>
                maint.swapState == old(maint.swapState) && Frozen()
      ensures ok && old(maint.swapState) != Idle && DuePhase(old(maint.swapState)) < maint.swapInterval <= |requests| ==>
                maint.swapState == Idle || pendingSince > old(maint.totalAccesses)
    {
      hide AvlOmap.Valid, AvlOmap.Map, AvlOmap.Foreign, PathOram.Valid, PathOram.Contents, BlocksOk, StoresOk, MetasExact,
           ClientOk,
           Separate, View;
      ghost var m := Map();
      ok := true;
      for i := 0 to |requests|
        invariant ok && Valid() && ids == old(ids) && |log| == |old(log)| + i
        invariant Map() == AfterAll(m, requests[..i])
        invariant old(maint.swapState) != Idle && DuePhase(old(maint.swapState)) >= maint.swapInterval ==>
                    maint.swapState == old(maint.swapState) && Frozen()
        invariant old(maint.swapState) != Idle ==>
                    || (maint.swapState == old(maint.swapState) && pendingSince == old(pendingSince))
                    || maint.swapState == Idle || pendingSince > old(maint.totalAccesses)
      {
        assert requests[..i + 1][..i] == requests[..i];
        var r := Access(requests[i].0, requests[i].1);
        if r.Err? { return false; }
      }
      assert requests[..|requests|] == requests;
      ghost var state := old(maint.swapState);
      if state != Idle && DuePhase(state) < maint.swapInterval <= |requests| && maint.swapState == state
         && pendingSince == old(pendingSince) {
        PhaselessIsShort(pendingSince, maint.totalAccesses, DuePhase(state), maint.swapInterval);
      }
    }

    /** The counts kept with a key's block are exact for the epoch of its latest access. */
    lemma CountsAreExact(key: int)
      requires Valid() && key in ids
      ensures ids[key] in data.Contents()
      ensures var m := data.Contents()[ids[key]].meta;
              m.cnt == Hits(log, key, m.ep, maint.window) && m.fp == Hits(log, key, m.ep - 1, maint.window)
    {
      hide AvlOmap.Valid, PathOram.Valid, PathOram.Contents, Consistent, StoresOk;
      assert MetaExact(data.Contents()[ids[key]].meta, log, key, maint.window);
    }

    /** Every key is in exactly one place. */
    lemma KeyIsInOnePlace(key: int)
      requires Valid() && key in ids
      ensures var places := (if key in hot.Map() then 1 else 0) + (if key in cold.Map() then 1 else 0)
                            + (if key in cacheRefs then 1 else 0) + (if key == pendingKey then 1 else 0);
              places == 1
      ensures key in hotKeys <==> key in hot.Map() || key in cacheRefs || (key == pendingKey && maint.swapState == HotPend)
    {
      hide AvlOmap.Valid, AvlOmap.Map, PathOram.Valid, PathOram.Contents, BlocksOk, StoresOk, CacheOf, Sorted;
      if pendingRef.Some? { assert pendingKey in Pending(pendingKey, pendingRef); }
    }
  }
}
