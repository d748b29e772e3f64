/** Where a key's reference is held, and how the maintenance steps move it (tiered_omap). */
module TieredParts {
  import opened Common
  import opened Maintenance

  /** Data block ids by key. */
  type Refs = map<int, int>

  ghost predicate Within(part: Refs, ids: Refs) {
    forall k :: k in part ==> k in ids && part[k] == ids[k]
  }

  ghost predicate Apart(a: Refs, b: Refs) {
    forall k :: k in a ==> k !in b
  }

  /** Every key's reference, unchanged since `ids` was fixed, is in exactly one of the hot index,
      the cold index, the client cache and the pending slot; nothing else is in them. */
  ghost predicate Partition(ids: Refs, hot: Refs, cold: Refs, cached: Refs, pend: Refs) {
    && Within(hot, ids) && Within(cold, ids) && Within(cached, ids) && Within(pend, ids)
    && Apart(hot, cold) && Apart(hot, cached) && Apart(hot, pend)
    && Apart(cold, cached) && Apart(cold, pend) && Apart(cached, pend)
    && forall k :: k in ids ==> k in hot || k in cold || k in cached || k in pend
  }

  function Pending(key: int, ref: Option<int>): Refs {
    if ref.None? then map[] else map[key := ref.value]
  }

  /** A hot key goes to the cache, and a cached one to the pending slot. */
  lemma ScanMoves(ids: Refs, hot: Refs, cold: Refs, cached: Refs, z: int, y: int)
    requires Partition(ids, hot, cold, cached, map[]) && z in hot && y in cached
    ensures Partition(ids, hot - {z}, cold, cached[z := hot[z]] - {y}, map[y := cached[y]])
  {
  }

  /** A cold key goes to the cache, and a cached one to the pending slot. */
  lemma PromotionMoves(ids: Refs, hot: Refs, cold: Refs, cached: Refs, x: int, y: int)
    requires Partition(ids, hot, cold, cached, map[]) && x in cold && y in cached
    ensures Partition(ids, hot, cold - {x}, cached[x := cold[x]] - {y}, map[y := cached[y]])
  {
  }

  lemma HotInsertMoves(ids: Refs, hot: Refs, cold: Refs, cached: Refs, y: int, ref: int)
    requires Partition(ids, hot, cold, cached, map[y := ref])
    ensures Partition(ids, hot[y := ref], cold, cached, map[]) && y !in hot
  {
    assert y in map[y := ref];
  }

  lemma ColdInsertMoves(ids: Refs, hot: Refs, cold: Refs, cached: Refs, y: int, ref: int)
    requires Partition(ids, hot, cold, cached, map[y := ref])
    ensures Partition(ids, hot, cold[y := ref], cached, map[]) && y !in cold
  {
    assert y in map[y := ref];
  }

  lemma ExtractMoves(ids: Refs, hot: Refs, cold: Refs, cached: Refs, z: int)
    requires Partition(ids, hot, cold, cached, map[]) && z in hot
    ensures Partition(ids, hot - {z}, cold, cached[z := hot[z]], map[])
  {
  }

  // ----- The cache -----

  /** The cache has one entry for each key of `keys`. */
  ghost predicate CacheOf(cache: seq<CacheEntry>, keys: set<int>) {
    && (forall i :: 0 <= i < |cache| ==> cache[i].key in keys)
    && (forall k :: k in keys ==> exists i :: 0 <= i < |cache| && cache[i].key == k)
    && (forall i, j :: 0 <= i < j < |cache| ==> cache[i].key != cache[j].key)
  }

  lemma AdmittedKeys(cache: seq<CacheEntry>, keys: set<int>, entry: CacheEntry, at: nat)
    requires CacheOf(cache, keys) && entry.key !in keys && at < |cache|
    ensures cache[at].key in keys && cache[at].key != entry.key
    ensures CacheOf(Admitted(cache, entry, at), keys + {entry.key} - {cache[at].key})
  {
    AppendedKeys(cache, keys, entry);
    CutKeys(cache + [entry], keys + {entry.key}, at);
  }

  /** Taking out the entry at `at` takes its key out of the cache's keys. */
  lemma CutKeys(all: seq<CacheEntry>, keys: set<int>, at: nat)
    requires CacheOf(all, keys) && at < |all|
    ensures CacheOf(all[..at] + all[at + 1..], keys - {all[at].key})
  {
    var r := all[..at] + all[at + 1..];
    forall i | 0 <= i < |r| ensures r[i].key in keys - {all[at].key} {
      CutAt(all, keys, at, i);
    }
    forall k | k in keys - {all[at].key} ensures exists i :: 0 <= i < |r| && r[i].key == k {
      var i :| 0 <= i < |all| && all[i].key == k;
      assert r[if i < at then i else i - 1] == all[i];
    }
    forall i, j | 0 <= i < j < |r| ensures r[i].key != r[j].key {
      CutAt(all, keys, at, i);
      CutAt(all, keys, at, j);
    }
  }

  lemma CutAt(all: seq<CacheEntry>, keys: set<int>, at: nat, i: nat)
    requires CacheOf(all, keys) && at < |all| && i < |all| - 1
    ensures var k := if i < at then i else i + 1;
            (all[..at] + all[at + 1..])[i] == all[k] && all[k].key in keys && all[k].key != all[at].key
  {
  }

  lemma AppendedKeys(cache: seq<CacheEntry>, keys: set<int>, entry: CacheEntry)
    requires CacheOf(cache, keys) && entry.key !in keys
    ensures CacheOf(cache + [entry], keys + {entry.key})
  {
    var r := cache + [entry];
    forall k | k in keys + {entry.key} ensures exists i :: 0 <= i < |r| && r[i].key == k {
      if k == entry.key {
        assert r[|cache|].key == k;
      } else {
        var i :| 0 <= i < |cache| && cache[i].key == k;
        assert r[i].key == k;
      }
    }
  }

  lemma SameCacheKeys(cache: seq<CacheEntry>, cache': seq<CacheEntry>, keys: set<int>)
    requires CacheOf(cache, keys) && |cache'| == |cache|
    requires forall i :: 0 <= i < |cache| ==> cache'[i].key == cache[i].key
    ensures CacheOf(cache', keys)
  {
    forall k | k in keys ensures exists i :: 0 <= i < |cache'| && cache'[i].key == k {
      var i :| 0 <= i < |cache| && cache[i].key == k;
      assert cache'[i].key == k;
    }
  }

  // ----- The sorted list of hot keys -----

  /** `list` enumerates `keys` in ascending order. */
  ghost predicate Sorted(list: seq<int>, keys: set<int>) {
    && (forall i, j :: 0 <= i < j < |list| ==> list[i] < list[j])
    && (forall k :: k in list <==> k in keys)
  }

  /** First position whose key is at least `key`. */
  method LowerBound(list: seq<int>, key: int) returns (at: nat)
    ensures at <= |list| && (forall j :: 0 <= j < at ==> list[j] < key) && (at < |list| ==> list[at] >= key)
  {
    at := 0;
    while at < |list| && list[at] < key
      invariant at <= |list| && forall j :: 0 <= j < at ==> list[j] < key
    {
      at := at + 1;
    }
  }

  method InsertKey(list: seq<int>, key: int, ghost keys: set<int>) returns (r: seq<int>)
    requires Sorted(list, keys) && key !in keys
    ensures Sorted(r, keys + {key}) && |r| == |list| + 1
  {
    var at := LowerBound(list, key);
    assert at < |list| ==> list[at] in list;
    r := list[..at] + [key] + list[at..];
    InsertedSorted(list, key, keys, at);
  }

  lemma InsertedSorted(list: seq<int>, key: int, keys: set<int>, at: nat)
    requires Sorted(list, keys) && at <= |list|
    requires (forall j :: 0 <= j < at ==> list[j] < key) && (at < |list| ==> list[at] > key)
    ensures Sorted(list[..at] + [key] + list[at..], keys + {key})
  {
    var r := list[..at] + [key] + list[at..];
    forall i | 0 <= i < |r| ensures r[i] == if i < at then list[i] else if i == at then key else list[i - 1] {
    }
    forall k ensures k in r <==> k in keys + {key} {
      if k in keys {
        var i :| 0 <= i < |list| && list[i] == k;
        assert r[if i < at then i else i + 1] == k;
      }
      if k == key { assert r[at] == k; }
    }
  }

  method EraseKey(list: seq<int>, key: int, ghost keys: set<int>) returns (r: seq<int>)
    requires Sorted(list, keys) && key in keys
    ensures Sorted(r, keys - {key}) && |r| == |list| - 1
  {
    var at := LowerBound(list, key);
    ghost var i :| 0 <= i < |list| && list[i] == key;
    assert at == i;
    r := list;
    if at < |list| && list[at] == key {
      r := list[..at] + list[at + 1..];
      ErasedSorted(list, key, keys, at);
    }
  }

  lemma ErasedSorted(list: seq<int>, key: int, keys: set<int>, at: nat)
    requires Sorted(list, keys) && at < |list| && list[at] == key
    ensures Sorted(list[..at] + list[at + 1..], keys - {key})
  {
    var r := list[..at] + list[at + 1..];
    forall i | 0 <= i < |r| ensures r[i] == if i < at then list[i] else list[i + 1] {
    }
    forall k ensures k in r <==> k in keys - {key} {
      if k in keys && k != key {
        var i :| 0 <= i < |list| && list[i] == k;
        assert r[if i < at then i else i - 1] == k;
      }
    }
  }

  function KeySet(keys: seq<int>): set<int> {
    set k | k in keys
  }

  method SortKeys(keys: seq<int>) returns (list: seq<int>)
    requires forall i, j :: 0 <= i < j < |keys| ==> keys[i] != keys[j]
    ensures Sorted(list, KeySet(keys)) && |list| == |keys|
  {
    list := [];
    ghost var done: set<int> := {};
    for i := 0 to |keys|
      invariant Sorted(list, done) && |list| == i && forall k :: k in done <==> k in keys[..i]
    {
      assert keys[..i + 1] == keys[..i] + [keys[i]];
      list := InsertKey(list, keys[i], done);
      done := done + {keys[i]};
    }
    assert keys[..|keys|] == keys;
    assert forall k :: k in done <==> k in KeySet(keys);
  }

  /** The least key after `ptr`, or the least of all if there is none. */
  ghost predicate NextAfter(keys: set<int>, ptr: int, next: int) {
    && next in keys
    && (if exists k :: k in keys && k > ptr
        then next > ptr && forall k :: k in keys && k > ptr ==> next <= k
        else forall k :: k in keys ==> next <= k)
  }

  lemma NextIsKey(keys: set<int>, ptr: int, next: int)
    requires NextAfter(keys, ptr, next)
    ensures next in keys
  {
  }

  method ScanNext(list: seq<int>, ptr: int, ghost keys: set<int>) returns (next: int)
    requires Sorted(list, keys) && list != []
    ensures NextAfter(keys, ptr, next)
  {
    var at := 0;
    while at < |list| && list[at] <= ptr
      invariant at <= |list| && forall j :: 0 <= j < at ==> list[j] <= ptr
    {
      at := at + 1;
    }
    ghost var found := at < |list|;
    if at == |list| {
      at := 0;
    }
    next := list[at];
    assert next in list;
    assert found ==> next in keys && next > ptr;
    forall k | k in keys ensures (found && k > ptr ==> next <= k) && (!found ==> k <= ptr && next <= k) {
      var i :| 0 <= i < |list| && list[i] == k;
    }
  }

  // ----- Sizes -----

  lemma StrictSubset(a: set<int>, b: set<int>, x: int)
    requires a <= b && x in b && x !in a
    ensures |a| < |b|
  {
    assert b == a + (b - a);
    assert x in b - a;
  }

  lemma SwapSize(s: set<int>, x: int, y: int)
    requires x !in s && y in s
    ensures |s - {y} + {x}| == |s|
  {
  }

  lemma RestSize(all: set<int>, hot: set<int>, rest: set<int>)
    requires hot <= all && rest <= all - hot
    ensures |rest| <= |all| - |hot|
  {
    assert all == hot + (all - hot);
    assert (all - hot) == rest + (all - hot - rest);
  }

  // ----- The client's books -----

  /** What the client keeps beside the two indexes. */
  datatype Client = Client(hotKeys: set<int>, physHot: set<int>, hotList: seq<int>, cacheKeys: set<int>, cacheRefs: Refs,
                           pendingKey: int, pendingRef: Option<int>, cache: seq<CacheEntry>, state: SwapState)

  /** The books agree with each other and with the two indexes. */
  ghost predicate Consistent(c: Client, ids: Refs, hot: Refs, cold: Refs) {
    && (forall k :: k in ids ==> k >= 0)
    && c.physHot == hot.Keys && c.cacheKeys == c.cacheRefs.Keys
    && CacheOf(c.cache, c.cacheKeys) && Sorted(c.hotList, c.physHot)
    && (c.pendingRef.None? <==> c.pendingKey == INVALID_KEY) && (c.pendingRef.None? <==> c.state == Idle)
    && c.hotKeys == c.physHot + c.cacheKeys + (if c.state == HotPend then {c.pendingKey} else {})
    && Partition(ids, hot, cold, c.cacheRefs, Pending(c.pendingKey, c.pendingRef))
  }

  /** `key` has gone into the cache and its `at`-th entry to the pending slot. */
  function Exchanged(c: Client, key: int, ref: int, fp: nat, at: nat): Client
    requires at < |c.cache| && c.cache[at].key in c.cacheRefs
  {
    var y := c.cache[at].key;
    c.(cacheKeys := c.cacheKeys + {key} - {y}, cacheRefs := c.cacheRefs[key := ref] - {y},
       pendingKey := y, pendingRef := Some(c.cacheRefs[y]), cache := Admitted(c.cache, CacheEntry(key, fp), at))
  }

  lemma CacheHasRef(c: Client, ids: Refs, hot: Refs, cold: Refs, at: nat)
    requires Consistent(c, ids, hot, cold) && at < |c.cache|
    ensures c.cache[at].key in c.cacheRefs && c.cache[at].key in ids && c.cache[at].key >= 0
  {
  }

  lemma ConsistentCache(c: Client, ids: Refs, hot: Refs, cold: Refs)
    requires Consistent(c, ids, hot, cold)
    ensures c.cacheRefs.Keys == c.cacheKeys && c.physHot == hot.Keys && Sorted(c.hotList, c.physHot)
  {
  }

  /** A key that is neither cached nor pending is found in the index the client looks in. */
  lemma FoundInIndex(c: Client, ids: Refs, hot: Refs, cold: Refs, key: int)
    requires Consistent(c, ids, hot, cold) && key !in c.cacheKeys && key != c.pendingKey
    ensures key in c.physHot <==> key in hot
    ensures key in hot ==> key in ids && hot[key] == ids[key] && key in c.hotKeys && key !in cold
    ensures key !in hot ==> (key in cold <==> key in ids) && key !in c.hotKeys
    ensures key !in hot && key in cold ==> cold[key] == ids[key]
  {
  }

  /** What is cached or pending is the key's reference. */
  lemma HeldByClient(c: Client, ids: Refs, hot: Refs, cold: Refs, key: int)
    requires Consistent(c, ids, hot, cold)
    ensures key in c.cacheKeys ==> key in ids && key in c.cacheRefs && c.cacheRefs[key] == ids[key]
    ensures key == c.pendingKey ==> (if key in ids then c.pendingRef == Some(ids[key]) else c.pendingRef == None)
  {
    if key == c.pendingKey && c.pendingRef.Some? {
      assert key in Pending(c.pendingKey, c.pendingRef);
    }
  }

  lemma HeldNotIndexed(c: Client, ids: Refs, hot: Refs, cold: Refs, key: int)
    requires Consistent(c, ids, hot, cold) && (key in c.cacheKeys || key == c.pendingKey)
    ensures key !in cold && key !in hot
  {
    if key == c.pendingKey && c.pendingRef.Some? {
      assert key in Pending(c.pendingKey, c.pendingRef);
    }
  }

  lemma NotHeld(c: Client, ids: Refs, hot: Refs, cold: Refs, key: int)
    requires Consistent(c, ids, hot, cold) && key in c.physHot
    ensures key in hot && key in ids && hot[key] == ids[key] && key !in c.cacheKeys
  {
  }

  lemma PendingOutside(c: Client, ids: Refs, hot: Refs, cold: Refs)
    requires Consistent(c, ids, hot, cold) && c.state != Idle
    ensures c.pendingRef.Some? && c.pendingKey !in hot && c.pendingKey !in cold && c.pendingKey >= 0
  {
    assert c.pendingKey in Pending(c.pendingKey, c.pendingRef);
  }

  lemma CacheRecounted(c: Client, ids: Refs, hot: Refs, cold: Refs, cache: seq<CacheEntry>)
    requires Consistent(c, ids, hot, cold) && |cache| == |c.cache|
    requires forall i :: 0 <= i < |cache| ==> cache[i].key == c.cache[i].key
    ensures Consistent(c.(cache := cache), ids, hot, cold)
  {
    SameCacheKeys(c.cache, cache, c.cacheKeys);
  }

  lemma ExchangedKeys(c: Client, key: int, ref: int, fp: nat, at: nat)
    requires at < |c.cache| && c.cache[at].key in c.cacheRefs && key !in c.cacheRefs
    requires c.cacheKeys == c.cacheRefs.Keys && CacheOf(c.cache, c.cacheKeys)
    ensures var c' := Exchanged(c, key, ref, fp, at);
            c'.cacheKeys == c'.cacheRefs.Keys && CacheOf(c'.cache, c'.cacheKeys) && |c'.cache| == |c.cache|
    ensures key in Exchanged(c, key, ref, fp, at).cacheKeys && c.cache[at].key != key
  {
    hide CacheOf, Admitted;
    AdmittedKeys(c.cache, c.cacheKeys, CacheEntry(key, fp), at);
    AdmittedSize(c.cache, CacheEntry(key, fp), at);
  }

  lemma AdmittedSize(cache: seq<CacheEntry>, entry: CacheEntry, at: nat)
    requires at <= |cache|
    ensures |Admitted(cache, entry, at)| == |cache|
  {
  }

  function Promoted(c: Client, key: int, ref: int, fp: nat, at: nat): Client
    requires at < |c.cache| && c.cache[at].key in c.cacheRefs
  {
    Exchanged(c, key, ref, fp, at).(hotKeys := c.hotKeys - {c.cache[at].key} + {key}, state := ColdPend)
  }

  /** A promotion: the key leaves the cold index for the cache. */
  lemma PromotedConsistent(c: Client, ids: Refs, hot: Refs, cold: Refs, key: int, fp: nat, at: nat)
    requires Consistent(c, ids, hot, cold) && c.state == Idle && key in cold && at < |c.cache|
    ensures c.cache[at].key in c.cacheRefs && c.cache[at].key != key
    ensures var c' := Promoted(c, key, cold[key], fp, at);
            && Consistent(c', ids, hot, cold - {key}) && |c'.cache| == |c.cache| && key in c'.cacheKeys
    ensures key !in c.hotKeys && c.cache[at].key in c.hotKeys
  {
    hide CacheOf, Sorted, Admitted, Exchanged, Partition;
    var y := c.cache[at].key;
    CacheHasRef(c, ids, hot, cold, at);
    OutsideCache(ids, hot, cold, c.cacheRefs, key);
    ExchangedKeys(c, key, cold[key], fp, at);
    PromotedSets(ids, hot, cold, c.cacheRefs, c.hotKeys, key, y);
    PromotionMoves(ids, hot, cold, c.cacheRefs, key, y);
    ExchangedParts(c, key, cold[key], fp, at);
  }

  lemma ExchangedParts(c: Client, key: int, ref: int, fp: nat, at: nat)
    requires at < |c.cache| && c.cache[at].key in c.cacheRefs
    ensures var c', y := Exchanged(c, key, ref, fp, at), c.cache[at].key;
            && c'.cacheRefs == c.cacheRefs[key := ref] - {y} && c'.cacheKeys == c.cacheKeys + {key} - {y}
            && c'.pendingKey == y && c'.pendingRef == Some(c.cacheRefs[y])
            && c'.physHot == c.physHot && c'.hotList == c.hotList
  {
  }

  function Scanned(c: Client, key: int, ref: int, fp: nat, at: nat, list: seq<int>): Client
    requires at < |c.cache| && c.cache[at].key in c.cacheRefs
  {
    Exchanged(c, key, ref, fp, at).(physHot := c.physHot - {key}, hotList := list, state := HotPend)
  }

  /** A demotion found by the scan: the key leaves the hot index for the cache. */
  lemma ScannedConsistent(c: Client, ids: Refs, hot: Refs, cold: Refs, key: int, fp: nat, at: nat, list: seq<int>)
    requires Consistent(c, ids, hot, cold) && c.state == Idle && key in hot && at < |c.cache|
    requires Sorted(list, c.physHot - {key})
    ensures c.cache[at].key in c.cacheRefs && c.cache[at].key != key
    ensures var c' := Scanned(c, key, hot[key], fp, at, list);
            Consistent(c', ids, hot - {key}, cold) && c'.hotKeys == c.hotKeys && |c'.cache| == |c.cache|
  {
    hide CacheOf, Sorted, Admitted, Exchanged, Partition;
    var y := c.cache[at].key;
    CacheHasRef(c, ids, hot, cold, at);
    OutsideCache(ids, hot, cold, c.cacheRefs, key);
    ExchangedKeys(c, key, hot[key], fp, at);
    ScannedSets(ids, hot, cold, c.cacheRefs, c.hotKeys, key, y);
    ScanMoves(ids, hot, cold, c.cacheRefs, key, y);
    ExchangedParts(c, key, hot[key], fp, at);
    ScannedFields(c, key, hot[key], fp, at, list);
  }

  lemma ScannedFields(c: Client, key: int, ref: int, fp: nat, at: nat, list: seq<int>)
    requires at < |c.cache| && c.cache[at].key in c.cacheRefs
    ensures Scanned(c, key, ref, fp, at, list).hotKeys == c.hotKeys
  {
  }

  /** The pending entry is inserted into the hot index. */
  lemma HotInsertedConsistent(c: Client, ids: Refs, hot: Refs, cold: Refs, list: seq<int>)
    requires Consistent(c, ids, hot, cold) && c.state == HotPend && Sorted(list, c.physHot + {c.pendingKey})
    ensures c.pendingRef.Some? && c.pendingKey !in hot && c.pendingKey >= 0
    ensures var c' := c.(physHot := c.physHot + {c.pendingKey}, hotList := list, pendingKey := INVALID_KEY,
                         pendingRef := None, state := Idle);
            Consistent(c', ids, hot[c.pendingKey := c.pendingRef.value], cold)
  {
    hide CacheOf, Sorted, Partition;
    HotInsertMoves(ids, hot, cold, c.cacheRefs, c.pendingKey, c.pendingRef.value);
    PendingInIds(ids, hot, cold, c.cacheRefs, c.pendingKey, c.pendingRef);
  }

  /** The hot index has room for the pending entry. */
  lemma HotRoom(c: Client, ids: Refs, hot: Refs, cold: Refs)
    requires Consistent(c, ids, hot, cold) && c.state == HotPend
    ensures |hot| < |c.hotKeys|
  {
    hide CacheOf, Sorted;
    PendingInIds(ids, hot, cold, c.cacheRefs, c.pendingKey, c.pendingRef);
    assert c.pendingKey !in hot by { assert c.pendingKey in Pending(c.pendingKey, c.pendingRef); }
    hide Partition;
    StrictSubset(hot.Keys, c.hotKeys, c.pendingKey);
    KeysSize(hot);
  }

  lemma KeysSize(m: Refs)
    ensures |m.Keys| == |m|
  {
  }

  /** The pending entry is inserted into the cold index. */
  lemma ColdInsertedConsistent(c: Client, ids: Refs, hot: Refs, cold: Refs)
    requires Consistent(c, ids, hot, cold) && c.state == ColdPend
    ensures c.pendingRef.Some? && c.pendingKey !in cold && c.pendingKey >= 0
    ensures Consistent(c.(pendingKey := INVALID_KEY, pendingRef := None, state := Idle), ids, hot,
                       cold[c.pendingKey := c.pendingRef.value])
  {
    hide CacheOf, Sorted;
    ColdInsertMoves(ids, hot, cold, c.cacheRefs, c.pendingKey, c.pendingRef.value);
    PendingInIds(ids, hot, cold, c.cacheRefs, c.pendingKey, c.pendingRef);
  }

  /** The cold index has room for the pending entry. */
  lemma ColdRoom(c: Client, ids: Refs, hot: Refs, cold: Refs)
    requires Consistent(c, ids, hot, cold) && c.state == ColdPend
    ensures |cold| < |ids| - |c.hotKeys|
  {
    hide CacheOf, Sorted;
    PendingInIds(ids, hot, cold, c.cacheRefs, c.pendingKey, c.pendingRef);
    ColdAside(ids, hot, cold, c.cacheRefs, c.pendingKey, c.pendingRef.value, c.hotKeys);
    hide Partition;
    RestSize(ids.Keys, c.hotKeys, cold.Keys + {c.pendingKey});
    StrictSubset(cold.Keys, cold.Keys + {c.pendingKey}, c.pendingKey);
    KeysSize(cold);
    KeysSize(ids);
  }

  lemma ColdAside(ids: Refs, hot: Refs, cold: Refs, cached: Refs, y: int, ref: int, hotKeys: set<int>)
    requires Partition(ids, hot, cold, cached, map[y := ref]) && hotKeys == hot.Keys + cached.Keys
    ensures hotKeys <= ids.Keys && cold.Keys + {y} <= ids.Keys - hotKeys && y !in cold
  {
    var pend := map[y := ref];
    assert y in pend && y in ids;
    assert y !in hot && y !in cold && y !in cached;
    forall k | k in cold.Keys + {y} ensures k in ids && k !in hotKeys {
      if k != y { assert k in cold; }
    }
    forall k | k in hotKeys ensures k in ids {
      assert k in hot || k in cached;
    }
  }

  lemma PendingInIds(ids: Refs, hot: Refs, cold: Refs, cached: Refs, y: int, ref: Option<int>)
    requires Partition(ids, hot, cold, cached, Pending(y, ref)) && ref.Some?
    ensures y in ids && ids[y] == ref.value && Pending(y, ref) == map[y := ref.value]
  {
    assert y in Pending(y, ref);
  }

  /** While loading, a hot key is moved to the cache. */
  lemma ExtractedConsistent(c: Client, ids: Refs, hot: Refs, cold: Refs, key: int, list: seq<int>)
    requires Consistent(c, ids, hot, cold) && c.state == Idle && key in hot && Sorted(list, c.physHot - {key})
    ensures Consistent(c.(physHot := c.physHot - {key}, hotList := list, cacheKeys := c.cacheKeys + {key},
                          cacheRefs := c.cacheRefs[key := hot[key]], cache := c.cache + [CacheEntry(key, 0)]),
                       ids, hot - {key}, cold)
  {
    hide CacheOf, Sorted, Partition;
    OutsideCache(ids, hot, cold, c.cacheRefs, key);
    ExtractMoves(ids, hot, cold, c.cacheRefs, key);
    AppendedKeys(c.cache, c.cacheKeys, CacheEntry(key, 0));
    assert c.hotKeys == (c.physHot - {key}) + (c.cacheKeys + {key});
  }

  // ----- The key sets across a swap -----

  lemma PromotedSets(ids: Refs, hot: Refs, cold: Refs, cached: Refs, hotKeys: set<int>, x: int, y: int)
    requires Partition(ids, hot, cold, cached, map[]) && x in cold && y in cached && hotKeys == hot.Keys + cached.Keys
    ensures hotKeys - {y} + {x} == hot.Keys + (cached.Keys + {x} - {y}) && x !in hotKeys && y in hotKeys
  {
  }

  lemma ScannedSets(ids: Refs, hot: Refs, cold: Refs, cached: Refs, hotKeys: set<int>, z: int, y: int)
    requires Partition(ids, hot, cold, cached, map[]) && z in hot && y in cached && hotKeys == hot.Keys + cached.Keys
    ensures hotKeys == (hot.Keys - {z}) + (cached.Keys + {z} - {y}) + {y}
  {
  }

  lemma OutsideCache(ids: Refs, hot: Refs, cold: Refs, cached: Refs, k: int)
    requires Partition(ids, hot, cold, cached, map[]) && (k in cold || k in hot)
    ensures k !in cached
  {
  }
}
