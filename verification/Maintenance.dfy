/** Epoch counters, phase triggers and the client cache of the tiered map (maintenance.h). */
module Maintenance {
  import opened Common

  /** Access counts of one key: `cnt` in its latest epoch `ep`, `fp` in the epoch before that. */
  datatype EpochMeta = EpochMeta(cnt: nat, ep: int, fp: nat)

  const INITIAL_META: EpochMeta := EpochMeta(0, 0, 0)
  const MISSING_META: EpochMeta := EpochMeta(0, -1, 0)

  function UpdateMeta(stored: EpochMeta, epoch: nat): EpochMeta {
    if stored.ep < epoch then EpochMeta(1, epoch, if stored.ep == epoch - 1 then stored.cnt else 0)
    else stored.(cnt := stored.cnt + 1)
  }

  // ----- What the counters mean over an access history -----

  /** Epoch of the access at index `i` of the history: the first access makes the count 1. */
  function EpochOf(i: nat, window: nat): nat
    requires window > 0
  {
    (i + 1) / window
  }

  /** Number of accesses to `key` in epoch `e`. */
  ghost function Hits(log: seq<int>, key: int, e: int, window: nat): nat
    requires window > 0
  {
    if log == [] then 0
    else
      var n := |log| - 1;
      Hits(log[..n], key, e, window) + (if log[n] == key && EpochOf(n, window) == e then 1 else 0)
  }

  /** `m` is what the history says about `key`, as of its latest access. */
  ghost predicate MetaExact(m: EpochMeta, log: seq<int>, key: int, window: nat)
    requires window > 0
  {
    && 0 <= m.ep <= |log| / window
    && m.cnt == Hits(log, key, m.ep, window) && m.fp == Hits(log, key, m.ep - 1, window)
    && forall e :: e > m.ep ==> Hits(log, key, e, window) == 0
  }

  lemma HitsStep(log: seq<int>, x: int, key: int, e: int, window: nat)
    requires window > 0
    ensures Hits(log + [x], key, e, window)
         == Hits(log, key, e, window) + (if x == key && EpochOf(|log|, window) == e then 1 else 0)
  {
    assert (log + [x])[..|log|] == log;
  }

  lemma {:induction false} NoHitsAhead(log: seq<int>, key: int, e: int, window: nat)
    requires window > 0 && (e < 0 || e > |log| / window)
    ensures Hits(log, key, e, window) == 0
  {
    if log != [] {
      var n := |log| - 1;
      DivMonotone(n, n + 1, window);
      NoHitsAhead(log[..n], key, e, window);
    }
  }

  lemma DivMonotone(a: nat, b: nat, w: nat)
    requires w > 0 && a <= b
    ensures a / w <= b / w
  {
    if a / w > b / w {
      assert a >= (a / w) * w && b < (b / w) * w + w;
      assert (a / w) * w >= (b / w + 1) * w by { MulMonotone(b / w + 1, a / w, w); }
      assert false;
    }
  }

  lemma MulMonotone(a: nat, b: nat, w: nat)
    requires a <= b
    ensures a * w <= b * w
  {
  }

  lemma InitialMetaExact(key: int, window: nat)
    requires window > 0
    ensures MetaExact(INITIAL_META, [], key, window)
  {
  }

  /** Right after an access the counters are exact for the current epoch. */
  lemma AccessedMetaExact(m: EpochMeta, log: seq<int>, key: int, window: nat)
    requires window > 0 && MetaExact(m, log, key, window)
    ensures var e := EpochOf(|log|, window);
            && UpdateMeta(m, e).ep == e && MetaExact(UpdateMeta(m, e), log + [key], key, window)
            && UpdateMeta(m, e).cnt == Hits(log + [key], key, e, window)
            && UpdateMeta(m, e).fp == Hits(log + [key], key, e - 1, window)
  {
    var e: int := EpochOf(|log|, window);
    DivMonotone(|log|, |log| + 1, window);
    HitsStep(log, key, key, e, window);
    HitsStep(log, key, key, e - 1, window);
    forall x | x > e ensures Hits(log + [key], key, x, window) == 0 {
      NoHitsAhead(log + [key], key, x, window);
    }
  }

  /** Accesses to other keys do not disturb it. */
  lemma OtherMetaExact(m: EpochMeta, log: seq<int>, key: int, other: int, window: nat)
    requires window > 0 && MetaExact(m, log, key, window) && other != key
    ensures MetaExact(m, log + [other], key, window)
  {
    DivMonotone(|log|, |log| + 1, window);
    HitsStep(log, other, key, m.ep, window);
    HitsStep(log, other, key, m.ep - 1, window);
    forall x | x > m.ep ensures Hits(log + [other], key, x, window) == 0 {
      HitsStep(log, other, key, x, window);
    }
  }

  /** A key has hits in the epoch before `e` only if there is such an epoch. */
  lemma EarlierEpoch(log: seq<int>, key: int, e: int, window: nat)
    requires window > 0 && Hits(log, key, e - 1, window) > 0
    ensures e >= 1
  {
    if e < 1 { NoHitsAhead(log, key, e - 1, window); }
  }

  // ----- Phases -----

  function ScanPhase(): nat {
    0
  }

  function HotInsertPhase(interval: nat): nat {
    if interval / 3 > 1 then interval / 3 else 1
  }

  function ColdInsertPhase(interval: nat): nat {
    if 2 * interval / 3 > 2 then 2 * interval / 3 else 2
  }

  /** The three phases never coincide, so at most one step is due per access. */
  lemma PhasesDiffer(interval: nat)
    requires interval > 0
    ensures ScanPhase() < HotInsertPhase(interval) < ColdInsertPhase(interval)
  {
  }

  /** Each phase comes up in every period exactly when the interval is at least 3; for shorter
      intervals an insertion into the cold index never becomes due. */
  lemma PhasesComeUp(interval: nat)
    requires interval > 0
    ensures interval >= 3 <==> HotInsertPhase(interval) < interval && ColdInsertPhase(interval) < interval
    ensures interval < 3 ==> forall t: nat :: t % interval != ColdInsertPhase(interval)
  {
    forall t: nat | interval < 3 ensures t % interval != ColdInsertPhase(interval) {
      assert t % interval < interval;
    }
  }

  /** `interval` consecutive counts pass every phase. */
  lemma PhaseIsMet(from: nat, phase: nat, interval: nat) returns (t: nat)
    requires phase < interval
    ensures from <= t < from + interval && t % interval == phase
  {
    var r := from % interval;
    var q := from / interval;
    assert from == q * interval + r;
    if r <= phase {
      t := from + (phase - r);
      ModIs(q, phase, interval);
    } else {
      t := from + (interval - r) + phase;
      assert t == (q + 1) * interval + phase by { MulNext(q, interval); }
      ModIs(q + 1, phase, interval);
    }
  }

  /** A stretch of counts without the phase is shorter than the interval. */
  lemma PhaselessIsShort(from: nat, to: nat, phase: nat, interval: nat)
    requires phase < interval && from <= to && forall t: nat :: from <= t <= to ==> t % interval != phase
    ensures to - from <= interval - 2
  {
    if to - from > interval - 2 {
      var t := PhaseIsMet(from, phase, interval);
      assert false;
    }
  }

  lemma MulNext(q: nat, n: nat)
    ensures (q + 1) * n == q * n + n
  {
  }

  lemma ModIs(q: nat, r: nat, n: nat)
    requires r < n
    ensures (q * n + r) % n == r
  {
    var x := q * n + r;
    var q', r' := x / n, x % n;
    assert x == q' * n + r';
    if q' < q { MulNext(q', n); MulMonotone(q' + 1, q, n); assert false; }
    if q' > q { MulNext(q, n); MulMonotone(q + 1, q', n); assert false; }
  }

  // ----- The manager -----

  datatype CacheEntry = CacheEntry(key: int, fp: nat)

  datatype SwapState = Idle | HotPend | ColdPend

  /** `cache` with `entry` appended and the entry at `i` taken out. */
  function Admitted(cache: seq<CacheEntry>, entry: CacheEntry, i: nat): seq<CacheEntry>
    requires i <= |cache|
  {
    var all := cache + [entry];
    all[..i] + all[i + 1..]
  }

  /** `i` is the first entry of `all` with the largest (`most`) or smallest count. */
  ghost predicate FirstExtreme(all: seq<CacheEntry>, i: nat, most: bool) {
    && i < |all|
    && (forall j :: 0 <= j < |all| ==> if most then all[j].fp <= all[i].fp else all[i].fp <= all[j].fp)
    && (forall j :: 0 <= j < i ==> all[j].fp != all[i].fp)
  }

  class MaintenanceManager {
    const window: nat
    const swapInterval: nat

    var cache: seq<CacheEntry>
    var swapState: SwapState
    var obsEpoch: nat
    var totalAccesses: nat
    var scanPtr: int

    ghost predicate Valid()
      reads this
    {
      window > 0 && swapInterval > 0 && obsEpoch == totalAccesses / window
    }

    constructor (window: nat, swapInterval: nat)
      requires window > 0 && swapInterval > 0
      ensures Valid() && cache == [] && swapState == Idle && totalAccesses == 0 && scanPtr == -1
      ensures this.window == window && this.swapInterval == swapInterval
    {
      this.window, this.swapInterval := window, swapInterval;
      cache, swapState, obsEpoch, totalAccesses, scanPtr := [], Idle, 0, 0, -1;
    }

    method Tick()
      requires Valid()
      modifies `totalAccesses, `obsEpoch
      ensures Valid() && totalAccesses == old(totalAccesses) + 1
      ensures obsEpoch == EpochOf(old(totalAccesses), window) && obsEpoch >= old(obsEpoch)
    {
      DivMonotone(totalAccesses, totalAccesses + 1, window);
      totalAccesses := totalAccesses + 1;
      obsEpoch := totalAccesses / window;
    }

    predicate CanMaintain()
      reads this
    {
      totalAccesses > 0 && obsEpoch > 0
    }

    function Phase(): nat
      requires swapInterval > 0
      reads this
    {
      totalAccesses % swapInterval
    }

    predicate ShouldScan()
      requires swapInterval > 0
      reads this
    {
      CanMaintain() && Phase() == ScanPhase()
    }

    predicate ShouldHotInsert()
      requires swapInterval > 0
      reads this
    {
      CanMaintain() && Phase() == HotInsertPhase(swapInterval)
    }

    predicate ShouldColdInsert()
      requires swapInterval > 0
      reads this
    {
      CanMaintain() && Phase() == ColdInsertPhase(swapInterval)
    }

    /** At most one of the three maintenance steps is due. */
    lemma AtMostOneDue()
      requires swapInterval > 0
      ensures !(ShouldScan() && ShouldHotInsert())
      ensures !(ShouldScan() && ShouldColdInsert())
      ensures !(ShouldHotInsert() && ShouldColdInsert())
    {
      PhasesDiffer(swapInterval);
    }

    /** Some cached key is accessed less often than `fp`. */
    method ShouldPromote(fp: nat) returns (b: bool)
      ensures b <==> exists i :: 0 <= i < |cache| && cache[i].fp < fp
    {
      if cache == [] { return false; }
      var least := cache[0].fp;
      for i := 1 to |cache|
        invariant forall j :: 0 <= j < i ==> least <= cache[j].fp
        invariant exists j :: 0 <= j < i && cache[j].fp == least
      {
        if cache[i].fp < least { least := cache[i].fp; }
      }
      b := fp > least;
    }

    /** Some cached key is accessed more often than `fp`. */
    method ShouldDemoteCache(fp: nat) returns (b: bool)
      ensures b <==> exists i :: 0 <= i < |cache| && fp < cache[i].fp
    {
      if cache == [] { return false; }
      var most := cache[0].fp;
      for i := 1 to |cache|
        invariant forall j :: 0 <= j < i ==> cache[j].fp <= most
        invariant exists j :: 0 <= j < i && cache[j].fp == most
      {
        if cache[i].fp > most { most := cache[i].fp; }
      }
      b := fp < most;
    }

    /** Takes (`key`, `fp`) into the cache and evicts the most (`fromHot`) or least accessed
        entry, the earliest on a tie. */
    method CacheAdmit(key: int, fp: nat, fromHot: bool) returns (evicted: CacheEntry, ghost at: nat)
      modifies `cache
      ensures FirstExtreme(old(cache) + [CacheEntry(key, fp)], at, fromHot)
      ensures evicted == (old(cache) + [CacheEntry(key, fp)])[at]
      ensures cache == Admitted(old(cache), CacheEntry(key, fp), at) && |cache| == |old(cache)|
      ensures (exists i :: 0 <= i < |old(cache)| && if fromHot then fp < old(cache)[i].fp else old(cache)[i].fp < fp) ==>
                at < |old(cache)|
    {
      cache := cache + [CacheEntry(key, fp)];
      var idx := 0;
      for i := 1 to |cache|
        invariant idx < i && FirstExtreme(cache[..i], idx, fromHot)
      {
        if (fromHot && cache[i].fp > cache[idx].fp) || (!fromHot && cache[i].fp < cache[idx].fp) {
          idx := i;
        }
      }
      assert cache[..|cache|] == cache;
      evicted, at := cache[idx], idx;
      cache := cache[..idx] + cache[idx + 1..];
    }

    /** Records the count of a cached key. */
    method UpdateCacheFp(key: int, fp: nat)
      modifies `cache
      ensures |cache| == |old(cache)| && forall i :: 0 <= i < |cache| ==> cache[i].key == old(cache)[i].key
      ensures forall i :: 0 <= i < |cache| ==>
                cache[i].fp == if old(cache)[i].key == key && (forall j :: 0 <= j < i ==> old(cache)[j].key != key) then fp
                               else old(cache)[i].fp
    {
      for i := 0 to |cache|
        invariant cache == old(cache) && forall j :: 0 <= j < i ==> cache[j].key != key
      {
        if cache[i].key == key {
          cache := cache[i := CacheEntry(key, fp)];
          return;
        }
      }
    }
  }
}
