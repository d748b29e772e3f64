/** The enclave's tiered map without maintenance (tee_omap): a directory and an ORAM for the hot
    keys, an AVL map for the others. */
module TeeOmaps {
  import opened Common
  import opened Geometry
  import opened StashTrees
  import opened AvlTrees
  import opened AvlRep
  import opened AvlSearch
  import opened AvlRemoval
  import opened AvlInit
  import opened EnclaveSlots
  import opened EnclaveOrams
  import opened TeeAvls
  import opened TeeReach
  import opened PackedDirectories
  import Compaction

  /** The first response, sent before the cold tier is asked, and the final one. */
  datatype Answer<+V> = Answer(early: V, value: V, inHot: bool)

  /** The directory has every hot key at its block's leaf. Blocks with negative keys are padding. */
  ghost predicate InStep<V>(table: map<int, int>, blocks: map<int, Block<V>>) {
    && (forall k :: k in table <==> k >= 0 && k in blocks)
    && (forall k :: k in table ==> table[k] == blocks[k].leaf)
  }

  /** The entries in the hot tier. */
  ghost function HotEntries<V>(blocks: map<int, Block<V>>): map<int, V> {
    map k | k in blocks && k >= 0 :: blocks[k].value
  }

  /** The block of a hot key has been rewritten and moved. */
  lemma HotRewritten<V>(table: map<int, int>, blocks: map<int, Block<V>>, key: int, leaf: nat, value: V)
    requires InStep(table, blocks) && key in table
    ensures var blocks' := (blocks - {key})[key := Block(key, leaf, value)];
            InStep(table[key := leaf], blocks') && HotEntries(blocks') == HotEntries(blocks)[key := value]
            && table[key := leaf].Keys == table.Keys
  {
    var blocks' := (blocks - {key})[key := Block(key, leaf, value)];
    assert HotEntries(blocks').Keys == HotEntries(blocks)[key := value].Keys;
  }

  /** A padding block has been moved. */
  lemma PaddingMoved<V>(table: map<int, int>, blocks: map<int, Block<V>>, key: int, leaf: nat, value: V)
    requires InStep(table, blocks) && key < 0
    ensures var blocks' := (blocks - {key})[key := Block(key, leaf, value)];
            InStep(table, blocks') && HotEntries(blocks') == HotEntries(blocks)
  {
    var blocks' := (blocks - {key})[key := Block(key, leaf, value)];
    assert HotEntries(blocks').Keys == HotEntries(blocks).Keys;
  }

  // ----- Splitting the data -----

  /** The entries whose keys are in (`inside`) or outside `keys`. */
  function Chosen<V>(data: Entries<V>, keys: set<int>, inside: bool): Entries<V> {
    if data == [] then []
    else
      var n := |data| - 1;
      Chosen(data[..n], keys, inside) + (if (data[n].0 in keys) == inside then [data[n]] else [])
  }

  lemma {:induction false} ChosenIn<V>(data: Entries<V>, keys: set<int>, inside: bool)
    ensures forall x :: x in Chosen(data, keys, inside) <==> x in data && (x.0 in keys) == inside
  {
    if data != [] {
      var n := |data| - 1;
      ChosenIn(data[..n], keys, inside);
      assert data == data[..n] + [data[n]];
    }
  }

  lemma {:induction false} ChosenDistinct<V>(data: Entries<V>, keys: set<int>, inside: bool)
    requires Distinct(data)
    ensures Distinct(Chosen(data, keys, inside))
  {
    if data != [] {
      var n := |data| - 1;
      var before := data[..n];
      assert forall i :: 0 <= i < n ==> before[i].0 == data[i].0;
      ChosenDistinct(before, keys, inside);
      NotChosen(before, keys, inside, data[n].0);
    }
  }

  lemma {:induction false} NotChosen<V>(data: Entries<V>, keys: set<int>, inside: bool, key: int)
    requires forall i :: 0 <= i < |data| ==> data[i].0 != key
    ensures forall i :: 0 <= i < |Chosen(data, keys, inside)| ==> Chosen(data, keys, inside)[i].0 != key
  {
    if data != [] { NotChosen(data[..|data| - 1], keys, inside, key); }
  }

  lemma {:induction false} ChosenNatural<V>(data: Entries<V>, keys: set<int>, inside: bool)
    requires forall i :: 0 <= i < |data| ==> data[i].0 >= 0
    ensures forall i :: 0 <= i < |Chosen(data, keys, inside)| ==> Chosen(data, keys, inside)[i].0 >= 0
  {
    if data != [] { ChosenNatural(data[..|data| - 1], keys, inside); }
  }

  lemma PartOf<V>(data: Entries<V>, keys: set<int>, inside: bool)
    requires Distinct(data)
    ensures Distinct(Chosen(data, keys, inside))
    ensures forall k :: k in Assoc(Chosen(data, keys, inside)) <==> k in Assoc(data) && (k in keys) == inside
    ensures forall k :: k in Assoc(Chosen(data, keys, inside)) ==> Assoc(Chosen(data, keys, inside))[k] == Assoc(data)[k]
  {
    hide Assoc, Chosen;
    var part := Chosen(data, keys, inside);
    ChosenDistinct(data, keys, inside);
    ChosenIn(data, keys, inside);
    forall k | k in Assoc(part)
      ensures k in Assoc(data) && (k in keys) == inside && Assoc(part)[k] == Assoc(data)[k] {
      var i := AssocIndex(part, k);
      assert part[i] in part;
      var j :| 0 <= j < |data| && data[j] == part[i];
      AssocEntry(data, j);
    }
    forall k | k in Assoc(data) && (k in keys) == inside ensures k in Assoc(part) {
      var j := AssocIndex(data, k);
      assert data[j] in data;
      var i :| 0 <= i < |part| && part[i] == data[j];
      AssocEntry(part, i);
    }
  }

  /** The two parts hold all the data between them, and no key twice. */
  lemma PartsOf<V>(data: Entries<V>, keys: set<int>)
    requires Distinct(data)
    ensures Distinct(Chosen(data, keys, true)) && Distinct(Chosen(data, keys, false))
    ensures Assoc(Chosen(data, keys, false)) + Assoc(Chosen(data, keys, true)) == Assoc(data)
    ensures Assoc(Chosen(data, keys, true)).Keys == Assoc(data).Keys * keys
    ensures Assoc(Chosen(data, keys, true)).Keys !! Assoc(Chosen(data, keys, false)).Keys
  {
    hide Assoc, Chosen;
    PartOf(data, keys, true);
    PartOf(data, keys, false);
    Merged(Assoc(data), Assoc(Chosen(data, keys, true)), Assoc(Chosen(data, keys, false)), keys);
  }

  lemma Merged<V>(m: map<int, V>, a: map<int, V>, b: map<int, V>, keys: set<int>)
    requires forall k :: k in a <==> k in m && k in keys
    requires forall k :: k in b <==> k in m && k !in keys
    requires (forall k :: k in a ==> a[k] == m[k]) && (forall k :: k in b ==> b[k] == m[k])
    ensures b + a == m && a.Keys == m.Keys * keys && a.Keys !! b.Keys
  {
    forall k ensures k in (b + a).Keys <==> k in m.Keys {
    }
    forall k | k in m ensures (b + a)[k] == m[k] {
    }
    forall k ensures k in a.Keys <==> k in m.Keys * keys {
    }
    forall k ensures k in a.Keys ==> k !in b.Keys {
    }
  }

  /** Blocks that fill up the hot tier: they carry negative keys. */
  function WithPadding<V>(given: Entries<V>, n: nat, zero: V): Entries<V> {
    if n == 0 then given else WithPadding(given, n - 1, zero) + [(-(n as int), zero)]
  }

  lemma {:induction false} PaddingFacts<V>(given: Entries<V>, n: nat, zero: V)
    requires Distinct(given) && forall i :: 0 <= i < |given| ==> given[i].0 >= 0
    ensures Distinct(WithPadding(given, n, zero))
    ensures forall i :: 0 <= i < |WithPadding(given, n, zero)| ==> WithPadding(given, n, zero)[i].0 >= -(n as int)
    ensures forall x :: x in given <==> x in WithPadding(given, n, zero) && x.0 >= 0
  {
    if n > 0 {
      PaddingFacts(given, n - 1, zero);
      var before := WithPadding(given, n - 1, zero);
      assert forall x :: x in before <==> exists i :: 0 <= i < |before| && before[i] == x;
    }
  }

  /** The loaded hot tier holds the given entries, and `leaves` their positions. */
  lemma HotLoaded<V>(given: Entries<V>, all: Entries<V>, blocks: map<int, Block<V>>, leaves: map<int, nat>)
    requires Distinct(given) && Distinct(all) && forall x :: x in given <==> x in all && x.0 >= 0
    requires forall k :: k in leaves <==> exists i :: 0 <= i < |all| && all[i].0 == k
    requires forall k :: k in blocks <==> k in leaves && k != INVALID_KEY
    requires forall i :: 0 <= i < |all| && all[i].0 in blocks ==> blocks[all[i].0] == Block(all[i].0, leaves[all[i].0], all[i].1)
    ensures HotEntries(blocks) == Assoc(given)
    ensures forall k :: k in Assoc(given) <==> k in leaves && k >= 0
    ensures forall k :: k in Assoc(given) ==> k in blocks && blocks[k].leaf == leaves[k]
  {
    hide Assoc, HotEntries;
    forall k | k in Assoc(given) ensures k in leaves && k >= 0 && k in blocks && blocks[k] == Block(k, leaves[k],
        Assoc(given)[k]) {
      var i := AssocIndex(given, k);
      assert given[i] in given;
      var j :| 0 <= j < |all| && all[j] == given[i];
    }
    forall k | k in leaves && k >= 0 ensures k in Assoc(given) {
      var j :| 0 <= j < |all| && all[j].0 == k;
      assert all[j] in all;
      var i :| 0 <= i < |given| && given[i] == all[j];
      AssocEntry(given, i);
    }
    SameEntriesAs(blocks, Assoc(given));
  }

  lemma SameEntriesAs<V>(blocks: map<int, Block<V>>, m: map<int, V>)
    requires forall k :: k in m <==> k in blocks && k >= 0
    requires forall k :: k in m ==> blocks[k].value == m[k]
    ensures HotEntries(blocks) == m
  {
    forall k ensures k in HotEntries(blocks) <==> k in m {
    }
  }

  // ----- Accesses to a map -----

  /** What an access to `key` answers. */
  ghost function AnswerFor<V>(m: map<int, V>, key: int, inHot: bool, zero: V): Answer<V> {
    var value := if key in m then m[key] else zero;
    Answer(if inHot then value else zero, value, inHot)
  }

  /** The answers to a run of accesses to a map. */
  ghost function AnswersTo<V>(m: map<int, V>, requests: seq<(int, Option<V>)>, zero: V): seq<V> {
    if requests == [] then []
    else
      var n := |requests| - 1;
      AnswersTo(m, requests[..n], zero) + [AnswerFor(AfterAll(m, requests[..n]), requests[n].0, false, zero).value]
  }

  lemma SmallerSet(some: set<int>, k: int, all: set<int>)
    requires some <= all && k in all && k !in some
    ensures |some| < |all|
  {
    SubsetSize(some, all - {k});
  }

  lemma OneMore(i: nat, cost: nat)
    ensures (i + 1) * cost == i * cost + cost
  {
  }

  /** Updating the part that has the key updates the whole. */
  lemma MergedUpdate<V>(cold: map<int, V>, hot: map<int, V>, key: int, newValue: Option<V>)
    ensures newValue.Some? && key in hot ==> cold + hot[key := newValue.value] == (cold + hot)[key := newValue.value]
    ensures newValue.Some? && key !in hot && key in cold ==>
              cold[key := newValue.value] + hot == (cold + hot)[key := newValue.value]
  {
  }

  class TeeOmap<V> {
    const hot: EnclaveOram<V>
    const cold: TeeAvl<V>
    const dir: PackedDirectory
    // Whether accesses may show in which tier a key is.
    const tierMembership: bool
    const zero: V

    ghost predicate Separate() {
      && hot as object != cold.oram as object && hot as object != cold as object
      && cold as object != cold.oram as object && dir as object != cold as object
      && dir as object != hot as object && dir as object != cold.oram as object
    }

    /** The tiers are apart, and the search reaches every cold key. */
    ghost predicate Valid()
      reads hot, cold, cold.oram, dir, dir.entries
    {
      && Separate() && hot.Valid() && hot.padded && cold.Valid() && dir.Valid()
      && hot.zero == zero && cold.zero == zero
      && InStep(dir.Table(), hot.content) && (forall k :: k in dir.Table() ==> k !in cold.Map())
      && Height(cold.tree) <= cold.maxHeight
    }

    ghost function Map(): map<int, V>
      reads hot, cold
    {
      cold.Map() + HotEntries(hot.content)
    }

    constructor (hotSetSize: nat, totalKeys: nat, maxHeight: nat, bucketSize: nat, tierMembership: bool, zero: V)
      requires maxHeight > 0
      ensures Valid() && Empty() && dir.capacity == hotSetSize && cold.maxHeight == maxHeight
      ensures this.tierMembership == tierMembership && this.zero == zero
      ensures fresh(hot) && fresh(cold) && fresh(cold.oram) && fresh(dir) && fresh(dir.entries)
    {
      dir := new PackedDirectory(hotSetSize);
      hot := new EnclaveOram<V>(hotSetSize, bucketSize, 7, zero, true);
      cold := new TeeAvl<V>(totalKeys, maxHeight, bucketSize, zero);
      this.tierMembership, this.zero := tierMembership, zero;
      new;
      EmptyContents(cold.tree);
      assert Map() == map[];
    }

    /** Nothing has been loaded. */
    ghost predicate Empty()
      requires dir.Valid()
      reads hot, cold, dir, dir.entries
    {
      hot.content == map[] && cold.Map() == map[] && dir.Table() == map[]
    }

    ghost predicate Overfull()
      reads hot, cold.oram
    {
      hot.Overfull() || cold.oram.Overfull()
    }

    ghost function HotKeys(): set<int>
      requires Valid()
      reads hot, cold, cold.oram, dir, dir.entries
    {
      dir.Table().Keys
    }

    /** Node accesses that one access costs each tier. */
    ghost function HotCost(inHot: bool): nat {
      if tierMembership && !inHot then 0 else 2 * hot.level
    }

    ghost function ColdCost(inHot: bool): nat {
      if tierMembership && inHot then 0 else cold.Cost(3 * cold.maxHeight)
    }

    // ----- Loading -----

    method SplitTiers(allData: Entries<V>, keys: set<int>) returns (hotData: Entries<V>, coldData: Entries<V>)
      ensures hotData == Chosen(allData, keys, true) && coldData == Chosen(allData, keys, false)
    {
      hotData, coldData := [], [];
      for i := 0 to |allData|
        invariant hotData == Chosen(allData[..i], keys, true) && coldData == Chosen(allData[..i], keys, false)
      {
        assert allData[..i + 1][..i] == allData[..i];
        if allData[i].0 in keys {
          hotData := hotData + [allData[i]];
        } else {
          coldData := coldData + [allData[i]];
        }
      }
      assert allData[..|allData|] == allData;
    }

    /** Enters every loaded key into the empty directory. */
    method FillDirectory(leaves: map<int, nat>, ghost keys: set<int>)
      requires dir.Valid() && dir.Table() == map[] && |keys| <= dir.capacity
      requires forall k :: k in keys <==> k in leaves && k >= 0
      modifies dir, dir.entries
      ensures dir.Valid() && dir.Table().Keys == keys && forall k :: k in keys ==> dir.Table()[k] == leaves[k]
    {
      hide Positions, CountUsed, Clean;
      var todo := leaves.Keys;
      while todo != {}
        invariant todo <= leaves.Keys && dir.Valid()
        invariant forall k :: k in dir.Table() <==> k in keys && k !in todo
        invariant forall k :: k in dir.Table() ==> dir.Table()[k] == leaves[k]
        decreases todo
      {
        var k := Pick(todo);
        if k >= 0 {
          dir.SizeIsRight();
          forall x ensures x in dir.Table().Keys ==> x in keys {
          }
          SmallerSet(dir.Table().Keys, k, keys);
          var ok := dir.Insert(k, leaves[k]);
        }
        todo := todo - {k};
      }
      forall x ensures x in dir.Table().Keys <==> x in keys {
      }
    }

    /** Loads the hot tier, filled up with padding, and the directory. */
    method LoadHot(given: Entries<V>)
      requires Separate() && hot.Valid() && hot.padded && dir.Valid() && hot.content == map[] && dir.Table() == map[]
      requires Distinct(given) && (forall i :: 0 <= i < |given| ==> given[i].0 >= 0) && |given| <= dir.capacity
      modifies hot, dir, dir.entries
      ensures hot.Valid() && dir.Valid() && InStep(dir.Table(), hot.content)
      ensures HotEntries(hot.content) == Assoc(given) && dir.Table().Keys == Assoc(given).Keys
    {
      hide EnclaveOram.Valid, HotEntries, Positions, CountUsed, Clean, Assoc, WithPadding;
      AssocSize(given);
      assert |Assoc(given).Keys| == |Assoc(given)|;
      var all := AddPadding(given);
      PaddingFacts(given, dir.capacity - |given|, zero);
      var leaves := hot.Init(all, map[]);
      HotLoaded(given, all, hot.content, leaves);
      FillDirectory(leaves, Assoc(given).Keys);
      InStepFrom(dir.Table(), hot.content, leaves, Assoc(given).Keys);
    }

    lemma InStepFrom(table: map<int, int>, blocks: map<int, Block<V>>, leaves: map<int, nat>, keys: set<int>)
      requires table.Keys == keys && (forall k :: k in keys <==> k in leaves && k >= 0)
      requires forall k :: k in keys ==> k in blocks && blocks[k].leaf == leaves[k] && table[k] == leaves[k]
      requires forall k :: k in blocks <==> k in leaves && k != INVALID_KEY
      ensures InStep(table, blocks)
    {
      forall k ensures k in table <==> k >= 0 && k in blocks {
        assert k in table <==> k in keys;
      }
      forall k | k in table ensures table[k] == blocks[k].leaf {
        assert k in keys;
      }
    }

    method LoadCold(given: Entries<V>)
      requires cold.Valid() && cold.Map() == map[] && Distinct(given) && forall i :: 0 <= i < |given| ==> given[i].0 >= 0
      requires |given| < Fib(cold.maxHeight + 3) - 1
      modifies cold, cold.oram
      ensures cold.Valid() && cold.Map() == Assoc(given) && Height(cold.tree) <= cold.maxHeight
    {
      hide TeeAvl.Valid, TeeAvl.Map, Height, Balanced, Size, Fib, Assoc, HalvingHeight;
      cold.Init(given);
      BalancedHeight(cold.tree, cold.maxHeight);
    }

    /** Loads the data of the hot keys into the hot tier and the rest into the cold one. */
    method Init(allData: Entries<V>, keys: set<int>)
      requires Valid() && Empty() && Distinct(allData) && forall i :: 0 <= i < |allData| ==> allData[i].0 >= 0
      requires |Chosen(allData, keys, true)| <= dir.capacity
      requires |Chosen(allData, keys, false)| < Fib(cold.maxHeight + 3) - 1
      modifies hot, cold, cold.oram, dir, dir.entries
      ensures Valid() && Map() == Assoc(allData) && HotKeys() == Assoc(allData).Keys * keys
    {
      hide EnclaveOram.Valid, TeeAvl.Valid, TeeAvl.Map, HotEntries, Positions, CountUsed, Clean, Height, Fib, Assoc, Chosen,
           InStep;
      var given, coldData := SplitTiers(allData, keys);
      PartsOf(allData, keys);
      ChosenNatural(allData, keys, true);
      ChosenNatural(allData, keys, false);
      LoadHot(given);
      LoadCold(coldData);
      assert forall k :: k in dir.Table() ==> k in Assoc(given).Keys;
    }

    method AddPadding(given: Entries<V>) returns (all: Entries<V>)
      requires |given| <= dir.capacity
      ensures all == WithPadding(given, dir.capacity - |given|, zero)
    {
      all := given;
      for i := 0 to dir.capacity - |given|
        invariant all == WithPadding(given, i, zero)
      {
        all := all + [(-(i + 1), zero)];
      }
    }

    // ----- One access -----

    /** The hot tier reads, rewrites and moves the block of a hot key, or does the same accesses on
        a random path. */
    method ServeHot(key: int, hit: bool, pos: int, newValue: Option<V>) returns (ok: bool, value: V)
      requires Separate() && hot.Valid() && hot.padded && dir.Valid() && InStep(dir.Table(), hot.content)
      requires (hit <==> key in dir.Table()) && (hit ==> pos == dir.Table()[key])
      modifies hot, dir.entries
      ensures hot.Valid() && dir.Valid() && InStep(dir.Table(), hot.content) && dir.Table().Keys == old(dir.Table().Keys)
      ensures hit ==> value == old(HotEntries(hot.content))[key]
      ensures HotEntries(hot.content) == if hit && newValue.Some? then old(HotEntries(hot.content))[key := newValue.value]
                                         else old(HotEntries(hot.content))
      ensures hot.nodeAccesses == old(hot.nodeAccesses) + 2 * hot.level && (!ok ==> hot.Overfull())
    {
      hide Holding, WellPlaced, LeavesOk, OnPath, Pow2, InStep, HotEntries, Positions, CountUsed, Clean;
      ghost var c, table := hot.content, dir.Table();
      StepFacts(table, c, key);
      var newLeaf := hot.RandomLeaf();
      var dummyLeaf := hot.RandomLeaf();
      var useLeaf := if hit then pos else dummyLeaf;
      var nodes := hot.ReadPath(useLeaf);
      if hit {
        ghost var at := DrainedIsStashed(hot.stash, hot.tree, hot.content, hot.Range(), hot.bucketSize, useLeaf, key);
        hot.KeyedAt(c, key);
      }
      var block := hot.ExtractFromStash(if hit then key else -2);
      value := block.value;
      var back := if hit && newValue.Some? then newValue.value else block.value;
      hot.AddToStash(if hit then key else block.key, newLeaf, back);
      ok := hot.EvictOnePath(useLeaf);
      var found := dir.UpdatePos(key, if hit then newLeaf else INVALID_LEAF);
      if hit {
        HotRewritten(table, c, key, newLeaf, back);
      } else if block.Real() {
        PaddingMoved(table, c, -2, newLeaf, back);
      }
    }

    /** The cold tier looks a key up, or does the same accesses for nothing. */
    method ServeCold(key: int, wanted: bool, newValue: Option<V>) returns (r: Result<V>)
      requires cold.Valid() && cold.zero == zero && Height(cold.tree) <= cold.maxHeight
      modifies cold, cold.oram
      ensures r.Ok? ==> cold.Valid() && Height(cold.tree) <= cold.maxHeight
      ensures r.Ok? ==> r.value == if wanted && key in old(cold.Map()) then old(cold.Map())[key] else zero
      ensures r.Ok? ==> cold.Map() == if wanted && key in old(cold.Map()) && newValue.Some? then
                                        old(cold.Map())[key := newValue.value] else old(cold.Map())
      ensures r.Ok? ==> cold.oram.nodeAccesses == old(cold.oram.nodeAccesses) + cold.Cost(3 * cold.maxHeight)
      ensures r.Err? ==> r.error == StashOverflow && cold.oram.Overfull()
    {
      hide Height, Depth, Keys, Contents, Ordered, Stored, EnclaveOram.Valid, Balanced;
      ReachExact(cold.tree, cold.maxHeight);
      ContentsKeys(cold.tree);
      var found;
      r, found := cold.SearchOrDummy(key, wanted, newValue, None);
    }

    /** Returns a key's value, or zeros, and then replaces it if a new one is given. The first
        response is already right for a hot key. Without `tierMembership` both tiers do the same
        number of node accesses whatever the key; with it, only the one that has the key does. */
    method Access(key: int, newValue: Option<V>) returns (r: Result<Answer<V>>)
      requires Valid()
      modifies hot, cold, cold.oram, dir.entries
      ensures r.Ok? ==> Valid() && HotKeys() == old(HotKeys())
      ensures r.Ok? ==> r.value == AnswerFor(old(Map()), key, key in old(HotKeys()), zero)
      ensures r.Ok? ==> Map() == if newValue.Some? && key in old(Map()) then old(Map())[key := newValue.value] else old(Map())
      ensures r.Ok? ==> hot.nodeAccesses == old(hot.nodeAccesses) + HotCost(key in old(HotKeys()))
      ensures r.Ok? ==> cold.oram.nodeAccesses == old(cold.oram.nodeAccesses) + ColdCost(key in old(HotKeys()))
      ensures r.Err? ==> r.error == StashOverflow && Overfull()
    {
      hide EnclaveOram.Valid, TeeAvl.Valid, TeeAvl.Map, InStep, HotEntries, Positions, CountUsed, Clean, Height, Pow2,
           TeeAvl.Cost;
      ghost var m, hotMap, coldMap, table := Map(), HotEntries(hot.content), cold.Map(), dir.Table();
      StepFacts(table, hot.content, key);
      var pos := dir.Lookup(key);
      PositionsAreLeaves(table, hot.content);
      var hit := pos != INVALID_LEAF;
      var early := zero;
      if !(tierMembership && !hit) {
        var ok, hotValue := ServeHot(key, hit, pos, newValue);
        if !ok { return Err(StashOverflow); }
        early := if hit then hotValue else zero;
      }
      var value := early;
      if !(tierMembership && hit) {
        var served := ServeCold(key, !hit, newValue);
        if served.Err? { return Err(StashOverflow); }
        value := if hit then value else served.value;
      }
      MergedUpdate(coldMap, hotMap, key, newValue);
      r := Ok(Answer(early, value, hit));
    }

    /** Every hot key is in that tier alone, in the stash or on the path that the directory names. */
    lemma HotKeyIsOnItsPath(key: int)
      requires Valid() && key in HotKeys()
      ensures 0 <= dir.Table()[key] < hot.Range() && key in HotEntries(hot.content) && key !in cold.Map()
      ensures || (exists i :: 0 <= i < |hot.stash| && hot.stash[i].Real() && AsBlock(hot.stash[i]) == hot.content[key])
              || (exists i, j :: 0 <= i < |hot.tree| && 0 <= j < |hot.tree[i]| && hot.tree[i][j].Real()
                                 && AsBlock(hot.tree[i][j]) == hot.content[key] && OnPath(hot.Range(), dir.Table()[key], i))
    {
      hide TeeAvl.Valid, TeeAvl.Map, Holding, WellPlaced, LeavesOk, Positions, CountUsed, Clean, Pow2, OnPath;
      StepFacts(dir.Table(), hot.content, key);
      BlockOnPath(hot.stash, hot.tree, hot.content, hot.Range(), hot.bucketSize, key);
    }

    lemma PositionsAreLeaves(table: map<int, int>, blocks: map<int, Block<V>>)
      requires InStep(table, blocks)
      ensures forall k :: k in table ==> table[k] != INVALID_LEAF
    {
    }

    /** Any run of accesses. The answers depend on the map alone, not on the tiers or the mode. */
    method AccessAll(requests: seq<(int, Option<V>)>) returns (ok: bool, answers: seq<V>)
      requires Valid()
      modifies hot, cold, cold.oram, dir.entries
      ensures !ok ==> Overfull()
      ensures ok ==> Valid() && HotKeys() == old(HotKeys())
      ensures ok ==> answers == AnswersTo(old(Map()), requests, zero) && Map() == AfterAll(old(Map()), requests)
      ensures ok && !tierMembership ==>
                && hot.nodeAccesses == old(hot.nodeAccesses) + |requests| * (2 * hot.level)
                && cold.oram.nodeAccesses == old(cold.oram.nodeAccesses) + |requests| * cold.Cost(3 * cold.maxHeight)
    {
      hide Valid, Map, EnclaveOram.Valid, TeeAvl.Valid, TeeAvl.Map, Positions, CountUsed, Clean, TeeAvl.Cost;
      ghost var m := Map();
      ok, answers := true, [];
      for i := 0 to |requests|
        invariant ok && Valid() && HotKeys() == old(HotKeys())
        invariant answers == AnswersTo(m, requests[..i], zero) && Map() == AfterAll(m, requests[..i])
        invariant !tierMembership ==>
                    && hot.nodeAccesses == old(hot.nodeAccesses) + i * (2 * hot.level)
                    && cold.oram.nodeAccesses == old(cold.oram.nodeAccesses) + i * cold.Cost(3 * cold.maxHeight)
      {
        assert requests[..i + 1][..i] == requests[..i];
        OneMore(i, 2 * hot.level);
        OneMore(i, cold.Cost(3 * cold.maxHeight));
        var r := Access(requests[i].0, requests[i].1);
        if r.Err? { return false, answers; }
        answers := answers + [r.value.value];
      }
      assert requests[..|requests|] == requests;
    }

    lemma StepFacts(table: map<int, int>, blocks: map<int, Block<V>>, key: int)
      requires InStep(table, blocks)
      ensures key in table ==> key >= 0 && key in blocks && table[key] == blocks[key].leaf
                               && key in HotEntries(blocks) && HotEntries(blocks)[key] == blocks[key].value
      ensures HotEntries(blocks).Keys == table.Keys
    {
    }
  }
}
