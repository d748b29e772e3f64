/** The tiered map without maintenance (tiered_omap): keys stay in their tier. An access is made
    step after step, or with the steps of all stores interleaved in common round trips. */
module StaticOmaps {
  import opened Common
  import opened Geometry
  import opened StashTrees
  import opened AvlTrees
  import opened AvlRep
  import opened AvlInit
  import opened AvlSteps
  import opened AvlSplits
  import opened AvlSteppers
  import opened PathOrams
  import opened TieredParts
  import opened TieredData

  /** The user's view: each key's block's value. */
  function Shown<V>(ids: Refs, c: map<int, V>): map<int, V> {
    map k | k in ids && ids[k] in c :: c[ids[k]]
  }

  /** Every key has a block, and no two share one. */
  ghost predicate OwnBlocks<V>(ids: Refs, c: map<int, V>) {
    && (forall k :: k in ids ==> ids[k] >= 0 && ids[k] in c)
    && (forall k, j :: k in ids && j in ids && k != j ==> ids[k] != ids[j])
  }

  /** The indexes share out the references, the hot ones being known. */
  ghost predicate Shared(ids: Refs, hot: Refs, cold: Refs, hotKeys: set<int>) {
    && (forall k :: k in hot <==> k in ids && k in hotKeys) && (forall k :: k in cold <==> k in ids && k !in hotKeys)
    && (forall k :: k in hot ==> hot[k] == ids[k]) && (forall k :: k in cold ==> cold[k] == ids[k])
  }

  /** The data after a block has been overwritten, if there is one to overwrite and a value. */
  function Overwritten<V>(c: map<int, V>, block: Option<int>, newValue: Option<V>): map<int, V> {
    if block.Some? && newValue.Some? && block.value in c then c[block.value := newValue.value] else c
  }

  /** The map after an access. */
  function Accessed<V>(m: map<int, V>, key: int, newValue: Option<V>): map<int, V> {
    if newValue.Some? && key in m then m[key := newValue.value] else m
  }

  /** What an access made step after step answers: the value before it. */
  function SequentialAnswer<V>(m: map<int, V>, key: int): Option<V> {
    if key in m then Some(m[key]) else None
  }

  /** What an interleaved access answers: the value after it. */
  function InterleavedAnswer<V>(m: map<int, V>, key: int, newValue: Option<V>): Option<V> {
    SequentialAnswer(Accessed(m, key, newValue), key)
  }

  /** The two differ exactly when a key's value is really changed. */
  lemma AnswersDiffer<V>(m: map<int, V>, key: int, newValue: Option<V>)
    ensures InterleavedAnswer(m, key, newValue) != SequentialAnswer(m, key)
       <==> key in m && newValue.Some? && newValue.value != m[key]
  {
  }

  function BlockOf(ids: Refs, key: int): Option<int> {
    if key in ids then Some(ids[key]) else None
  }

  lemma OverwrittenShown<V>(ids: Refs, c: map<int, V>, key: int, newValue: Option<V>)
    requires OwnBlocks(ids, c)
    ensures OwnBlocks(ids, Overwritten(c, BlockOf(ids, key), newValue))
    ensures Shown(ids, Overwritten(c, BlockOf(ids, key), newValue)) == Accessed(Shown(ids, c), key, newValue)
  {
    var after, expected := Shown(ids, Overwritten(c, BlockOf(ids, key), newValue)), Accessed(Shown(ids, c), key, newValue);
    forall k ensures k in after <==> k in expected {
    }
    forall k | k in after ensures after[k] == expected[k] {
    }
  }

  lemma ShownAt<V>(ids: Refs, c: map<int, V>, key: int)
    requires OwnBlocks(ids, c)
    ensures key in Shown(ids, c) <==> key in ids
    ensures key in ids ==> ids[key] >= 0 && ids[key] in c && Shown(ids, c)[key] == c[ids[key]]
  {
  }

  /** The loaded blocks show the data. */
  lemma LoadedBlocks<V>(data: Entries<V>, blocks: map<int, V>)
    requires Distinct(data) && forall j :: 0 <= j < |data| ==> j in blocks && blocks[j] == data[j].1
    ensures OwnBlocks(Numbered(data, |data|), blocks) && Shown(Numbered(data, |data|), blocks) == Assoc(data)
  {
    hide Assoc, Numbered, Distinct;
    var ids := Numbered(data, |data|);
    forall k | k in ids
      ensures 0 <= ids[k] < |data| && data[ids[k]].0 == k && ids[k] in blocks
      ensures k in Assoc(data) && blocks[ids[k]] == Assoc(data)[k]
    {
      var i := NumberedEntry(data, |data|, k);
    }
    NumberedKeys(data);
    var shown := Shown(ids, blocks);
    forall k ensures k in shown <==> k in Assoc(data) {
    }
  }

  lemma LoadedShares(hot: Refs, cold: Refs, ids: Refs, keys: set<int>)
    requires Selects(hot, ids, keys, true) && Selects(cold, ids, keys, false) && Within(hot, ids) && Within(cold, ids)
    ensures Shared(ids, hot, cold, keys)
  {
  }

  datatype Outcome<+V> = Outcome(value: Option<V>, rounds: nat, roundsToAnswer: nat)

  datatype DataStep = Idle | NeedRead | NeedWrite | Finished

  // ----- Two machines in step -----

  /** Two indexes without a common ORAM. */
  ghost predicate Unshared(a: SplitAvl<int>, b: SplitAvl<int>) {
    a != b && a.upper != b.upper && a.upper != b.lower && a.lower != b.upper && a.lower != b.lower
  }

  ghost predicate Unrelated(s: Stepper<int>, d: Stepper<int>) {
    s != d && Unshared(s.omap, d.omap)
  }

  /** Both machines that are not done choose their paths and get them. */
  method FetchBoth(s: Stepper<int>, d: Stepper<int>, sActive: bool, dActive: bool)
    requires Unrelated(s, d) && s.Between() && d.Between() && sActive == !s.StepDone() && dActive == !d.StepDone()
    modifies s`ss, s.omap.upper, s.omap.lower, d`ss, d.omap.upper, d.omap.lower
    ensures if sActive then s.Ready() else s.Between() && s.StepDone()
    ensures if dActive then d.Ready() else d.Between() && d.StepDone()
    ensures s.SameRequest() && d.SameRequest() && s.ss.ops == old(s.ss.ops) && d.ss.ops == old(d.ss.ops)
  {
    hide Stepper.Valid, PathNodes, Pow2;
    if sActive { s.NextRound(); }
    if dActive { d.NextRound(); }
    if sActive { s.ApplyReads(); }
    if dActive { d.ApplyReads(); }
  }

  /** They work on what they got. */
  method ProcessBoth(s: Stepper<int>, d: Stepper<int>, sActive: bool, dActive: bool)
    requires Unrelated(s, d) && (if sActive then s.Ready() else s.Between()) && (if dActive then d.Ready() else d.Between())
    modifies s, s.omap, s.omap.upper, s.omap.lower, d, d.omap, d.omap.upper, d.omap.lower
    ensures if sActive then s.InRound() else s.Between()
    ensures if dActive then d.InRound() else d.Between()
    ensures s.SameRequest() && s.ss.ops == old(s.ss.ops) + if sActive then 1 else 0
    ensures d.SameRequest() && d.ss.ops == old(d.ss.ops) + if dActive then 1 else 0
  {
    hide Stepper.Valid, PathNodes, Pow2, Stepper.Ready, Stepper.InRound, Stepper.Between;
    if sActive { s.Process(); }
    if dActive { d.Process(); }
  }

  /** And write it back. */
  method WriteBoth(s: Stepper<int>, d: Stepper<int>, sActive: bool, dActive: bool) returns (ok: bool)
    requires Unrelated(s, d) && (if sActive then s.InRound() else s.Between()) && (if dActive then d.InRound() else d.Between())
    modifies s.omap.upper, s.omap.lower, d.omap.upper, d.omap.lower
    ensures !ok ==> s.omap.Overfull() || d.omap.Overfull()
    ensures ok ==> s.Between() && d.Between()
  {
    hide Stepper.Valid, PathNodes, Pow2, Stepper.Ready, Stepper.InRound, Stepper.Between, StashTree.Overfull;
    ok := true;
    if sActive {
      ok := s.PrepareWrites();
      if !ok { return; }
    }
    if dActive {
      ok := d.PrepareWrites();
    }
  }

  /** The client's state of an interleaved access. */
  datatype Flow<+V> = Flow(dataStep: DataStep, padStep: DataStep, block: Option<int>, dataLeaf: nat, newLeaf: nat, padLeaf: nat,
                           value: Option<V>, rounds: nat, answerRound: nat)

  /** What it is about: the request, and the stores when it began. */
  datatype Request<V> = Request(key: int, newValue: Option<V>, before: map<int, V>, refs: Tree<int>, refBlocks: Cells<int>,
                          others: Tree<int>, otherBlocks: Cells<int>, search: nat, other: nat)

  /** The value of a block after the access. */
  ghost function ValueOf<V>(req: Request<V>, block: Option<int>): Option<V> {
    if block.Some? && block.value in req.before then Some(Overwritten(req.before, block, req.newValue)[block.value]) else None
  }

  function Least(a: nat, b: nat): nat {
    if a < b then a else b
  }

  /** Rounds of an access whose search takes `search` and whose dummy takes `other` rounds. */
  function TotalRounds(search: nat, other: nat, full: bool): nat {
    Max(search + 1 + if full then 1 else 0, other)
  }

  class StaticOmap<V> {
    const hot: SplitAvl<int>
    const cold: SplitAvl<int>
    const hotStep: Stepper<int>
    const coldStep: Stepper<int>
    const data: PathOram<V>
    // Whether accesses must not show in which tier a key is.
    const full: bool

    var physHot: set<int>
    ghost var ids: Refs

    ghost predicate Separate() {
      && Unshared(hot, cold) && DataApart(hot) && DataApart(cold)
      && hotStep != coldStep && hotStep.omap == hot && coldStep.omap == cold
    }

    ghost predicate DataApart(index: SplitAvl<int>) {
      index.upper as object != data.store as object && index.lower as object != data.store as object
    }

    ghost predicate IndexOk(index: SplitAvl<int>)
      reads index, index.upper, index.lower
    {
      index.Valid() && index.Foreign() == map[] && index.maxHeight > 0
    }

    ghost predicate Valid()
      reads this, hot, hot.upper, hot.lower, cold, cold.upper, cold.lower, data, data.store
    {
      && Separate() && IndexOk(hot) && IndexOk(cold) && data.Valid()
      && Shared(ids, hot.Map(), cold.Map(), physHot) && OwnBlocks(ids, data.Contents())
    }

    ghost function Map(): map<int, V>
      reads this, data, data.store
    {
      Shown(ids, data.Contents())
    }

    ghost predicate Overfull()
      reads hot.upper, hot.lower, cold.upper, cold.lower, data.store
    {
      hot.Overfull() || cold.Overfull() || data.store.Overfull()
    }

    constructor (hotCapacity: nat, hotHeight: nat, coldCapacity: nat, coldHeight: nat, coldSplit: nat, dataCapacity: nat,
                 bucketSize: nat, full: bool)
      requires hotCapacity < Fib(hotHeight + 3) - 1 && coldCapacity < Fib(coldHeight + 3) - 1
      requires hotHeight > 0 && coldHeight > 0
      ensures Valid() && Empty() && Map() == map[]
      ensures hot.capacity == hotCapacity && cold.capacity == coldCapacity && this.full == full
      ensures hot.splitDepth == 0 && cold.splitDepth == Min(coldSplit, coldHeight)
    {
      hide SplitAvl.Valid, SplitAvl.Map, SplitAvl.Foreign, PathOram.Valid, PathOram.Contents, Fib;
      var h := new SplitAvl<int>(hotCapacity, hotHeight, bucketSize, 0, 0);
      var c := new SplitAvl<int>(coldCapacity, coldHeight, bucketSize, coldSplit, hotCapacity);
      hotStep := new Stepper<int>(h);
      coldStep := new Stepper<int>(c);
      hot, cold := h, c;
      data := new PathOram<V>(dataCapacity, bucketSize, 7);
      this.full := full;
      physHot, ids := {}, map[];
    }

    // ----- Loading -----

    ghost predicate Empty()
      reads this, hot.upper, hot.lower, cold.upper, cold.lower
    {
      ids == map[] && hot.Content() == map[] && cold.Content() == map[]
    }

    /** Loads `allData`: references to the hot keys go to the hot index, the others to the cold one. */
    method Load(allData: Entries<V>, hotSeq: seq<int>)
      requires Valid() && Empty() && Distinct(allData) && (forall i :: 0 <= i < |allData| ==> allData[i].0 >= 0)
      requires forall i, j :: 0 <= i < j < |hotSeq| ==> hotSeq[i] != hotSeq[j]
      requires forall k :: k in KeySet(hotSeq) ==> k in Assoc(allData)
      requires |hotSeq| <= hot.capacity && |allData| - |hotSeq| <= cold.capacity
      modifies this, hot, hot.upper, hot.lower, cold, cold.upper, cold.lower, data, data.store
      ensures Valid() && Map() == Assoc(allData) && physHot == KeySet(hotSeq)
    {
      hide SplitAvl.Valid, SplitAvl.Map, SplitAvl.Foreign, PathOram.Valid, PathOram.Contents, Assoc, Numbered, KeySet, Distinct,
           Selects, Shown, OwnBlocks, Shared, Within;
      physHot := KeySet(hotSeq);
      var stored, hotRefs, coldRefs := Distribute(allData, physHot);
      var blocks := map j | j in stored :: stored[j].value;
      LoadedSizes(allData, hotSeq, hotRefs, coldRefs);
      LoadedKeys(allData, hotRefs, coldRefs, physHot);
      LoadedBlocks(allData, blocks);
      LoadedShares(Assoc(hotRefs), Assoc(coldRefs), Numbered(allData, |allData|), physHot);
      ids := Numbered(allData, |allData|);
      FillStores(blocks, hotRefs, coldRefs);
    }

    method FillStores(blocks: map<int, V>, hotRefs: Entries<int>, coldRefs: Entries<int>)
      requires Separate() && IndexOk(hot) && IndexOk(cold) && data.Valid() && hot.Content() == map[] && cold.Content() == map[]
      requires Distinct(hotRefs) && (forall i :: 0 <= i < |hotRefs| ==> hotRefs[i].0 >= 0) && |hotRefs| <= hot.capacity
      requires Distinct(coldRefs) && (forall i :: 0 <= i < |coldRefs| ==> coldRefs[i].0 >= 0) && |coldRefs| <= cold.capacity
      modifies hot, hot.upper, hot.lower, cold, cold.upper, cold.lower, data, data.store
      ensures IndexOk(hot) && hot.Map() == Assoc(hotRefs) && IndexOk(cold) && cold.Map() == Assoc(coldRefs)
      ensures data.Valid() && data.Contents() == blocks
    {
      hide SplitAvl.Valid, SplitAvl.Map, SplitAvl.Foreign, PathOram.Valid, PathOram.Contents, Assoc, Distinct;
      data.Init(blocks);
      hot.Init(hotRefs);
      cold.Init(coldRefs);
    }

    // ----- Step after step -----

    /** Reads a block and optionally overwrites it, or accesses a random path. */
    method DataAccess(block: Option<int>, newValue: Option<V>) returns (r: Result<Option<V>>)
      requires data.Valid() && (block.Some? ==> block.value in data.Contents())
      modifies data, data.store
      ensures r.Ok? ==> data.Valid() && data.Contents() == Overwritten(old(data.Contents()), block, newValue)
      ensures r.Ok? ==> r.value == if block.Some? then Some(old(data.Contents())[block.value]) else None
      ensures r.Err? ==> r.error == StashOverflow && data.store.Overfull()
    {
      hide PathOram.Valid, PathOram.Contents;
      if block.None? {
        var d := data.DummyAccess();
        return if d.Ok? then Ok(None) else Err(StashOverflow);
      }
      ghost var c := data.Contents();
      var read := data.Access(block.value, newValue);
      if read.Err? { assert read.error.StashOverflow?; return Err(StashOverflow); }
      assert newValue.None? ==> c[block.value := read.value] == c;
      r := Ok(Some(read.value));
    }

    method DataDummy() returns (ok: bool)
      requires data.Valid()
      modifies data.store
      ensures !ok ==> data.store.Overfull()
      ensures ok ==> data.Valid() && data.Contents() == old(data.Contents())
    {
      hide PathOram.Valid, PathOram.Contents;
      var d := data.DummyAccess();
      ok := d.Ok?;
    }

    /** A key of the hot tier: its index first, then the data, then dummies elsewhere. */
    method AccessHot(key: int, newValue: Option<V>) returns (r: Result<Option<V>>)
      requires Valid() && key in physHot
      modifies hot, hot.upper, hot.lower, cold, cold.upper, cold.lower, data, data.store
      ensures r.Ok? ==> Valid() && Map() == Accessed(old(Map()), key, newValue)
      ensures r.Ok? ==> r.value == SequentialAnswer(old(Map()), key)
      ensures r.Err? ==> r.error == StashOverflow && Overfull()
    {
      hide SplitAvl.Valid, SplitAvl.Map, SplitAvl.Foreign, PathOram.Valid, PathOram.Contents, Shown, OwnBlocks;
      ghost var c := data.Contents();
      OverwrittenShown(ids, c, key, newValue);
      ShownAt(ids, c, key);
      var found := hot.Search(key, None);
      if found.Err? { return Err(StashOverflow); }
      r := DataAccess(found.value, newValue);
      if r.Err? { return; }
      if full {
        var other := cold.DummyAccess();
        if other.Err? { return Err(StashOverflow); }
        var ok := DataDummy();
        if !ok { return Err(StashOverflow); }
      } else {
        var other := cold.PartialDummyAccess();
        if other.Err? { return Err(StashOverflow); }
      }
    }

    /** Any other key: dummies first, then the cold index and the data. */
    method AccessCold(key: int, newValue: Option<V>) returns (r: Result<Option<V>>)
      requires Valid() && key !in physHot
      modifies hot, hot.upper, hot.lower, cold, cold.upper, cold.lower, data, data.store
      ensures r.Ok? ==> Valid() && Map() == Accessed(old(Map()), key, newValue)
      ensures r.Ok? ==> r.value == SequentialAnswer(old(Map()), key)
      ensures r.Err? ==> r.error == StashOverflow && Overfull()
    {
      hide SplitAvl.Valid, SplitAvl.Map, SplitAvl.Foreign, PathOram.Valid, PathOram.Contents, Shown, OwnBlocks;
      ghost var c := data.Contents();
      OverwrittenShown(ids, c, key, newValue);
      ShownAt(ids, c, key);
      var other := hot.DummyAccess();
      if other.Err? { return Err(StashOverflow); }
      var found := cold.Search(key, None);
      if found.Err? { return Err(StashOverflow); }
      if full {
        var ok := DataDummy();
        if !ok { return Err(StashOverflow); }
      }
      r := DataAccess(found.value, newValue);
    }

    /** An access made step after step. Answers with the value before it. */
    method Access(key: int, newValue: Option<V>) returns (r: Result<Option<V>>)
      requires Valid()
      modifies hot, hot.upper, hot.lower, cold, cold.upper, cold.lower, data, data.store
      ensures r.Ok? ==> Valid() && Map() == Accessed(old(Map()), key, newValue)
      ensures r.Ok? ==> r.value == SequentialAnswer(old(Map()), key)
      ensures r.Err? ==> r.error == StashOverflow && Overfull()
    {
      hide Valid, Map;
      if key in physHot {
        r := AccessHot(key, newValue);
      } else {
        r := AccessCold(key, newValue);
      }
    }

    // ----- Interleaved -----

    /** The data store of an interleaved access: untouched, about to be fetched from, fetched and
        rewritten, or written back. */
    ghost predicate DataOk(f: Flow<V>, req: Request<V>)
      reads data, data.store
    {
      match f.dataStep
      case Idle => data.Valid() && data.Contents() == req.before
      case NeedRead =>
        && f.dataLeaf < data.store.Range() && data.store.pending == {} && data.Contents() == req.before
        && if f.block.None? then data.Valid()
           else f.block.value in req.before && data.Leaving(f.block.value, f.newLeaf)
                && data.store.content[f.block.value].leaf == f.dataLeaf
      case NeedWrite =>
        && data.Settled() && f.dataLeaf < data.store.Range()
        && data.store.pending == PathNodes(data.store.Range(), [f.dataLeaf])
        && data.Contents() == Overwritten(req.before, f.block, req.newValue)
      case Finished => data.Valid() && data.Contents() == Overwritten(req.before, f.block, req.newValue)
    }

    /** Chooses the data path once the reference is known. */
    method Locate(f: Flow<V>, ghost req: Request<V>, ref: Option<int>) returns (f': Flow<V>)
      requires f.dataStep == Idle && DataOk(f, req) && (ref.Some? ==> ref.value in req.before)
      modifies data
      ensures f' == f.(dataStep := NeedRead, block := ref, dataLeaf := f'.dataLeaf, newLeaf := f'.newLeaf)
      ensures DataOk(f', req)
    {
      hide PathOram.Contents, StashTree.Valid, Pow2;
      if ref.Some? {
        var oldLeaf, newLeaf := data.Depart(ref.value);
        f' := f.(dataStep := NeedRead, block := ref, dataLeaf := oldLeaf, newLeaf := newLeaf);
      } else {
        var leaf := data.store.RandomLeaf();
        f' := f.(dataStep := NeedRead, block := ref, dataLeaf := leaf);
      }
    }

    /** Fetches the data path and works on its block. */
    method ReadData(f: Flow<V>, newValue: Option<V>, ghost req: Request<V>) returns (f': Flow<V>)
      requires f.dataStep == NeedRead && DataOk(f, req) && newValue == req.newValue
      modifies data.store
      ensures f' == f.(dataStep := NeedWrite, value := f'.value) && DataOk(f', req)
      ensures f'.value == ValueOf(req, f.block)
    {
      hide StashTree.Valid, Pow2, PathNodes, PathSum, Restrict;
      data.store.ReadPaths([f.dataLeaf]);
      f' := f.(dataStep := NeedWrite, value := None);
      if f.block.Some? {
        assert data.Contents() == req.before;
        var value := data.Rewrite(f.block.value, f.newLeaf, newValue);
        f' := f'.(value := Some(value));
      }
    }

    /** Writes the data path back. */
    method WriteData(f: Flow<V>, ghost req: Request<V>) returns (ok: bool, f': Flow<V>)
      requires f.dataStep == NeedWrite && DataOk(f, req)
      modifies data.store
      ensures !ok ==> data.store.Overfull()
      ensures ok ==> f' == f.(dataStep := Finished) && DataOk(f', req)
    {
      hide StashTree.Valid, Pow2, PathNodes, PathOram.Contents;
      f' := f.(dataStep := Finished);
      ok := data.WriteBack(f.dataLeaf);
    }

    /** The dummy access to the data store: one path there and back. */
    method PadData(f: Flow<V>, ghost req: Request<V>) returns (ok: bool)
      requires f.dataStep == Finished && DataOk(f, req) && f.padLeaf < data.store.Range()
      modifies data.store
      ensures !ok ==> data.store.Overfull()
      ensures ok ==> DataOk(f, req)
    {
      hide StashTree.Valid, Pow2, PathNodes, PathSum, Restrict;
      data.store.ReadPaths([f.padLeaf]);
      ok := data.WriteBack(f.padLeaf);
    }

    /** The searching and the idle machine are running, `rounds` rounds after their beginning. */
    ghost predicate Machines(s: Stepper<int>, d: Stepper<int>, req: Request<V>, rounds: nat)
      reads s, s.omap, s.omap.upper, s.omap.lower, d, d.omap, d.omap.upper, d.omap.lower
    {
      && Unrelated(s, d)
      && s.Between() && s.trail.searching && s.ss.key == req.key && s.ss.update == None
      && s.trail.tree == req.refs && s.trail.blocks == req.refBlocks
      && d.Between() && !d.trail.searching && d.trail.tree == req.others && d.trail.blocks == req.otherBlocks
      && s.ss.ops == Least(rounds, s.Budget()) && d.ss.ops == Least(rounds, d.Budget())
      && s.Budget() == req.search > 0 && d.Budget() == req.other
    }

    /** How far the access is after so many rounds. */
    ghost predicate OnTime(f: Flow<V>, req: Request<V>, search: nat, other: nat) {
      && f.rounds <= TotalRounds(search, other, full)
      && f.dataStep == (if f.rounds < search then Idle else if f.rounds == search then NeedRead else Finished)
      && f.padStep == (if !full then Finished else if f.rounds <= search then Idle
                       else if f.rounds == search + 1 then NeedRead else Finished)
      && f.answerRound == (if f.rounds > search then search + 1 else 0)
      && (f.rounds > search ==> f.value == ValueOf(req, f.block))
      && (f.rounds >= search ==> f.block == Found(req.refs, req.key))
    }

    ghost predicate Going(s: Stepper<int>, d: Stepper<int>, f: Flow<V>, req: Request<V>)
      reads s, s.omap, s.omap.upper, s.omap.lower, d, d.omap, d.omap.upper, d.omap.lower, data, data.store
    {
      && DataApart(s.omap) && DataApart(d.omap)
      && (Found(req.refs, req.key).Some? ==> Found(req.refs, req.key).value in req.before)
      && Machines(s, d, req, f.rounds) && OnTime(f, req, req.search, req.other) && DataOk(f, req)
      && (f.padStep == NeedRead ==> f.padLeaf < data.store.Range())
    }

    /** What a round trip does to the client's state before the writes. */
    ghost predicate HalfRound(f: Flow<V>, f': Flow<V>, req: Request<V>, found: bool) {
      && f'.rounds == f.rounds && f'.padStep == f.padStep && f'.padLeaf == f.padLeaf
      && if f.dataStep == NeedRead then
           f'.dataStep == NeedWrite && f'.block == f.block && f'.value == ValueOf(req, f.block) && f'.answerRound == f.rounds
         else if found then
           f'.dataStep == NeedRead && f'.block == Found(req.refs, req.key) && f'.answerRound == f.answerRound
         else f' == f
    }

    /** And with them. */
    ghost predicate OtherHalf(f: Flow<V>, f': Flow<V>) {
      && f'.rounds == f.rounds && f'.block == f.block && f'.value == f.value && f'.answerRound == f.answerRound
      && f'.dataStep == (if f.dataStep == NeedWrite then Finished else f.dataStep)
      && f'.padStep == (if f.dataStep == NeedWrite && full && f.padStep == Idle then NeedRead
                        else if f.padStep == NeedRead then Finished else f.padStep)
    }

    lemma TimePasses(f: Flow<V>, half: Flow<V>, f': Flow<V>, req: Request<V>, search: nat, other: nat)
      requires OnTime(f, req, search, other) && f.rounds < TotalRounds(search, other, full) && search > 0
      requires HalfRound(f.(rounds := f.rounds + 1), half, req, f.rounds + 1 == search) && OtherHalf(half, f')
      ensures OnTime(f', req, search, other) && f'.rounds == f.rounds + 1
    {
      hide ValueOf, Found;
    }

    lemma OneRoundMore(s: Stepper<int>, d: Stepper<int>, req: Request<V>, rounds: nat)
      requires Machines(s, d, req, rounds)
      ensures s.Budget() > 0 && (s.StepDone() <==> rounds >= s.Budget()) && (d.StepDone() <==> rounds >= d.Budget())
      ensures Least(rounds + 1, s.Budget()) == s.ss.ops + (if s.StepDone() then 0 else 1)
      ensures Least(rounds + 1, d.Budget()) == d.ss.ops + (if d.StepDone() then 0 else 1)
    {
      hide Stepper.Valid, Stepper.Between, Stepper.Budget;
      Spent(s);
      Spent(d);
    }

    /** One round trip: every store that is not done fetches a path, works on it and writes it back. */
    method Round(s: Stepper<int>, d: Stepper<int>, f: Flow<V>, newValue: Option<V>, ghost req: Request<V>)
      returns (ok: bool, f': Flow<V>)
      requires Going(s, d, f, req) && f.rounds < TotalRounds(req.search, req.other, full) && newValue == req.newValue
      modifies s, s.omap, s.omap.upper, s.omap.lower, d, d.omap, d.omap.upper, d.omap.lower, data, data.store
      ensures ok ==> Going(s, d, f', req) && f'.rounds == f.rounds + 1
      ensures !ok ==> s.omap.Overfull() || d.omap.Overfull() || data.store.Overfull()
    {
      hide Stepper.Valid, Stepper.Ready, Stepper.InRound, Stepper.Between, StashTree.Overfull, DataOk, PathNodes, Pow2, Found,
           ValueOf, OnTime, OtherHalf, TotalRounds, Stepper.StepDone;
      f' := f.(rounds := f.rounds + 1);
      SameData(f, f', req);
      OneRoundMore(s, d, req, f.rounds);
      var sActive, dActive := !s.StepDone(), !d.StepDone();
      FetchBoth(s, d, sActive, dActive);
      ProcessBoth(s, d, sActive, dActive);
      if sActive { SpentInRound(s); }
      Due(f, req, req.search, req.other);
      f' := BeforeWrites(s, sActive, f', newValue, req);
      ghost var half := f';
      ok := WriteBoth(s, d, sActive, dActive);
      if !ok { return; }
      ok, f' := AfterWrites(f', f.padStep == NeedRead, req);
      if !ok { return; }
      TimePasses(f, half, f', req, req.search, req.other);
    }

    /** What is due in the next round. */
    lemma Due(f: Flow<V>, req: Request<V>, search: nat, other: nat)
      requires OnTime(f, req, search, other)
      ensures f.dataStep != NeedWrite && f.padStep != NeedWrite && (f.rounds < search ==> f.dataStep == Idle)
      ensures f.padStep == NeedRead ==> f.dataStep == Finished
    {
    }

    /** The data store's part of a round trip, up to the writes. */
    method BeforeWrites(s: Stepper<int>, sActive: bool, f: Flow<V>, newValue: Option<V>,
        ghost req: Request<V>) returns (f': Flow<V>)
      requires DataOk(f, req) && newValue == req.newValue && f.dataStep != NeedWrite
      requires sActive ==>
                f.dataStep == Idle && s.InRound() && s.trail.searching && s.trail.tree == req.refs && s.ss.key == req.key
      requires Found(req.refs, req.key).Some? ==> Found(req.refs, req.key).value in req.before
      modifies data, data.store
      ensures DataOk(f', req) && HalfRound(f, f', req, sActive && s.StepDone())
    {
      hide Stepper.Valid, DataOk, PathNodes, Pow2, Found, ValueOf;
      f' := f;
      if f.dataStep == NeedRead {
        f' := ReadData(f, newValue, req);
        SameData(f', f'.(answerRound := f'.rounds), req);
        f' := f'.(answerRound := f'.rounds);
      }
      if sActive && s.StepDone() {
        s.AnswerIsReady();
        f' := Locate(f', req, s.ss.result);
      }
    }

    /** The data store's writes; once the real path is back, the path of its dummy access is due. */
    method AfterWrites(f: Flow<V>, padRead: bool, ghost req: Request<V>) returns (ok: bool, f': Flow<V>)
      requires DataOk(f, req) && padRead == (f.padStep == NeedRead) && f.padStep != NeedWrite
      requires padRead ==> f.dataStep == Finished && f.padLeaf < data.store.Range()
      modifies data.store
      ensures !ok ==> data.store.Overfull()
      ensures ok ==> DataOk(f', req) && OtherHalf(f, f') && (f'.padStep == NeedRead ==> f'.padLeaf < data.store.Range())
    {
      hide DataOk, PathNodes, Pow2, StashTree.Overfull;
      ok, f' := true, f;
      if f'.dataStep == NeedWrite {
        ok, f' := WriteData(f', req);
        if !ok { return; }
        if full && f'.padStep == Idle {
          var leaf := data.store.RandomLeaf();
          SameData(f', f'.(padStep := NeedRead, padLeaf := leaf), req);
          f' := f'.(padStep := NeedRead, padLeaf := leaf);
        }
      }
      if padRead {
        ok := PadData(f', req);
        SameData(f', f'.(padStep := Finished), req);
        f' := f'.(padStep := Finished);
      }
    }

    lemma SameData(f: Flow<V>, f': Flow<V>, req: Request<V>)
      requires f'.dataStep == f.dataStep && f'.block == f.block && f'.dataLeaf == f.dataLeaf && f'.newLeaf == f.newLeaf
      ensures DataOk(f, req) ==> DataOk(f', req)
    {
    }

    lemma SpentInRound(s: Stepper<int>)
      requires s.InRound()
      ensures s.ss.ops <= s.Budget() && (s.StepDone() <==> s.ss.ops == s.Budget())
    {
      hide Stepper.Valid, PathNodes;
      s.OverWhenSpent();
    }

    lemma Spent(s: Stepper<int>)
      requires s.Between()
      ensures s.ss.ops <= s.Budget() && (s.StepDone() <==> s.ss.ops == s.Budget())
    {
      hide Stepper.Valid;
      s.OverWhenSpent();
    }

    /** Round trips until every store is done: as many as the slower of search and data, and dummy. */
    method RunRounds(s: Stepper<int>, d: Stepper<int>, first: Flow<V>, newValue: Option<V>, ghost req: Request<V>)
      returns (ok: bool, f: Flow<V>)
      requires Going(s, d, first, req) && newValue == req.newValue
      modifies s, s.omap, s.omap.upper, s.omap.lower, d, d.omap, d.omap.upper, d.omap.lower, data, data.store
      ensures ok ==> Going(s, d, f, req) && f.rounds == TotalRounds(req.search, req.other, full)
      ensures !ok ==> s.omap.Overfull() || d.omap.Overfull() || data.store.Overfull()
    {
      hide Going, StashTree.Overfull, Stepper.Budget;
      ok, f := true, first;
      RoundsLeft(s, d, f, req);
      while !(s.StepDone() && d.StepDone() && f.dataStep == Finished && f.padStep == Finished)
        invariant ok && Going(s, d, f, req) && f.rounds <= TotalRounds(req.search, req.other, full)
        decreases TotalRounds(req.search, req.other, full) - f.rounds
      {
        RoundsLeft(s, d, f, req);
        ok, f := Round(s, d, f, newValue, req);
        if !ok { return; }
        RoundsLeft(s, d, f, req);
      }
      RoundsLeft(s, d, f, req);
    }

    /** All stores are done exactly when the rounds are over. */
    lemma RoundsLeft(s: Stepper<int>, d: Stepper<int>, f: Flow<V>, req: Request<V>)
      requires Going(s, d, f, req)
      ensures f.rounds <= TotalRounds(req.search, req.other, full)
      ensures s.StepDone() && d.StepDone() && f.dataStep == Finished && f.padStep == Finished
         <==> f.rounds == TotalRounds(req.search, req.other, full)
    {
      hide Stepper.Valid, Stepper.Between, DataOk, PathNodes, Pow2, Found, Stepper.Budget, ValueOf;
      Spent(s);
      Spent(d);
    }

    /** Rounds of a dummy operation: all of them, or no more than it takes to hide the tier. */
    function DummyRounds(index: SplitAvl<int>): nat {
      if full || index.splitDepth == 0 then 3 * index.maxHeight else index.splitDepth + 1
    }

    /** Starts both machines. */
    method Begin(s: Stepper<int>, d: Stepper<int>, key: int, newValue: Option<V>) returns (f: Flow<V>, ghost req: Request<V>)
      requires Unrelated(s, d) && DataApart(s.omap) && DataApart(d.omap)
      requires s.omap.Valid() && s.omap.maxHeight > 0 && d.omap.Valid() && d.omap.maxHeight > 0 && data.Valid()
      requires key in s.omap.Map() ==> s.omap.Map()[key] in data.Contents()
      modifies s, s.omap, d, d.omap
      ensures Going(s, d, f, req)
      ensures req == Request(key, newValue, data.Contents(), old(s.omap.tree), old(s.omap.Content()), old(d.omap.tree),
                           old(d.omap.Content()), 3 * s.omap.maxHeight, DummyRounds(d.omap))
    {
      hide SplitAvl.Valid, Stepper.Between, PathOram.Valid, PathOram.Contents;
      req := Request(key, newValue, data.Contents(), s.omap.tree, s.omap.Content(), d.omap.tree, d.omap.Content(),
                     3 * s.omap.maxHeight, DummyRounds(d.omap));
      s.BeginSearch(key, None);
      if full { d.BeginDummy(); } else { d.BeginPartialDummy(); }
      f := Flow(Idle, if full then Idle else Finished, None, 0, 0, 0, None, 0, 0);
    }

    /** The stores after the last round. */
    method End(s: Stepper<int>, d: Stepper<int>, f: Flow<V>, ghost req: Request<V>)
      requires Going(s, d, f, req) && f.rounds == TotalRounds(req.search, req.other, full)
      ensures s.omap.Valid() && s.omap.tree == req.refs && s.omap.Foreign() == req.refBlocks - Keys(req.refs)
      ensures d.omap.Valid() && d.omap.tree == req.others && d.omap.Foreign() == req.otherBlocks - Keys(req.others)
      ensures data.Valid() && data.Contents() == Overwritten(req.before, Found(req.refs, req.key), req.newValue)
      ensures f.value == ValueOf(req, Found(req.refs, req.key)) && f.answerRound == req.search + 1
    {
      hide SplitAvl.Valid, SplitAvl.Foreign, Stepper.Between, PathOram.Valid, PathOram.Contents, Found, ValueOf, Keys;
      RoundsLeft(s, d, f, req);
      var ref := s.Finish();
      var nothing := d.Finish();
    }

    /** An access with the rounds of all stores in common round trips. Answers with the value after
        it, one round after the search is over. */
    method InterleavedAccess(key: int, newValue: Option<V>) returns (r: Result<Outcome<V>>)
      requires Valid()
      modifies hotStep, coldStep, hot, hot.upper, hot.lower, cold, cold.upper, cold.lower, data, data.store
      ensures r.Ok? ==> Valid() && Map() == Accessed(old(Map()), key, newValue)
      ensures r.Ok? ==> r.value.value == InterleavedAnswer(old(Map()), key, newValue)
      ensures r.Ok? ==>
                var search := if key in physHot then 3 * hot.maxHeight else 3 * cold.maxHeight;
                var other := if key in physHot then DummyRounds(cold) else DummyRounds(hot);
                r.value.rounds == TotalRounds(search, other, full) && r.value.roundsToAnswer == search + 1
      ensures r.Err? ==> r.error == StashOverflow && Overfull()
    {
      hide SplitAvl.Valid, PathOram.Valid, PathOram.Contents, Shown, OwnBlocks, Going, StashTree.Overfull, Contents, Keys,
           ValueOf;
      ghost var c := data.Contents();
      OverwrittenShown(ids, c, key, newValue);
      ShownAt(ids, c, key);
      var s, d := if key in physHot then hotStep else coldStep, if key in physHot then coldStep else hotStep;
      var f;
      ghost var req;
      f, req := Begin(s, d, key, newValue);
      var ok;
      ok, f := RunRounds(s, d, f, newValue, req);
      if !ok { return Err(StashOverflow); }
      End(s, d, f, req);
      assert Found(req.refs, key) == BlockOf(ids, key);
      AnswerShown(ids, req);
      r := Ok(Outcome(f.value, f.rounds, f.answerRound));
    }
  }

  /** The block's value after the access is what the map shows then. */
  lemma AnswerShown<V>(ids: Refs, req: Request<V>)
    requires OwnBlocks(ids, req.before)
    ensures ValueOf(req, BlockOf(ids, req.key)) == InterleavedAnswer(Shown(ids, req.before), req.key, req.newValue)
  {
    ShownAt(ids, req.before, req.key);
  }
}
