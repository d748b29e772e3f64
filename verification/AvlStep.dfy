/** The AVL map's step machine (avl_omap): a search or a dummy operation cut into rounds of one path
    fetch each, so that the rounds of several stores can share their round trips. The map may be
    split between two ORAMs. */
module AvlSteppers {
  import opened Common
  import opened Geometry
  import opened StashTrees
  import opened AvlTrees
  import opened AvlLocal
  import opened AvlRep
  import opened AvlZip
  import opened AvlClimb
  import opened AvlDescend
  import opened AvlShrink
  import opened AvlSearch
  import opened AvlInit
  import opened AvlSteps
  import opened AvlSplits

  datatype StepPhase = Traverse | Pad | Done

  /** The client's state of a running operation. */
  datatype StepState<+V> = StepState(phase: StepPhase, key: int, update: Option<V>, curKey: int, curLeaf: int, depth: nat,
                                     ops: nat, budget: nat, padRemaining: nat, dummyStep: nat, dummyBoundary: nat, inUpper: bool,
                                     leaf: nat, result: Option<V>)

  /** At the root of the tree. */
  function AtRoot<V>(key: int, update: Option<V>, rootKey: int, rootLeaf: int, budget: nat): StepState<V> {
    StepState(Traverse, key, update, rootKey, rootLeaf, 0, 0, budget, 0, 0, 0, false, 0, None)
  }

  /** With dummy rounds alone, the first `boundary` of them in the upper ORAM. */
  function Padding<V>(key: int, update: Option<V>, budget: nat, boundary: nat): StepState<V> {
    StepState(Pad, key, update, INVALID_KEY, INVALID_LEAF, 0, 0, budget, budget, 0, boundary, false, 0, None)
  }

  /** What it is about: whether it is a search, the tree, the blocks and the keys of both ORAMs when it
      began, the path that has been fetched since, and the subtree below it. */
  datatype Trail<V> = Trail(searching: bool, tree: Tree<V>, blocks: Cells<V>, up: set<int>, low: set<int>,
                            fs: seq<Frame<V>>, rest: Tree<V>)

  /** What the client holds of the map. */
  datatype Hand<V> = Hand(local: Local<V>, rootKey: int, rootLeaf: int, maxHeight: nat, capacity: nat, split: nat)

  /** On the way down: the path so far is in the list, and the next node is pointed at. */
  ghost predicate OnTheWay<V>(ss: StepState<V>, tr: Trail<V>, h: Hand<V>, b: Cells<V>) {
    && tr.searching && ss.result == None
    && PathTaken(h.local, tr.fs, tr.rest, b, tr.blocks)
    && ss.depth == |tr.fs| == ss.ops < h.maxHeight && tr.rest.Node? && RootRight(ss.curKey, ss.curLeaf, tr.rest, b)
    && StrictPath(tr.fs, ss.key) && Plug(tr.fs, tr.rest) == tr.tree && Height(tr.rest) <= h.maxHeight - ss.depth
    && (ss.depth > 0 ==> tr.fs[0].key == h.rootKey) && Layered(tr.rest, ss.depth, h.split, tr.up, tr.low)
  }

  /** The dummy rounds that are left in the upper ORAM are those that its share lacks. */
  predicate OnSchedule<V>(ss: StepState<V>, split: nat) {
    if ss.dummyStep < ss.dummyBoundary then ss.ops + ss.dummyBoundary == split + ss.dummyStep else ss.ops >= split
  }

  /** No node is in the list, and the blocks hold the tree. */
  ghost predicate Resting<V>(t: Tree<V>, blocks: Cells<V>, h: Hand<V>, b: Cells<V>) {
    && h.local == [] && Stored(t, b) && RootRight(h.rootKey, h.rootLeaf, t, b)
    && b - Keys(t) == blocks - Keys(t)
  }

  /** The tree is one that the map can hold. */
  ghost predicate Holdable<V>(t: Tree<V>, h: Hand<V>) {
    && Avl(t) && (forall k :: k in Keys(t) ==> k >= 0)
    && Size(t) <= h.capacity < Fib(h.maxHeight + 3) - 1 && h.maxHeight > 0 && h.rootKey == RootKey(t) && h.split <= h.maxHeight
  }

  /** And each of its nodes is in the ORAM of its depth. */
  ghost predicate Fits<V>(t: Tree<V>, tr: Trail<V>, h: Hand<V>) {
    Holdable(t, h) && Layered(t, 0, h.split, tr.up, tr.low)
  }

  /** What the operation will answer. */
  ghost function Found<V>(t: Tree<V>, key: int): Option<V> {
    if key in Contents(t) then Some(Contents(t)[key]) else None
  }

  /** The tree that the operation leaves: a search with an update rewrites the key's value. */
  ghost function Goal<V>(ss: StepState<V>, tr: Trail<V>): Tree<V> {
    if tr.searching && ss.update.Some? && ss.key in Contents(tr.tree) then Update(tr.tree, ss.key, ss.update.value) else tr.tree
  }

  /** The tree at this point of the operation. */
  ghost function TreeNow<V>(ss: StepState<V>, tr: Trail<V>): Tree<V> {
    if ss.phase == Traverse then tr.tree else Goal(ss, tr)
  }

  /** What every step of an operation keeps. */
  ghost predicate Running<V>(ss: StepState<V>, tr: Trail<V>, h: Hand<V>, b: Cells<V>) {
    && Fits(tr.tree, tr, h) && Fits(TreeNow(ss, tr), tr, h)
    && (ss.budget == 3 * h.maxHeight || (!tr.searching && ss.budget == h.split + 1))
    && if ss.phase == Traverse then OnTheWay(ss, tr, h, b)
       else
         && Resting(Goal(ss, tr), tr.blocks, h, b) && ss.ops + ss.padRemaining == ss.budget
         && (ss.padRemaining == 0 <==> ss.phase == Done) && OnSchedule(ss, h.split)
         && (tr.searching ==> ss.result == Found(tr.tree, ss.key))
  }

  /** An operation is over exactly when its budget is spent. */
  lemma DoneWhenSpent<V>(ss: StepState<V>, tr: Trail<V>, h: Hand<V>, b: Cells<V>)
    requires Running(ss, tr, h, b)
    ensures ss.ops <= ss.budget && (ss.phase == Done <==> ss.ops == ss.budget)
  {
    hide PathTaken, Plug, StrictPath, Height, Keys, Resting, Fib, Found, Size, Avl, Layered;
  }

  /** Whether a round goes to the upper ORAM depends on its number alone. */
  predicate UpperRound<V>(ss: StepState<V>, split: nat) {
    if ss.phase == Traverse then ss.depth < split else split > 0 && ss.dummyStep < ss.dummyBoundary
  }

  lemma UpperFirst<V>(ss: StepState<V>, tr: Trail<V>, h: Hand<V>, b: Cells<V>)
    requires Running(ss, tr, h, b) && ss.phase != Done
    ensures UpperRound(ss, h.split) <==> ss.ops < h.split
  {
    hide PathTaken, Plug, StrictPath, Height, Keys, Resting, Fib, Found, Size, Avl, Layered;
  }

  lemma SearchBegins<V>(t: Tree<V>, h: Hand<V>, b: Cells<V>, key: int, update: Option<V>, up: set<int>, low: set<int>)
    requires Holdable(t, h) && Resting(t, b, h, b) && Layered(t, 0, h.split, up, low)
    ensures Running(if h.rootKey == INVALID_KEY then Padding(key, update, 3 * h.maxHeight, h.split)
                    else AtRoot(key, update, h.rootKey, h.rootLeaf, 3 * h.maxHeight), Trail(true, t, b, up, low, [], t), h, b)
    ensures h.rootKey == INVALID_KEY ==> Contents(t) == map[]
  {
    hide PathTaken, Plug, StrictPath, Keys, Stored, Fib, Contents, Size, Ordered, Balanced, Height, Layered;
    RootMissing(t);
    StartTaken(t, b);
    TreeFits(t, h.capacity, h.maxHeight);
  }

  lemma StartTaken<V>(t: Tree<V>, b: Cells<V>)
    requires Ordered(t) && Stored(t, b) && forall k :: k in Keys(t) ==> k >= 0
    ensures PathTaken([], [], t, b, b) && Plug([], t) == t && forall key :: StrictPath<V>([], key)
  {
    ZipStart(t, b);
    assert b - {} == b;
  }

  /** The node that a round fetches on the way down. */
  function Fetched<V>(ss: StepState<V>, h: Hand<V>, block: Block<AvlNode<V>>): LocalNode<V> {
    LocalNode(ss.curKey, block.leaf, block.value, if h.local == [] then INVALID_KEY else h.local[|h.local| - 1].key)
  }

  /** The trail one node further down, towards the key. */
  function Further<V>(tr: Trail<V>, key: int): Trail<V>
    requires tr.rest.Node?
  {
    var left := key <= tr.rest.key;
    tr.(fs := tr.fs + [Step(tr.rest, left)], rest := Child(tr.rest, left))
  }

  /** The search stops at this node: it is the key's, or the last that there is time for. */
  predicate Stops<V>(ss: StepState<V>, n: AvlNode<V>, maxHeight: nat) {
    ss.key == ss.curKey || ss.depth >= maxHeight - 1 || (if ss.key < ss.curKey then n.lKey else n.rKey) == INVALID_KEY
  }

  /** The list with the new value in its last node, if that is the one that is looked for. */
  function WithValue<V>(ss: StepState<V>, s: Local<V>): Local<V>
    requires |s| > 0
  {
    if ss.key == ss.curKey && ss.update.Some? then SetData(s, ss.update.value) else s
  }

  function PathWithValue<V>(ss: StepState<V>, fs: seq<Frame<V>>): seq<Frame<V>>
    requires |fs| > 0
  {
    if ss.key == ss.curKey && ss.update.Some? then SetValue(fs, ss.update.value) else fs
  }

  lemma OnlyFurther<V>(ss: StepState<V>, tr: Trail<V>, h: Hand<V>, b: Cells<V>)
    requires Running(ss, tr, h, b) && ss.phase == Traverse
    ensures tr.rest.Node? && tr.searching && ss.result == None && ss.budget == 3 * h.maxHeight
    ensures ss.ops < h.maxHeight && h.split <= h.maxHeight && Fits(tr.tree, tr, h)
    ensures var tr' := Further(tr, ss.key); tr' == tr.(fs := tr'.fs, rest := tr'.rest) && |tr'.fs| > 0
  {
    hide PathTaken, Plug, StrictPath, Height, Keys, Layered, Fib, Size, Ordered, Balanced, Step, Child, RootRight;
  }

  lemma NoValue<V>(ss: StepState<V>, s: Local<V>, n: AvlNode<V>, maxHeight: nat)
    requires |s| > 0 && !Stops(ss, n, maxHeight)
    ensures WithValue(ss, s) == s
  {
  }

  /** A round on the way down, as far as the list and the blocks go. */
  lemma FetchedTaken<V>(ss: StepState<V>, tr: Trail<V>, h: Hand<V>, b: Cells<V>)
    requires Holdable(tr.tree, h) && OnTheWay(ss, tr, h, b) && Keyed(b)
    ensures ss.curKey == tr.rest.key && ss.curKey in b
    ensures if ss.depth < h.split then ss.curKey in tr.up && ss.curKey !in tr.low else ss.curKey in tr.low && ss.curKey !in tr.up
    ensures var n, tr' := Fetched(ss, h, b[ss.curKey]), Further(tr, ss.key);
            && PathTaken(h.local + [n], tr'.fs, tr'.rest, b - {ss.curKey}, tr.blocks) && n.avl.data == tr.rest.value
            && |tr'.fs| > 0 && tr'.fs[0].key == h.rootKey && Plug(tr'.fs, tr'.rest) == tr.tree
            && Height(tr'.rest) <= h.maxHeight - ss.depth - 1 && Layered(tr'.rest, ss.depth + 1, h.split, tr.up, tr.low)
            && (ss.key != ss.curKey ==> StrictPath(tr'.fs, ss.key))
            && (ss.key == ss.curKey ==> Lookup(tr.tree, ss.key) == Some(tr.rest.value))
            && RootRight(if ss.key <= ss.curKey then n.avl.lKey else n.avl.rKey,
                         if ss.key <= ss.curKey then n.avl.lLeaf else n.avl.rLeaf, tr'.rest, b - {ss.curKey})
  {
    hide PathTaken, Plug, StrictPath, Keys, Contents, Ordered, Balanced, Size, Fib, Stored, Step, Child;
    var left := ss.key <= ss.curKey;
    LayeredChild(tr.rest, ss.depth, h.split, tr.up, tr.low, left);
    TakenParent(h.local, tr.fs, tr.rest, b, tr.blocks);
    PullTaken(h.local, tr.fs, tr.rest, b, tr.blocks, left);
    SearchStep(tr.fs, tr.rest, tr.tree, ss.key, None, left);
  }

  /** If the search goes on, it is still on its way. */
  lemma GoesOn<V>(ss: StepState<V>, tr: Trail<V>, h: Hand<V>, b: Cells<V>)
    requires Running(ss, tr, h, b) && ss.phase == Traverse && Keyed(b) && ss.curKey in b
    requires !Stops(ss, b[ss.curKey].value, h.maxHeight)
    ensures var n := Fetched(ss, h, b[ss.curKey]);
            var ss' := ss.(curKey := if ss.key < ss.curKey then n.avl.lKey else n.avl.rKey,
                           curLeaf := if ss.key < ss.curKey then n.avl.lLeaf else n.avl.rLeaf,
                           depth := ss.depth + 1, ops := ss.ops + 1);
            tr.rest.Node? && Running(ss', Further(tr, ss.key), h.(local := h.local + [n]), b - {ss.curKey})
  {
    hide PathTaken, Plug, StrictPath, Keys, Contents, Ordered, Balanced, Size, Fib, Stored, Height;
    FetchedTaken(ss, tr, h, b);
  }

  /** If it stops, the answer is known, and the path with the new value in it holds the goal. */
  lemma StopsRight<V>(ss: StepState<V>, tr: Trail<V>, h: Hand<V>, b: Cells<V>)
    requires Running(ss, tr, h, b) && ss.phase == Traverse && Keyed(b) && ss.curKey in b
    requires Stops(ss, b[ss.curKey].value, h.maxHeight)
    ensures (if ss.key == ss.curKey then Some(b[ss.curKey].value.data) else None) == Found(tr.tree, ss.key)
    ensures tr.rest.Node?
    ensures var tr', local' := Further(tr, ss.key), h.local + [Fetched(ss, h, b[ss.curKey])];
            var fs, s := PathWithValue(ss, tr'.fs), WithValue(ss, local');
            && PathTaken(s, fs, tr'.rest, b - {ss.curKey}, tr.blocks) && Plug(fs, tr'.rest) == Goal(ss, tr)
            && |fs| > 0 && fs[0].key == h.rootKey && Fits(Goal(ss, tr), tr, h)
  {
    hide PathTaken, Plug, StrictPath, Keys, Contents, Ordered, Size, Fib, Stored, Balanced, Update, Step, Child, Lookup, Layered;
    FetchedTaken(ss, tr, h, b);
    var tr', n := Further(tr, ss.key), Fetched(ss, h, b[ss.curKey]);
    var found := ss.key == ss.curKey;
    if tr'.rest.Node? { RootOnPath(tr'.fs, tr'.rest); }
    var f, fs := Step(tr.rest, ss.key <= tr.rest.key), tr'.fs;
    SearchStep(tr.fs, tr.rest, tr.tree, ss.key, ss.update, ss.key <= tr.rest.key);
    if found && ss.update.Some? {
      TakenSetData(h.local + [n], tr.fs, f, tr'.rest, b - {ss.curKey}, tr.blocks, ss.update.value);
      fs := SetValue(tr'.fs, ss.update.value);
      assert fs[0].key == tr'.fs[0].key;
    }
    SearchEnds(fs, tr'.rest, tr.tree, ss.key, ss.update, found, if found then Some(n.avl.data) else None,
               h.maxHeight - ss.depth - 1);
    if found && ss.update.Some? {
      UpdateHolds(tr.tree, ss.key, ss.update.value, h);
      LayeredUpdate(tr.tree, 0, h.split, tr.up, tr.low, ss.key, ss.update.value);
    }
  }

  /** An update keeps the tree within what the map can hold. */
  lemma UpdateHolds<V>(t: Tree<V>, key: int, value: V, h: Hand<V>)
    requires Holdable(t, h)
    ensures Holdable(Update(t, key, value), h)
  {
    hide Fib, Ordered, Balanced, Size, Keys;
    UpdateShape(t, key, value);
    UpdateRootKey(t, key, value);
  }

  lemma UpdateRootKey<V>(t: Tree<V>, key: int, value: V)
    ensures RootKey(Update(t, key, value)) == RootKey(t)
  {
  }

  class Stepper<V> {
    const omap: SplitAvl<V>
    var ss: StepState<V>
    ghost var trail: Trail<V>

    ghost function InHand(): Hand<V>
      reads omap
    {
      Hand(omap.local, omap.rootKey, omap.rootLeaf, omap.maxHeight, omap.capacity, omap.splitDepth)
    }

    /** So far, either ORAM has had its part of the rounds. */
    ghost predicate Counted()
      reads this, omap
    {
      omap.upperOps == Min(ss.ops, omap.splitDepth) && omap.upperOps + omap.lowerOps == ss.ops
    }

    /** An operation is running. */
    ghost predicate Valid()
      reads this, omap, omap.upper, omap.lower
    {
      && omap.AtHome(trail.up, trail.low) && Counted() && omap.tree == TreeNow(ss, trail)
      && Running(ss, trail, InHand(), omap.Content())
    }

    /** Between two rounds. */
    ghost predicate Between()
      reads this, omap, omap.upper, omap.lower
    {
      Valid() && omap.upper.pending == {} && omap.lower.pending == {}
    }

    /** The ORAM of this round. */
    function RoundOram(): StashTree<AvlNode<V>>
      reads this
    {
      if ss.inUpper then omap.upper else omap.lower
    }

    /** The path of this round has been fetched and not yet been written back. */
    ghost predicate InRound()
      reads this, omap, omap.upper, omap.lower
    {
      && Valid() && ss.leaf < RoundOram().Range() && RoundOram().pending == PathNodes(RoundOram().Range(), [ss.leaf])
      && (if ss.inUpper then omap.lower else omap.upper).pending == {}
    }

    /** Between fetching the path of this round and working on it. */
    ghost predicate Ready()
      reads this, omap, omap.upper, omap.lower
    {
      && InRound() && ss.phase != Done
      && (ss.phase == Traverse ==> NextIsAt() && RoundOram().content[ss.curKey] in RoundOram().stash)
    }

    /** The node pointed at is in the ORAM of this round. */
    ghost predicate NextIsAt()
      reads this, omap.upper, omap.lower
    {
      ss.curKey in RoundOram().content && (ss.inUpper <==> ss.depth < omap.splitDepth)
    }

    function Budget(): nat
      reads this
    {
      ss.budget
    }

    /** The rounds change neither what is asked nor the tree. */
    twostate predicate SameRequest()
      reads this
    {
      && ss.key == old(ss.key) && ss.update == old(ss.update) && ss.budget == old(ss.budget)
      && trail == old(trail).(fs := trail.fs, rest := trail.rest)
    }

    constructor (omap: SplitAvl<V>)
      ensures this.omap == omap
    {
      this.omap := omap;
      ss := StepState(Done, 0, None, 0, 0, 0, 0, 0, 0, 0, 0, false, 0, None);
      trail := Trail(false, Nil, map[], {}, {}, [], Nil);
    }

    lemma OverWhenSpent()
      requires Valid()
      ensures ss.ops <= Budget() && (ss.phase == Done <==> ss.ops == Budget())
    {
      hide Running, SplitAvl.AtHome;
      DoneWhenSpent(ss, trail, InHand(), omap.Content());
    }

    /** What a map at rest offers to an operation. */
    lemma MapAtRest()
      requires omap.Valid() && omap.maxHeight > 0
      ensures omap.upper.Valid() && omap.lower.Valid() && omap.upper.pending == {} && omap.lower.pending == {}
      ensures omap.Separate() && omap.local == [] && Holdable(omap.tree, InHand())
      ensures Resting(omap.tree, omap.Content(), InHand(), omap.Content())
      ensures Layered(omap.tree, 0, omap.splitDepth, omap.upper.content.Keys, omap.lower.content.Keys)
      ensures Remaining(omap.upper.content.Keys, omap.upper.content.Keys, omap.local, 0)
      ensures Remaining(omap.lower.content.Keys, omap.lower.content.Keys, omap.local, 0)
    {
      hide StashTree.Valid, Keys, Stored, Fib, Size, Ordered, Balanced, Layered;
    }

    method BeginSearch(key: int, update: Option<V>)
      requires omap.Valid() && omap.maxHeight > 0
      modifies this, omap`local, omap`upperOps, omap`lowerOps
      ensures Between() && trail.searching && ss.key == key && ss.update == update && ss.ops == 0
      ensures Budget() == 3 * omap.maxHeight
      ensures trail.tree == omap.tree && trail.blocks == omap.Content()
    {
      hide SplitAvl.Valid, StashTree.Valid, Running, Resting, Holdable, Contents, Update, Layered, Remaining, SplitAvl.Content;
      MapAtRest();
      SearchBegins(omap.tree, InHand(), omap.Content(), key, update, omap.upper.content.Keys, omap.lower.content.Keys);
      omap.local, omap.upperOps, omap.lowerOps := [], 0, 0;
      if omap.rootKey == INVALID_KEY {
        ss := Padding(key, update, 3 * omap.maxHeight, omap.splitDepth);
      } else {
        ss := AtRoot(key, update, omap.rootKey, omap.rootLeaf, 3 * omap.maxHeight);
      }
      trail := Trail(true, omap.tree, omap.Content(), omap.upper.content.Keys, omap.lower.content.Keys, [], omap.tree);
    }

    /** A dummy operation of the full budget. */
    method BeginDummy()
      requires omap.Valid() && omap.maxHeight > 0
      modifies this, omap`local, omap`upperOps, omap`lowerOps
      ensures Between() && !trail.searching && ss.ops == 0 && Budget() == 3 * omap.maxHeight
      ensures trail.tree == omap.tree && trail.blocks == omap.Content()
    {
      BeginPadding(3 * omap.maxHeight);
    }

    /** One of the upper ORAM's share and a single round in the lower one, if the map is split. */
    method BeginPartialDummy()
      requires omap.Valid() && omap.maxHeight > 0
      modifies this, omap`local, omap`upperOps, omap`lowerOps
      ensures Between() && !trail.searching && ss.ops == 0
      ensures Budget() == if omap.splitDepth == 0 then 3 * omap.maxHeight else omap.splitDepth + 1
      ensures trail.tree == omap.tree && trail.blocks == omap.Content()
    {
      BeginPadding(if omap.splitDepth == 0 then 3 * omap.maxHeight else omap.splitDepth + 1);
    }

    method BeginPadding(budget: nat)
      requires omap.Valid() && omap.maxHeight > 0
      requires budget == 3 * omap.maxHeight || (omap.splitDepth > 0 && budget == omap.splitDepth + 1)
      modifies this, omap`local, omap`upperOps, omap`lowerOps
      ensures Between() && !trail.searching && ss.ops == 0 && Budget() == budget
      ensures trail.tree == omap.tree && trail.blocks == omap.Content()
    {
      hide SplitAvl.Valid, StashTree.Valid, Resting, Holdable, Layered, Remaining, SplitAvl.Content;
      MapAtRest();
      omap.local, omap.upperOps, omap.lowerOps := [], 0, 0;
      ss := Padding(INVALID_KEY, None, budget, omap.splitDepth);
      trail := Trail(false, omap.tree, omap.Content(), omap.upper.content.Keys, omap.lower.content.Keys, [], omap.tree);
    }

    /** Chooses the path of the next round: that of the next node, or a random one. The first rounds,
        as many as the split is deep, go to the upper ORAM and all others to the lower one. */
    method NextRound()
      requires Valid() && ss.phase != Done
      modifies `ss
      ensures Valid() && SameRequest() && ss.phase == old(ss.phase) && ss.ops == old(ss.ops)
      ensures ss.leaf < RoundOram().Range() && (ss.inUpper <==> ss.ops < omap.splitDepth)
      ensures ss.phase == Traverse ==> NextIsAt() && RoundOram().content[ss.curKey].leaf == ss.leaf
    {
      hide PathTaken, Plug, StrictPath, Height, Resting, Holdable, Found, StashTree.Valid, Pow2, Layered, FromHome, Remaining;
      UpperFirst(ss, trail, InHand(), omap.Content());
      if ss.phase == Traverse {
        NextHome();
        ss := ss.(leaf := ss.curLeaf, inUpper := ss.depth < omap.splitDepth);
      } else {
        var inUpper := omap.splitDepth > 0 && ss.dummyStep < ss.dummyBoundary;
        var leaf := (if inUpper then omap.upper else omap.lower).RandomLeaf();
        ss := ss.(leaf := leaf, inUpper := inUpper);
      }
    }

    /** Where the next node is. */
    lemma NextHome()
      requires Valid() && ss.phase == Traverse
      ensures var oram := if ss.depth < omap.splitDepth then omap.upper else omap.lower;
              ss.curKey in oram.content && ss.curLeaf == oram.content[ss.curKey].leaf && ss.curLeaf < oram.Range()
    {
      hide PathTaken, Plug, StrictPath, Height, Resting, Holdable, Found, Holds, Placed, Keyed, Pow2;
      RootIsKey(trail.rest);
    }

    /** The path arrives. */
    method ApplyReads()
      requires Between() && ss.leaf < RoundOram().Range() && ss.phase != Done
      requires ss.phase == Traverse ==> NextIsAt() && RoundOram().content[ss.curKey].leaf == ss.leaf
      modifies RoundOram()
      ensures Ready() && RoundOram().content == old(RoundOram().content) && RoundOram().fetches == old(RoundOram().fetches) + 1
    {
      hide StashTree.Valid, Running, PathNodes, PathSum, Pow2, Restrict;
      RoundOram().ReadPaths([ss.leaf]);
    }

    /** Works on what has arrived. At the end of the way down the list goes back to the stash. */
    method Process()
      requires Ready()
      modifies this, omap, omap.upper, omap.lower
      ensures InRound() && SameRequest() && ss.ops == old(ss.ops) + 1 && omap.Fetches() == old(omap.Fetches())
    {
      hide StashTree.Valid, Running, PathNodes, Pow2, FromHome, Remaining;
      if ss.phase == Traverse {
        GoDown();
      } else {
        PadOne(ss, trail, InHand(), omap.Content());
        ss := ss.(ops := ss.ops + 1, dummyStep := ss.dummyStep + 1, padRemaining := ss.padRemaining - 1);
        if omap.splitDepth > 0 && ss.dummyStep <= ss.dummyBoundary {
          omap.upperOps := omap.upperOps + 1;
        } else {
          omap.lowerOps := omap.lowerOps + 1;
        }
        if ss.padRemaining == 0 { ss := ss.(phase := Done); }
      }
    }

    /** Takes the node that has arrived into the list; goes on, or writes the list back. */
    method GoDown()
      requires Ready() && ss.phase == Traverse
      modifies this, omap, omap.upper, omap.lower
      ensures InRound() && SameRequest() && ss.ops == old(ss.ops) + 1 && omap.Fetches() == old(omap.Fetches())
    {
      hide StashTree.Valid, PathNodes, Pow2, Running, Holdable, OnTheWay, Found, PathTaken, Plug, Keys, Stored, Ordered,
           Lookup, Height, StrictPath, Stops, Goal, FromHome, Remaining, Fits, WithValue, Further;
      ghost var h, b := InHand(), omap.Content();
      Facts();
      FetchedTaken(ss, trail, h, b);
      var block := TakeOut();
      PutValue();
      Proceed(block.value, h, b);
    }

    /** The fetched node has been taken into the list; `h` and `b` are what it was before. */
    ghost predicate Taken(n: AvlNode<V>, h: Hand<V>, b: Cells<V>)
      reads this, omap, omap.upper, omap.lower
    {
      && ss.phase == Traverse && Running(ss, trail, h, b) && omap.tree == TreeNow(ss, trail)
      && Keyed(b) && ss.curKey in b && n == b[ss.curKey].value && omap.Content() == b - {ss.curKey}
      && omap.AtHome(trail.up, trail.low) && omap.local == WithValue(ss, h.local + [Fetched(ss, h, b[ss.curKey])])
      && InHand() == h.(local := omap.local)
      && omap.upperOps == Min(ss.ops + 1, omap.splitDepth) && omap.upperOps + omap.lowerOps == ss.ops + 1
    }

    /** Goes on below the node in the list, or ends the way down. */
    method Proceed(n: AvlNode<V>, ghost h: Hand<V>, ghost b: Cells<V>)
      requires Taken(n, h, b)
      modifies this, omap`local, omap`rootLeaf, omap`tree, omap.upper, omap.lower
      ensures Valid() && SameRequest() && ss.ops == old(ss.ops) + 1 && ss.leaf == old(ss.leaf) && ss.inUpper == old(ss.inUpper)
      ensures omap.upper.pending == old(omap.upper.pending) && omap.upper.fetches == old(omap.upper.fetches)
      ensures omap.lower.pending == old(omap.lower.pending) && omap.lower.fetches == old(omap.lower.fetches)
    {
      hide StashTree.Valid, Running, Holdable, OnTheWay, Found, PathTaken, Plug, Keys, Stored, Ordered, Stops, Goal, Fits,
           WithValue, PathWithValue, Further, SplitAvl.AtHome;
      ghost var was, tr := ss, trail;
      OnlyFurther(was, tr, h, b);
      var ends;
      ss, ends := AfterNode(ss, n, omap.maxHeight);
      trail := Further(tr, was.key);
      if ends {
        StopsRight(was, tr, h, b);
        trail := trail.(fs := PathWithValue(was, trail.fs));
        EndDescent(was, tr, h);
      } else {
        NoValue(was, h.local + [Fetched(was, h, b[was.curKey])], n, omap.maxHeight);
        GoesOn(was, tr, h, b);
      }
    }

    /** Writes the new value into the node that was fetched, if it is the one that is looked for. */
    method PutValue()
      requires omap.AtHome(trail.up, trail.low) && |omap.local| > 0
      modifies omap`local
      ensures omap.AtHome(trail.up, trail.low) && omap.local == WithValue(ss, old(omap.local))
    {
      hide StashTree.Valid, FromHome, Remaining;
      if ss.key == ss.curKey && ss.update.Some? {
        DataHome(omap.local, ss.update.value, omap.splitDepth, trail.up, trail.low, omap.upper.content.Keys,
                 omap.lower.content.Keys);
        omap.local := SetData(omap.local, ss.update.value);
      }
    }

    /** Takes the block that has arrived into the list. */
    method TakeOut() returns (block: Block<AvlNode<V>>)
      requires omap.AtHome(trail.up, trail.low) && Counted() && ss.phase == Traverse && NextIsAt()
      requires RoundOram().content[ss.curKey] in RoundOram().stash
      requires |omap.local| == ss.depth == ss.ops
      requires if ss.depth < omap.splitDepth then ss.curKey in trail.up else ss.curKey in trail.low
      modifies omap`local, omap`upperOps, omap`lowerOps, RoundOram()
      ensures omap.AtHome(trail.up, trail.low) && RoundOram().pending == old(RoundOram().pending)
      ensures RoundOram().fetches == old(RoundOram().fetches)
      ensures ss.curKey in old(omap.Content()) && block == old(omap.Content())[ss.curKey]
      ensures omap.Content() == old(omap.Content()) - {ss.curKey}
      ensures omap.local == old(omap.local) + [Fetched(ss, old(InHand()), block)]
      ensures omap.upperOps == Min(ss.ops + 1, omap.splitDepth) && omap.upperOps + omap.lowerOps == ss.ops + 1
    {
      hide StashTree.Valid, FromHome, Remaining;
      ghost var s, upNow, lowNow := omap.local, omap.upper.content.Keys, omap.lower.content.Keys;
      BlockKeyed(RoundOram(), ss.curKey);
      var taken := RoundOram().ExtractFromStash(ss.curKey);
      block := taken.value;
      var parent := if |omap.local| == 0 then INVALID_KEY else omap.local[|omap.local| - 1].key;
      var n := LocalNode(ss.curKey, block.leaf, block.value, parent);
      FromHomeMore(upNow, trail.up, lowNow, trail.low, s, n, omap.splitDepth);
      omap.local := omap.local + [n];
      if ss.depth < omap.splitDepth { omap.upperOps := omap.upperOps + 1; } else { omap.lowerOps := omap.lowerOps + 1; }
    }

    /** The list goes back to the stashes at the end of the way down. */
    method EndDescent(ghost was: StepState<V>, ghost tr: Trail<V>, ghost h: Hand<V>)
      requires omap.Descended(trail.fs, trail.rest, tr.blocks, trail.up, trail.low)
      requires trail == tr.(fs := trail.fs, rest := trail.rest) && tr.searching
      requires Plug(trail.fs, trail.rest) == Goal(was, tr) && Fits(tr.tree, tr, h) && Fits(Goal(was, tr), tr, h)
      requires |trail.fs| > 0 && trail.fs[0].key == h.rootKey && InHand() == h.(local := omap.local)
      requires ss.key == was.key && ss.update == was.update && ss.result == Found(tr.tree, was.key)
      requires 0 < ss.ops <= ss.budget == 3 * omap.maxHeight && omap.splitDepth <= omap.maxHeight
      requires omap.upperOps == Min(ss.ops, omap.splitDepth) && omap.upperOps + omap.lowerOps == ss.ops
      modifies this`ss, omap`local, omap`rootLeaf, omap`tree, omap.upper, omap.lower
      ensures omap.upper.pending == old(omap.upper.pending) && omap.upper.fetches == old(omap.upper.fetches)
      ensures omap.lower.pending == old(omap.lower.pending) && omap.lower.fetches == old(omap.lower.fetches)
      ensures Valid()
      ensures ss == old(ss).(phase := ss.phase, padRemaining := ss.padRemaining, dummyStep := 0,
                             dummyBoundary := ss.dummyBoundary)
    {
      hide StashTree.Valid, Running, Found, Plug, Keys, Stored, Ordered, Contents, Update, Fits, SplitAvl.Descended;
      omap.FinishPath(trail.fs, trail.rest, tr.blocks, trail.up, trail.low);
      ss := ss.(phase := Pad, padRemaining := ss.budget - ss.ops, dummyStep := 0,
                dummyBoundary := if omap.UpperShare() > omap.upperOps then omap.UpperShare() - omap.upperOps else 0);
      if ss.padRemaining == 0 { ss := ss.(phase := Done); }
      Stopped(was, tr, h, ss, trail, InHand(), omap.Content());
    }

    lemma Facts()
      requires Valid() && ss.phase == Traverse
      ensures Keyed(omap.Content()) && Holdable(trail.tree, InHand()) && OnTheWay(ss, trail, InHand(), omap.Content())
      ensures trail.rest.Node? && trail.rest.key == ss.curKey && ss.result == None && ss.depth == ss.ops == |omap.local|
      ensures ss.budget == 3 * omap.maxHeight && ss.ops < omap.maxHeight && Fits(trail.tree, trail, InHand())
      ensures omap.splitDepth <= omap.maxHeight
    {
      hide StashTree.Valid, Plug, StrictPath, Height, Keys, Stored, Fib, Size, Ordered, Balanced, Step, Child, Zip, ExactPath,
           Layered, Remaining, FromHome;
      omap.BothKeyed();
      RootIsKey(trail.rest);
    }

    /** Writes the path of the round back. */
    method PrepareWrites() returns (ok: bool)
      requires InRound()
      modifies omap.upper, omap.lower
      ensures !ok ==> omap.Overfull()
      ensures ok ==> Between() && omap.Content() == old(omap.Content())
      ensures omap.Fetches() == old(omap.Fetches())
    {
      hide StashTree.Valid, Running, PathNodes, Pow2, SameOutside, Maximal, FromHome, Remaining;
      ok := RoundOram().EvictStash([ss.leaf]);
    }

    predicate StepDone()
      reads this
    {
      ss.phase == Done
    }

    /** A finished search has its answer, even before its last path has been written back. */
    lemma AnswerIsReady()
      requires Valid() && StepDone() && trail.searching
      ensures ss.result == Found(trail.tree, ss.key)
    {
      hide SplitAvl.AtHome, Resting, Holdable, Found, Layered;
    }

    /** The operation is over: the map is at rest again, with the new value if there was a key to
        give it to, and the same tree otherwise. */
    method Finish() returns (result: Option<V>)
      requires Between() && StepDone()
      ensures omap.Valid() && omap.tree == Goal(ss, trail) && omap.Foreign() == trail.blocks - Keys(trail.tree)
      ensures trail.searching ==> result == Found(trail.tree, ss.key)
      ensures omap.Map() == if trail.searching && ss.update.Some? && ss.key in Contents(trail.tree) then
                              Contents(trail.tree)[ss.key := ss.update.value] else Contents(trail.tree)
      ensures omap.upperOps == omap.UpperShare() && omap.lowerOps == Budget() - omap.UpperShare()
    {
      hide StashTree.Valid, Keys, Stored, Fib, Size, Ordered, Balanced, Contents, Update, Layered, Remaining;
      GoalIs();
      AllReturned(omap.upper.content.Keys, trail.up, omap.local);
      AllReturned(omap.lower.content.Keys, trail.low, omap.local);
      result := ss.result;
    }

    lemma StartOrdered()
      requires Valid()
      ensures Ordered(trail.tree)
    {
      hide SplitAvl.AtHome, Ordered, Resting, OnTheWay, Goal;
    }

    lemma GoalIs()
      requires Valid() && StepDone()
      ensures Keys(Goal(ss, trail)) == Keys(trail.tree)
      ensures Contents(Goal(ss, trail)) == if trail.searching && ss.update.Some? && ss.key in Contents(trail.tree) then
                                             Contents(trail.tree)[ss.key := ss.update.value] else Contents(trail.tree)
    {
      hide SplitAvl.AtHome, Running, Update, Keys, Contents;
      if ss.update.Some? {
        UpdateShape(trail.tree, ss.key, ss.update.value);
        StartOrdered();
        ContentsKeys(trail.tree);
        UpdateContents(trail.tree, ss.key, ss.update.value);
      }
    }
  }

  lemma BlockKeyed<V>(oram: StashTree<V>, key: int)
    requires oram.Valid() && key in oram.content
    ensures oram.content[key].key == key
  {
    hide Holds, Placed;
  }

  /** The client's state after a node with contents `n`, and whether the way down ends there. */
  method AfterNode<V>(ss: StepState<V>, n: AvlNode<V>, maxHeight: nat) returns (r: StepState<V>, ends: bool)
    ensures ends <==> Stops(ss, n, maxHeight)
    ensures r == ss.(curKey := r.curKey, curLeaf := r.curLeaf, depth := r.depth, ops := ss.ops + 1, result := r.result)
    ensures r.result == if ss.key == ss.curKey then Some(n.data) else ss.result
    ensures !ends ==> r == ss.(curKey := if ss.key < ss.curKey then n.lKey else n.rKey,
                               curLeaf := if ss.key < ss.curKey then n.lLeaf else n.rLeaf,
                               depth := ss.depth + 1, ops := ss.ops + 1)
  {
    r := ss.(ops := ss.ops + 1);
    var found := r.key == r.curKey;
    if found { r := r.(result := Some(n.data)); }
    ends := found || r.depth >= maxHeight - 1;
    if !ends {
      if r.key < r.curKey {
        r := r.(curKey := n.lKey, curLeaf := n.lLeaf);
      } else {
        r := r.(curKey := n.rKey, curLeaf := n.rLeaf);
      }
      ends := r.curKey == INVALID_KEY;
    }
    r := r.(depth := r.depth + 1);
  }

  lemma PadOne<V>(ss: StepState<V>, tr: Trail<V>, h: Hand<V>, b: Cells<V>)
    requires Running(ss, tr, h, b) && ss.phase == Pad
    ensures ss.padRemaining > 0
    ensures h.split > 0 && ss.dummyStep + 1 <= ss.dummyBoundary <==> ss.ops < h.split
    ensures var ss' := ss.(ops := ss.ops + 1, dummyStep := ss.dummyStep + 1, padRemaining := ss.padRemaining - 1);
            Running(if ss'.padRemaining == 0 then ss'.(phase := Done) else ss', tr, h, b)
  {
    hide Resting, Holdable, Found, Layered;
  }

  /** The list has been written back after the last node. */
  lemma Stopped<V>(ss: StepState<V>, tr: Trail<V>, h: Hand<V>, ss': StepState<V>, tr': Trail<V>, h': Hand<V>, b': Cells<V>)
    requires tr' == tr.(fs := tr'.fs, rest := tr'.rest) && tr.searching && Fits(tr.tree, tr, h) && Fits(Goal(ss, tr), tr, h)
    requires h' == h.(local := [], rootLeaf := h'.rootLeaf) && Resting(Goal(ss, tr), tr.blocks, h', b')
    requires ss'.phase == (if ss'.padRemaining == 0 then Done else Pad)
    requires ss'.ops + ss'.padRemaining == ss'.budget == 3 * h.maxHeight
    requires ss'.dummyStep == 0 && ss'.dummyBoundary == h.split - Min(ss'.ops, h.split)
    requires ss'.key == ss.key && ss'.update == ss.update && ss'.result == Found(tr.tree, ss.key)
    ensures Running(ss', tr', h', b')
  {
    hide Height, Keys, Stored, Fib, Size, Ordered, Balanced, Contents, Update, Resting, Layered;
  }
}
