/** Value-level steps shared by the operations of an AVL map over an ORAM: what one fetch, one
    comparison or one write-back means for the represented tree. */
module AvlSteps {
  import opened Common
  import opened StashTrees
  import opened AvlTrees
  import opened AvlLocal
  import opened AvlRep
  import opened AvlZip
  import opened AvlClimb
  import opened AvlDescend
  import opened AvlUnlink
  import opened AvlShrink
  import opened AvlFlush
  import opened AvlSearch
  import opened AvlAttach
  import opened AvlRemoval
  import opened AvlInit

  // ----- A path that has been taken out of the blocks -----

  /** The list `s` is the path `fs` to the focus `t`. Its nodes were taken out of the blocks `c`,
      of which `b` are left. */
  ghost predicate PathTaken<V>(s: Local<V>, fs: seq<Frame<V>>, t: Tree<V>, b: Cells<V>, c: Cells<V>) {
    && |s| == |fs| && Zip(s, fs, |s|, t, b)
    && b == c - At(s).Keys && At(s).Keys <= Keys(Plug(fs, t))
    && ExactPath(s, fs, |s|, t)
  }

  /** The node fetched for the root of the focus, and the path one step further. */
  lemma PullTaken<V>(s: Local<V>, fs: seq<Frame<V>>, t: Tree<V>, b: Cells<V>, c: Cells<V>, left: bool)
    requires PathTaken(s, fs, t, b, c) && t.Node? && Keyed(b)
    ensures t.key in b && t.key >= 0 && Unique(s) && t.key !in At(s)
    ensures var n := Loaded(b[t.key], ParentAt(fs, |fs|));
            && n.key == t.key && n.avl.data == t.value
            && PathTaken(s + [n], fs + [Step(t, left)], Child(t, left), b - {t.key}, c)
            && RootRight(n.avl.lKey, n.avl.lLeaf, t.left, b - {t.key})
            && RootRight(n.avl.rKey, n.avl.rLeaf, t.right, b - {t.key})
  {
    hide At, Zip, ExactPath, Keys, Plug, NodeExact, Step, Child, Loaded, Ordered, Keyed;
    ZipUnique(s, fs, |s|, t, b);
    FocusPointer(s, fs, t, b);
    ZipDescend(s, fs, t, b, left);
    ExactStep(s, fs, t, b, left);
    LoadedFacts(t, b, ParentAt(fs, |fs|));
    AtAppend(s, Loaded(b[t.key], ParentAt(fs, |fs|)));
    PlugStep(fs, t, left);
    RootOnPath(fs, t);
    FocusOrdered(s, fs, |s|, t, b);
    ChildrenStored(t, b);
  }

  lemma TakenSetData<V>(s: Local<V>, fs: seq<Frame<V>>, f: Frame<V>, t: Tree<V>, b: Cells<V>, c: Cells<V>, value: V)
    requires PathTaken(s, fs + [f], t, b, c)
    ensures PathTaken(SetData(s, value), SetValue(fs + [f], value), t, b, c)
  {
    hide At, Zip, ExactPath, Keys, Plug;
    ZipSetData(s, fs, f, t, b, value);
    ZipPathOrder(s, fs + [f], t, b);
    SetValueOrder(fs, f, t, value);
  }

  lemma TakenParent<V>(s: Local<V>, fs: seq<Frame<V>>, t: Tree<V>, b: Cells<V>, c: Cells<V>)
    requires PathTaken(s, fs, t, b, c)
    ensures Unique(s) && ParentAt(fs, |fs|) == if s == [] then INVALID_KEY else s[|s| - 1].key
  {
    hide At, Zip, ExactPath, Keys, Plug;
    ZipUnique(s, fs, |s|, t, b);
  }

  /** The blocks hold the AVL tree `t`. */
  ghost predicate TreeOk<V>(t: Tree<V>, c: Cells<V>, capacity: nat) {
    Avl(t) && Stored(t, c) && Size(t) <= capacity && forall k :: k in Keys(t) ==> k >= 0
  }

  ghost predicate RootRight<V>(key: int, leaf: int, t: Tree<V>, c: Cells<V>) {
    key == RootKey(t) && (t.Node? ==> t.key in c && leaf == c[t.key].leaf)
  }

  lemma RelinkedLeaf<V>(n: LocalNode<V>, m: Index<V>)
    ensures Relinked(n, m).leaf == n.leaf
  {
  }

  lemma NotYet<V>(s: Local<V>, i: nat)
    requires Unique(s) && i < |s|
    ensures Unique(s[..i]) && s[i].key !in At(s[..i])
  {
  }

  lemma LoadedFacts<V>(t: Tree<V>, c: Cells<V>, par: int)
    requires t.Node? && t.key in c && Keyed(c) && NodeExact(c[t.key].value, t, map[], c)
    ensures var n := Loaded(c[t.key], par);
            n.key == t.key && n.avl.data == t.value && n.avl == c[t.key].value && n.parentKey == par
  {
  }

  lemma FocusOrdered<V>(s: Local<V>, fs: seq<Frame<V>>, d: nat, t: Tree<V>, c: Cells<V>)
    requires Zip(s, fs, d, t, c)
    ensures Ordered(t)
  {
    hide At, Rep, PathOk, PathSide, OrderedPath, Ordered;
    PathApart(fs, d, t);
  }

  lemma RootMissing<V>(t: Tree<V>)
    requires forall k :: k in Keys(t) ==> k >= 0
    ensures RootKey(t) == INVALID_KEY ==> t == Nil && Contents(t) == map[] && Keys(t) == {}
  {
    RootIsKey(t);
  }

  lemma ZipStart<V>(t: Tree<V>, c: Cells<V>)
    requires Stored(t, c) && Ordered(t) && forall k :: k in Keys(t) ==> k >= 0
    ensures Zip([], [], 0, t, c) && ExactPath([], [], 0, t) && Plug([], t) == t && At<V>([]).Keys == {}
  {
    assert Unique<V>([]);
    StoredIsRep(t, INVALID_KEY, At<V>([]), c);
  }

  lemma TreeFits<V>(t: Tree<V>, capacity: nat, h: nat)
    requires Balanced(t) && Size(t) <= capacity < Fib(h + 3) - 1
    ensures Height(t) <= h
  {
    BalancedHeight(t, h);
  }

  lemma ZipPathOrder<V>(s: Local<V>, fs: seq<Frame<V>>, t: Tree<V>, c: Cells<V>)
    requires Zip(s, fs, |s|, t, c)
    ensures OrderedPath(fs, |s|, t)
  {
    hide At, Rep, PathOk, PathSide, OrderedPath;
  }

  lemma RootOfPath<V>(fs: seq<Frame<V>>, t: Tree<V>)
    requires |fs| > 0
    ensures Plug(fs, t).Node? && Plug(fs, t).key == fs[0].key
  {
    PlugHead(fs, t);
  }

  lemma LocalNotStored<V>(s: Local<V>, c: Cells<V>)
    requires Unique(s)
    ensures forall j :: 0 <= j < |s| ==> s[j].key !in c - At(s).Keys
  {
    hide At;
    forall j | 0 <= j < |s| ensures s[j].key in At(s) {
      AtHas(s, j);
    }
  }

  /** The blocks of other trees, when the listed nodes have been written back. */
  lemma ForeignSame<V>(c: Cells<V>, before: Cells<V>, after: Cells<V>, taken: set<int>, listed: set<int>,
                       keys: set<int>, keys': set<int>)
    requires before == c - taken && taken <= keys && listed <= keys'
    requires after.Keys == before.Keys + listed
    requires forall k :: k in before && k !in listed ==> after[k] == before[k]
    requires forall k :: k in before ==> (k in keys <==> k in keys')
    requires forall k :: k in c && k !in keys ==> k !in keys'
    ensures after - keys' == c - keys
  {
    var a, b := after - keys', c - keys;
    forall k ensures k in a <==> k in b {
      if k in b { assert k in before && k !in listed; }
    }
    forall k | k in a ensures a[k] == b[k] {
      assert k in before && k !in listed;
    }
  }

  /** One step of a search: where the two outcomes lead. */
  lemma SearchStep<V>(fs: seq<Frame<V>>, t: Tree<V>, t0: Tree<V>, key: int, update: Option<V>, left: bool)
    requires t.Node? && Plug(fs, t) == t0 && StrictPath(fs, key) && left == (key <= t.key)
    ensures key == t.key ==> Lookup(t0, key) == Some(t.value)
    ensures key == t.key && update.Some? ==>
              Plug(SetValue(fs + [Step(t, left)], update.value), Child(t, left)) == Update(t0, key, update.value)
    ensures key != t.key ==> StrictPath(fs + [Step(t, left)], key)
    ensures Plug(fs + [Step(t, left)], Child(t, left)) == t0
    ensures Height(Child(t, left)) < Height(t)
    ensures (fs + [Step(t, left)])[0].key == RootKey(t0)
    ensures Child(t, left) == if key <= t.key then t.left else t.right
  {
    hide Plug;
    LookupAlong(fs, t, key);
    if update.Some? { UpdateAlong(fs, t, key, update.value); }
    PlugStep(fs, t, left);
    if update.Some? { SetValuePlug(fs, Step(t, left), Child(t, left), update.value); }
    RootOfPath(fs + [Step(t, left)], Child(t, left));
  }

  lemma SearchEnds<V>(fs: seq<Frame<V>>, t: Tree<V>, t0: Tree<V>, key: int, update: Option<V>, found: bool,
                      result: Option<V>, left: int)
    requires Avl(t0) && Plug(fs, t) == if found && update.Some? then Update(t0, key, update.value) else t0
    requires !found ==> StrictPath(fs, key) && result == None && Height(t) <= left && (left <= 0 || t == Nil)
    requires found ==> result.Some? && result == Lookup(t0, key)
    ensures result == if key in Contents(t0) then Some(Contents(t0)[key]) else None
    ensures Contents(Plug(fs,
            t)) == if update.Some? && key in Contents(t0) then Contents(t0)[key := update.value] else Contents(t0)
    ensures Balanced(Plug(fs, t)) && Size(Plug(fs, t)) == Size(t0) && Keys(Plug(fs, t)) == Keys(t0)
  {
    hide Plug, Update, Lookup, Contents, Ordered, Balanced, Size, Keys, StrictPath;
    LookupContents(t0, key);
    ContentsKeys(t0);
    if !found {
      NotOnPath(fs, t, t0, key);
    } else if update.Some? {
      UpdateShape(t0, key, update.value);
      UpdateContents(t0, key, update.value);
    }
  }

  lemma NotOnPath<V>(fs: seq<Frame<V>>, t: Tree<V>, t0: Tree<V>, key: int)
    requires Plug(fs, t) == t0 && StrictPath(fs, key) && Height(t) <= 0
    ensures Lookup(t0, key) == None
  {
    hide Plug, StrictPath;
    assert t == Nil;
    LookupAlong(fs, t, key);
  }

  /** One step of the search for the target of a removal. */
  lemma TargetStep<V>(fs: seq<Frame<V>>, t: Tree<V>, t0: Tree<V>, key: int, left: bool)
    requires t.Node? && Plug(fs, t) == t0 && StrictPath(fs, key)
    requires key != t.key ==> left == (key < t.key)
    ensures key != t.key ==> StrictPath(fs + [Step(t, left)], key)
    ensures Plug(fs + [Step(t, left)], Child(t, left)) == t0
    ensures Height(t.left) < Height(t) && Height(t.right) < Height(t)
    ensures (fs + [Step(t, left)])[0].key == RootKey(t0)
    ensures Child(t, left) == if left then t.left else t.right
  {
    hide Plug;
    PlugStep(fs, t, left);
    RootOfPath(fs + [Step(t, left)], Child(t, left));
  }

  lemma PlugNothing<V>(t: Tree<V>)
    ensures Plug([], t) == t && LeftSpine<V>([])
  {
  }

  /** One step down a left spine. */
  lemma SpineStep<V>(down: seq<Frame<V>>, t: Tree<V>)
    requires t.Node? && LeftSpine(down)
    ensures Plug(down + [Step(t, true)], t.left) == Plug(down, t) && LeftSpine(down + [Step(t, true)])
    ensures Height(t.left) < Height(t) && Child(t, true) == t.left
    ensures t.left.Node? ==> Height(t.left) > 0
  {
    hide Plug;
    PlugStep(down, t, true);
  }

  /** The whole tree, seen from below the successor. */
  lemma TwoChildPath<V>(up: seq<Frame<V>>, t: Tree<V>, down: seq<Frame<V>>, m: Tree<V>)
    requires t.Node? && m.Node? && m.left == Nil && Plug(down, m) == t.right
    ensures Plug(up + [Step(t, false)] + down + [Step(m, true)], Nil) == Plug(up, t)
    ensures |up + [Step(t, false)] + down + [Step(m, true)]| == |up| + |down| + 2
  {
    hide Plug;
    PlugStep(up, t, false);
    PlugStep(up + [Step(t, false)] + down, m, true);
    PlugAppend(up + [Step(t, false)], down, m);
  }

  lemma RootAlong<V>(up: seq<Frame<V>>, t: Tree<V>)
    requires t.Node?
    ensures RootKey(Plug(up, t)) == if |up| > 0 then up[0].key else t.key
  {
    if |up| > 0 { RootOfPath(up, t); }
  }

  lemma KeyTaken<V>(c: Cells<V>, now: Cells<V>, keys: set<int>, keys': set<int>, key: int)
    requires now == c - keys && keys' == keys - {key} && key in keys
    ensures now == c - (keys' + {key})
  {
  }

  lemma ZipRootPositive<V>(s: Local<V>, fs: seq<Frame<V>>, d: nat, t: Tree<V>, c: Cells<V>)
    requires Zip(s, fs, d, t, c) && t.Node?
    ensures t.key >= 0
  {
    hide At, Rep, Ordered, Keys, PathOk, PathSide, OrderedPath;
    PathApart(fs, d, t);
    RootIsKey(t);
  }

  lemma MoreTaken<V>(c: Cells<V>, b: Cells<V>, b': Cells<V>, keys: set<int>, gone: set<int>, key: int)
    requires b == c - (keys + gone) && b' == b - {key} && key in b
    ensures b' == c - (keys + {key} + gone) && key !in gone
  {
  }

  lemma ChildWithin<V>(t: Tree<V>, left: bool)
    requires t.Node?
    ensures Child(t, left).Node? ==> Child(t, left).key in Keys(t)
  {
  }

  lemma GrandWithin<V>(t: Tree<V>, left: bool)
    requires t.Node? && Child(t, left).Node?
    ensures Child(Child(t, left), !left).Node? ==> Child(Child(t, left), !left).key in Keys(t)
  {
    ChildWithin(Child(t, left), !left);
  }

  lemma AllLoaded<V>(t: Tree<V>, m: Index<V>, left: bool)
    requires t.Node? && Child(t, left).Node? && Child(t, left).key in m && left == (Tilt(t) > 1)
    requires var u := Child(t, left);
             (if left then Tilt(u) < 0 else Tilt(u) > 0) ==> Child(u, !left).Node? && Child(u, !left).key in m
    ensures PivotsLoaded(t, m)
  {
  }

  lemma JoinWithin<V>(fs: seq<Frame<V>>, d: nat, t: Tree<V>)
    requires 0 < d <= |fs|
    ensures Keys(Join(fs[d - 1], t)) <= Keys(Plug(fs[..d], t)) && Join(fs[d - 1], t).Node?
  {
    hide Keys, Join;
    assert fs[..d][..d - 1] == fs[..d - 1];
    JoinKeys(fs[d - 1], t);
    PlugKeys(fs[..d - 1], Join(fs[d - 1], t));
  }

  lemma ClimbNothing<V>(t: Tree<V>)
    ensures Climb([], t) == t
  {
  }

  /** Rebalancing on the way up does not change the keys. */
  lemma ClimbWithin<V>(s: Local<V>, fs: seq<Frame<V>>, d: nat, t: Tree<V>, c: Cells<V>)
    requires 0 < d <= |fs| && Zip(s, fs, d, t, c)
    ensures Join(fs[d - 1], t).Node?
    ensures Keys(Plug(fs[..d - 1], Rebalance(Join(fs[d - 1], t)))) == Keys(Plug(fs[..d], t))
  {
    hide At, Rep, Ordered, Keys, PathOk, PathSide, Rebalance;
    var joined := Join(fs[d - 1], t);
    assert fs[..d][..d - 1] == fs[..d - 1];
    PlugOrdered(fs[..d - 1], joined);
    RebalanceKeeps(joined);
    PlugReplace(fs[..d - 1], joined, Rebalance(joined));
  }

  lemma LocalTaken<V>(s: Local<V>, c: Cells<V>, gone: set<int>)
    requires Unique(s)
    ensures forall j :: 0 <= j < |s| ==> s[j].key !in c - (At(s).Keys + gone)
  {
    hide At;
    forall j | 0 <= j < |s| ensures s[j].key in At(s) {
      AtHas(s, j);
    }
  }

  lemma OthersStay<V>(c: Cells<V>, before: Cells<V>, listed: set<int>, keys: set<int>, key: int)
    requires before == c - (listed + keys * {key}) && listed <= keys - keys * {key}
    ensures listed + keys * {key} <= keys && listed <= keys - {key}
    ensures forall k :: k in before ==> (k in keys <==> k in keys - {key})
  {
  }

  lemma FoundKey<V>(up: seq<Frame<V>>, t: Tree<V>)
    requires t.Node?
    ensures Keys(Plug(up, t)) * {t.key} == {t.key}
  {
    RootOnPath(up, t);
  }

  lemma NothingForeign<V>(c: Cells<V>, t: Tree<V>)
    requires c.Keys == Keys(t)
    ensures c - Keys(t) == map[]
  {
  }

  lemma NothingBuilt<V>(data: Entries<V>)
    requires data == []
    ensures Distinct(data) && Assoc(data) == map[] && Contents<V>(Nil) == map[] && Keys<V>(Nil) == {}
    ensures Avl<V>(Nil) && Size<V>(Nil) == 0 && forall c: Cells<V> :: Stored(Nil, c)
  {
  }

  /** The tree built over the sorted entries is an AVL tree that holds them. */
  lemma BuiltFits<V>(data: Entries<V>, sorted: Entries<V>)
    requires Distinct(data) && Ascending(sorted) && multiset(sorted) == multiset(data)
    requires forall i :: 0 <= i < |data| ==> data[i].0 >= 0
    ensures |sorted| == |data|
    ensures var t := Built(sorted, 0, |sorted| - 1);
            && Avl(t) && Contents(t) == Assoc(data) && Size(t) == |data|
            && (forall k :: k in Keys(t) ==> k >= 0) && (data != [] ==> t.Node?)
  {
    hide Built, Contents, Keys, Ordered, Balanced, Assoc, Size;
    SameEntries(sorted, data);
    BuiltOrdered(sorted, 0, |sorted| - 1);
    BuiltBalanced(sorted, 0, |sorted| - 1);
    BuiltKeys(sorted, 0, |sorted| - 1);
    BuiltAssoc(sorted);
    var t := Built(sorted, 0, |sorted| - 1);
    forall k | k in Keys(t) ensures k >= 0 {
      var i :| 0 <= i < |sorted| && sorted[i].0 == k;
      assert sorted[i] in multiset(data);
    }
    BuiltParts(sorted, 0, |sorted| - 1);
  }

  lemma SingleNode<V>(key: int, leaf: nat, value: V, c: Cells<V>)
    requires key in c && c[key] == Block(key, leaf, FreshNode(value))
    ensures var t := Node(Nil, key, value, Nil);
            && Stored(t, c) && Avl(t) && Keys(t) == {key} && Size(t) == 1 && Contents(t) == map[key := value]
    ensures Keys<V>(Nil) == {} && Contents<V>(Nil) == map[]
  {
  }

  lemma NodeHeight<V>(t: Tree<V>)
    requires t.Node?
    ensures Height(t) > 0
  {
  }

  lemma InsertedFits<V>(t: Tree<V>, key: int, value: V, capacity: nat)
    requires Avl(t) && key !in Keys(t) && |Contents(t)| < capacity
    ensures Avl(Inserted(t, key, value)) && Size(Inserted(t, key, value)) <= capacity
    ensures Contents(Inserted(t, key, value)) == Contents(t)[key := value]
  {
    hide Inserted, Contents, Ordered, Balanced;
    InsertContents(t, key, value);
    InsertBalanced(t, key, value);
    ContentsKeys(t);
    OrderedSize(t);
    OrderedSize(Inserted(t, key, value));
    assert |Contents(t).Keys| == |Contents(t)|;
  }

  method AttachToLast<V>(s: Local<V>, left: bool, key: int, leaf: nat, value: V) returns (r: Local<V>)
    requires |s| > 0
    ensures r == Attached(s, left, key, leaf, value)
  {
    var n := |s| - 1;
    if left {
      r := s[n := s[n].(avl := s[n].avl.(lKey := key, lLeaf := leaf, lHeight := 1))];
    } else {
      r := s[n := s[n].(avl := s[n].avl.(rKey := key, rLeaf := leaf, rHeight := 1))];
    }
    r := r + [LocalNode(key, leaf, FreshNode(value), s[n].key)];
  }

  lemma AttachedLength<V>(s: Local<V>, left: bool, key: int, leaf: nat, value: V)
    requires |s| > 0
    ensures |Attached(s, left, key, leaf, value)| == |s| + 1
  {
  }

  lemma GrownPath<V>(fs: seq<Frame<V>>, key: int, value: V)
    requires |fs| > 0 && StrictPath(fs, key) && Balanced(Plug(fs, Nil))
    ensures InsertPath(fs + [NewFrame(key, value)], key, value)
    ensures Original(fs + [NewFrame(key, value)], 0, |fs|) == Plug(fs, Nil)
  {
    assert (fs + [NewFrame(key, value)])[0..|fs|] == fs;
  }

  /** The child pointers of a stored node. */
  lemma ChildrenStored<V>(t: Tree<V>, c: Cells<V>)
    requires t.Node? && t.key in c && NodeExact(c[t.key].value, t, map[], c) && Ordered(t)
    ensures t.left.Node? ==> t.left.key != t.key
    ensures t.right.Node? ==> t.right.key != t.key
    ensures c[t.key].value.lKey == RootKey(t.left) && c[t.key].value.rKey == RootKey(t.right)
    ensures t.left.Node? ==> t.left.key in c && c[t.key].value.lLeaf == c[t.left.key].leaf
    ensures t.right.Node? ==> t.right.key in c && c[t.key].value.rLeaf == c[t.right.key].leaf
  {
    RootIsKey(t.left);
    RootIsKey(t.right);
  }

  lemma PlugStep<V>(fs: seq<Frame<V>>, t: Tree<V>, left: bool)
    requires t.Node?
    ensures Plug(fs + [Step(t, left)], Child(t, left)) == Plug(fs, t)
  {
    var gs := fs + [Step(t, left)];
    assert gs[..|gs| - 1] == fs;
    assert Join(Step(t, left), Child(t, left)) == t;
  }

  lemma RootOnPath<V>(fs: seq<Frame<V>>, t: Tree<V>)
    requires t.Node?
    ensures t.key in Keys(Plug(fs, t))
  {
    PlugKeys(fs, t);
    RootIsKey(t);
  }

  lemma ReleasedKeys<V>(m: Index<V>, m': Index<V>)
    requires Released(m, m')
    ensures m'.Keys == m.Keys
  {
  }

  lemma BlocksOver<V>(c: Cells<V>, m: Index<V>)
    ensures (c + Blocks(m)).Keys == c.Keys + m.Keys
    ensures forall k :: k in m ==> (c + Blocks(m))[k].leaf == m[k].leaf
    ensures forall k :: k in c && k !in m ==> (c + Blocks(m))[k] == c[k]
  {
  }

  lemma NothingFlushed<V>(c: Cells<V>)
    ensures c + Blocks(At([])) == c
  {
  }

  lemma FlushStep<V>(c: Cells<V>, m: Index<V>, n: LocalNode<V>)
    ensures c + Blocks(m[n.key := n]) == (c + Blocks(m))[n.key := Block(n.key, n.leaf, n.avl)]
  {
  }
}
