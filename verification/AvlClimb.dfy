/** The rebalancing loop of an insertion, run over the client's list, computes the recursive
    insertion (avl_omap `rebalance`, `insert`). */
module AvlClimb {
  import opened Common
  import opened StashTrees
  import opened AvlTrees
  import opened AvlLocal
  import opened AvlRep
  import opened AvlZip

  lemma {:induction false} PlugHead<V>(fs: seq<Frame<V>>, t: Tree<V>)
    requires fs != []
    ensures Plug(fs, t) == Join(fs[0], Plug(fs[1..], t))
  {
    var n := |fs| - 1;
    if n > 0 {
      PlugHead(fs[..n], Join(fs[n], t));
      assert fs[..n][1..] == fs[1..][..n - 1];
    }
  }

  /** The path of a search for `key`. */
  ghost predicate SearchPath<V>(fs: seq<Frame<V>>, n: nat, key: int)
    requires n <= |fs|
  {
    forall j :: 0 <= j < n ==> fs[j].left == (key < fs[j].key)
  }

  /** The original subtree at depth `d` of a path of length `m` that ends at an empty child. */
  ghost function Original<V>(fs: seq<Frame<V>>, d: nat, m: nat): Tree<V>
    requires d <= m <= |fs|
  {
    Plug(fs[d..m], Nil)
  }

  lemma OriginalStep<V>(fs: seq<Frame<V>>, d: nat, m: nat)
    requires d < m <= |fs|
    ensures Original(fs, d, m) == Join(fs[d], Original(fs, d + 1, m))
  {
    PlugHead(fs[d..m], Nil);
    assert fs[d..m][1..] == fs[d + 1..m];
  }

  lemma {:induction false} OriginalBalanced<V>(fs: seq<Frame<V>>, d: nat, m: nat)
    requires d <= m <= |fs| && Balanced(Original(fs, 0, m))
    ensures Balanced(Original(fs, d, m))
  {
    if d > 0 {
      OriginalBalanced(fs, d - 1, m);
      OriginalStep(fs, d - 1, m);
    }
  }

  lemma InsertJoin<V>(f: Frame<V>, s: Tree<V>, key: int, value: V)
    requires f.left == (key < f.key)
    ensures Inserted(Join(f, s), key, value) == Rebalance(Join(f, Inserted(s, key, value)))
  {
    hide Rebalance;
  }

  /** The side that has grown, if any, is in the list. */
  ghost predicate GrownLoaded<V>(s: Tree<V>, t: Tree<V>, key: int, m: Index<V>) {
    && t.Node? && t.key in m
    && (s.Node? && Height(t) > Height(s) ==>
          if key < s.key then t.left.Node? && t.left.key in m else t.right.Node? && t.right.key in m)
  }

  /** Everything an insertion step rotates has been loaded by the descent. */
  lemma InsertLoads<V>(f: Frame<V>, s: Tree<V>, key: int, value: V, m: Index<V>)
    requires f.left == (key < f.key) && Balanced(Join(f, s))
    requires GrownLoaded(s, Inserted(s, key, value), key, m) && f.key in m
    ensures PivotsLoaded(Join(f, Inserted(s, key, value)), m)
    ensures Rebalance(Join(f, Inserted(s, key, value))) != Join(f, Inserted(s, key, value)) ==>
              Rebalance(Join(f, Inserted(s, key, value))).Node?
  {
    hide Rebalance, Inserted;
    InsertBalanced(s, key, value);
    if s.Nil? { InsertNil(key, value); }
    RebalanceBalances(Join(f, Inserted(s, key, value)));
  }

  lemma InsertNil<V>(key: int, value: V)
    ensures Inserted(Nil, key, value) == Node(Nil, key, value, Nil)
  {
  }

  lemma GrownStep<V>(f: Frame<V>, s: Tree<V>, key: int, value: V, m: Index<V>)
    requires f.left == (key < f.key) && Balanced(Join(f, s))
    requires GrownLoaded(s, Inserted(s, key, value), key, m)
    requires Inserted(Join(f, s), key, value).Node? && Inserted(Join(f, s), key, value).key in m
    ensures GrownLoaded(Join(f, s), Inserted(Join(f, s), key, value), key, m)
  {
    InsertBalanced(Join(f, s), key, value);
  }

  lemma ZipWhole<V>(s: Local<V>, fs: seq<Frame<V>>, d: nat, t: Tree<V>, c: Cells<V>)
    requires Zip(s, fs, d, t, c)
    ensures Whole(t, ParentAt(fs, d), At(s), c)
  {
    hide At, Rep, Ordered, Keys, PathOk, PathSide, OrderedPath;
    PathApart(fs, d, t);
    ListProper(s);
  }

  lemma ZipUnique<V>(s: Local<V>, fs: seq<Frame<V>>, d: nat, t: Tree<V>, c: Cells<V>)
    requires Zip(s, fs, d, t, c)
    ensures Unique(s) && d <= |s| && d <= |fs|
    ensures forall j :: 0 <= j < d ==> s[j].key == fs[j].key
  {
    hide At, Rep, Ordered, Keys, PathOk, PathSide, OrderedPath;
    PathOkKeys(s, fs, d, At(s), c);
  }

  lemma LoadedByKeys<V>(t: Tree<V>, m: Index<V>, m': Index<V>)
    requires t.Node? && PivotsLoaded(t, m) && m'.Keys == m.Keys
    ensures PivotsLoaded(t, m')
  {
  }

  /** The focus of the climb at depth `d`: nothing above the new node, then the rebuilt subtrees. */
  ghost function Rebuilt<V>(fs: seq<Frame<V>>, d: nat, key: int, value: V): Tree<V>
    requires 0 < |fs| && d <= |fs|
  {
    if d == |fs| then Nil else Inserted(Original(fs, d, |fs| - 1), key, value)
  }

  ghost predicate RebuiltLoaded<V>(fs: seq<Frame<V>>, d: nat, key: int, value: V, m: Index<V>)
    requires 0 < |fs| && d <= |fs|
  {
    d < |fs| ==> GrownLoaded(Original(fs, d, |fs| - 1), Rebuilt(fs, d, key, value), key, m)
  }

  ghost predicate InsertPath<V>(fs: seq<Frame<V>>, key: int, value: V) {
    && |fs| > 0 && SearchPath(fs, |fs| - 1, key) && fs[|fs| - 1] == Frame(key, value, true, Nil)
    && Balanced(Original(fs, 0, |fs| - 1))
  }

  lemma RebuiltStep<V>(fs: seq<Frame<V>>, i: nat, key: int, value: V, m: Index<V>)
    requires InsertPath(fs, key, value) && i < |fs| && fs[i].key in m
    requires RebuiltLoaded(fs, i + 1, key, value, m)
    ensures Rebuilt(fs, i, key, value) == Rebalance(Join(fs[i], Rebuilt(fs, i + 1, key, value)))
    ensures PivotsLoaded(Join(fs[i], Rebuilt(fs, i + 1, key, value)), m)
    ensures Rebuilt(fs, i, key, value).Node?
    ensures Rebuilt(fs, i, key, value).key in m ==> RebuiltLoaded(fs, i, key, value, m)
  {
    hide Rebalance;
    var n := |fs| - 1;
    if i == n {
      InsertNil(key, value);
      assert fs[n..n] == [];
      RebalanceBalances(Join(fs[n], Nil));
    } else {
      OriginalBalanced(fs, i, n);
      OriginalStep(fs, i, n);
      InsertJoin(fs[i], Original(fs, i + 1, n), key, value);
      InsertLoads(fs[i], Original(fs, i + 1, n), key, value, m);
      InsertIsNode(Original(fs, i, n), key, value);
      if Rebuilt(fs, i, key, value).key in m {
        GrownStep(fs[i], Original(fs, i + 1, n), key, value, m);
      }
    }
  }

  lemma InsertIsNode<V>(t: Tree<V>, key: int, value: V)
    ensures Inserted(t, key, value).Node?
  {
  }

  lemma BalancedRootLoaded<V>(t: Tree<V>, t': Tree<V>, par: int, m: Index<V>, m': Index<V>)
    requires t.Node? && t'.Node? && t.key in m && BalanceFrame(m, m', par, t, t')
    ensures t'.key in m'
  {
  }

  lemma RootOutside<V>(fs: seq<Frame<V>>, d: nat, t: Tree<V>)
    requires 0 < d <= |fs| && OrderedPath(fs, d, t)
    ensures fs[0].key !in Keys(t)
  {
    hide Ordered, Keys, OrderedPath;
    PathApart(fs, d, t);
  }

  function RootAt<V>(fs: seq<Frame<V>>, d: nat, t: Tree<V>): int
    requires d <= |fs|
  {
    if d == 0 then RootKey(t) else fs[0].key
  }

  /** `balance_node` on the root of the focus. */
  method BalanceFocus<V>(s: Local<V>, rootKey: int, d: nat, ghost fs: seq<Frame<V>>, ghost t: Tree<V>, ghost c: Cells<V>)
    returns (r: Local<V>, rootKey': int)
    requires Zip(s, fs, d, t, c) && d < |s| && t.Node? && t.key == s[d].key
    requires PivotsLoaded(t, At(s)) && Rebalance(t).Node? && rootKey == RootAt(fs, d, t)
    ensures SameKeys(s, r) && Zip(r, fs, d, Rebalance(t), c) && Rebalance(t).key in At(r)
    ensures rootKey' == RootAt(fs, d, Rebalance(t))
  {
    hide At, Rep, Ordered, Keys, Rebalance, BalanceFrame, Whole, PivotsLoaded, PathOk, PathSide, OrderedPath;
    AtHas(s, d);
    ZipWhole(s, fs, d, t, c);
    if d > 0 { RootOutside(fs, d, t); }
    r, rootKey' := BalanceNode(s, rootKey, d, t, ParentAt(fs, d), c);
    PathApart(fs, d, t);
    RebalanceKeeps(t);
    ZipBalance(s, r, fs, d, t, Rebalance(t), c);
    BalancedRootLoaded(t, Rebalance(t), ParentAt(fs, d), At(s), At(r));
  }

  /** The rebalancing loop: from a path that ends at the new node to the whole tree. */
  method RebalanceAll<V>(s: Local<V>, rootKey: int, ghost fs: seq<Frame<V>>, ghost key: int, ghost value: V,
                         ghost c: Cells<V>)
    returns (r: Local<V>, rootKey': int)
    requires |s| == |fs| > 0 && Zip(s, fs, |s|, Nil, c) && InsertPath(fs, key, value) && rootKey == fs[0].key
    ensures Zip(r, fs, 0, Inserted(Original(fs, 0, |fs| - 1), key, value), c)
    ensures rootKey' == RootKey(Inserted(Original(fs, 0, |fs| - 1), key, value))
    ensures SameKeys(s, r) && rootKey' in At(r)
  {
    hide At, Zip, Rebalance, RefreshAll, PivotsLoaded, Rebuilt, RebuiltLoaded, InsertPath, Join;
    ZipUnique(s, fs, |s|, Nil, c);
    RebuiltEnds(fs, key, value, At(s));
    r, rootKey' := s, rootKey;
    for i := |s| downto 0
      invariant Unique(r) && SameKeys(s, r) && Zip(r, fs, i, Rebuilt(fs, i, key, value), c)
      invariant RebuiltLoaded(fs, i, key, value, At(s))
      invariant rootKey' == RootAt(fs, i, Rebuilt(fs, i, key, value))
    {
      ghost var t := Rebuilt(fs, i + 1, key, value);
      ghost var joined := Join(fs[i], t);
      JoinKeys(fs[i], t);
      ZipUnique(r, fs, i + 1, t, c);
      ZipRefresh(r, fs, i + 1, t, c);
      r := UpdateHeights(r);
      SameKeysSameIndex(s, r);
      AtHas(s, i);
      RebuiltStep(fs, i, key, value, At(s));
      LoadedByKeys(joined, At(s), At(r));
      r, rootKey' := BalanceFocus(r, rootKey', i, fs, joined, c);
      SameKeysSameIndex(s, r);
    }
    ZipRefreshAgain(r, fs, 0, Rebuilt(fs, 0, key, value), c);
    r := UpdateHeights(r);
    SameKeysSameIndex(s, r);
    RootLoaded(fs, key, value, At(s));
  }

  lemma RootLoaded<V>(fs: seq<Frame<V>>, key: int, value: V, m: Index<V>)
    requires |fs| > 0 && RebuiltLoaded(fs, 0, key, value, m)
    ensures RootKey(Rebuilt(fs, 0, key, value)) in m
  {
  }

  lemma RebuiltEnds<V>(fs: seq<Frame<V>>, key: int, value: V, m: Index<V>)
    requires InsertPath(fs, key, value)
    ensures |fs| > 0
    ensures Rebuilt(fs, |fs|, key, value) == Nil && RebuiltLoaded(fs, |fs|, key, value, m)
    ensures Rebuilt(fs, 0, key, value) == Inserted(Original(fs, 0, |fs| - 1), key, value)
  {
  }
}
