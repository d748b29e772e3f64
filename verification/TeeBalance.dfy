/** Rebalancing with loaded nodes only (tee_avl_omap `balance_node`, `rebalance`): a rotation whose
    pivot is not in the list is skipped, so balance may be lost, but never order or contents. */
module TeeBalance {
  import opened Common
  import opened StashTrees
  import opened AvlTrees
  import opened AvlLocal
  import opened AvlRep
  import opened AvlZip
  import opened AvlClimb
  import opened TeeLists

  // ----- On trees -----

  /** The child after the inner rotation, if that child is loaded and the rotation is called for. */
  function InnerTurned<V>(u: Tree<V>, left: bool, loaded: set<int>): Tree<V>
    requires u.Node?
  {
    if left then (if Tilt(u) < 0 && u.right.Node? && u.right.key in loaded then RotateLeft(u) else u)
    else (if Tilt(u) > 0 && u.left.Node? && u.left.key in loaded then RotateRight(u) else u)
  }

  /** One rebalancing step with the nodes of `loaded`. */
  function Steadied<V>(t: Tree<V>, loaded: set<int>): (t': Tree<V>)
    requires t.Node?
    ensures t'.Node?
  {
    if Tilt(t) > 1 && t.left.Node? && t.left.key in loaded then
      RotateRight(t.(left := InnerTurned(t.left, true, loaded)))
    else if Tilt(t) < -1 && t.right.Node? && t.right.key in loaded then
      RotateLeft(t.(right := InnerTurned(t.right, false, loaded)))
    else t
  }

  /** Rebuilding a path from the focus upwards, one such step per node. */
  function Settle<V>(fs: seq<Frame<V>>, t: Tree<V>, loaded: set<int>): Tree<V> {
    if fs == [] then t
    else Settle(fs[..|fs| - 1], Steadied(Join(fs[|fs| - 1], t), loaded), loaded)
  }

  ghost predicate SameEntries<V>(t: Tree<V>, t': Tree<V>) {
    Ordered(t') && Keys(t') == Keys(t) && Contents(t') == Contents(t)
  }

  lemma TurnSame<V>(t: Tree<V>)
    requires t.Node? && Ordered(t)
    ensures t.right.Node? ==> SameEntries(t, RotateLeft(t))
    ensures t.left.Node? ==> SameEntries(t, RotateRight(t))
  {
    hide Keys, Ordered, Contents;
    if t.right.Node? {
      RotationKeeps(t.left, t.key, t.value, t.right.left, t.right.key, t.right.value, t.right.right);
    }
    if t.left.Node? {
      RotationKeeps(t.left.left, t.left.key, t.left.value, t.left.right, t.key, t.value, t.right);
    }
  }

  lemma SideSame<V>(t: Tree<V>, u: Tree<V>, left: bool)
    requires t.Node? && Ordered(t) && SameEntries(if left then t.left else t.right, u)
    ensures SameEntries(t, if left then t.(left := u) else t.(right := u))
  {
  }

  lemma SteadiedKeeps<V>(t: Tree<V>, loaded: set<int>)
    requires t.Node? && Ordered(t)
    ensures SameEntries(t, Steadied(t, loaded))
  {
    hide Keys, Ordered, Contents;
    OrderedNode(t);
    if Tilt(t) > 1 && t.left.Node? && t.left.key in loaded {
      TurnSame(t.left);
      var u := InnerTurned(t.left, true, loaded);
      assert SameEntries(t.left, u);
      SideSame(t, u, true);
      TurnSame(t.(left := u));
    } else if Tilt(t) < -1 && t.right.Node? && t.right.key in loaded {
      TurnSame(t.right);
      var u := InnerTurned(t.right, false, loaded);
      assert SameEntries(t.right, u);
      SideSame(t, u, false);
      TurnSame(t.(right := u));
    }
  }

  /** A step never makes the tree taller. */
  lemma SteadiedHeight<V>(t: Tree<V>, loaded: set<int>)
    requires t.Node?
    ensures Height(Steadied(t, loaded)) <= Height(t)
  {
  }

  /** With all pivots loaded it is the full rebalancing step. */
  lemma SteadiedIsRebalance<V>(t: Tree<V>, m: Index<V>)
    requires t.Node? && PivotsLoaded(t, m)
    ensures Steadied(t, m.Keys) == Rebalance(t)
  {
  }

  lemma JoinSame<V>(f: Frame<V>, t: Tree<V>, t': Tree<V>)
    requires Ordered(Join(f, t)) && SameEntries(t, t')
    ensures SameEntries(Join(f, t), Join(f, t'))
  {
    SideSame(Join(f, t), t', f.left);
  }

  lemma {:induction false} PlugSame<V>(fs: seq<Frame<V>>, t: Tree<V>, t': Tree<V>)
    requires Ordered(Plug(fs, t)) && SameEntries(t, t')
    ensures SameEntries(Plug(fs, t), Plug(fs, t'))
  {
    hide Ordered, Keys, Contents;
    if fs != [] {
      var n := |fs| - 1;
      PlugOrdered(fs[..n], Join(fs[n], t));
      JoinSame(fs[n], t, t');
      PlugSame(fs[..n], Join(fs[n], t), Join(fs[n], t'));
    }
  }

  /** Rebuilding with loaded nodes keeps order and contents. */
  lemma {:induction false} SettleKeeps<V>(fs: seq<Frame<V>>, t: Tree<V>, loaded: set<int>)
    requires Ordered(Plug(fs, t))
    ensures SameEntries(Plug(fs, t), Settle(fs, t, loaded))
  {
    hide Ordered, Keys, Contents, Steadied;
    if fs != [] {
      var n := |fs| - 1;
      var j := Join(fs[n], t);
      PlugOrdered(fs[..n], j);
      SteadiedKeeps(j, loaded);
      PlugSame(fs[..n], j, Steadied(j, loaded));
      SettleKeeps(fs[..n], Steadied(j, loaded), loaded);
    }
  }

  lemma {:induction false} PlugHeight<V>(fs: seq<Frame<V>>, t: Tree<V>, t': Tree<V>)
    requires Height(t') <= Height(t)
    ensures Height(Plug(fs, t')) <= Height(Plug(fs, t))
  {
    if fs != [] {
      var n := |fs| - 1;
      PlugHeight(fs[..n], Join(fs[n], t), Join(fs[n], t'));
    }
  }

  lemma {:induction false} SettleHeight<V>(fs: seq<Frame<V>>, t: Tree<V>, loaded: set<int>)
    ensures Height(Settle(fs, t, loaded)) <= Height(Plug(fs, t))
  {
    hide Height, Steadied;
    if fs != [] {
      var n := |fs| - 1;
      var j := Join(fs[n], t);
      SteadiedHeight(j, loaded);
      PlugHeight(fs[..n], j, Steadied(j, loaded));
      SettleHeight(fs[..n], Steadied(j, loaded), loaded);
    }
  }

  /** Climbing with full rebalancing keeps the contents as well. */
  lemma {:induction false} ClimbKeeps<V>(fs: seq<Frame<V>>, t: Tree<V>)
    requires Ordered(Plug(fs, t))
    ensures SameEntries(Plug(fs, t), Climb(fs, t))
  {
    hide Ordered, Keys, Contents, Rebalance;
    if fs != [] {
      var n := |fs| - 1;
      var j := Join(fs[n], t);
      PlugOrdered(fs[..n], j);
      RebalanceKeeps(j);
      PlugSame(fs[..n], j, Rebalance(j));
      ClimbKeeps(fs[..n], Rebalance(j));
    }
  }

  // ----- On the list -----

  /** The node `par`, if loaded, does not point at `k` with both sides. */
  ghost predicate PointsOnce<V>(m: Index<V>, par: int, k: int) {
    par in m ==> m[par].avl.lKey != k || m[par].avl.rKey != k
  }

  /** What the code reads off the child of a loaded node. */
  lemma ChildFacts<V>(t: Tree<V>, par: int, m: Index<V>, c: Cells<V>, left: bool)
    requires t.Node? && t.key in m && Whole(t, par, m, c)
    ensures var u := if left then t.left else t.right;
            && (if left then m[t.key].avl.lKey else m[t.key].avl.rKey) == RootKey(u)
            && (u == Nil ==> RootKey(u) !in m)
            && (u.Node? && u.key in m ==>
                  && Whole(u, t.key, m, c) && m[u.key].parentKey == t.key && m[u.key].avl.Balance() == Tilt(u)
                  && m[u.key].avl.lKey == RootKey(u.left) && m[u.key].avl.rKey == RootKey(u.right)
                  && u.key != t.key && RootKey(u.left) != u.key && RootKey(u.right) != u.key
                  && RootKey(u.left) != t.key && RootKey(u.right) != t.key
                  && PointsOnce(m, t.key, u.key))
  {
    hide Keys, Ordered;
    RootTilt(t, par, m, c);
    OrderedNode(t);
    RootIsKey(t.left);
    RootIsKey(t.right);
    var u := if left then t.left else t.right;
    if u.Node? && u.key in m {
      RootTilt(u, t.key, m, c);
      OrderedNode(u);
      RootIsKey(u.left);
      RootIsKey(u.right);
    }
  }

  /** The inner rotation on side `left`, or its omission. */
  lemma InnerStep<V>(t: Tree<V>, par: int, m: Index<V>, c: Cells<V>, left: bool)
    requires t.Node? && t.key in m && Whole(t, par, m, c)
    requires var u := if left then t.left else t.right; u.Node? && u.key in m && (if left then Tilt(u) < 0 else Tilt(u) > 0)
    ensures var u := if left then t.left else t.right;
            var pk := PivotKey(m[u.key], left);
            && pk != u.key && HangsOnce(m, u.key, pk)
            && (pk !in m ==> Rotated(m, u.key, left) == m && InnerTurned(u, left, m.Keys) == u)
            && (pk in m ==> InnerTurned(u, left, m.Keys) == if left then RotateLeft(u) else RotateRight(u))
  {
    hide Keys, Ordered;
    ChildFacts(t, par, m, c, left);
  }

  lemma HangsFromParent<V>(t: Tree<V>, par: int, m: Index<V>, c: Cells<V>, left: bool)
    requires t.Node? && t.key in m && Whole(t, par, m, c) && PointsOnce(m, par, t.key)
    ensures var pk := PivotKey(m[t.key], left);
            && pk == RootKey(if left then t.right else t.left)
            && pk != t.key && (pk in m ==> HangsOnce(m, t.key, pk))
  {
    hide Ordered;
    ChildFacts(t, par, m, c, !left);
    RootIsKey(t.left);
    RootIsKey(t.right);
    OrderedNode(t);
  }

  /** The nodes by key after the inner rotation on side `left`, if it is called for. */
  ghost function InnerSlots<V>(t: Tree<V>, m: Index<V>, left: bool): Index<V>
    requires t.Node?
  {
    var u := if left then t.left else t.right;
    if u.Node? && u.key in m && (if left then Tilt(u) < 0 else Tilt(u) > 0) then Rotated(m, u.key, left) else m
  }

  /** What a right rotation of `t`, after its inner rotation, does. */
  ghost predicate OuterStep<V>(t: Tree<V>, par: int, m: Index<V>, c: Cells<V>, left: bool, t': Tree<V>)
    requires t.Node? && t'.Node?
  {
    var m1 := InnerSlots(t, m, !left);
    && t.key in m1
    && (var pk := PivotKey(m1[t.key], left);
        && pk != t.key && (pk in m1 ==> HangsOnce(m1, t.key, pk))
        && t'.key == if pk in m1 then pk else t.key)
    && Whole(t', par, Rotated(m1, t.key, left), c)
    && BalanceFrame(m, Rotated(m1, t.key, left), par, t, t')
  }

  lemma SteadyRight<V>(t: Tree<V>, par: int, m: Index<V>, c: Cells<V>)
    requires t.Node? && t.key in m && Whole(t, par, m, c) && PointsOnce(m, par, t.key) && Tilt(t) > 1
    ensures OuterStep(t, par, m, c, false, Steadied(t, m.Keys))
  {
    hide Keys, Ordered, Rotated, Rep, Stored, Proper, BalanceFrame;
    ChildFacts(t, par, m, c, true);
    HangsFromParent(t, par, m, c, false);
    var u := t.left;
    if u.Node? && u.key in m {
      if Tilt(u) < 0 {
        InnerStep(t, par, m, c, true);
        if u.right.Node? && u.right.key in m {
          DoubleRight(t, par, m, c);
          InnerOutside(t, par, m, c, true);
        } else {
          SingleRight(t, par, m, c);
        }
      } else {
        SingleRight(t, par, m, c);
      }
    } else {
      NotTurned(m, t.key, false);
      NoBalance(t, par, m);
    }
  }

  lemma NotTurned<V>(m: Index<V>, k: int, left: bool)
    requires k in m && PivotKey(m[k], left) !in m
    ensures Rotated(m, k, left) == m
  {
  }

  /** The inner rotation leaves the parent of `t` alone, so `t` can still be rotated below it. */
  lemma InnerOutside<V>(t: Tree<V>, par: int, m: Index<V>, c: Cells<V>, left: bool)
    requires t.Node? && t.key in m && Whole(t, par, m, c) && PointsOnce(m, par, t.key)
    requires var u := if left then t.left else t.right;
             u.Node? && u.key in m && (if left then u.right.Node? && u.right.key in m else u.left.Node? && u.left.key in m)
    ensures var u := if left then t.left else t.right;
            var m1 := Rotated(m, u.key, left);
            m1.Keys == m.Keys && HangsOnce(m1, t.key, if left then u.right.key else u.left.key)
  {
    hide Ordered, Rotated, Proper, Stored;
    if left {
      InnerLeft(t, par, m, c);
      HangsFromParent(t.(left := RotateLeft(t.left)), par, Rotated(m, t.left.key, true), c, false);
    } else {
      InnerRight(t, par, m, c);
      HangsFromParent(t.(right := RotateRight(t.right)), par, Rotated(m, t.right.key, false), c, true);
    }
  }

  lemma SteadyLeft<V>(t: Tree<V>, par: int, m: Index<V>, c: Cells<V>)
    requires t.Node? && t.key in m && Whole(t, par, m, c) && PointsOnce(m, par, t.key) && Tilt(t) < -1
    ensures OuterStep(t, par, m, c, true, Steadied(t, m.Keys))
  {
    hide Keys, Ordered, Rotated, Rep, Stored, Proper, BalanceFrame;
    ChildFacts(t, par, m, c, false);
    HangsFromParent(t, par, m, c, true);
    var u := t.right;
    if u.Node? && u.key in m {
      if Tilt(u) > 0 {
        InnerStep(t, par, m, c, false);
        if u.left.Node? && u.left.key in m {
          DoubleLeft(t, par, m, c);
          InnerOutside(t, par, m, c, false);
        } else {
          SingleLeft(t, par, m, c);
        }
      } else {
        SingleLeft(t, par, m, c);
      }
    } else {
      NotTurned(m, t.key, true);
      NoBalance(t, par, m);
    }
  }

  /** Everything `balance_node` needs to know about a real entry: it is the root of `t`. */
  ghost predicate RootsTree<V>(p: Padded<V>, rootKey: int, idx: nat, t: Tree<V>, par: int, c: Cells<V>)
    requires idx < |p|
  {
    && Sound(p) && t.Node? && t.key == p[idx].key && t.key in Slots(p)
    && Whole(t, par, Slots(p), c) && PointsOnce(Slots(p), par, t.key)
    && (rootKey == t.key || rootKey !in Keys(t))
  }

  /** The stored tilt of the child `key` of `e`, or 0 if it is not in the list. */
  method ChildTilt<V>(p: Padded<V>, key: int) returns (at: nat, tilt: int)
    requires Sound(p) && |p| > 0
    ensures at < |p|
    ensures key in Slots(p) ==>
              p[at].Real() && p[at].key == key && Slots(p)[key] == AsLocal(p[at]) && tilt == Slots(p)[key].avl.Balance()
    ensures key !in Slots(p) ==> tilt == 0
  {
    hide Slots;
    at, tilt := 0, 0;
    ghost var k := FindSlot(p, key);
    for i := 0 to |p|
      invariant at < |p|
      invariant if 0 <= k < i then at == k && tilt == p[k].avl.Balance() else tilt == 0
    {
      var match_ := p[i].Real() && p[i].key == key;
      at := if match_ then i else at;
      tilt := if match_ then p[i].avl.Balance() else tilt;
    }
  }

  lemma EntryFacts<V>(p: Padded<V>, rootKey: int, idx: nat, t: Tree<V>, par: int, c: Cells<V>)
    requires idx < |p| && p[idx].Real() && RootsTree(p, rootKey, idx, t, par, c)
    ensures var m, n := Slots(p), p[idx].avl;
            && m[t.key] == AsLocal(p[idx]) && n.Balance() == Tilt(t)
            && n.lKey == RootKey(t.left) && n.rKey == RootKey(t.right)
            && (n.lKey in m ==> t.left.Node? && m[n.lKey].avl.Balance() == Tilt(t.left) && rootKey != n.lKey)
            && (n.rKey in m ==> t.right.Node? && m[n.rKey].avl.Balance() == Tilt(t.right) && rootKey != n.rKey)
  {
    hide Slots, Sound, Ordered, Rep, Stored, Proper;
    SlotHas(p, idx);
    RootTilt(t, par, Slots(p), c);
    ChildFacts(t, par, Slots(p), c, true);
    ChildFacts(t, par, Slots(p), c, false);
    RootIsKey(t.left);
    RootIsKey(t.right);
  }

  lemma StaysBalanced<V>(t: Tree<V>, par: int, m: Index<V>)
    requires t.Node? && -1 <= Tilt(t) <= 1
    ensures Steadied(t, m.Keys) == t && BalanceFrame(m, m, par, t, t)
  {
  }

  /** `balance_node`: on a dummy nothing, on the root of `t` one step with the loaded nodes. All
      four rotations are always gone through. */
  method BalanceEntry<V>(p: Padded<V>, rootKey: int, idx: nat, ghost t: Tree<V>, ghost par: int, ghost c: Cells<V>)
    returns (r: Padded<V>, rootKey': int)
    requires Sound(p) && idx < |p| && (p[idx].Real() ==> RootsTree(p, rootKey, idx, t, par, c))
    ensures SameShape(p, r) && Sound(r)
    ensures !p[idx].Real() ==> r == p && rootKey' == rootKey
    ensures p[idx].Real() ==>
              && Whole(Steadied(t, Slots(p).Keys), par, Slots(r), c)
              && BalanceFrame(Slots(p), Slots(r), par, t, Steadied(t, Slots(p).Keys))
              && rootKey' == if rootKey == t.key then Steadied(t, Slots(p).Keys).key else rootKey
  {
    hide Slots, Sound, Keys, Ordered, Rotated, Rep, Stored, Proper, BalanceFrame, HangsOnce, PointsOnce, Whole, Steadied;
    var e := p[idx];
    var bal := e.avl.Balance();
    var needRight, needLeft := e.Real() && 1 < bal, e.Real() && bal < -1;
    var li, lTilt := ChildTilt(p, e.avl.lKey);
    var ri, rTilt := ChildTilt(p, e.avl.rKey);
    var needLr, needRl := needRight && lTilt < 0, needLeft && 0 < rTilt;
    ghost var m := Slots(p);
    if e.Real() {
      EntryFacts(p, rootKey, idx, t, par, c);
      if needRight { SteadyRight(t, par, m, c); }
      if needLeft { SteadyLeft(t, par, m, c); }
      if needLr { InnerStep(t, par, m, c, true); }
      if needRl { InnerStep(t, par, m, c, false); }
    }
    var r1, root1 := RotateCond(p, rootKey, li, needLr, true);
    var r2, root2 := RotateCond(r1, root1, ri, needRl, false);
    if e.Real() {
      assert root2 == rootKey;
      SlotHas(r2, idx);
    }
    var r3, root3 := RotateCond(r2, root2, idx, needRight, false);
    r, rootKey' := RotateCond(r3, root3, idx, needLeft, true);
    if e.Real() && !needRight && !needLeft {
      StaysBalanced(t, par, m);
    }
  }

  // ----- The rebalancing loop -----

  lemma ZipPointsOnce<V>(s: Local<V>, fs: seq<Frame<V>>, d: nat, t: Tree<V>, c: Cells<V>)
    requires Zip(s, fs, d, t, c) && t.Node?
    ensures Unique(s) && d <= |fs| && PointsOnce(At(s), ParentAt(fs, d), t.key)
  {
    hide At, Rep, Ordered, Keys, OrderedPath, Stored, Apart;
    PathApart(fs, d, t);
    PathOkKeys(s, fs, d, At(s), c);
    RootIsKey(t);
    if d > 0 {
      RootIsKey(fs[d - 1].other);
      AtHas(s, d - 1);
    } else {
      ListProper(s);
    }
  }

  /** The list entry of the lowest path node is the root of the focus it has joined. */
  lemma TipRootsTree<V>(p: Padded<V>, rootKey: int, idx: nat, fs: seq<Frame<V>>, d: nat, t: Tree<V>, c: Cells<V>)
    requires Sound(p) && idx < |p| && p[idx].Real() && Rank(p, idx) == d
    requires Zip(Reals(p), fs, d, t, c) && t.Node? && d < |fs| && t.key == fs[d].key && rootKey == RootAt(fs, d, t)
    requires d < |Reals(p)| && Reals(p)[d].key == t.key
    ensures RootsTree(p, rootKey, idx, t, ParentAt(fs, d), c)
  {
    hide At, Reals, Sound, Rep, PathOk, PathSide, OrderedPath, Ordered, Keys, Whole, PointsOnce;
    SlotsOf(p);
    RealsPrefix(p, idx);
    SlotHas(p, idx);
    ZipWhole(Reals(p), fs, d, t, c);
    ZipPointsOnce(Reals(p), fs, d, t, c);
    if d > 0 { RootOutside(fs, d, t); }
  }

  lemma SettleStep<V>(fs: seq<Frame<V>>, d: nat, t: Tree<V>, loaded: set<int>)
    requires d < |fs|
    ensures Join(fs[d], t).Node? && Join(fs[d], t).key == fs[d].key
    ensures Settle(fs[..d + 1], t, loaded) == Settle(fs[..d], Steadied(Join(fs[d], t), loaded), loaded)
    ensures RootAt(fs, d + 1, t) == RootAt(fs, d, Join(fs[d], t))
  {
    assert fs[..d + 1][..d] == fs[..d];
  }

  /** Balancing the focus of a path in the list. */
  lemma ZipSteadied<V>(p: Padded<V>, r: Padded<V>, fs: seq<Frame<V>>, d: nat, t: Tree<V>, c: Cells<V>, loaded: set<int>)
    requires Sound(p) && Sound(r) && SameShape(p, r) && Zip(Reals(p), fs, d, t, c) && t.Node? && d <= |fs|
    requires t.key in Slots(p) && loaded == Slots(p).Keys
    requires Whole(Steadied(t, loaded), ParentAt(fs, d), Slots(r), c)
    requires BalanceFrame(Slots(p), Slots(r), ParentAt(fs, d), t, Steadied(t, loaded))
    ensures Zip(Reals(r), fs, d, Steadied(t, loaded), c)
  {
    hide At, Reals, Sound, Zip, Whole, BalanceFrame, Steadied, Keys, Ordered;
    SlotsOf(p);
    SlotsOf(r);
    SameRanks(p, r);
    ZipTreeOrdered(Reals(p), fs, d, t, c);
    SteadiedKeeps(t, loaded);
    ZipBalance(Reals(p), Reals(r), fs, d, t, Steadied(t, loaded), c);
  }

  lemma ZipTreeOrdered<V>(s: Local<V>, fs: seq<Frame<V>>, d: nat, t: Tree<V>, c: Cells<V>)
    requires Zip(s, fs, d, t, c)
    ensures Ordered(t)
  {
    hide At, Rep, PathOk, PathSide, OrderedPath;
    PathApart(fs, d, t);
  }

  /** `rebalance`: every entry is visited, dummies too; on the path it rebuilds the tree. */
  method RebalanceLoaded<V>(p: Padded<V>, rootKey: int, ghost fs: seq<Frame<V>>, ghost t: Tree<V>, ghost c: Cells<V>)
    returns (r: Padded<V>, rootKey': int)
    requires Sound(p) && |Reals(p)| == |fs| && Zip(Reals(p), fs, |fs|, t, c) && rootKey == RootAt(fs, |fs|, t)
    ensures SameShape(p, r) && Sound(r)
    ensures Zip(Reals(r), fs, 0, Settle(fs, t, Slots(p).Keys), c)
    ensures rootKey' == RootKey(Settle(fs, t, Slots(p).Keys))
  {
    hide At, Reals, Rank, Sound, Slots, Zip, Steadied, Settle, RefreshAll, Join, RootAt, RootsTree;
    ghost var loaded, focus := Slots(p).Keys, t;
    r, rootKey' := p, rootKey;
    RankEnds(p);
    assert fs[..|fs|] == fs;
    ZipUnique(Reals(p), fs, |fs|, t, c);
    for i := |p| downto 0
      invariant SameShape(p, r) && Sound(r) && Rank(p, i) <= |fs| && Zip(Reals(r), fs, Rank(p, i), focus, c)
      invariant Settle(fs[..Rank(p, i)], focus, loaded) == Settle(fs, t, loaded)
      invariant rootKey' == RootAt(fs, Rank(p, i), focus)
    {
      ghost var d, before := Rank(p, i), Reals(r);
      RealsPrefix(p, i);
      SoundUnique(r);
      r := TeeLists.UpdateHeights(r);
      SameSlotKeys(p, r);
      ghost var par := INVALID_KEY;
      if p[i].Real() {
        ZipRefresh(before, fs, d + 1, focus, c);
        SettleStep(fs, d, focus, loaded);
        focus := Join(fs[d], focus);
        par := ParentAt(fs, d);
        SameRankAt(p, r, i);
        SameRanks(p, r);
        TipRootsTree(r, rootKey', i, fs, d, focus, c);
        SlotHas(r, i);
      } else {
        ZipRefreshAgain(before, fs, d, focus, c);
      }
      ghost var q, root := r, rootKey';
      r, rootKey' := BalanceEntry(r, rootKey', i, focus, par, c);
      if p[i].Real() {
        ZipSteadied(q, r, fs, d, focus, c, loaded);
        RootSteadied(Reals(q), fs, d, focus, c, root, loaded);
        focus := Steadied(focus, loaded);
      }
    }
    RankEnds(p);
    SoundUnique(r);
    assert fs[..0] == [];
    SettleEnds(focus, loaded);
    ZipRefreshAgain(Reals(r), fs, 0, focus, c);
    r := TeeLists.UpdateHeights(r);
    AtRoot(fs, focus);
  }

  lemma RootSteadied<V>(s: Local<V>, fs: seq<Frame<V>>, d: nat, t: Tree<V>, c: Cells<V>, rootKey: int, loaded: set<int>)
    requires Zip(s, fs, d, t, c) && d <= |fs| && t.Node? && rootKey == RootAt(fs, d, t)
    ensures RootAt(fs, d, Steadied(t, loaded)) == if rootKey == t.key then Steadied(t, loaded).key else rootKey
  {
    hide At, Rep, PathOk, PathSide, OrderedPath, Steadied;
    RootIsKey(t);
    if d > 0 { RootOutside(fs, d, t); }
  }

  lemma SteadiedRoot<V>(t: Tree<V>, loaded: set<int>)
    requires t.Node? && t.key in loaded
    ensures Steadied(t, loaded).key in loaded
  {
  }

  /** The root of a rebuilt path is in the list. */
  lemma {:induction false} SettleRoot<V>(fs: seq<Frame<V>>, t: Tree<V>, loaded: set<int>)
    requires fs != [] && forall j :: 0 <= j < |fs| ==> fs[j].key in loaded
    ensures Settle(fs, t, loaded).Node? && Settle(fs, t, loaded).key in loaded
  {
    var n := |fs| - 1;
    var j := Join(fs[n], t);
    SteadiedRoot(j, loaded);
    if n > 0 { SettleRoot(fs[..n], Steadied(j, loaded), loaded); }
  }

  lemma SettleEnds<V>(t: Tree<V>, loaded: set<int>)
    ensures Settle([], t, loaded) == t
  {
  }

  lemma AtRoot<V>(fs: seq<Frame<V>>, t: Tree<V>)
    ensures RootAt(fs, 0, t) == RootKey(t)
  {
  }

  // ----- On a balanced tree -----

  lemma PivotBecomesRoot<V>(t: Tree<V>, m: Index<V>)
    requires t.Node? && t.key in m && PivotsLoaded(t, m)
    ensures Rebalance(t).Node? && Rebalance(t).key in m
  {
  }

  lemma {:induction false} SettleInsertsFrom<V>(fs: seq<Frame<V>>, d: nat, key: int, value: V, m: Index<V>)
    requires InsertPath(fs, key, value) && d <= |fs| && forall j :: 0 <= j < |fs| ==> fs[j].key in m
    requires RebuiltLoaded(fs, d, key, value, m)
    ensures Settle(fs[..d], Rebuilt(fs, d, key, value), m.Keys) == Rebuilt(fs, 0, key, value)
    decreases d
  {
    hide Rebuilt, RebuiltLoaded, InsertPath, Steadied, PivotsLoaded, Rebalance, Settle;
    if d == 0 {
      RebuiltEnds(fs, key, value, m);
      assert fs[..0] == [];
      SettleEnds(Rebuilt(fs, 0, key, value), m.Keys);
    } else {
      var joined := Join(fs[d - 1], Rebuilt(fs, d, key, value));
      RebuiltStep(fs, d - 1, key, value, m);
      SettleStep(fs, d - 1, Rebuilt(fs, d, key, value), m.Keys);
      SteadiedIsRebalance(joined, m);
      PivotBecomesRoot(joined, m);
      SettleInsertsFrom(fs, d - 1, key, value, m);
    }
  }

  /** On a balanced tree the descent has loaded every pivot, so insertion is the full one. */
  lemma SettleInserts<V>(fs: seq<Frame<V>>, key: int, value: V, m: Index<V>)
    requires InsertPath(fs, key, value) && forall j :: 0 <= j < |fs| ==> fs[j].key in m
    ensures |fs| > 0 && Settle(fs, Nil, m.Keys) == Inserted(Original(fs, 0, |fs| - 1), key, value)
  {
    hide Rebuilt, RebuiltLoaded, InsertPath, Settle;
    RebuiltEnds(fs, key, value, m);
    assert fs[..|fs|] == fs;
    SettleInsertsFrom(fs, |fs|, key, value, m);
  }
}
