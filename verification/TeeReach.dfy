/** How deep the enclave's fixed number of steps reaches (tee_avl_omap): which trees are searched
    completely, and what its removal does to a balanced tree. */
module TeeReach {
  import opened Common
  import opened Geometry
  import opened AvlTrees
  import opened AvlLocal
  import opened AvlRep
  import opened AvlZip
  import opened AvlDescend
  import opened AvlShrink
  import opened AvlSearch
  import opened AvlRemoval
  import opened AvlInit
  import opened AvlSteps
  import opened TeeBalance

  // ----- Reach -----

  lemma {:induction false} DeepestKey<V>(t: Tree<V>) returns (key: int)
    requires t.Node? && Ordered(t)
    ensures key in Keys(t) && Depth(t, key) == Height(t) - 1
  {
    OrderedNode(t);
    if t.left == Nil && t.right == Nil {
      key := t.key;
    } else {
      key := DeepestKey(if Height(t.left) >= Height(t.right) then t.left else t.right);
    }
  }

  /** A search of `h` steps finds every key of the tree iff the tree is no higher than `h`. */
  lemma ReachExact<V>(t: Tree<V>, h: nat)
    requires Ordered(t)
    ensures (forall k :: k in Keys(t) ==> Depth(t, k) < h) <==> Height(t) <= h
  {
    hide Keys, Ordered, Depth;
    if Height(t) <= h {
      forall k | k in Keys(t) ensures Depth(t, k) < h { DepthInHeight(t, k); }
    } else {
      var key := DeepestKey(t);
    }
  }

  /** In a balanced tree of fewer than Fib(h + 3) - 1 nodes, `h` steps find every present key and
      reach the place of every absent one. */
  lemma BalancedReach<V>(t: Tree<V>, key: int, h: nat)
    requires Avl(t) && Size(t) < Fib(h + 3) - 1
    ensures Depth(t, key) <= h && (key in Keys(t) ==> Depth(t, key) < h)
  {
    BalancedHeight(t, h);
    DepthInHeight(t, key);
  }

  /** Entries with the keys from `lo` on. */
  function Consecutive<V>(lo: int, n: nat, v: V): Entries<V> {
    seq(n, i => (lo + i, v))
  }

  lemma EvenTree<V>(lo: int, n: nat, v: V) returns (t: Tree<V>)
    ensures Avl(t) && Size(t) == n && Height(t) == HalvingHeight(n) && forall k :: k in Keys(t) ==> lo <= k < lo + n
  {
    hide Built, Ordered, Balanced, Keys, Size, Height, HalvingHeight;
    var s := Consecutive(lo, n, v);
    t := Built(s, 0, n - 1);
    BuiltBalanced(s, 0, n - 1);
    BuiltOrdered(s, 0, n - 1);
    BuiltKeys(s, 0, n - 1);
  }

  lemma {:induction false} HalvingExact(n: nat, h: nat)
    requires h > 0 && Pow2(h - 1) <= n < Pow2(h)
    ensures HalvingHeight(n) == h
  {
    if h > 1 {
      HalvingExact(n / 2, h - 1);
    }
  }

  lemma {:induction false} FibBelowPow(h: nat)
    ensures Fib(h + 2) <= Pow2(h)
  {
    if h >= 2 {
      FibBelowPow(h - 1);
      FibBelowPow(h - 2);
    }
  }

  /** Every size between the bounds for a height is that of an AVL tree of the height. */
  lemma {:induction false} TallTree<V>(lo: int, h: nat, n: nat, v: V) returns (t: Tree<V>)
    requires Fib(h + 2) - 1 <= n <= Pow2(h) - 1
    ensures Avl(t) && Size(t) == n && Height(t) == h && forall k :: k in Keys(t) ==> lo <= k < lo + n
    decreases h
  {
    if h == 0 {
      t := Nil;
    } else if n >= Pow2(h - 1) {
      t := EvenTree(lo, n, v);
      HalvingExact(n, h);
    } else {
      TallParts(h, n);
      hide Fib, Pow2;
      var small := Fib(h) - 1;
      var left := TallTree(lo, h - 1, n - 1 - small, v);
      var right := TallTree(lo + n - small, h - 2, small, v);
      t := Node(left, lo + n - 1 - small, v, right);
      Joined(left, lo + n - 1 - small, v, right, lo, n);
    }
  }

  lemma TallParts(h: nat, n: nat)
    requires h > 0 && Fib(h + 2) - 1 <= n < Pow2(h - 1)
    ensures h >= 2 && Fib(h) >= 1 && Fib(h) - 1 <= Pow2(h - 2) - 1 && Fib(h + 1) - 1 <= n - Fib(h) <= Pow2(h - 1) - 1
  {
    FibBelowPow(h - 1);
    FibMonotone(1, h);
    if h >= 2 { FibBelowPow(h - 2); }
  }

  lemma Joined<V>(l: Tree<V>, k: int, v: V, r: Tree<V>, lo: int, n: nat)
    requires Avl(l) && Avl(r) && (forall x :: x in Keys(l) ==> lo <= x < k) && (forall x :: x in Keys(r) ==> k < x < lo + n)
    requires Height(l) == Height(r) + 1 && lo <= k < lo + n
    ensures Avl(Node(l, k, v, r)) && forall x :: x in Keys(Node(l, k, v, r)) ==> lo <= x < lo + n
  {
  }

  /** `h` steps find every key of every AVL tree of `n` entries iff `n` is below Fib(h + 3) - 1. */
  lemma ReachSizeExact<V>(n: nat, h: nat, v: V)
    ensures (forall t: Tree<V>, k :: Avl(t) && Size(t) == n && k in Keys(t) ==> Depth(t, k) < h) <==> n < Fib(h + 3) - 1
  {
    hide Keys, Ordered, Balanced, Depth, Size, Fib, Pow2, HalvingHeight, Height;
    if n < Fib(h + 3) - 1 {
      forall t: Tree<V>, k | Avl(t) && Size(t) == n && k in Keys(t) ensures Depth(t, k) < h {
        BalancedReach(t, k, h);
      }
    } else {
      var t := HighTree(n, h, v);
      var key := DeepestKey(t);
      assert Avl(t) && Size(t) == n && key in Keys(t) && Depth(t, key) >= h;
    }
  }

  lemma HighTree<V>(n: nat, h: nat, v: V) returns (t: Tree<V>)
    requires n >= Fib(h + 3) - 1
    ensures Avl(t) && Size(t) == n && Height(t) > h && t.Node?
  {
    if n <= Pow2(h + 1) - 1 {
      t := TallTree(0, h + 1, n, v);
    } else {
      t := EvenTree(0, n, v);
      if Height(t) <= h { SizeBound(t, h); }
    }
  }

  lemma {:induction false} SizeBound<V>(t: Tree<V>, h: nat)
    requires Height(t) <= h
    ensures Size(t) <= Pow2(h) - 1
  {
    if t.Node? {
      SizeBound(t.left, h - 1);
      SizeBound(t.right, h - 1);
    }
  }

  /** In a full tree every absent key belongs at the same depth. */
  lemma {:induction false} FullDepth<V>(t: Tree<V>, key: int, h: nat)
    requires Height(t) <= h && Size(t) == Pow2(h) - 1 && key !in Keys(t)
    ensures Depth(t, key) == h
    decreases h
  {
    if t.Node? {
      FullSides(t, h);
      FullDepth(if key < t.key then t.left else t.right, key, h - 1);
    }
  }

  lemma {:induction false} FullHalving(h: nat)
    ensures HalvingHeight(Pow2(h) - 1) == h
  {
    if h > 0 {
      FullHalving(h - 1);
      assert (Pow2(h) - 1) / 2 == Pow2(h - 1) - 1;
    }
  }

  /** A full tree takes a new key in on a level of its own. */
  lemma {:induction false} FullInserted<V>(t: Tree<V>, key: int, value: V, h: nat)
    requires Height(t) <= h && Size(t) == Pow2(h) - 1 && key !in Keys(t)
    ensures Height(t) == h && Height(Inserted(t, key, value)) == h + 1 && Depth(Inserted(t, key, value), key) == h
    decreases h
  {
    if t.Node? {
      FullSides(t, h);
      if key < t.key {
        FullInserted(t.left, key, value, h - 1);
        OneTaller(t.(left := Inserted(t.left, key, value)));
      } else {
        FullInserted(t.right, key, value, h - 1);
        OneTaller(t.(right := Inserted(t.right, key, value)));
      }
    }
  }

  lemma FullSides<V>(t: Tree<V>, h: nat)
    requires t.Node? && Height(t) <= h && Size(t) == Pow2(h) - 1
    ensures h > 0 && Size(t.left) == Pow2(h - 1) - 1 == Size(t.right) && Height(t.left) == h - 1 == Height(t.right)
  {
    SizeBound(t.left, h - 1);
    SizeBound(t.right, h - 1);
    FullHeight(t.left, h - 1);
    FullHeight(t.right, h - 1);
  }

  lemma OneTaller<V>(t: Tree<V>)
    requires t.Node? && -1 <= Tilt(t) <= 1
    ensures Rebalance(t) == t
  {
  }

  lemma {:induction false} FullHeight<V>(t: Tree<V>, h: nat)
    requires Height(t) <= h && Size(t) == Pow2(h) - 1
    ensures Height(t) == h
  {
    if Height(t) < h {
      SizeBound(t, h - 1);
    }
  }

  /** Seven keys and a map that takes two steps, the fewest that its limit can be: the place of an
      eighth key is out of reach. */
  lemma SevenKeysTwoSteps<V>(v: V)
    ensures var t := Node(Node(Node(Nil, 1, v, Nil), 2, v, Node(Nil, 3, v, Nil)), 4, v,
                          Node(Node(Nil, 5, v, Nil), 6, v, Node(Nil, 7, v, Nil)));
            Avl(t) && Contents(t).Keys == {1, 2, 3, 4, 5, 6, 7} && Depth(t, 8) == 3
  {
    var l, r := Node(Node(Nil, 1, v, Nil), 2, v, Node(Nil, 3, v, Nil)), Node(Node(Nil, 5, v, Nil), 6, v, Node(Nil, 7, v, Nil));
    ThreeKeys(1, 2, 3, v);
    ThreeKeys(5, 6, 7, v);
    hide Ordered;
    DepthRight(Nil, 7, v, Nil, 8);
    DepthRight(r.left, 6, v, r.right, 8);
    DepthRight(l, 4, v, r, 8);
    ContentsKeys(Node(l, 4, v, r));
    assert Ordered(Node(l, 4, v, r)) by { Ordering(l, 4, v, r); }
  }

  lemma DepthRight<V>(l: Tree<V>, k: int, v: V, r: Tree<V>, key: int)
    requires key > k
    ensures Depth(Node(l, k, v, r), key) == Depth(r, key) + 1 && Depth<V>(Nil, key) == 0
  {
  }

  lemma ThreeKeys<V>(a: int, b: int, c: int, v: V)
    requires a < b < c
    ensures var t := Node(Node(Nil, a, v, Nil), b, v, Node(Nil, c, v, Nil));
            Avl(t) && Keys(t) == {a, b, c} && Height(t) == 2
  {
    var l, r := Node(Nil, a, v, Nil), Node(Nil, c, v, Nil);
    var t := Node(l, b, v, r);
    OneKey(a, v);
    OneKey(c, v);
    Ordering(l, b, v, r);
    forall k ensures k in Keys(t) <==> k in {a, b, c} {
    }
    assert Height(l) == 1 && Height(r) == 1 && Tilt(t) == 0;
  }

  lemma OneKey<V>(k: int, v: V)
    ensures var t := Node(Nil, k, v, Nil);
            Avl(t) && forall x :: x in Keys(t) <==> x == k
  {
    assert forall x :: x !in Keys<V>(Nil);
    assert Balanced<V>(Nil) && Height<V>(Nil) == 0;
  }

  lemma Ordering<V>(l: Tree<V>, k: int, v: V, r: Tree<V>)
    requires Ordered(l) && Ordered(r) && Below(Keys(l), k) && Above(Keys(r), k)
    ensures Ordered(Node(l, k, v, r))
  {
  }

  // ----- Removal from a balanced tree -----

  /** Search-tree deletion without rebalancing. */
  function Deleted<V>(t: Tree<V>, key: int): Tree<V> {
    match t
    case Nil => Nil
    case Node(l, k, v, r) =>
      if key < k then Node(Deleted(l, key), k, v, r)
      else if key > k then Node(l, k, v, Deleted(r, key))
      else if l == Nil then r
      else if r == Nil then l
      else Node(l, Leftmost(r).key, Leftmost(r).value, DropMin(r))
  }

  lemma {:induction false} DeletedAlong<V>(fs: seq<Frame<V>>, t: Tree<V>, key: int)
    requires StrictPath(fs, key)
    ensures Deleted(Plug(fs, t), key) == Plug(fs, Deleted(t, key))
  {
    if fs != [] {
      var n := |fs| - 1;
      DeletedAlong(fs[..n], Join(fs[n], t), key);
    }
  }

  /** The path that the surgery leaves holds the deleted tree. */
  lemma DeletedTwo<V>(up: seq<Frame<V>>, s: Tree<V>, down: seq<Frame<V>>, m: Tree<V>)
    requires s.Node? && s.left.Node? && m.Node? && m.left == Nil && LeftSpine(down) && Plug(down, m) == s.right
    requires StrictPath(up, s.key)
    ensures Plug(Successed(up, s, down, m), m.right) == Deleted(Plug(up, s), s.key)
  {
    hide Plug, StrictPath, LeftSpine;
    DeletedAlong(up, s, s.key);
    SpineMin(down, m);
    SuccessedPlug(up, s, down, m, m.right);
  }

  lemma DeletedOne<V>(up: seq<Frame<V>>, s: Tree<V>)
    requires s.Node? && (s.left == Nil || s.right == Nil) && StrictPath(up, s.key)
    ensures Plug(up, OnlySubtree(s)) == Deleted(Plug(up, s), s.key)
  {
    hide Plug, StrictPath;
    DeletedAlong(up, s, s.key);
  }

  lemma SuccessedPlug<V>(up: seq<Frame<V>>, s: Tree<V>, down: seq<Frame<V>>, m: Tree<V>, t: Tree<V>)
    requires s.Node? && m.Node?
    ensures Plug(Successed(up, s, down, m), t) == Plug(up, Node(s.left, m.key, m.value, Plug(down, t)))
  {
    hide Plug;
    var mid := [Frame(m.key, m.value, false, s.left)];
    PlugAppend(up + mid, down, t);
    PlugAppend(up, mid, Plug(down, t));
    PlugOne(mid[0], Plug(down, t));
  }

  /** Only the shape matters for balance. */
  lemma {:induction false} PlugShape<V>(fs: seq<Frame<V>>, t: Tree<V>, t': Tree<V>)
    requires Balanced(Plug(fs, t)) && Balanced(t') && Height(t') == Height(t)
    ensures Balanced(t) && Balanced(Plug(fs, t'))
  {
    if fs != [] {
      var n := |fs| - 1;
      var j, j' := Join(fs[n], t), Join(fs[n], t');
      PlugBalanced(fs[..n], j);
      PlugShape(fs[..n], j, j');
    }
  }

  lemma {:induction false} PlugBalanced<V>(fs: seq<Frame<V>>, t: Tree<V>)
    requires Balanced(Plug(fs, t))
    ensures Balanced(t)
  {
    if fs != [] {
      var n := |fs| - 1;
      PlugBalanced(fs[..n], Join(fs[n], t));
    }
  }

  /** Where the path side has lost a level, the taller side is off the path and not loaded. */
  lemma SteadiedIdle<V>(f: Frame<V>, t: Tree<V>, t': Tree<V>, loaded: set<int>)
    requires Balanced(Join(f, t)) && Height(t) - 1 <= Height(t') <= Height(t) && RootKey(f.other) !in loaded
    ensures Steadied(Join(f, t'), loaded) == Join(f, t')
    ensures Height(Join(f, t)) - 1 <= Height(Join(f, t')) <= Height(Join(f, t))
  {
    hide RotateLeft, RotateRight, InnerTurned, Balanced;
    JoinTilt(f, t);
    JoinTilt(f, t');
  }

  lemma JoinTilt<V>(f: Frame<V>, t: Tree<V>)
    ensures Join(f, t).Node? && Height(Join(f, t)) == 1 + Max(Height(t), Height(f.other))
    ensures Tilt(Join(f, t)) == if f.left then Height(t) - Height(f.other) else Height(f.other) - Height(t)
    ensures Balanced(Join(f, t)) ==> -1 <= Tilt(Join(f, t)) <= 1
  {
  }

  lemma {:induction false} SettleIdle<V>(fs: seq<Frame<V>>, t: Tree<V>, t': Tree<V>, loaded: set<int>)
    requires Balanced(Plug(fs, t)) && Height(t) - 1 <= Height(t') <= Height(t)
    requires forall j :: 0 <= j < |fs| ==> RootKey(fs[j].other) !in loaded
    ensures Settle(fs, t', loaded) == Plug(fs, t')
  {
    hide Steadied, Balanced, Height;
    if fs != [] {
      var n := |fs| - 1;
      PlugBalanced(fs[..n], Join(fs[n], t));
      SteadiedIdle(fs[n], t, t', loaded);
      SettleIdle(fs[..n], Join(fs[n], t), Join(fs[n], t'), loaded);
    }
  }

  /** On a balanced tree nothing is rotated: the removal is the plain deletion. */
  lemma IdleOne<V>(up: seq<Frame<V>>, s: Tree<V>, loaded: set<int>)
    requires s.Node? && (s.left == Nil || s.right == Nil) && StrictPath(up, s.key) && Balanced(Plug(up, s))
    requires forall j :: 0 <= j < |up| ==> RootKey(up[j].other) !in loaded
    ensures Settle(up, OnlySubtree(s), loaded) == Deleted(Plug(up, s), s.key)
  {
    hide Plug, StrictPath, Settle, Balanced;
    SettleIdle(up, s, OnlySubtree(s), loaded);
    DeletedOne(up, s);
  }

  lemma IdleTwo<V>(up: seq<Frame<V>>, s: Tree<V>, down: seq<Frame<V>>, m: Tree<V>, loaded: set<int>)
    requires s.Node? && s.left.Node? && m.Node? && m.left == Nil && LeftSpine(down) && Plug(down, m) == s.right
    requires StrictPath(up, s.key) && Balanced(Plug(up, s))
    requires forall j :: 0 <= j < |Successed(up, s, down, m)| ==> RootKey(Successed(up, s, down, m)[j].other) !in loaded
    ensures Settle(Successed(up, s, down, m), m.right, loaded) == Deleted(Plug(up, s), s.key)
  {
    hide Plug, StrictPath, Settle, LeftSpine, Successed;
    PlugBalanced(up, s);
    SuccessedPlug(up, s, down, m, m);
    PlugShape(up, s, Node(s.left, m.key, m.value, s.right));
    SettleIdle(Successed(up, s, down, m), m, m.right, loaded);
    DeletedTwo(up, s, down, m);
  }

  /** The subtrees off a path are not in the list. */
  lemma OthersUnloaded<V>(s: Local<V>, fs: seq<Frame<V>>, t: Tree<V>, c: Cells<V>)
    requires |s| == |fs| && Zip(s, fs, |fs|, t, c)
    ensures Unique(s) && forall j :: 0 <= j < |fs| ==> RootKey(fs[j].other) !in At(s)
  {
    hide At, Rep, PathSide, OrderedPath, FrameOk, PathOk;
    ListProper(s);
    forall j | 0 <= j < |fs| ensures RootKey(fs[j].other) !in At(s) {
      FrameAt(s, fs, |fs|, At(s), c, j);
      OtherUnloaded(s[j], fs[j], ParentAt(fs, j), At(s), c);
    }
  }

  lemma OtherUnloaded<V>(n: LocalNode<V>, f: Frame<V>, par: int, m: Index<V>, c: Cells<V>)
    requires FrameOk(n, f, par, m, c) && Proper(m)
    ensures RootKey(f.other) !in m
  {
    RootIsKey(f.other);
  }

  lemma {:induction false} DeletedMissing<V>(t: Tree<V>, key: int)
    requires Ordered(t) && key !in Keys(t)
    ensures Deleted(t, key) == t
  {
    if t.Node? {
      OrderedNode(t);
      DeletedMissing(t.left, key);
      DeletedMissing(t.right, key);
    }
  }

  lemma {:induction false} IdleMissed<V>(up: seq<Frame<V>>, t: Tree<V>, key: int, loaded: set<int>)
    requires Balanced(Plug(up, t)) && Ordered(Plug(up, t)) && key !in Keys(Plug(up, t))
    requires forall j :: 0 <= j < |up| ==> RootKey(up[j].other) !in loaded
    ensures Settle(up, t, loaded) == Deleted(Plug(up, t), key)
  {
    hide Plug, Settle, Balanced, Ordered, Keys, Deleted;
    SettleIdle(up, t, t, loaded);
    DeletedMissing(Plug(up, t), key);
  }

  /** Deletion alone can leave a balanced tree unbalanced. */
  lemma DeletionUnbalances<V>(v: V)
    ensures var t := Node(Node(Nil, 1, v, Nil), 2, v, Node(Nil, 3, v, Node(Nil, 4, v, Nil)));
            Avl(t) && !Balanced(Deleted(t, 1)) && Balanced(Removed(t, 1))
  {
    var t := Node(Node(Nil, 1, v, Nil), 2, v, Node(Nil, 3, v, Node(Nil, 4, v, Nil)));
    assert Keys(t.right) == {3, 4};
    var d := Node(Nil, 2, v, Node(Nil, 3, v, Node(Nil, 4, v, Nil)));
    assert Removed(t.left, 1) == Nil && Removed(t, 1) == Rebalance(d);
    assert Tilt(d) == -2 && Tilt(d.right) == -1;
  }
}
