/** Paths on which rebalancing with the loaded nodes does nothing, and what it does to the depth of
    the path's end (tee_avl_omap). */
module TeeCalm {
  import opened Common
  import opened AvlTrees
  import opened AvlLocal
  import opened AvlRep
  import opened AvlZip
  import opened AvlShrink
  import opened AvlSearch
  import opened AvlAttach
  import opened AvlRemoval
  import opened AvlSteps
  import opened TeeBalance
  import opened TeeReach

  // ----- Calm paths -----

  /** No node of the path leans towards it by more than one when its end has height `h`. */
  ghost predicate Tolerant<V>(fs: seq<Frame<V>>, h: nat) {
    fs == [] || (h <= Height(fs[|fs| - 1].other) + 1 && Tolerant(fs[..|fs| - 1], 1 + Max(h, Height(fs[|fs| - 1].other))))
  }

  lemma SteadiedCalm<V>(f: Frame<V>, t: Tree<V>, loaded: set<int>)
    requires Height(t) <= Height(f.other) + 1 && RootKey(f.other) !in loaded
    ensures Steadied(Join(f, t), loaded) == Join(f, t) && Height(Join(f, t)) == 1 + Max(Height(t), Height(f.other))
  {
    hide RotateLeft, RotateRight, InnerTurned;
    JoinTilt(f, t);
  }

  /** On such a path rebuilding rotates nothing. */
  lemma {:induction false} SettleCalm<V>(fs: seq<Frame<V>>, t: Tree<V>, loaded: set<int>)
    requires Tolerant(fs, Height(t)) && forall j :: 0 <= j < |fs| ==> RootKey(fs[j].other) !in loaded
    ensures Settle(fs, t, loaded) == Plug(fs, t)
  {
    hide Steadied, Height;
    if fs != [] {
      var n := |fs| - 1;
      SteadiedCalm(fs[n], t, loaded);
      SettleCalm(fs[..n], Join(fs[n], t), loaded);
    }
  }

  /** Inserting `key` as a leaf leaves no node above it leaning towards it by more than one. */
  ghost predicate CalmPut<V>(t: Tree<V>, key: int, value: V) {
    match t
    case Nil => true
    case Node(l, k, _, r) =>
      if key < k then CalmPut(l, key, value) && Height(Attach(l, key, value)) <= Height(r) + 1
      else CalmPut(r, key, value) && Height(Attach(r, key, value)) <= Height(l) + 1
  }

  /** Deleting `key`, which has at most one child, leaves no node above it leaning so. */
  ghost predicate CalmDrop<V>(t: Tree<V>, key: int) {
    match t
    case Nil => true
    case Node(l, k, _, r) =>
      if key < k then CalmDrop(l, key) && Height(Deleted(l, key)) <= Height(r) + 1
      else if key > k then CalmDrop(r, key) && Height(Deleted(r, key)) <= Height(l) + 1
      else l == Nil || r == Nil
  }

  lemma {:induction false} PutAlong<V>(fs: seq<Frame<V>>, s: Tree<V>, key: int, value: V)
    requires StrictPath(fs, key) && CalmPut(Plug(fs, s), key, value)
    ensures CalmPut(s, key, value) && Tolerant(fs, Height(Attach(s, key, value)))
    ensures Attach(Plug(fs, s), key, value) == Plug(fs, Attach(s, key, value))
  {
    if fs != [] {
      var n := |fs| - 1;
      PutAlong(fs[..n], Join(fs[n], s), key, value);
      assert Attach(Join(fs[n], s), key, value) == Join(fs[n], Attach(s, key, value));
    }
  }

  lemma {:induction false} DropAlong<V>(fs: seq<Frame<V>>, s: Tree<V>, key: int)
    requires StrictPath(fs, key) && CalmDrop(Plug(fs, s), key)
    ensures CalmDrop(s, key) && Tolerant(fs, Height(Deleted(s, key)))
  {
    if fs != [] {
      var n := |fs| - 1;
      DropAlong(fs[..n], Join(fs[n], s), key);
      assert Deleted(Join(fs[n], s), key) == Join(fs[n], Deleted(s, key));
    }
  }

  /** A calm insertion is the plain one. */
  lemma CalmInsertion<V>(fs: seq<Frame<V>>, key: int, value: V, loaded: set<int>)
    requires StrictPath(fs, key) && CalmPut(Plug(fs, Nil), key, value)
    requires forall j :: 0 <= j < |fs| ==> RootKey(fs[j].other) !in loaded
    ensures Settle(fs + [NewFrame(key, value)], Nil, loaded) == Attach(Plug(fs, Nil), key, value)
  {
    hide Plug, StrictPath, Tolerant, CalmPut, Settle;
    PutAlong(fs, Nil, key, value);
    NewLeafSettles(fs, key, value, loaded);
    SettleCalm(fs, Attach(Nil, key, value), loaded);
  }

  lemma NewLeafSettles<V>(fs: seq<Frame<V>>, key: int, value: V, loaded: set<int>)
    ensures Settle(fs + [NewFrame(key, value)], Nil, loaded) == Settle(fs, Node(Nil, key, value, Nil), loaded)
    ensures Attach(Nil, key, value) == Node(Nil, key, value, Nil)
  {
    var gs := fs + [NewFrame(key, value)];
    assert gs[..|gs| - 1] == fs;
    assert Join(NewFrame(key, value), Nil) == Node(Nil, key, value, Nil);
  }

  /** A calm deletion is the plain one. */
  lemma CalmDeletion<V>(up: seq<Frame<V>>, s: Tree<V>, loaded: set<int>)
    requires s.Node? && (s.left == Nil || s.right == Nil) && StrictPath(up, s.key) && CalmDrop(Plug(up, s), s.key)
    requires forall j :: 0 <= j < |up| ==> RootKey(up[j].other) !in loaded
    ensures Settle(up, OnlySubtree(s), loaded) == Deleted(Plug(up, s), s.key)
  {
    hide Plug, StrictPath, Settle, Tolerant, CalmDrop;
    DropAlong(up, s, s.key);
    SettleCalm(up, OnlySubtree(s), loaded);
    DeletedOne(up, s);
  }

  /** With two children it is not calm. */
  lemma {:induction false} CalmHasOneChild<V>(up: seq<Frame<V>>, s: Tree<V>)
    requires s.Node? && StrictPath(up, s.key) && CalmDrop(Plug(up, s), s.key)
    ensures s.left == Nil || s.right == Nil
  {
    hide Plug, StrictPath, Tolerant;
    DropAlong(up, s, s.key);
  }

  // ----- Depth -----

  /** A single or double rotation lifts the path's side, so a key there does not go down. */
  lemma RightDepth<V>(t: Tree<V>, loaded: set<int>, key: int)
    requires t.Node? && t.left.Node? && key < t.key
    requires t.left.right.Node? ==> t.left.key < t.left.right.key
    ensures Depth(RotateRight(t.(left := InnerTurned(t.left, true, loaded))), key) <= Depth(t, key)
  {
    var l := t.left;
    assert Depth(t, key) == 1 + Depth(l, key);
    if InnerTurned(l, true, loaded) == l {
      assert Depth(RotateRight(t), key) <= 1 + Depth(l, key);
    } else {
      var m := l.right;
      var low, high := Node(l.left, l.key, l.value, m.left), Node(m.right, t.key, t.value, t.right);
      assert RotateRight(t.(left := RotateLeft(l))) == Node(low, m.key, m.value, high);
      assert key < m.key ==> Depth(low, key) <= Depth(l, key);
      assert key > m.key ==> Depth(l, key) == 2 + Depth(m.right, key) && Depth(high, key) == 1 + Depth(m.right, key);
    }
  }

  lemma LeftDepth<V>(t: Tree<V>, loaded: set<int>, key: int)
    requires t.Node? && t.right.Node? && key > t.key
    requires t.right.left.Node? ==> t.right.left.key < t.right.key
    ensures Depth(RotateLeft(t.(right := InnerTurned(t.right, false, loaded))), key) <= Depth(t, key)
  {
    var r := t.right;
    assert Depth(t, key) == 1 + Depth(r, key);
    if InnerTurned(r, false, loaded) == r {
      assert Depth(RotateLeft(t), key) <= 1 + Depth(r, key);
    } else {
      var m := r.left;
      var low, high := Node(t.left, t.key, t.value, m.left), Node(m.right, r.key, r.value, r.right);
      assert RotateLeft(t.(right := RotateRight(r))) == Node(low, m.key, m.value, high);
      assert key > m.key ==> Depth(high, key) <= Depth(r, key);
      assert key < m.key ==> Depth(r, key) == 2 + Depth(m.left, key) && Depth(low, key) == 1 + Depth(m.left, key);
    }
  }

  /** A step on the path to a key never moves the key down. */
  lemma SteadiedDepth<V>(f: Frame<V>, t: Tree<V>, loaded: set<int>, key: int)
    requires f.key != key && f.left == (key < f.key) && RootKey(f.other) !in loaded && Ordered(Join(f, t))
    ensures Depth(Steadied(Join(f, t), loaded), key) <= 1 + Depth(t, key)
  {
    hide RotateLeft, RotateRight, InnerTurned, Ordered, Keys;
    var j := Join(f, t);
    JoinTilt(f, t);
    assert Depth(j, key) == 1 + Depth(t, key);
    OrderedNode(j);
    if t.Node? {
      OrderedSides(t);
      if f.left { RightDepth(j, loaded, key); } else { LeftDepth(j, loaded, key); }
    }
  }

  /** Rebuilding does not move the key of the path down. */
  lemma {:induction false} SettleDepth<V>(fs: seq<Frame<V>>, t: Tree<V>, loaded: set<int>, key: int)
    requires StrictPath(fs, key) && Ordered(Plug(fs, t)) && forall j :: 0 <= j < |fs| ==> RootKey(fs[j].other) !in loaded
    ensures Depth(Settle(fs, t, loaded), key) <= |fs| + Depth(t, key)
  {
    hide Steadied, Ordered, Depth;
    if fs != [] {
      var n := |fs| - 1;
      var j := Join(fs[n], t);
      PlugOrdered(fs[..n], j);
      SteadiedDepth(fs[n], t, loaded, key);
      SteadiedKeeps(j, loaded);
      PlugSame(fs[..n], j, Steadied(j, loaded));
      SettleDepth(fs[..n], Steadied(j, loaded), loaded, key);
    }
  }

  /** A new leaf ends up no deeper than its place was. */
  lemma NewDepth<V>(fs: seq<Frame<V>>, key: int, value: V, loaded: set<int>)
    requires StrictPath(fs, key) && Ordered(Plug(fs + [NewFrame(key, value)], Nil))
    requires forall j :: 0 <= j < |fs| ==> RootKey(fs[j].other) !in loaded
    ensures Depth(Settle(fs + [NewFrame(key, value)], Nil, loaded), key) <= |fs|
    ensures Depth(Plug(fs, Nil), key) == |fs|
  {
    hide Plug, StrictPath, Settle, Ordered;
    NewLeafSettles(fs, key, value, loaded);
    PlugLeaf(fs, key, value);
    SettleDepth(fs, Node(Nil, key, value, Nil), loaded, key);
    DepthAlong(fs, Nil, key);
  }

  lemma PlugLeaf<V>(fs: seq<Frame<V>>, key: int, value: V)
    ensures Plug(fs + [NewFrame(key, value)], Nil) == Plug(fs, Node(Nil, key, value, Nil))
  {
    var gs := fs + [NewFrame(key, value)];
    assert gs[..|gs| - 1] == fs;
    assert Join(NewFrame(key, value), Nil) == Node(Nil, key, value, Nil);
  }
}
