/** Hanging a new leaf at the end of a search path (avl_omap `insert`). */
module AvlAttach {
  import opened Common
  import opened StashTrees
  import opened AvlTrees
  import opened AvlLocal
  import opened AvlRep
  import opened AvlZip
  import opened AvlClimb
  import opened AvlDescend
  import opened AvlShrink

  /** Search-tree insertion without rebalancing. */
  function Attach<V>(t: Tree<V>, key: int, value: V): Tree<V> {
    match t
    case Nil => Node(Nil, key, value, Nil)
    case Node(l, k, v, r) =>
      if key < k then Node(Attach(l, key, value), k, v, r) else Node(l, k, v, Attach(r, key, value))
  }

  lemma {:induction false} AttachOrder<V>(t: Tree<V>, key: int, value: V)
    requires Ordered(t) && key !in Keys(t)
    ensures Ordered(Attach(t, key, value)) && Keys(Attach(t, key, value)) == Keys(t) + {key}
  {
    if t.Node? {
      if key < t.key { AttachOrder(t.left, key, value); } else { AttachOrder(t.right, key, value); }
    }
  }

  lemma {:induction false} AttachContents<V>(t: Tree<V>, key: int, value: V)
    requires Ordered(t) && key !in Keys(t)
    ensures Put(t, key, value, Attach(t, key, value))
  {
    hide Ordered, Keys, Contents;
    if t.Node? {
      PutLeft(t, key, value);
      if key < t.key { AttachContents(t.left, key, value); } else { AttachContents(t.right, key, value); }
      PutSide(t, key, value, if key < t.key then Attach(t.left, key, value) else Attach(t.right, key, value));
    } else {
      SingleEntry(key, value);
    }
  }

  lemma {:induction false} AttachHeight<V>(t: Tree<V>, key: int, value: V)
    ensures Height(Attach(t, key, value)) <= Height(t) + 1
  {
    if t.Node? {
      if key < t.key { AttachHeight(t.left, key, value); } else { AttachHeight(t.right, key, value); }
    }
  }

  lemma {:induction false} AttachAlong<V>(fs: seq<Frame<V>>, t: Tree<V>, key: int, value: V)
    requires StrictPath(fs, key)
    ensures Attach(Plug(fs, t), key, value) == Plug(fs, Attach(t, key, value))
  {
    if fs != [] {
      var n := |fs| - 1;
      AttachAlong(fs[..n], Join(fs[n], t), key, value);
    }
  }

  function NewFrame<V>(key: int, value: V): Frame<V> {
    Frame(key, value, true, Nil)
  }

  lemma AttachPath<V>(fs: seq<Frame<V>>, key: int, value: V)
    requires StrictPath(fs, key) && OrderedPath(fs, |fs|, Nil) && key !in Keys(Plug(fs, Nil)) && key >= 0
    ensures OrderedPath(fs + [NewFrame(key, value)], |fs| + 1, Nil)
  {
    hide Ordered, Keys;
    var gs := fs + [NewFrame(key, value)];
    assert gs[..|fs| + 1] == gs && gs[..|gs| - 1] == fs && fs[..|fs|] == fs;
    assert Join(NewFrame(key, value), Nil) == Node(Nil, key, value, Nil);
    AttachAlong(fs, Nil, key, value);
    AttachOrder(Plug(fs, Nil), key, value);
  }

  /** `n` with the new leaf as its child. */
  function WithChild<V>(n: LocalNode<V>, left: bool, key: int, leaf: int): LocalNode<V> {
    n.(avl := if left then n.avl.(lKey := key, lLeaf := leaf, lHeight := 1)
              else n.avl.(rKey := key, rLeaf := leaf, rHeight := 1))
  }

  function Attached<V>(s: Local<V>, left: bool, key: int, leaf: nat, value: V): Local<V>
    requires |s| > 0
  {
    var n := |s| - 1;
    s[n := WithChild(s[n], left, key, leaf)] + [LocalNode(key, leaf, FreshNode(value), s[n].key)]
  }

  lemma AttachedParent<V>(n: LocalNode<V>, f: Frame<V>, par: int, m: Index<V>, m': Index<V>, c: Cells<V>, key: int, leaf: int)
    requires FrameOk(n, f, par, m, c) && m'.Keys == m.Keys + {key} && key !in Keys(f.other)
    ensures FrameOk(WithChild(n, f.left, key, leaf), f, par, m', c)
    ensures PathKey(WithChild(n, f.left, key, leaf), f.left) == key
  {
    RootIsKey(f.other);
  }

  lemma NewNode<V>(key: int, leaf: nat, value: V, par: int, m: Index<V>, c: Cells<V>)
    ensures FrameOk(LocalNode(key, leaf, FreshNode(value), par), NewFrame(key, value), par, m, c)
    ensures PathSide(LocalNode(key, leaf, FreshNode(value), par), true, Nil, m, c)
  {
  }

  lemma FrameMore<V>(n: LocalNode<V>, f: Frame<V>, par: int, m: Index<V>, m': Index<V>, c: Cells<V>, key: int)
    requires FrameOk(n, f, par, m, c) && m'.Keys == m.Keys + {key} && key !in Keys(f.other)
    ensures FrameOk(n, f, par, m', c)
  {
    RootIsKey(f.other);
  }

  lemma PathMore<V>(s: Local<V>, fs: seq<Frame<V>>, d: nat, m: Index<V>, m': Index<V>, c: Cells<V>, key: int)
    requires d <= |s| && d <= |fs| && PathOk(s, fs, d, m, c) && m'.Keys == m.Keys + {key}
    requires forall j :: 0 <= j < d ==> key !in Keys(fs[j].other)
    ensures PathOk(s, fs, d, m', c)
  {
    hide FrameOk, Keys;
    forall j | 0 <= j < d ensures FrameOk(s[j], fs[j], ParentAt(fs, j), m', c) {
      FrameMore(s[j], fs[j], ParentAt(fs, j), m, m', c, key);
    }
  }

  lemma AttachedIndex<V>(s: Local<V>, left: bool, key: int, leaf: nat, value: V)
    requires Unique(s) && |s| > 0 && key >= 0 && key !in At(s)
    ensures var r := Attached(s, left, key, leaf, value);
            Unique(r) && At(r).Keys == At(s).Keys + {key}
  {
    hide At;
    var n := |s| - 1;
    var x := WithChild(s[n], left, key, leaf);
    AtHas(s, n);
    AtUpdate(s, n, x);
    AtAppend(s[n := x], LocalNode(key, leaf, FreshNode(value), s[n].key));
  }

  lemma OthersApart<V>(fs: seq<Frame<V>>, key: int)
    requires key !in Keys(Plug(fs, Nil))
    ensures forall j :: 0 <= j < |fs| ==> key !in Keys(fs[j].other)
  {
    hide Keys;
    PlugKeys(fs, Nil);
    forall j | 0 <= j < |fs| ensures key !in Keys(fs[j].other) {
      assert Keys(fs[j].other) <= Keys(Plug(fs, Nil));
    }
  }

  lemma PathGrow<V>(s: Local<V>, x: LocalNode<V>, n: LocalNode<V>, fs: seq<Frame<V>>, f: Frame<V>,
                    m: Index<V>, m': Index<V>, c: Cells<V>)
    requires |s| == |fs| > 0 && PathOk(s, fs, |s|, m, c) && m'.Keys == m.Keys + {f.key}
    requires forall j :: 0 <= j < |fs| ==> f.key !in Keys(fs[j].other)
    requires FrameOk(x, fs[|fs| - 1], ParentAt(fs, |fs| - 1), m', c) && PathKey(x, fs[|fs| - 1].left) == f.key
    requires FrameOk(n, f, fs[|fs| - 1].key, m', c)
    ensures PathOk(s[|s| - 1 := x] + [n], fs + [f], |s| + 1, m', c)
  {
    hide FrameOk, Keys, PathOk;
    var k := |s| - 1;
    PathMore(s, fs, |s|, m, m', c, f.key);
    PathOkReplace(s, s[k := x], fs, |s|, m', m', c);
    PathExtend(s[k := x], fs, |s|, m', c, n, f);
  }

  /** Hanging the new leaf below the end of the path. */
  lemma ZipAttach<V>(s: Local<V>, fs: seq<Frame<V>>, c: Cells<V>, key: int, leaf: nat, value: V)
    requires |s| == |fs| > 0 && Zip(s, fs, |s|, Nil, c) && StrictPath(fs, key)
    requires key >= 0 && key !in At(s) && key !in Keys(Plug(fs, Nil))
    ensures var r := Attached(s, fs[|fs| - 1].left, key, leaf, value);
            && Unique(r) && At(r).Keys == At(s).Keys + {key}
            && Zip(r, fs + [NewFrame(key, value)], |s| + 1, Nil, c)
  {
    hide At, Rep, Keys, Ordered, PathOk, PathSide, OrderedPath, FrameOk, NewFrame, WithChild, StrictPath;
    var left := fs[|fs| - 1].left;
    var r := Attached(s, left, key, leaf, value);
    NewFrameKey(key, value);
    AttachedIndex(s, left, key, leaf, value);
    OthersApart(fs, key);
    PathOkKeys(s, fs, |s|, At(s), c);
    AttachedParent(s[|s| - 1], fs[|fs| - 1], ParentAt(fs, |fs| - 1), At(s), At(r), c, key, leaf);
    NewNode(key, leaf, value, s[|s| - 1].key, At(r), c);
    PathGrow(s, WithChild(s[|s| - 1], left, key, leaf), LocalNode(key, leaf, FreshNode(value), s[|s| - 1].key),
             fs, NewFrame(key, value), At(s), At(r), c);
    assert fs[..|fs|] == fs;
    AttachPath(fs, key, value);
    NilRep(key, At(r), c);
  }

  lemma NewFrameKey<V>(key: int, value: V)
    ensures NewFrame(key, value).key == key && NewFrame(key, value).left
  {
  }

  lemma NilRep<V>(par: int, m: Index<V>, c: Cells<V>)
    ensures Rep(Nil, par, m, c)
  {
  }
}
