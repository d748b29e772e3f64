/** What the pointer surgery of a removal means for the represented tree. */
module AvlShrink {
  import opened Common
  import opened StashTrees
  import opened AvlTrees
  import opened AvlLocal
  import opened AvlRep
  import opened AvlZip
  import opened AvlDescend
  import opened AvlUnlink

  // ----- Trees along a path -----

  lemma {:induction false} PlugAppend<V>(a: seq<Frame<V>>, b: seq<Frame<V>>, t: Tree<V>)
    ensures Plug(a + b, t) == Plug(a, Plug(b, t))
  {
    if b == [] {
      assert a + b == a;
    } else {
      var n := |b| - 1;
      assert (a + b)[..|a + b| - 1] == a + b[..n];
      PlugAppend(a, b[..n], Join(b[n], t));
    }
  }

  lemma {:induction false} ClimbAppend<V>(a: seq<Frame<V>>, b: seq<Frame<V>>, t: Tree<V>)
    ensures Climb(a + b, t) == Climb(a, Climb(b, t))
  {
    hide Rebalance;
    if b == [] {
      assert a + b == a;
    } else {
      var n := |b| - 1;
      assert (a + b)[..|a + b| - 1] == a + b[..n];
      ClimbAppend(a, b[..n], Rebalance(Join(b[n], t)));
    }
  }

  lemma JoinShrink<V>(f: Frame<V>, t: Tree<V>, t': Tree<V>)
    requires Ordered(Join(f, t)) && Ordered(t') && Keys(t') <= Keys(t)
    ensures Ordered(Join(f, t')) && Keys(Join(f, t')) <= Keys(Join(f, t))
  {
  }

  lemma {:induction false} PlugShrink<V>(fs: seq<Frame<V>>, t: Tree<V>, t': Tree<V>)
    requires Ordered(Plug(fs, t)) && Ordered(t') && Keys(t') <= Keys(t)
    ensures Ordered(Plug(fs, t')) && Keys(Plug(fs, t')) <= Keys(Plug(fs, t))
  {
    hide Ordered, Keys;
    if fs != [] {
      var n := |fs| - 1;
      PlugOrdered(fs[..n], Join(fs[n], t));
      JoinShrink(fs[n], t, t');
      PlugShrink(fs[..n], Join(fs[n], t), Join(fs[n], t'));
    }
  }

  /** On an ordered path every frame's key is apart from every frame's other subtree. */
  lemma {:induction false} PathDistinct<V>(fs: seq<Frame<V>>, t: Tree<V>)
    requires Ordered(Plug(fs, t))
    ensures forall i, j :: 0 <= i < |fs| && 0 <= j < |fs| ==> fs[i].key !in Keys(fs[j].other)
    ensures forall i, j :: 0 <= i < j < |fs| ==> fs[i].key != fs[j].key
  {
    hide Ordered, Keys;
    if fs != [] {
      var n := |fs| - 1;
      var up := Join(fs[n], t);
      PathDistinct(fs[..n], up);
      PlugOrdered(fs[..n], up);
      JoinOrdered(fs[n], t);
      forall i | 0 <= i < n
        ensures fs[i].key != fs[n].key && fs[i].key !in Keys(fs[n].other) && fs[n].key !in Keys(fs[i].other)
      {
        assert fs[..n][i] == fs[i];
        KeyNotInOther(Keys(fs[i].other), Keys(up), fs[n].key);
      }
      forall i, j | 0 <= i < |fs| && 0 <= j < |fs| ensures fs[i].key !in Keys(fs[j].other) {
        if i < n && j < n { assert fs[..n][i] == fs[i] && fs[..n][j] == fs[j]; }
      }
      forall i, j | 0 <= i < j < |fs| ensures fs[i].key != fs[j].key {
        if j < n { assert fs[..n][i] == fs[i] && fs[..n][j] == fs[j]; }
      }
    }
  }

  // ----- What the removed tree is -----

  /** The strict search path of `key`. */
  ghost predicate StrictPath<V>(fs: seq<Frame<V>>, key: int) {
    forall j :: 0 <= j < |fs| ==> fs[j].key != key && fs[j].left == (key < fs[j].key)
  }

  ghost predicate LeftSpine<V>(fs: seq<Frame<V>>) {
    forall j :: 0 <= j < |fs| ==> fs[j].left
  }

  lemma {:induction false} RemoveAlong<V>(fs: seq<Frame<V>>, t: Tree<V>, key: int)
    requires StrictPath(fs, key)
    ensures Removed(Plug(fs, t), key) == Climb(fs, Removed(t, key))
  {
    hide Rebalance;
    if fs != [] {
      var n := |fs| - 1;
      RemoveAlong(fs[..n], Join(fs[n], t), key);
      RemoveJoin(fs[n], t, key);
    }
  }

  lemma RemoveJoin<V>(f: Frame<V>, t: Tree<V>, key: int)
    requires f.key != key && f.left == (key < f.key)
    ensures Removed(Join(f, t), key) == Rebalance(Join(f, Removed(t, key)))
  {
    hide Rebalance;
  }

  lemma {:induction false} SpineMin<V>(fs: seq<Frame<V>>, t: Tree<V>)
    requires LeftSpine(fs) && t.Node?
    ensures Plug(fs, t).Node?
    ensures Leftmost(Plug(fs, t)) == Leftmost(t)
    ensures DropMin(Plug(fs, t)) == Plug(fs, DropMin(t))
    ensures RemoveMin(Plug(fs, t)) == Climb(fs, RemoveMin(t))
  {
    hide Rebalance;
    if fs != [] {
      var n := |fs| - 1;
      SpineMin(fs[..n], Join(fs[n], t));
    }
  }

  /** The removal of a node with two children: `up` leads to it, `down` from its right child to
      the parent of the successor. */
  lemma RemoveTwoChild<V>(up: seq<Frame<V>>, l: Tree<V>, k: int, v: V, down: seq<Frame<V>>, sk: int, sv: V, rest: Tree<V>)
    requires StrictPath(up, k) && LeftSpine(down) && l.Node?
    ensures Removed(Plug(up, Node(l, k, v, Plug(down, Node(Nil, sk, sv, rest)))), k)
         == Climb(up + [Frame(sk, sv, false, l)] + down, rest)
  {
    hide Rebalance, Leftmost, RemoveMin, Plug;
    var s := Node(Nil, sk, sv, rest);
    var r := Plug(down, s);
    SpineMin(down, s);
    assert Leftmost(s) == s && RemoveMin(s) == rest by { OneSpine(sk, sv, rest); }
    RemoveAlong(up, Node(l, k, v, r), k);
    var f := Frame(sk, sv, false, l);
    ClimbAppend(up + [f], down, rest);
    ClimbAppend(up, [f], Climb(down, rest));
    ClimbOne(f, Climb(down, rest));
  }

  lemma OneSpine<V>(sk: int, sv: V, rest: Tree<V>)
    ensures Leftmost(Node(Nil, sk, sv, rest)) == Node(Nil, sk, sv, rest)
    ensures RemoveMin(Node(Nil, sk, sv, rest)) == rest && DropMin(Node(Nil, sk, sv, rest)) == rest
  {
  }

  lemma ClimbOne<V>(f: Frame<V>, t: Tree<V>)
    ensures Climb([f], t) == Rebalance(Join(f, t))
  {
    hide Rebalance;
    assert [f][..0] == [];
  }

  /** Taking over the successor keeps the path ordered. */
  lemma RenamedOrder<V>(up: seq<Frame<V>>, l: Tree<V>, k: int, v: V, down: seq<Frame<V>>, sk: int, sv: V, rest: Tree<V>)
    requires LeftSpine(down)
    requires Ordered(Plug(up, Node(l, k, v, Plug(down, Node(Nil, sk, sv, rest)))))
    ensures var t := Plug(up, Node(l, k, v, Plug(down, Node(Nil, sk, sv, rest))));
            var t' := Plug(up + [Frame(sk, sv, false, l)] + down, rest);
            Ordered(t') && Keys(t') <= Keys(t)
  {
    hide Ordered, Keys, Leftmost, DropMin, Plug;
    var s := Node(Nil, sk, sv, rest);
    var r := Plug(down, s);
    SpineMin(down, s);
    OneSpine(sk, sv, rest);
    var f := Frame(sk, sv, false, l);
    PlugOrdered(up, Node(l, k, v, r));
    SuccessorKeepsOrder(l, k, v, r);
    SuccessorWithin(l, k, v, r);
    PlugShrink(up, Node(l, k, v, r), Node(l, sk, sv, DropMin(r)));
    PlugAppend(up + [f], down, rest);
    PlugAppend(up, [f], Plug(down, rest));
    PlugOne(f, Plug(down, rest));
  }

  lemma SuccessorWithin<V>(l: Tree<V>, k: int, v: V, r: Tree<V>)
    requires r.Node?
    requires Keys(Node(l, Leftmost(r).key, Leftmost(r).value, DropMin(r))) == Keys(Node(l, k, v, r)) - {k}
    ensures Keys(Node(l, Leftmost(r).key, Leftmost(r).value, DropMin(r))) <= Keys(Node(l, k, v, r))
  {
    hide Keys;
  }

  lemma PlugOne<V>(f: Frame<V>, t: Tree<V>)
    ensures Plug([f], t) == Join(f, t)
  {
    assert [f][..0] == [];
  }

  // ----- The surgery on a represented path -----

  lemma ZipLinked<V>(s: Local<V>, fs: seq<Frame<V>>, t: Tree<V>, c: Cells<V>)
    requires |s| == |fs| && Zip(s, fs, |s|, t, c)
    ensures Linked(s)
  {
    hide At, Rep, Ordered, Keys, PathSide, OrderedPath, FrameOk, PathOk;
    PathOkKeys(s, fs, |s|, At(s), c);
  }

  lemma FrameUnload<V>(n: LocalNode<V>, f: Frame<V>, par: int, m: Index<V>, m': Index<V>, c: Cells<V>)
    requires FrameOk(n, f, par, m, c) && m'.Keys <= m.Keys
    ensures FrameOk(n, f, par, m', c)
  {
    RootIsKey(f.other);
  }

  lemma {:induction false} PathUnload<V>(s: Local<V>, fs: seq<Frame<V>>, d: nat, m: Index<V>, m': Index<V>, c: Cells<V>)
    requires d <= |s| && d <= |fs| && PathOk(s, fs, d, m, c) && m'.Keys <= m.Keys
    ensures PathOk(s, fs, d, m', c)
  {
    hide FrameOk;
    forall j | 0 <= j < d ensures FrameOk(s[j], fs[j], ParentAt(fs, j), m', c) {
      FrameUnload(s[j], fs[j], ParentAt(fs, j), m, m', c);
    }
  }

  /** The only child of the last path node, as seen by the code. */
  lemma OnlyChild<V>(n: LocalNode<V>, f: Frame<V>, t: Tree<V>, m: Index<V>, c: Cells<V>)
    requires FrameOk(n, f, n.parentKey, m, c) && PathSide(n, f.left, t, m, c)
    requires t == Nil || f.other == Nil
    requires Stored(t, c) && Apart(Keys(t), m)
    requires (t.Node? ==> t.key >= 0) && (f.other.Node? ==> f.other.key >= 0)
    ensures var child := if t == Nil then f.other else t;
            && OnlyChildKey(n.avl) == RootKey(child) && OnlyChildHeight(n.avl) == Height(child)
            && (child.Node? ==> child.key in c && OnlyChildLeaf(n.avl) == c[child.key].leaf)
            && Stored(child, c) && Apart(Keys(child), m)
  {
    RootIsKey(t);
    RootIsKey(f.other);
  }

  lemma ParentOfLast<V>(p: LocalNode<V>, f: Frame<V>, par: int, was: int, t: Tree<V>, child: Tree<V>,
                        leaf: int, m: Index<V>, m': Index<V>, c: Cells<V>)
    requires FrameOk(p, f, par, m, c) && PathKey(p, f.left) == was && was in m && was >= 0 && m'.Keys <= m.Keys
    requires child.Node? ==> child.key in c && leaf == c[child.key].leaf
    ensures FrameOk(Repoint(p, was, RootKey(child), leaf, Height(child)), f, par, m', c)
    ensures PathSide(Repoint(p, was, RootKey(child), leaf, Height(child)), f.left, child, m', c)
  {
    RootIsKey(f.other);
  }

  lemma DropLastIndex<V>(s: Local<V>)
    requires Unique(s) && |s| > 0
    ensures Unique(DropLast(s)) && |DropLast(s)| == |s| - 1
    ensures At(DropLast(s)).Keys <= At(s).Keys
    ensures forall j :: 0 <= j < |s| - 1 ==> DropLast(s)[j].key == s[j].key
    ensures forall j :: 0 <= j < |s| - 2 ==> DropLast(s)[j] == s[j]
  {
    hide At;
    var r := DropLast(s);
    DropLastKeys(s);
    assert Unique(r) by { hide DropLast; }
    forall k | k in At(r) ensures k in At(s) {
      var j := AtIndex(r, k);
      AtHas(s, j);
    }
  }

  lemma DropLastKeys<V>(s: Local<V>)
    requires |s| > 0
    ensures |DropLast(s)| == |s| - 1
    ensures forall j :: 0 <= j < |s| - 1 ==> DropLast(s)[j].key == s[j].key
    ensures forall j :: 0 <= j < |s| - 2 ==> DropLast(s)[j] == s[j]
  {
  }

  lemma ChildOrder<V>(fs: seq<Frame<V>>, t: Tree<V>, child: Tree<V>)
    requires |fs| > 0 && OrderedPath(fs, |fs|, t) && (child == t || child == fs[|fs| - 1].other)
    ensures OrderedPath(fs[..|fs| - 1], |fs| - 1, child)
  {
    hide Ordered, Keys;
    var n := |fs| - 1;
    assert fs[..|fs|][..n] == fs[..n] && fs[..|fs|] == fs && fs[..n][..n] == fs[..n];
    PlugOrdered(fs[..n], Join(fs[n], t));
    JoinOrdered(fs[n], t);
    PlugShrink(fs[..n], Join(fs[n], t), child);
  }

  lemma StoredPositive<V>(fs: seq<Frame<V>>, t: Tree<V>)
    requires |fs| > 0 && OrderedPath(fs, |fs|, t)
    ensures t.Node? ==> t.key >= 0
    ensures fs[|fs| - 1].other.Node? ==> fs[|fs| - 1].other.key >= 0
  {
    hide Ordered, Keys;
    PathApart(fs, |fs|, t);
    RootIsKey(t);
    RootIsKey(fs[|fs| - 1].other);
    PlugKeys(fs[..|fs|], t);
    assert fs[..|fs|][|fs| - 1] == fs[|fs| - 1];
  }

  /** Unlinking the last path node in favour of its only child. */
  lemma ZipDropLast<V>(s: Local<V>, fs: seq<Frame<V>>, t: Tree<V>, c: Cells<V>)
    requires |s| == |fs| > 0 && Zip(s, fs, |s|, t, c)
    requires t == Nil || fs[|fs| - 1].other == Nil
    ensures var child := if t == Nil then fs[|fs| - 1].other else t;
            && OnlyChildKey(s[|s| - 1].avl) == RootKey(child)
            && (child.Node? ==> child.key in c && OnlyChildLeaf(s[|s| - 1].avl) == c[child.key].leaf)
            && |DropLast(s)| == |s| - 1
            && Zip(DropLast(s), fs[..|fs| - 1], |s| - 1, child, c)
  {
    hide At, Rep, Ordered, Keys, PathSide, OrderedPath, FrameOk, PathOk, Stored, Apart, DropLast;
    var n := |s| - 1;
    var child := if t == Nil then fs[n].other else t;
    var r := DropLast(s);
    FocusStored(s, fs, t, c);
    PathOkKeys(s, fs, |s|, At(s), c);
    StoredPositive(fs, t);
    OnlyChild(s[n], fs[n], t, At(s), c);
    DropLastIndex(s);
    ChildOrder(fs, t, child);
    ApartLess(Keys(child), At(s), At(r));
    StoredIsRep(child, ParentAt(fs, n), At(r), c);
    DropLastPath(s, fs, child, c);
  }

  lemma ApartLess<V>(s: set<int>, m: Index<V>, m': Index<V>)
    requires Apart(s, m) && m'.Keys <= m.Keys
    ensures Apart(s, m')
  {
  }

  lemma PathPrefix<V>(s: Local<V>, fs: seq<Frame<V>>, d: nat, m: Index<V>, c: Cells<V>)
    requires d <= |s| && d <= |fs| && PathOk(s, fs, d, m, c)
    ensures PathOk(s, fs[..d], d, m, c)
  {
    hide FrameOk;
    forall j | 0 <= j < d ensures ParentAt(fs[..d], j) == ParentAt(fs, j) {
    }
  }

  lemma LastParent<V>(s: Local<V>, fs: seq<Frame<V>>, child: Tree<V>, m: Index<V>, c: Cells<V>)
    requires |s| == |fs| > 1 && Unique(s) && PathOk(s, fs, |s|, At(s), c) && m.Keys <= At(s).Keys
    requires OnlyChildKey(s[|s| - 1].avl) == RootKey(child) && OnlyChildHeight(s[|s| - 1].avl) == Height(child)
    requires child.Node? ==> child.key in c && OnlyChildLeaf(s[|s| - 1].avl) == c[child.key].leaf
    ensures |DropLast(s)| == |s| - 1
    ensures FrameOk(DropLast(s)[|s| - 2], fs[|s| - 2], ParentAt(fs, |s| - 2), m, c)
    ensures PathSide(DropLast(s)[|s| - 2], fs[|s| - 2].left, child, m, c)
  {
    hide At, FrameOk, PathOk, PathSide;
    var n := |s| - 1;
    PathOkKeys(s, fs, |s|, At(s), c);
    PathOkKeys(s, fs, n, At(s), c);
    AtHas(s, n);
    ParentOfLast(s[n - 1], fs[n - 1], ParentAt(fs, n - 1), s[n].key, child, child, OnlyChildLeaf(s[n].avl), At(s), m, c);
  }

  lemma DropLastPath<V>(s: Local<V>, fs: seq<Frame<V>>, child: Tree<V>, c: Cells<V>)
    requires |s| == |fs| > 0 && Unique(s) && PathOk(s, fs, |s|, At(s), c)
    requires OnlyChildKey(s[|s| - 1].avl) == RootKey(child) && OnlyChildHeight(s[|s| - 1].avl) == Height(child)
    requires child.Node? ==> child.key in c && OnlyChildLeaf(s[|s| - 1].avl) == c[child.key].leaf
    ensures |DropLast(s)| == |s| - 1 && Unique(DropLast(s))
    ensures PathOk(DropLast(s), fs[..|fs| - 1], |s| - 1, At(DropLast(s)), c)
    ensures |s| > 1 ==> PathSide(DropLast(s)[|s| - 2], fs[|s| - 2].left, child, At(DropLast(s)), c)
  {
    hide At, PathSide, FrameOk, DropLast, PathOk;
    var n := |s| - 1;
    var r := DropLast(s);
    DropLastIndex(s);
    if n > 0 {
      LastParent(s, fs, child, At(r), c);
      PathOkKeys(s, fs, |s|, At(s), c);
      PathUnload(s, fs, n, At(s), At(r), c);
      PathOkReplace(s, r, fs, n, At(r), At(r), c);
      PathPrefix(r, fs, n, At(r), c);
    } else {
      EmptyPath(r, fs[..0], At(r), c);
    }
  }

  lemma EmptyPath<V>(s: Local<V>, fs: seq<Frame<V>>, m: Index<V>, c: Cells<V>)
    ensures PathOk(s, fs, 0, m, c)
  {
  }

  // ----- Renaming a path node -----

  function Renamed<V>(fs: seq<Frame<V>>, i: nat, key: int, data: V): seq<Frame<V>>
    requires i < |fs|
  {
    fs[i := fs[i].(key := key, value := data)]
  }

  lemma RenamedUnique<V>(s: Local<V>, i: nat, key: int, data: V, r: Local<V>)
    requires Unique(s) && i < |s| && RenamedAt(s, i, key, data, r) && key >= 0 && key !in At(s)
    ensures Unique(r) && At(r).Keys <= At(s).Keys + {key}
  {
    hide At;
    forall j | 0 <= j < |s| ensures r[j].key == if j == i then key else s[j].key {
    }
    forall j | 0 <= j < |s| ensures s[j].key in At(s) {
      AtHas(s, j);
    }
    forall k | k in At(r) ensures k in At(s).Keys + {key} {
      var j := AtIndex(r, k);
      AtHas(s, j);
    }
  }

  lemma FrameApart<V>(n: LocalNode<V>, f: Frame<V>, par: int, m: Index<V>, m': Index<V>, c: Cells<V>)
    requires FrameOk(n, f, par, m, c) && Apart(Keys(f.other), m')
    ensures FrameOk(n, f, par, m', c)
  {
    RootIsKey(f.other);
  }

  lemma FrameTakesOver<V>(n: LocalNode<V>, f: Frame<V>, par: int, m: Index<V>, c: Cells<V>, key: int, data: V)
    requires FrameOk(n, f, par, m, c)
    ensures FrameOk(n.(key := key, avl := n.avl.(data := data)), f.(key := key, value := data), par, m, c)
  {
  }

  lemma FrameRenamesChild<V>(n: LocalNode<V>, f: Frame<V>, par: int, m: Index<V>, c: Cells<V>, was: int, now: int)
    requires FrameOk(n, f, par, m, c) && PathKey(n, f.left) == was && was >= 0
    requires f.other.Node? ==> f.other.key != was
    ensures FrameOk(RenameChild(n, was, now), f, par, m, c)
    ensures PathKey(RenameChild(n, was, now), f.left) == now
  {
  }

  lemma FrameReparents<V>(n: LocalNode<V>, f: Frame<V>, par: int, m: Index<V>, c: Cells<V>, par': int)
    requires FrameOk(n, f, par, m, c)
    ensures FrameOk(n.(parentKey := par'), f, par', m, c)
  {
  }

  lemma RenamedFrame<V>(s: Local<V>, fs: seq<Frame<V>>, i: nat, key: int, data: V, r: Local<V>, j: nat,
                        m: Index<V>, c: Cells<V>)
    requires |s| == |fs| && Unique(s) && PathOk(s, fs, |s|, m, c) && i < |s| && j < |s|
    requires RenamedAt(s, i, key, data, r)
    requires fs[i].key !in Keys(fs[j].other)
    ensures FrameOk(r[j], Renamed(fs, i, key, data)[j], ParentAt(Renamed(fs, i, key, data), j), m, c)
    ensures j + 1 < |s| ==> PathKey(r[j], Renamed(fs, i, key, data)[j].left) == Renamed(fs, i, key, data)[j + 1].key
  {
    hide FrameOk, Keys, Stored, RenameChild, PathOk, Unique;
    PathOkKeys(s, fs, |s|, m, c);
    FrameAt(s, fs, |s|, m, c, j);
    var par := ParentAt(fs, j);
    if j == i {
      FrameTakesOver(s[j], fs[j], par, m, c, key, data);
    } else if j + 1 == i {
      RootIsKey(fs[j].other);
      PositiveKey(s, i);
      FrameRenamesChild(s[j], fs[j], par, m, c, s[i].key, key);
    } else if j == i + 1 {
      FrameReparents(s[j], fs[j], par, m, c, key);
    }
  }

  lemma FrameAt<V>(s: Local<V>, fs: seq<Frame<V>>, d: nat, m: Index<V>, c: Cells<V>, j: nat)
    requires d <= |s| && d <= |fs| && PathOk(s, fs, d, m, c) && j < d
    ensures FrameOk(s[j], fs[j], ParentAt(fs, j), m, c)
  {
    hide FrameOk;
  }

  lemma PositiveKey<V>(s: Local<V>, i: nat)
    requires Unique(s) && i < |s|
    ensures s[i].key >= 0
  {
  }

  lemma RenamedPath<V>(s: Local<V>, fs: seq<Frame<V>>, i: nat, key: int, data: V, r: Local<V>,
                       m: Index<V>, m': Index<V>, c: Cells<V>)
    requires |s| == |fs| && Unique(s) && PathOk(s, fs, |s|, m, c) && i < |s|
    requires RenamedAt(s, i, key, data, r)
    requires forall x, y :: 0 <= x < |fs| && 0 <= y < |fs| ==> fs[x].key !in Keys(fs[y].other)
    requires forall y :: 0 <= y < |fs| ==> key !in Keys(fs[y].other)
    requires m'.Keys <= m.Keys + {key}
    ensures PathOk(r, Renamed(fs, i, key, data), |s|, m', c)
  {
    hide FrameOk, Keys, RenamedAt, Unique;
    var fs' := Renamed(fs, i, key, data);
    assert |r| == |s| by { RenamedLength(s, i, key, data, r); }
    forall j | 0 <= j < |s|
      ensures FrameOk(r[j], fs'[j], ParentAt(fs', j), m', c)
      ensures j < |s| - 1 ==> PathKey(r[j], fs'[j].left) == fs'[j + 1].key
    {
      RenamedFrame(s, fs, i, key, data, r, j, m, c);
      FrameOkApart(s[j], fs[j], ParentAt(fs, j), m, c);
      ApartMore(Keys(fs[j].other), m, m', key);
      FrameApart(r[j], fs'[j], ParentAt(fs', j), m, m', c);
    }
  }

  lemma RenamedLength<V>(s: Local<V>, i: nat, key: int, data: V, r: Local<V>)
    requires i < |s| && RenamedAt(s, i, key, data, r)
    ensures |r| == |s|
  {
  }

  lemma FrameOkApart<V>(n: LocalNode<V>, f: Frame<V>, par: int, m: Index<V>, c: Cells<V>)
    requires FrameOk(n, f, par, m, c)
    ensures Apart(Keys(f.other), m)
  {
  }

  lemma ApartMore<V>(s: set<int>, m: Index<V>, m': Index<V>, key: int)
    requires Apart(s, m) && m'.Keys <= m.Keys + {key} && key !in s
    ensures Apart(s, m')
  {
  }

  lemma RenamedSide<V>(s: Local<V>, fs: seq<Frame<V>>, i: nat, key: int, data: V, r: Local<V>, t: Tree<V>,
                       m: Index<V>, m': Index<V>, c: Cells<V>)
    requires |s| == |fs| > 0 && i < |s| && RenamedAt(s, i, key, data, r)
    requires PathSide(s[|s| - 1], fs[|s| - 1].left, t, m, c) && Apart(Keys(t), m) && key !in Keys(t)
    requires m'.Keys <= m.Keys + {key}
    ensures |r| == |s| && PathSide(r[|s| - 1], fs[|s| - 1].left, t, m', c)
  {
    RootIsKey(t);
    assert r[|s| - 1].avl == s[|s| - 1].avl.(data := r[|s| - 1].avl.data);
  }

  /** Giving a path node the entry of its unlinked successor. */
  lemma ZipRename<V>(s: Local<V>, fs: seq<Frame<V>>, i: nat, key: int, data: V, r: Local<V>, t: Tree<V>, c: Cells<V>)
    requires |s| == |fs| && Zip(s, fs, |s|, t, c) && i < |s|
    requires RenamedAt(s, i, key, data, r) && key >= 0 && key !in At(s)
    requires OrderedPath(Renamed(fs, i, key, data), |s|, t)
    ensures Zip(r, Renamed(fs, i, key, data), |s|, t, c)
  {
    hide At, Rep, Ordered, Keys, PathSide, FrameOk, PathOk, Stored, Apart, RenamedAt;
    var fs' := Renamed(fs, i, key, data);
    RenamedLength(s, i, key, data, r);
    RenamedUnique(s, i, key, data, r);
    FocusStored(s, fs, t, c);
    assert fs[..|s|] == fs && fs'[..|s|] == fs';
    PathDistinct(fs, t);
    PathDistinct(fs', t);
    PlugOrdered(fs', t);
    assert fs'[i].key == key;
    forall y | 0 <= y < |fs| ensures key !in Keys(fs[y].other) {
      assert fs'[y].other == fs[y].other;
    }
    RenamedPath(s, fs, i, key, data, r, At(s), At(r), c);
    RenamedSide(s, fs, i, key, data, r, t, At(s), At(r), c);
    ApartMore(Keys(t), At(s), At(r), key);
    StoredIsRep(t, ParentAt(fs', |s|), At(r), c);
  }
}
