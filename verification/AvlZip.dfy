/** The path from the root to a focus subtree, and the climb back along it: the loops of
    avl_omap over `local_` compute the recursive insertion and removal of AvlTrees. */
module AvlZip {
  import opened Common
  import opened StashTrees
  import opened AvlTrees
  import opened AvlLocal
  import opened AvlRep

  /** A node on the path, with the side the path takes and the subtree on the other side. */
  datatype Frame<+V> = Frame(key: int, value: V, left: bool, other: Tree<V>)

  function Join<V>(f: Frame<V>, s: Tree<V>): Tree<V> {
    if f.left then Node(s, f.key, f.value, f.other) else Node(f.other, f.key, f.value, s)
  }

  /** The whole tree, given its path (root first) and the focus. */
  function Plug<V>(fs: seq<Frame<V>>, s: Tree<V>): Tree<V> {
    if fs == [] then s else Plug(fs[..|fs| - 1], Join(fs[|fs| - 1], s))
  }

  /** Rebuilding from the focus upwards with rebalancing at every node. */
  function Climb<V>(fs: seq<Frame<V>>, s: Tree<V>): Tree<V> {
    if fs == [] then s else Climb(fs[..|fs| - 1], Rebalance(Join(fs[|fs| - 1], s)))
  }

  function ParentAt<V>(fs: seq<Frame<V>>, d: nat): int
    requires d <= |fs|
  {
    if d == 0 then INVALID_KEY else fs[d - 1].key
  }

  lemma {:induction false} PlugKeys<V>(fs: seq<Frame<V>>, s: Tree<V>)
    ensures Keys(s) <= Keys(Plug(fs, s))
    ensures forall j :: 0 <= j < |fs| ==> fs[j].key in Keys(Plug(fs, s)) && Keys(fs[j].other) <= Keys(Plug(fs, s))
  {
    if fs != [] {
      var n := |fs| - 1;
      PlugKeys(fs[..n], Join(fs[n], s));
      var j := Join(fs[n], s);
      assert Keys(s) <= Keys(j) && Keys(fs[n].other) <= Keys(j) && fs[n].key in Keys(j);
      assert forall i :: 0 <= i < n ==> fs[..n][i] == fs[i];
    }
  }

  ghost predicate Disjoint(a: set<int>, b: set<int>) {
    forall x :: x in a ==> x !in b
  }

  lemma JoinOrdered<V>(f: Frame<V>, s: Tree<V>)
    requires Ordered(Join(f, s))
    ensures Ordered(s) && Ordered(f.other) && f.key !in Keys(s) && f.key !in Keys(f.other)
    ensures Disjoint(Keys(f.other), Keys(s))
    ensures f.key in Keys(Join(f, s)) && Keys(s) <= Keys(Join(f, s)) && Keys(f.other) <= Keys(Join(f, s))
  {
    hide Ordered, Keys;
    OrderedNode(Join(f, s));
  }

  /** On an ordered path, frames and their other subtrees share no key with the focus. */
  lemma {:induction false} PlugOrdered<V>(fs: seq<Frame<V>>, s: Tree<V>)
    requires Ordered(Plug(fs, s))
    ensures Ordered(s)
    ensures forall j :: 0 <= j < |fs| ==> fs[j].key !in Keys(s) && Disjoint(Keys(fs[j].other), Keys(s))
  {
    hide Ordered, Keys;
    if fs != [] {
      var n := |fs| - 1;
      PlugOrdered(fs[..n], Join(fs[n], s));
      JoinOrdered(fs[n], s);
      forall j | 0 <= j < n ensures fs[j].key !in Keys(s) && Disjoint(Keys(fs[j].other), Keys(s)) {
        assert fs[..n][j] == fs[j];
      }
    }
  }

  // ----- What refreshing heights does to a represented tree -----

  /** Exact heights are not changed. */
  lemma {:induction false} RefreshExact<V>(t: Tree<V>, par: int, m: Index<V>, c: Cells<V>, k: int)
    requires Proper(m) && Rep(t, par, m, c) && k in Keys(t) && k in m
    ensures Refresh(m[k], m) == m[k]
  {
    if t.key in m {
      if k == t.key {
        if t.left.Node? && t.left.key in m { RootTilt(t.left, t.key, m, c); }
        if t.right.Node? && t.right.key in m { RootTilt(t.right, t.key, m, c); }
      } else if k in Keys(t.left) {
        RefreshExact(t.left, t.key, m, c, k);
      } else {
        RefreshExact(t.right, t.key, m, c, k);
      }
    }
  }

  /** Equal but for the heights of children that are in the list. */
  ghost predicate SameButHeights<V>(n: LocalNode<V>, n': LocalNode<V>, loaded: set<int>) {
    && n' == n.(avl := n.avl.(lHeight := n'.avl.lHeight, rHeight := n'.avl.rHeight))
    && (n.avl.lKey !in loaded ==> n'.avl.lHeight == n.avl.lHeight)
    && (n.avl.rKey !in loaded ==> n'.avl.rHeight == n.avl.rHeight)
  }

  lemma {:induction false} RefreshEffect<V>(s: Local<V>, n: nat)
    requires Unique(s) && n <= |s|
    ensures At(RefreshAll(s, n)).Keys == At(s).Keys
    ensures forall j :: n <= j < |s| ==> RefreshAll(s, n)[j] == s[j]
    ensures forall j :: 0 <= j < |s| ==> SameButHeights(s[j], RefreshAll(s, n)[j], At(s).Keys)
    decreases n
  {
    hide At;
    if n > 0 {
      var x := Refresh(s[n - 1], At(s));
      AtUpdate(s, n - 1, x);
      AtHas(s, n - 1);
      RefreshEffect(s[n - 1 := x], n - 1);
    }
  }

  /** Refreshing does not change the nodes of a represented subtree. */
  lemma {:induction false} RefreshSettled<V>(s: Local<V>, n: nat, d: nat, t: Tree<V>, par: int, c: Cells<V>)
    requires Unique(s) && d <= n <= |s| && Rep(t, par, At(s), c)
    requires forall j :: d <= j < |s| ==> s[j].key in Keys(t)
    ensures RefreshAll(s, n) == RefreshAll(s, d)
  {
    hide At, Rep, Keys, Refresh;
    if n > d {
      AtHas(s, n - 1);
      ListProper(s);
      RefreshExact(t, par, At(s), c, s[n - 1].key);
      assert s[n - 1 := s[n - 1]] == s;
      RefreshSettled(s, n - 1, d, t, par, c);
    }
  }

  // ----- A list that represents a path and a focus -----

  function PathKey<V>(n: LocalNode<V>, left: bool): int {
    if left then n.avl.lKey else n.avl.rKey
  }

  ghost predicate PathSide<V>(n: LocalNode<V>, left: bool, child: Tree<V>, m: Index<V>, c: Cells<V>) {
    if left then Loose(child, n.avl.lKey, n.avl.lLeaf, n.avl.lHeight, m, c)
    else Loose(child, n.avl.rKey, n.avl.rLeaf, n.avl.rHeight, m, c)
  }

  ghost predicate OtherSide<V>(n: LocalNode<V>, left: bool, child: Tree<V>, m: Index<V>, c: Cells<V>) {
    if left then Exact(child, n.avl.rKey, n.avl.rLeaf, n.avl.rHeight, m, c)
    else Exact(child, n.avl.lKey, n.avl.lLeaf, n.avl.lHeight, m, c)
  }

  /** `n` is the list node of frame `f`; its subtree off the path is entirely in ORAM. */
  ghost predicate FrameOk<V>(n: LocalNode<V>, f: Frame<V>, par: int, m: Index<V>, c: Cells<V>) {
    && n.key == f.key && n.parentKey == par && n.avl.data == f.value
    && OtherSide(n, f.left, f.other, m, c)
    && Stored(f.other, c) && Apart(Keys(f.other), m)
  }

  /** The first `d` list nodes are the frames, each linked to the next. */
  ghost predicate PathOk<V>(s: Local<V>, fs: seq<Frame<V>>, d: nat, m: Index<V>, c: Cells<V>)
    requires d <= |s| && d <= |fs|
  {
    && (forall j :: 0 <= j < d ==> FrameOk(s[j], fs[j], ParentAt(fs, j), m, c))
    && (forall j :: 0 <= j < d - 1 ==> PathKey(s[j], fs[j].left) == fs[j + 1].key)
  }

  lemma PathOkHeights<V>(s: Local<V>, r: Local<V>, fs: seq<Frame<V>>, d: nat, m: Index<V>, m': Index<V>, c: Cells<V>)
    requires d <= |s| && d <= |fs| && PathOk(s, fs, d, m, c) && Proper(m) && m'.Keys == m.Keys && d <= |r|
    requires forall j :: 0 <= j < d ==> SameButHeights(s[j], r[j], m.Keys)
    ensures PathOk(r, fs, d, m', c)
  {
    hide FrameOk;
    forall j | 0 <= j < d ensures FrameOk(r[j], fs[j], ParentAt(fs, j), m', c) {
      FrameHeights(s[j], r[j], fs[j], ParentAt(fs, j), m, m', c);
    }
  }

  lemma PathOkKeys<V>(s: Local<V>, fs: seq<Frame<V>>, d: nat, m: Index<V>, c: Cells<V>)
    requires d <= |s| && d <= |fs| && PathOk(s, fs, d, m, c)
    ensures forall j :: 0 <= j < d ==> s[j].key == fs[j].key && s[j].parentKey == ParentAt(fs, j)
    ensures forall e: nat :: e <= d ==> PathOk(s, fs, e, m, c)
    ensures forall j :: 0 <= j < d - 1 ==> PathKey(s[j], fs[j].left) == fs[j + 1].key
    ensures d > 0 ==> FrameOk(s[d - 1], fs[d - 1], ParentAt(fs, d - 1), m, c)
  {
  }

  /** The list holds the path `fs[..d]` first and then nodes of the focus `t`. Heights stored on
      the path side may be out of date; everything else is exact. */
  ghost predicate Zip<V>(s: Local<V>, fs: seq<Frame<V>>, d: nat, t: Tree<V>, c: Cells<V>) {
    && Unique(s) && d <= |fs| && d <= |s|
    && PathOk(s, fs, d, At(s), c)
    && (d > 0 ==> PathSide(s[d - 1], fs[d - 1].left, t, At(s), c))
    && Rep(t, ParentAt(fs, d), At(s), c)
    && (forall j :: d <= j < |s| ==> s[j].key in Keys(t))
    && OrderedPath(fs, d, t)
  }

  ghost predicate OrderedPath<V>(fs: seq<Frame<V>>, d: nat, t: Tree<V>)
    requires d <= |fs|
  {
    && Ordered(Plug(fs[..d], t))
    && forall k :: k in Keys(Plug(fs[..d], t)) ==> k >= 0
  }

  lemma PathApart<V>(fs: seq<Frame<V>>, d: nat, t: Tree<V>)
    requires d <= |fs| && OrderedPath(fs, d, t)
    ensures Ordered(t) && (forall k :: k in Keys(t) ==> k >= 0) && ParentAt(fs, d) !in Keys(t)
    ensures forall j :: 0 <= j < d ==> fs[j].key !in Keys(t) && Disjoint(Keys(fs[j].other), Keys(t))
  {
    hide Ordered, Keys;
    PlugOrdered(fs[..d], t);
    PlugKeys(fs[..d], t);
    forall j | 0 <= j < d ensures fs[j].key !in Keys(t) && Disjoint(Keys(fs[j].other), Keys(t)) {
      assert fs[..d][j] == fs[j];
    }
  }

  lemma PathUp<V>(fs: seq<Frame<V>>, d: nat, t: Tree<V>)
    requires 0 < d <= |fs| && OrderedPath(fs, d, t)
    ensures OrderedPath(fs, d - 1, Join(fs[d - 1], t))
  {
    hide Ordered, Keys;
    assert fs[..d][..d - 1] == fs[..d - 1];
  }

  /** Refreshing from index `n` down, below which nothing of the focus is: the focus stays. */
  lemma ZipRefreshBelow<V>(s: Local<V>, fs: seq<Frame<V>>, d: nat, t: Tree<V>, c: Cells<V>)
    requires Zip(s, fs, d, t, c)
    ensures Zip(RefreshAll(s, d), fs, d, t, c)
  {
    hide At, Rep, Keys, Ordered, PathOk, PathSide, Disjoint, Agree;
    var r := RefreshAll(s, d);
    RefreshEffect(s, d);
    ListProper(s);
    PathApart(fs, d, t);
    PathOkKeys(s, fs, d, At(s), c);
    PathOkHeights(s, r, fs, d, At(s), At(r), c);
    FocusAgrees(s, r, fs, d, t, c);
    RepFrame(t, ParentAt(fs, d), At(s), At(r), c, c);
    if d > 0 {
      PathSideHeights(s[d - 1], r[d - 1], fs[d - 1].left, t, At(s), At(r), c);
    }
  }

  lemma FocusAgrees<V>(s: Local<V>, r: Local<V>, fs: seq<Frame<V>>, d: nat, t: Tree<V>, c: Cells<V>)
    requires Unique(s) && SameKeys(s, r) && Unique(r) && d <= |s| && d <= |fs|
    requires forall j :: 0 <= j < d ==> s[j].key !in Keys(t)
    requires forall j :: d <= j < |s| ==> r[j] == s[j]
    ensures Agree(Keys(t), At(s), At(r), c, c)
  {
    hide At, Keys;
    SameKeysSameIndex(s, r);
    forall k | k in Keys(t) && k in At(s) ensures At(r)[k] == At(s)[k] {
      var j := AtIndex(s, k);
      AtHas(r, j);
    }
  }

  lemma FrameHeights<V>(n: LocalNode<V>, n': LocalNode<V>, f: Frame<V>, par: int, m: Index<V>, m': Index<V>, c: Cells<V>)
    requires FrameOk(n, f, par, m, c) && SameButHeights(n, n', m.Keys) && m'.Keys == m.Keys && Proper(m)
    ensures FrameOk(n', f, par, m', c)
  {
    RootIsKey(f.other);
  }

  lemma PathSideHeights<V>(n: LocalNode<V>, n': LocalNode<V>, left: bool, t: Tree<V>, m: Index<V>, m': Index<V>, c: Cells<V>)
    requires PathSide(n, left, t, m, c) && SameButHeights(n, n', m.Keys) && m'.Keys == m.Keys && Proper(m)
    ensures PathSide(n', left, t, m', c)
  {
  }

  /** Refreshing the lowest path node makes it the root of an exactly represented focus. */
  lemma ZipRefreshNode<V>(s: Local<V>, fs: seq<Frame<V>>, d: nat, t: Tree<V>, c: Cells<V>)
    requires 0 < d && Zip(s, fs, d, t, c)
    ensures d <= |s| && d <= |fs|
    ensures Unique(s[d - 1 := Refresh(s[d - 1], At(s))])
    ensures Zip(s[d - 1 := Refresh(s[d - 1], At(s))], fs, d - 1, Join(fs[d - 1], t), c)
    ensures Refresh(s[d - 1], At(s)).key == Join(fs[d - 1], t).key
  {
    hide At, Keys, Ordered, Rep, Refresh, FrameOk, PathOk, PathSide, SameButHeights, OrderedPath, Agree, Join, Disjoint;
    var f := fs[d - 1];
    var x := Refresh(s[d - 1], At(s));
    var t' := Join(f, t);
    var r := s[d - 1 := x];
    ListProper(s);
    AtHas(s, d - 1);
    RefreshKeeps(s[d - 1], At(s));
    AtUpdate(s, d - 1, x);
    AtHas(r, d - 1);
    PathUp(fs, d, t);
    PathOkKeys(s, fs, d, At(s), c);
    FocusKept(s, r, fs, d, t, c);
    NodeRefreshed(s[d - 1], f, t, ParentAt(fs, d - 1), At(s), At(r), c);
    if d > 1 {
      LooseLoaded(r[d - 2], fs[d - 2].left, t', At(r), c);
    }
    forall j | 0 <= j < d - 1 ensures SameButHeights(s[j], r[j], At(s).Keys) {
      SameAsItself(s[j], At(s).Keys);
    }
    PathOkHeights(s, r, fs, d - 1, At(s), At(r), c);
  }

  lemma FocusKept<V>(s: Local<V>, r: Local<V>, fs: seq<Frame<V>>, d: nat, t: Tree<V>, c: Cells<V>)
    requires 0 < d && Zip(s, fs, d, t, c) && SameKeys(s, r) && Unique(r)
    requires forall j :: 0 <= j < |s| && j != d - 1 ==> r[j] == s[j]
    ensures Rep(t, fs[d - 1].key, At(r), c)
    ensures forall j :: d - 1 <= j < |r| ==> r[j].key in Keys(Join(fs[d - 1], t))
    ensures Join(fs[d - 1], t).Node? && Join(fs[d - 1], t).key == fs[d - 1].key == s[d - 1].key
  {
    hide At, Keys, Ordered, Rep, FrameOk, PathOk, PathSide, OrderedPath, Agree, Join, Disjoint;
    PathApart(fs, d, t);
    PathOkKeys(s, fs, d, At(s), c);
    FocusAgrees(s, r, fs, d, t, c);
    RepFrame(t, fs[d - 1].key, At(s), At(r), c, c);
    JoinKeys(fs[d - 1], t);
  }

  lemma SameAsItself<V>(n: LocalNode<V>, loaded: set<int>)
    ensures SameButHeights(n, n, loaded)
  {
  }

  lemma LooseLoaded<V>(n: LocalNode<V>, left: bool, t: Tree<V>, m: Index<V>, c: Cells<V>)
    requires t.Node? && t.key in m && PathKey(n, left) == t.key
    ensures PathSide(n, left, t, m, c)
  {
  }

  lemma RefreshKeeps<V>(n: LocalNode<V>, m: Index<V>)
    ensures SameButHeights(n, Refresh(n, m), m.Keys) && Refresh(n, m).key == n.key
  {
  }

  lemma JoinKeys<V>(f: Frame<V>, t: Tree<V>)
    ensures Keys(t) <= Keys(Join(f, t)) && Keys(f.other) <= Keys(Join(f, t)) && f.key in Keys(Join(f, t))
    ensures Join(f, t).Node? && Join(f, t).key == f.key
  {
  }

  lemma NodeRefreshed<V>(n: LocalNode<V>, f: Frame<V>, t: Tree<V>, par: int, m: Index<V>, m': Index<V>, c: Cells<V>)
    requires Proper(m) && f.key in m && m[f.key] == n && FrameOk(n, f, par, m, c)
    requires PathSide(n, f.left, t, m, c) && Rep(t, f.key, m, c) && Rep(t, f.key, m', c)
    requires m' == m[f.key := Refresh(n, m)]
    ensures Rep(Join(f, t), par, m', c)
  {
    if t.Node? && t.key in m { RootTilt(t, f.key, m, c); }
    RootIsKey(f.other);
    assert m'.Keys == m.Keys;
    assert NodeExact(m'[f.key].avl, Join(f, t), m', c);
    assert Rep(f.other, f.key, m', c) by { hide NodeExact; }
  }

  /** After `update_heights` the lowest path node has joined the focus. */
  lemma ZipRefresh<V>(s: Local<V>, fs: seq<Frame<V>>, d: nat, t: Tree<V>, c: Cells<V>)
    requires 0 < d && Zip(s, fs, d, t, c)
    ensures Zip(RefreshAll(s, |s|), fs, d - 1, Join(fs[d - 1], t), c)
  {
    hide Zip, At, Refresh;
    RefreshFocus(s, fs, d, t, c);
    ZipRefreshNode(s, fs, d, t, c);
    ZipRefreshBelow(s[d - 1 := Refresh(s[d - 1], At(s))], fs, d - 1, Join(fs[d - 1], t), c);
  }

  lemma RefreshFocus<V>(s: Local<V>, fs: seq<Frame<V>>, d: nat, t: Tree<V>, c: Cells<V>)
    requires Zip(s, fs, d, t, c)
    ensures RefreshAll(s, |s|) == RefreshAll(s, d)
  {
    hide At, Rep;
    RefreshSettled(s, |s|, d, t, ParentAt(fs, d), c);
  }

  /** With nothing to refresh on the path side of the focus, `update_heights` keeps path and focus. */
  lemma ZipRefreshAgain<V>(s: Local<V>, fs: seq<Frame<V>>, d: nat, t: Tree<V>, c: Cells<V>)
    requires Zip(s, fs, d, t, c)
    ensures Zip(RefreshAll(s, |s|), fs, d, t, c)
  {
    hide Zip, At;
    RefreshFocus(s, fs, d, t, c);
    ZipRefreshBelow(s, fs, d, t, c);
  }

  // ----- Rebalancing the focus -----

  lemma JoinReplace<V>(f: Frame<V>, t: Tree<V>, t': Tree<V>)
    requires Ordered(Join(f, t)) && Ordered(t') && Keys(t') == Keys(t)
    ensures Ordered(Join(f, t')) && Keys(Join(f, t')) == Keys(Join(f, t))
  {
  }

  lemma {:induction false} PlugReplace<V>(fs: seq<Frame<V>>, t: Tree<V>, t': Tree<V>)
    requires Ordered(Plug(fs, t)) && Ordered(t') && Keys(t') == Keys(t)
    ensures Ordered(Plug(fs, t')) && Keys(Plug(fs, t')) == Keys(Plug(fs, t))
  {
    hide Ordered, Keys;
    if fs != [] {
      var n := |fs| - 1;
      PlugOrdered(fs[..n], Join(fs[n], t));
      JoinReplace(fs[n], t, t');
      PlugReplace(fs[..n], Join(fs[n], t), Join(fs[n], t'));
    }
  }

  lemma PathRepointed<V>(n: LocalNode<V>, n': LocalNode<V>, f: Frame<V>, par: int, t: Tree<V>, t': Tree<V>,
                         leaf: int, height: int, m: Index<V>, m': Index<V>, c: Cells<V>)
    requires FrameOk(n, f, par, m, c) && PathSide(n, f.left, t, m, c) && m'.Keys == m.Keys && Proper(m)
    requires t.Node? && t'.Node? && t'.key in m && t.key !in Keys(f.other) && t.key >= 0
    requires n' == Repoint(n, t.key, t'.key, leaf, height)
    ensures FrameOk(n', f, par, m', c) && PathSide(n', f.left, t', m', c)
  {
    RootIsKey(f.other);
  }

  lemma FrameSame<V>(n: LocalNode<V>, f: Frame<V>, par: int, t: Tree<V>, m: Index<V>, m': Index<V>, c: Cells<V>)
    requires FrameOk(n, f, par, m, c) && m'.Keys == m.Keys
    ensures FrameOk(n, f, par, m', c)
    ensures PathSide(n, f.left, t, m, c) ==> PathSide(n, f.left, t, m', c)
  {
  }

  /** Rebalancing the focus in the list. */
  lemma ZipBalance<V>(s: Local<V>, r: Local<V>, fs: seq<Frame<V>>, d: nat, t: Tree<V>, t': Tree<V>, c: Cells<V>)
    requires Zip(s, fs, d, t, c) && t.Node? && t.key in At(s) && SameKeys(s, r) && Unique(r)
    requires t'.Node? && BalanceFrame(At(s), At(r), ParentAt(fs, d), t, t')
    requires Whole(t', ParentAt(fs, d), At(r), c) && Keys(t') == Keys(t)
    ensures Zip(r, fs, d, t', c)
  {
    hide At, Keys, Ordered, Rep, Stored, FrameOk, PathSide, OrderedPath, Disjoint, BalanceFrame;
    PathApart(fs, d, t);
    PathBalanced(fs, d, t, t');
    PathOkKeys(s, fs, d, At(s), c);
    PathOkBalance(s, r, fs, d, t, t', c);
  }

  lemma PathBalanced<V>(fs: seq<Frame<V>>, d: nat, t: Tree<V>, t': Tree<V>)
    requires d <= |fs| && OrderedPath(fs, d, t) && Ordered(t') && Keys(t') == Keys(t)
    ensures OrderedPath(fs, d, t')
  {
    hide Keys, Ordered, Rebalance;
    PlugOrdered(fs[..d], t);
    PlugReplace(fs[..d], t, t');
  }

  /** A list node outside the rebalanced subtree. */
  lemma BalanceAt<V>(s: Local<V>, r: Local<V>, j: nat, par: int, t: Tree<V>, t': Tree<V>)
    requires Unique(s) && Unique(r) && SameKeys(s, r) && j < |s| && t.Node?
    requires t'.Node? && BalanceFrame(At(s), At(r), par, t, t') && s[j].key !in Keys(t)
    ensures s[j].key != par || t' == t ==> r[j] == s[j]
    ensures s[j].key == par && t' != t ==>
              && t'.key in At(s)
              && r[j] == Repoint(s[j], t.key, t'.key, At(s)[t'.key].leaf, Height(t'))
  {
    hide At, Keys, Repoint;
    AtHas(s, j);
    AtHas(r, j);
  }

  lemma PathOthersSame<V>(s: Local<V>, r: Local<V>, fs: seq<Frame<V>>, d: nat, t: Tree<V>, t': Tree<V>, c: Cells<V>)
    requires Zip(s, fs, d, t, c) && t.Node? && SameKeys(s, r) && Unique(r)
    requires t'.Node? && BalanceFrame(At(s), At(r), ParentAt(fs, d), t, t')
    ensures forall j :: 0 <= j < d - 1 ==> r[j] == s[j]
  {
    hide At, Keys, Ordered, Rep, FrameOk, PathOk, PathSide, OrderedPath, Disjoint, BalanceFrame, Repoint;
    PathApart(fs, d, t);
    PathOkKeys(s, fs, d, At(s), c);
    forall j | 0 <= j < d - 1 ensures r[j] == s[j] {
      BalanceAt(s, r, j, ParentAt(fs, d), t, t');
    }
  }

  lemma PathOkReplace<V>(s: Local<V>, r: Local<V>, fs: seq<Frame<V>>, d: nat, m: Index<V>, m': Index<V>, c: Cells<V>)
    requires 0 < d <= |s| && d <= |fs| && d <= |r| && PathOk(s, fs, d, m, c) && m'.Keys == m.Keys
    requires forall j :: 0 <= j < d - 1 ==> r[j] == s[j]
    requires FrameOk(r[d - 1], fs[d - 1], ParentAt(fs, d - 1), m', c)
    ensures PathOk(r, fs, d, m', c)
  {
    hide FrameOk;
    forall j | 0 <= j < d - 1 ensures FrameOk(r[j], fs[j], ParentAt(fs, j), m', c) {
      FrameSame(s[j], fs[j], ParentAt(fs, j), Nil, m, m', c);
    }
  }

  lemma PathOkBalance<V>(s: Local<V>, r: Local<V>, fs: seq<Frame<V>>, d: nat, t: Tree<V>, t': Tree<V>, c: Cells<V>)
    requires Zip(s, fs, d, t, c) && t.Node? && t.key in At(s) && SameKeys(s, r) && Unique(r)
    requires t'.Node? && BalanceFrame(At(s), At(r), ParentAt(fs, d), t, t')
    ensures PathOk(r, fs, d, At(r), c)
    ensures d > 0 ==> PathSide(r[d - 1], fs[d - 1].left, t', At(r), c)
  {
    hide At, Keys, Ordered, Rep, FrameOk, PathSide, OrderedPath, Disjoint, BalanceFrame;
    SameKeysSameIndex(s, r);
    if d > 0 {
      PathOthersSame(s, r, fs, d, t, t', c);
      ParentRepointed(s, r, fs, d, t, t', c);
      PathOkReplace(s, r, fs, d, At(s), At(r), c);
    }
  }

  lemma ParentRepointed<V>(s: Local<V>, r: Local<V>, fs: seq<Frame<V>>, d: nat, t: Tree<V>, t': Tree<V>, c: Cells<V>)
    requires 0 < d && Zip(s, fs, d, t, c) && t.Node? && t.key in At(s) && SameKeys(s, r) && Unique(r)
    requires t'.Node? && BalanceFrame(At(s), At(r), ParentAt(fs, d), t, t')
    ensures FrameOk(r[d - 1], fs[d - 1], ParentAt(fs, d - 1), At(r), c)
    ensures PathSide(r[d - 1], fs[d - 1].left, t', At(r), c)
  {
    hide At, Keys, Ordered, Rep, FrameOk, PathSide, OrderedPath, BalanceFrame, PathOk;
    PathApart(fs, d, t);
    PathOkKeys(s, fs, d, At(s), c);
    ListProper(s);
    SameKeysSameIndex(s, r);
    BalanceAt(s, r, d - 1, ParentAt(fs, d), t, t');
    RootIsKey(t);
    if t' == t {
      FrameSame(s[d - 1], fs[d - 1], ParentAt(fs, d - 1), t, At(s), At(r), c);
    } else {
      PathRepointed(s[d - 1], r[d - 1], fs[d - 1], ParentAt(fs, d - 1), t, t', At(s)[t'.key].leaf, Height(t'), At(s), At(r), c);
    }
  }
}
