/** The parts of a removal put together: after the target has been unlinked, climbing back with
    rebalancing rebuilds the recursive removal. */
module AvlRemoval {
  import opened Common
  import opened StashTrees
  import opened AvlTrees
  import opened AvlLocal
  import opened AvlRep
  import opened AvlZip
  import opened AvlClimb
  import opened AvlDescend
  import opened AvlUnlink
  import opened AvlShrink

  lemma DropLastLoses<V>(s: Local<V>)
    requires Unique(s) && |s| > 0
    ensures Unique(DropLast(s)) && |DropLast(s)| == |s| - 1
    ensures At(DropLast(s)).Keys == At(s).Keys - {s[|s| - 1].key}
  {
    hide At, DropLast;
    var r := DropLast(s);
    DropLastIndex(s);
    forall k ensures k in At(r) <==> k in At(s) && k != s[|s| - 1].key {
      if k in At(s) && k != s[|s| - 1].key { var j := AtIndex(s, k); AtHas(r, j); }
      if k in At(r) { var j := AtIndex(r, k); AtHas(s, j); }
    }
  }

  /** Renaming a node replaces its key and no other. */
  lemma RenamedKeys<V>(s: Local<V>, i: nat, key: int, data: V, r: Local<V>)
    requires Unique(s) && i < |s| && RenamedAt(s, i, key, data, r) && key >= 0 && key !in At(s)
    ensures Unique(r) && At(r).Keys == At(s).Keys - {s[i].key} + {key}
  {
    hide At;
    RenamedUnique(s, i, key, data, r);
    forall j | 0 <= j < |s| ensures r[j].key == if j == i then key else s[j].key {
    }
    forall k ensures k in At(r) <==> (k in At(s) && k != s[i].key) || k == key {
      if k in At(r) { var j := AtIndex(r, k); AtHas(s, j); }
      if k in At(s) && k != s[i].key { var j := AtIndex(s, k); AtHas(r, j); }
      AtHas(r, i);
    }
  }

  // ----- Removing a node with at most one child -----

  /** The subtree that takes the place of a node with at most one child. */
  function OnlySubtree<V>(t: Tree<V>): Tree<V>
    requires t.Node?
  {
    if t.left == Nil then t.right else t.left
  }

  lemma RemoveOne<V>(up: seq<Frame<V>>, t: Tree<V>)
    requires t.Node? && (t.left == Nil || t.right == Nil) && StrictPath(up, t.key)
    requires Ordered(Plug(up, t))
    ensures Climb(up, OnlySubtree(t)) == Removed(Plug(up, t), t.key)
    ensures Keys(Plug(up, OnlySubtree(t))) <= Keys(Plug(up, t))
  {
    hide Climb, Plug, StrictPath, Ordered, Keys;
    RemoveAlong(up, t, t.key);
    PlugOrdered(up, t);
    OrderedNode(t);
    PlugShrink(up, t, OnlySubtree(t));
  }

  lemma UnlinkedOne<V>(s: Local<V>, up: seq<Frame<V>>, t: Tree<V>, c: Cells<V>)
    requires t.Node? && (t.left == Nil || t.right == Nil) && |s| == |up| + 1
    requires Zip(s, up + [Step(t, true)], |s|, t.left, c)
    ensures |DropLast(s)| == |up| && Zip(DropLast(s), up, |up|, OnlySubtree(t), c)
    ensures Unique(s) && Unique(DropLast(s)) && At(DropLast(s)).Keys == At(s).Keys - {t.key}
    ensures OnlyChildKey(s[|up|].avl) == RootKey(OnlySubtree(t))
    ensures OnlySubtree(t).Node? ==> OnlySubtree(t).key in c && OnlyChildLeaf(s[|up|].avl) == c[OnlySubtree(t).key].leaf
  {
    hide Zip, At, DropLast;
    var fs := up + [Step(t, true)];
    ZipUnique(s, fs, |s|, t.left, c);
    ZipDropLast(s, fs, t.left, c);
    assert fs[..|up|] == up;
    DropLastLoses(s);
  }

  // ----- Removing a node with two children -----

  /** The path after the target has taken over its successor `m`. */
  function Successed<V>(up: seq<Frame<V>>, t: Tree<V>, down: seq<Frame<V>>, m: Tree<V>): seq<Frame<V>>
    requires t.Node? && m.Node?
  {
    up + [Frame(m.key, m.value, false, t.left)] + down
  }

  lemma RemoveTwo<V>(up: seq<Frame<V>>, t: Tree<V>, down: seq<Frame<V>>, m: Tree<V>)
    requires t.Node? && t.left.Node? && m.Node? && m.left == Nil && LeftSpine(down) && Plug(down, m) == t.right
    requires StrictPath(up, t.key)
    requires Ordered(Plug(up, t))
    ensures Climb(Successed(up, t, down, m), m.right) == Removed(Plug(up, t), t.key)
    ensures Keys(Plug(Successed(up, t, down, m), m.right)) <= Keys(Plug(up, t))
  {
    hide Climb, Plug, StrictPath, Ordered, Keys;
    RenamedOrder(up, t.left, t.key, t.value, down, m.key, m.value, m.right);
    RemoveTwoChild(up, t.left, t.key, t.value, down, m.key, m.value, m.right);
  }

  lemma SuccessedPath<V>(up: seq<Frame<V>>, t: Tree<V>, down: seq<Frame<V>>, m: Tree<V>)
    requires t.Node? && m.Node?
    ensures |Successed(up, t, down, m)| == |up| + 1 + |down|
    ensures Successed(up, t, down, m) == Renamed(up + [Step(t, false)] + down, |up|, m.key, m.value)
    ensures Successed(up, t, down, m)[0].key == if |up| > 0 then up[0].key else m.key
  {
  }

  /** The order is kept, although the target's entry has been overwritten. */
  lemma SuccessedOrder<V>(up: seq<Frame<V>>, t: Tree<V>, down: seq<Frame<V>>, m: Tree<V>)
    requires t.Node? && m.Node? && m.left == Nil && LeftSpine(down) && Plug(down, m) == t.right
    requires OrderedPath(up, |up|, t)
    ensures OrderedPath(Successed(up, t, down, m), |Successed(up, t, down, m)|, m.right)
  {
    hide Ordered, Keys, Plug;
    assert up[..|up|] == up;
    RenamedOrder(up, t.left, t.key, t.value, down, m.key, m.value, m.right);
    var fs := Successed(up, t, down, m);
    assert fs[..|fs|] == fs;
  }

  lemma UpperOrder<V>(up: seq<Frame<V>>, t: Tree<V>, down: seq<Frame<V>>, m: Tree<V>, fs: seq<Frame<V>>)
    requires t.Node? && m.Node? && m.left == Nil && Plug(down, m) == t.right
    requires fs == up + [Step(t, false)] + down + [Step(m, true)] && OrderedPath(fs, |fs|, Nil)
    ensures OrderedPath(up, |up|, t)
  {
    hide Ordered, Keys, Plug;
    var mid := [Step(t, false)];
    assert fs[..|fs|] == fs && up[..|up|] == up;
    PlugAppend(up + mid + down, [Step(m, true)], Nil);
    PlugOne(Step(m, true), Nil);
    PlugAppend(up + mid, down, m);
    PlugAppend(up, mid, t.right);
    PlugOne(Step(t, false), t.right);
  }

  lemma UnlinkedTwo<V>(s: Local<V>, up: seq<Frame<V>>, t: Tree<V>, down: seq<Frame<V>>, m: Tree<V>, r: Local<V>, c: Cells<V>)
    requires t.Node? && m.Node? && m.left == Nil && LeftSpine(down) && Plug(down, m) == t.right
    requires |s| == |up| + |down| + 2
    requires Zip(s, up + [Step(t, false)] + down + [Step(m, true)], |s|, Nil, c)
    requires |DropLast(s)| == |s| - 1 && RenamedAt(DropLast(s), |up|, s[|s| - 1].key, s[|s| - 1].avl.data, r)
    ensures |r| == |Successed(up, t, down, m)| == |s| - 1
    ensures Zip(r, Successed(up, t, down, m), |r|, m.right, c)
    ensures Unique(s) && Unique(r) && At(r).Keys == At(s).Keys - {t.key}
  {
    hide Zip, At, DropLast, RenamedAt, OrderedPath, Successed, LeftSpine, Plug;
    var fs := up + [Step(t, false)] + down + [Step(m, true)];
    ZipUnique(s, fs, |s|, Nil, c);
    LastNode(s, fs, m, c);
    ZipDropLast(s, fs, Nil, c);
    assert fs[..|s| - 1] == up + [Step(t, false)] + down;
    var d := DropLast(s);
    DropLastLoses(s);
    ZipUnique(d, fs[..|s| - 1], |d|, m.right, c);
    SuccessedPath(up, t, down, m);
    RenamedLength(d, |up|, m.key, m.value, r);
    ZipOrder(s, fs, Nil, c);
    UpperOrder(up, t, down, m, fs);
    SuccessedOrder(up, t, down, m);
    ZipRename(d, fs[..|s| - 1], |up|, m.key, m.value, r, m.right, c);
    RenamedKeys(d, |up|, m.key, m.value, r);
    SwapKeys(At(s).Keys, At(d).Keys, At(r).Keys, t.key, m.key, s, |up|);
  }

  lemma SwapKeys<V>(a: set<int>, b: set<int>, e: set<int>, k: int, m: int, s: Local<V>, i: nat)
    requires Unique(s) && a == At(s).Keys && i < |s| - 1 && s[i].key == k && s[|s| - 1].key == m
    requires b == a - {m} && e == b - {k} + {m}
    ensures e == a - {k}
  {
    AtHas(s, |s| - 1);
  }

  lemma ZipOrder<V>(s: Local<V>, fs: seq<Frame<V>>, t: Tree<V>, c: Cells<V>)
    requires |s| == |fs| && Zip(s, fs, |s|, t, c)
    ensures OrderedPath(fs, |fs|, t)
  {
    hide At, Rep, PathOk, PathSide, OrderedPath;
  }

  lemma LastNode<V>(s: Local<V>, fs: seq<Frame<V>>, m: Tree<V>, c: Cells<V>)
    requires |s| == |fs| > 0 && Zip(s, fs, |s|, Nil, c) && m.Node? && fs[|fs| - 1] == Step(m, true)
    ensures s[|s| - 1].key == m.key >= 0 && s[|s| - 1].avl.data == m.value
  {
    hide At, Rep, PathSide, OrderedPath, OtherSide, Stored, Keys;
  }

  // ----- Climbing back -----

  /** What the code reads off the refreshed node `t` at the end of the path. */
  lemma NodeRead<V>(s: Local<V>, fs: seq<Frame<V>>, d: nat, t: Tree<V>, c: Cells<V>)
    requires Zip(s, fs, d, t, c) && t.Node? && d < |s| && s[d].key == t.key
    ensures Unique(s) && d <= |fs| && s[d].avl.Balance() == Tilt(t) && t.key in At(s)
    ensures s[d].avl.lKey == RootKey(t.left) && s[d].avl.rKey == RootKey(t.right)
    ensures t.left.Node? && t.left.key !in At(s) ==> t.left.key in c && s[d].avl.lLeaf == c[t.left.key].leaf
    ensures t.right.Node? && t.right.key !in At(s) ==> t.right.key in c && s[d].avl.rLeaf == c[t.right.key].leaf
    ensures Tilt(t) > 1 ==> t.left.Node? && t.left.key >= 0
    ensures Tilt(t) < -1 ==> t.right.Node? && t.right.key >= 0
  {
    hide At, PathOk, PathSide, OrderedPath, Keys, Ordered;
    AtHas(s, d);
    ZipWhole(s, fs, d, t, c);
    OrderedNode(t);
    RootIsKey(t.left);
    RootIsKey(t.right);
    RootTilt(t, ParentAt(fs, d), At(s), c);
  }

  /** What the code reads off the taller child. */
  lemma ChildRead<V>(s: Local<V>, fs: seq<Frame<V>>, d: nat, t: Tree<V>, c: Cells<V>, left: bool, i: nat)
    requires Zip(s, fs, d, t, c) && t.Node? && d < |s| && s[d].key == t.key
    requires Child(t, left).Node? && i < |s| && s[i].key == Child(t, left).key
    ensures Unique(s) && s[i].avl.Balance() == Tilt(Child(t, left)) && Child(t, left).key in At(s)
    ensures s[i].avl.lKey == RootKey(Child(t, left).left) && s[i].avl.rKey == RootKey(Child(t, left).right)
    ensures var u := Child(t, left);
            && (u.left.Node? && u.left.key !in At(s) ==> u.left.key in c && s[i].avl.lLeaf == c[u.left.key].leaf)
            && (u.right.Node? && u.right.key !in At(s) ==> u.right.key in c && s[i].avl.rLeaf == c[u.right.key].leaf)
            && (Tilt(u) < 0 ==> u.right.Node? && u.right.key >= 0)
            && (Tilt(u) > 0 ==> u.left.Node? && u.left.key >= 0)
  {
    hide At, PathOk, PathSide, OrderedPath, Keys, Ordered;
    AtHas(s, d);
    AtHas(s, i);
    ZipWhole(s, fs, d, t, c);
    RootTilt(t, ParentAt(fs, d), At(s), c);
    var u := Child(t, left);
    OrderedNode(t);
    OrderedNode(u);
    RootIsKey(u.left);
    RootIsKey(u.right);
    RootTilt(u, t.key, At(s), c);
  }

  /** A node of the focus that can be appended to the list once it is fetched. */
  ghost predicate Fetchable<V>(s: Local<V>, fs: seq<Frame<V>>, d: nat, t: Tree<V>, c: Cells<V>, key: int, parent: int) {
    && Unique(s) && t.Node? && t.key in At(s) && d <= |fs|
    && key in c && key in Keys(t) && key !in At(s) && c[key].key == key
    && Rep(t, ParentAt(fs, d), At(s)[key := Loaded(c[key], parent)], c - {key})
  }

  lemma ZipFetch<V>(s: Local<V>, fs: seq<Frame<V>>, d: nat, t: Tree<V>, c: Cells<V>, key: int, parent: int)
    requires Zip(s, fs, d, t, c) && Fetchable(s, fs, d, t, c, key, parent)
    ensures key in c && Unique(s + [Loaded(c[key], parent)])
    ensures Zip(s + [Loaded(c[key], parent)], fs, d, t, c - {key})
    ensures At(s + [Loaded(c[key], parent)]).Keys == At(s).Keys + {key}
  {
    hide At, Zip, Rep, Keys, Loaded;
    LoadedKey(c[key], parent);
    ZipWhole(s, fs, d, t, c);
    AtAppend(s, Loaded(c[key], parent));
    ZipLoad(s, fs, d, t, c, Loaded(c[key], parent));
  }

  lemma ChildFetchable<V>(s: Local<V>, fs: seq<Frame<V>>, d: nat, t: Tree<V>, c: Cells<V>, left: bool)
    requires Zip(s, fs, d, t, c) && t.Node? && d < |s| && s[d].key == t.key && Keyed(c)
    requires Child(t, left).Node?
    ensures Unique(s)
    ensures Child(t, left).key !in At(s) ==> Fetchable(s, fs, d, t, c, Child(t, left).key, t.key)
  {
    hide At, Rep, Keys, Ordered, Zip;
    ZipWhole(s, fs, d, t, c);
    ZipUnique(s, fs, d, t, c);
    AtHas(s, d);
    if Child(t, left).key !in At(s) {
      RepLoadChild(t, ParentAt(fs, d), At(s), c, left);
    }
  }

  lemma GrandFetchable<V>(s: Local<V>, fs: seq<Frame<V>>, d: nat, t: Tree<V>, c: Cells<V>, left: bool, left': bool)
    requires Zip(s, fs, d, t, c) && t.Node? && d < |s| && s[d].key == t.key && Keyed(c)
    requires Child(t, left).Node? && Child(Child(t, left), left').Node?
    ensures Unique(s)
    ensures Child(t, left).key in At(s) && Child(Child(t, left), left').key !in At(s) ==>
              Fetchable(s, fs, d, t, c, Child(Child(t, left), left').key, Child(t, left).key)
  {
    hide At, Rep, Keys, Ordered, Zip;
    ZipWhole(s, fs, d, t, c);
    ZipUnique(s, fs, d, t, c);
    AtHas(s, d);
    if Child(t, left).key in At(s) && Child(Child(t, left), left').key !in At(s) {
      RepLoadGrand(t, ParentAt(fs, d), At(s), c, left, left');
    }
  }

  lemma RebalanceIsNode<V>(t: Tree<V>)
    requires t.Node?
    ensures Rebalance(t).Node? && (-1 <= Tilt(t) <= 1 ==> Rebalance(t) == t)
  {
  }

  lemma ClimbUp<V>(fs: seq<Frame<V>>, d: nat, t: Tree<V>)
    requires 0 < d <= |fs|
    ensures Join(fs[d - 1], t).Node?
    ensures Climb(fs[..d], t) == Climb(fs[..d - 1], Rebalance(Join(fs[d - 1], t)))
  {
    hide Rebalance;
    assert fs[..d][..d - 1] == fs[..d - 1];
  }

  // ----- The result -----

  lemma RemovalFits<V>(t: Tree<V>, key: int, capacity: nat)
    requires Avl(t) && Size(t) <= capacity
    ensures Avl(Removed(t, key)) && Size(Removed(t, key)) <= capacity
    ensures Contents(Removed(t, key)) == Contents(t) - {key} && Keys(Removed(t, key)) == Keys(t) - {key}
  {
    hide Removed, Contents, Ordered, Balanced, Keys, Size;
    RemoveContents(t, key);
    RemoveBalanced(t, key);
    OrderedSize(t);
    OrderedSize(Removed(t, key));
    SubsetSize(Keys(t) - {key}, Keys(t));
  }

  lemma {:induction false} SubsetSize(a: set<int>, b: set<int>)
    requires a <= b
    ensures |a| <= |b|
  {
    assert b == a + (b - a);
  }

  lemma MissingRemoved<V>(up: seq<Frame<V>>, key: int)
    requires StrictPath(up, key)
    ensures Climb(up, Nil) == Removed(Plug(up, Nil), key)
  {
    hide Climb, Plug, StrictPath;
    RemoveAlong(up, Nil, key);
  }

  lemma {:induction false} StrictAbsent<V>(up: seq<Frame<V>>, t: Tree<V>, key: int)
    requires StrictPath(up, key) && Ordered(Plug(up, t)) && key !in Keys(t)
    ensures key !in Keys(Plug(up, t))
  {
    hide Keys, Ordered;
    if up != [] {
      var n := |up| - 1;
      PlugOrdered(up[..n], Join(up[n], t));
      AbsentJoin(up[n], t, key);
      StrictAbsent(up[..n], Join(up[n], t), key);
    }
  }

  lemma AbsentJoin<V>(f: Frame<V>, t: Tree<V>, key: int)
    requires Ordered(Join(f, t)) && f.key != key && f.left == (key < f.key) && key !in Keys(t)
    ensures key !in Keys(Join(f, t))
  {
  }
}
