/** Pulling nodes out of the ORAM into the client's list: going down a path, and fetching the
    nodes a rotation needs (avl_omap `move_to_local`). */
module AvlDescend {
  import opened Common
  import opened StashTrees
  import opened AvlTrees
  import opened AvlLocal
  import opened AvlRep
  import opened AvlZip

  /** The list entry for a block taken from the ORAM. */
  function Loaded<V>(b: Block<AvlNode<V>>, parentKey: int): LocalNode<V> {
    LocalNode(b.key, b.leaf, b.value, parentKey)
  }

  function Step<V>(t: Tree<V>, left: bool): Frame<V>
    requires t.Node?
  {
    Frame(t.key, t.value, left, if left then t.right else t.left)
  }

  function Child<V>(t: Tree<V>, left: bool): Tree<V>
    requires t.Node?
  {
    if left then t.left else t.right
  }

  /** When the whole list is path, the focus is entirely in the ORAM. */
  lemma FocusStored<V>(s: Local<V>, fs: seq<Frame<V>>, t: Tree<V>, c: Cells<V>)
    requires Zip(s, fs, |s|, t, c)
    ensures Stored(t, c) && Apart(Keys(t), At(s))
  {
    hide At, PathOk, PathSide, OrderedPath, Ordered;
    PathApart(fs, |s|, t);
    PathOkKeys(s, fs, |s|, At(s), c);
    forall k | k in Keys(t) ensures k !in At(s) {
      if k in At(s) {
        var j := AtIndex(s, k);
        assert false;
      }
    }
    RootIsKey(t);
  }

  /** What the client knows about the focus before fetching its root. */
  lemma FocusPointer<V>(s: Local<V>, fs: seq<Frame<V>>, t: Tree<V>, c: Cells<V>)
    requires Zip(s, fs, |s|, t, c) && t.Node?
    ensures t.key in c && t.key >= 0 && t.key !in At(s)
    ensures NodeExact(c[t.key].value, t, map[], c)
  {
    hide At, PathOk, PathSide, OrderedPath, Ordered, NodeExact;
    FocusStored(s, fs, t, c);
    PathApart(fs, |s|, t);
    RootIsKey(t);
  }

  lemma FrameLoad<V>(n: LocalNode<V>, f: Frame<V>, par: int, m: Index<V>, m': Index<V>, c: Cells<V>, k: int)
    requires FrameOk(n, f, par, m, c) && k !in Keys(f.other) && m'.Keys == m.Keys + {k} && k in c
    ensures FrameOk(n, f, par, m', c - {k})
  {
    RootIsKey(f.other);
    StoredKeys(f.other, c);
    StoredFrame(f.other, c, c - {k});
  }

  lemma PathLoad<V>(s: Local<V>, r: Local<V>, fs: seq<Frame<V>>, d: nat, m: Index<V>, m': Index<V>, c: Cells<V>, k: int)
    requires d <= |s| && d <= |fs| && d <= |r| && PathOk(s, fs, d, m, c)
    requires forall j :: 0 <= j < d ==> r[j] == s[j] && k !in Keys(fs[j].other)
    requires m'.Keys == m.Keys + {k} && k in c
    ensures PathOk(r, fs, d, m', c - {k})
  {
    hide FrameOk, Keys;
    forall j | 0 <= j < d ensures FrameOk(r[j], fs[j], ParentAt(fs, j), m', c - {k}) {
      FrameLoad(s[j], fs[j], ParentAt(fs, j), m, m', c, k);
    }
  }

  lemma PathExtend<V>(s: Local<V>, fs: seq<Frame<V>>, d: nat, m: Index<V>, c: Cells<V>, n: LocalNode<V>, f: Frame<V>)
    requires |s| == |fs| == d && PathOk(s, fs, d, m, c)
    requires FrameOk(n, f, ParentAt(fs, d), m, c)
    requires d > 0 ==> PathKey(s[d - 1], fs[d - 1].left) == f.key
    ensures PathOk(s + [n], fs + [f], d + 1, m, c)
  {
    hide FrameOk, ParentAt, PathKey;
    var s', fs' := s + [n], fs + [f];
    forall j | 0 <= j < d + 1 ensures FrameOk(s'[j], fs'[j], ParentAt(fs', j), m, c) {
      ParentKept(fs, f, j);
      if j < d {
        assert FrameOk(s[j], fs[j], ParentAt(fs, j), m, c);
      }
    }
    forall j | 0 <= j < d ensures PathKey(s'[j], fs'[j].left) == fs'[j + 1].key {
      assert s'[j] == s[j] && fs'[j] == fs[j];
    }
  }

  lemma ParentKept<V>(fs: seq<Frame<V>>, f: Frame<V>, j: nat)
    requires j <= |fs|
    ensures ParentAt(fs + [f], j) == ParentAt(fs, j)
  {
  }

  lemma StepNode<V>(t: Tree<V>, left: bool, par: int, m: Index<V>, c: Cells<V>, n: LocalNode<V>)
    requires t.Node? && Ordered(t) && Stored(t, c) && Apart(Keys(t) - {t.key}, m) && t.key in m
    requires n == Loaded(c[t.key], par) && c[t.key].key == t.key
    ensures FrameOk(n, Step(t, left), par, m, c - {t.key})
    ensures PathSide(n, left, Child(t, left), m, c - {t.key})
    ensures Stored(Child(t, left), c - {t.key}) && Apart(Keys(Child(t, left)), m)
  {
    hide Ordered;
    OrderedNode(t);
    StoredKeys(t.left, c);
    StoredKeys(t.right, c);
    StoredFrame(t.left, c, c - {t.key});
    StoredFrame(t.right, c, c - {t.key});
    RootIsKey(t.left);
    RootIsKey(t.right);
  }

  lemma StoredIsRep<V>(t: Tree<V>, par: int, m: Index<V>, c: Cells<V>)
    requires Stored(t, c) && Apart(Keys(t), m)
    ensures Rep(t, par, m, c)
  {
    hide Stored;
    RootIsKey(t);
  }

  lemma StepPath<V>(fs: seq<Frame<V>>, t: Tree<V>, left: bool)
    requires t.Node? && OrderedPath(fs, |fs|, t)
    ensures OrderedPath(fs + [Step(t, left)], |fs| + 1, Child(t, left))
  {
    hide Ordered, Keys;
    var fs' := fs + [Step(t, left)];
    assert fs'[..|fs| + 1][..|fs|] == fs[..|fs|] == fs;
    assert Join(Step(t, left), Child(t, left)) == t;
  }

  lemma DescendPath<V>(s: Local<V>, fs: seq<Frame<V>>, t: Tree<V>, c: Cells<V>, n: LocalNode<V>, f: Frame<V>, m: Index<V>)
    requires |s| == |fs| && Zip(s, fs, |s|, t, c) && t.Node? && t.key in c && m.Keys == At(s).Keys + {t.key}
    requires f.key == t.key && FrameOk(n, f, ParentAt(fs, |fs|), m, c - {t.key})
    ensures PathOk(s + [n], fs + [f], |s| + 1, m, c - {t.key})
  {
    hide At, Keys, Ordered, Rep, FrameOk, PathSide, OrderedPath, PathOk, Disjoint;
    RootNotInOthers(fs, t);
    PathLoad(s, s, fs, |s|, At(s), m, c, t.key);
    PathKeyIs(s, fs, t, c);
    PathExtend(s, fs, |s|, m, c - {t.key}, n, f);
  }

  /** Fetching the root of the focus and stepping to one of its children. */
  lemma ZipDescend<V>(s: Local<V>, fs: seq<Frame<V>>, t: Tree<V>, c: Cells<V>, left: bool)
    requires |s| == |fs| && Zip(s, fs, |s|, t, c) && t.Node? && Keyed(c)
    ensures t.key in c
    ensures var n := Loaded(c[t.key], ParentAt(fs, |fs|));
            Zip(s + [n], fs + [Step(t, left)], |s| + 1, Child(t, left), c - {t.key})
  {
    hide At, Keys, Ordered, Rep, FrameOk, PathSide, OrderedPath, Step, Child, NodeExact, Apart, PathOk, Loaded, Stored;
    FocusPointer(s, fs, t, c);
    FocusStored(s, fs, t, c);
    PathApart(fs, |s|, t);
    var n := Loaded(c[t.key], ParentAt(fs, |fs|));
    var r := s + [n];
    LoadedKey(c[t.key], ParentAt(fs, |fs|));
    StepKey(t, left);
    AtAppend(s, n);
    ApartLoad(t, At(s), n);
    StepNode(t, left, ParentAt(fs, |fs|), At(r), c, n);
    StoredIsRep(Child(t, left), t.key, At(r), c - {t.key});
    DescendPath(s, fs, t, c, n, Step(t, left), At(r));
    StepPath(fs, t, left);
  }

  lemma LoadedKey<V>(b: Block<AvlNode<V>>, par: int)
    ensures Loaded(b, par).key == b.key
  {
  }

  lemma StepKey<V>(t: Tree<V>, left: bool)
    requires t.Node?
    ensures Step(t, left).key == t.key && Step(t, left).left == left
  {
  }

  lemma ApartLoad<V>(t: Tree<V>, m: Index<V>, n: LocalNode<V>)
    requires t.Node? && Apart(Keys(t), m) && n.key == t.key
    ensures Apart(Keys(t) - {t.key}, m[n.key := n])
  {
  }

  lemma RootNotInOthers<V>(fs: seq<Frame<V>>, t: Tree<V>)
    requires t.Node? && OrderedPath(fs, |fs|, t)
    ensures forall j :: 0 <= j < |fs| ==> t.key !in Keys(fs[j].other)
  {
    hide Ordered, Keys, OrderedPath;
    PathApart(fs, |fs|, t);
    RootIsKey(t);
    forall j | 0 <= j < |fs| ensures t.key !in Keys(fs[j].other) {
      assert Disjoint(Keys(fs[j].other), Keys(t));
    }
  }

  lemma PathKeyIs<V>(s: Local<V>, fs: seq<Frame<V>>, t: Tree<V>, c: Cells<V>)
    requires |s| == |fs| && Zip(s, fs, |s|, t, c)
    ensures |s| > 0 ==> PathKey(s[|s| - 1], fs[|s| - 1].left) == RootKey(t)
  {
    hide At, Keys, Ordered, Stored, Rep, PathOk, OrderedPath;
  }

  // ----- Fetching a child or grandchild of the focus root -----

  lemma RepLoadChild<V>(t: Tree<V>, par: int, m: Index<V>, c: Cells<V>, left: bool)
    requires t.Node? && t.key in m && Rep(t, par, m, c) && Ordered(t) && Keyed(c)
    requires Child(t, left).Node? && Child(t, left).key !in m
    ensures var k := Child(t, left).key;
            k in c && k in Keys(t) && Rep(t, par, m[k := Loaded(c[k], t.key)], c - {k})
  {
    hide Ordered;
    OrderedNode(t);
    var s, o := Child(t, left), Child(t, !left);
    var k := s.key;
    var n := Loaded(c[k], t.key);
    var m', c' := m[k := n], c - {k};
    RootIsKey(s);
    OrderedNode(s);
    ApartLoad(s, m, n);
    StepNode(s, true, t.key, m', c, n);
    StepNode(s, false, t.key, m', c, n);
    StoredIsRep(s.left, k, m', c');
    StoredIsRep(s.right, k, m', c');
    RepFrame(o, t.key, m, m', c, c');
    LoadedExact(s, m', c', n);
    NodeExactLoad(m[t.key].avl, t, m, c, left, n);
  }

  lemma LoadedExact<V>(t: Tree<V>, m: Index<V>, c: Cells<V>, n: LocalNode<V>)
    requires t.Node?
    requires FrameOk(n, Step(t, true), n.parentKey, m, c) && PathSide(n, true, t.left, m, c)
    requires FrameOk(n, Step(t, false), n.parentKey, m, c)
    ensures NodeExact(n.avl, t, m, c)
  {
  }

  lemma NodeExactLoad<V>(a: AvlNode<V>, t: Tree<V>, m: Index<V>, c: Cells<V>, left: bool, n: LocalNode<V>)
    requires t.Node? && NodeExact(a, t, m, c) && Ordered(t)
    requires Child(t, left).Node? && n.key == Child(t, left).key
    ensures NodeExact(a, t, m[n.key := n], c - {n.key})
  {
    hide Ordered;
    OrderedNode(t);
    RootIsKey(t.left);
    RootIsKey(t.right);
  }

  lemma RepLoadGrand<V>(t: Tree<V>, par: int, m: Index<V>, c: Cells<V>, left: bool, left': bool)
    requires t.Node? && t.key in m && Rep(t, par, m, c) && Ordered(t) && Keyed(c)
    requires Child(t, left).Node? && Child(t, left).key in m
    requires Child(Child(t, left), left').Node? && Child(Child(t, left), left').key !in m
    ensures var s := Child(t, left);
            var k := Child(s, left').key;
            k in c && k in Keys(t) && Rep(t, par, m[k := Loaded(c[k], s.key)], c - {k})
  {
    hide Ordered, Stored, NodeExact;
    OrderedNode(t);
    var s, o := Child(t, left), Child(t, !left);
    var k := Child(s, left').key;
    RepLoadChild(s, t.key, m, c, left');
    var m', c' := m[k := Loaded(c[k], s.key)], c - {k};
    RootIsKey(s);
    RepFrame(o, t.key, m, m', c, c');
    NodeExactDeep(m[t.key].avl, t, m, c, left, k, m');
  }

  lemma NodeExactDeep<V>(a: AvlNode<V>, t: Tree<V>, m: Index<V>, c: Cells<V>, left: bool, k: int, m': Index<V>)
    requires t.Node? && NodeExact(a, t, m, c) && Ordered(t)
    requires Child(t, left).Node? && Child(t, left).key in m && k in Keys(Child(t, left)) && k !in m
    requires m'.Keys == m.Keys + {k}
    ensures NodeExact(a, t, m', c - {k})
  {
    hide Ordered;
    OrderedNode(t);
    RootIsKey(t.left);
    RootIsKey(t.right);
  }

  /** Appending a fetched node of the focus to the list. */
  lemma ZipLoad<V>(s: Local<V>, fs: seq<Frame<V>>, d: nat, t: Tree<V>, c: Cells<V>, n: LocalNode<V>)
    requires Zip(s, fs, d, t, c) && t.Node? && t.key in At(s)
    requires n.key in Keys(t) && n.key !in At(s) && n.key in c
    requires Rep(t, ParentAt(fs, d), At(s)[n.key := n], c - {n.key})
    ensures Zip(s + [n], fs, d, t, c - {n.key})
  {
    hide At, Keys, Ordered, Rep, FrameOk, PathSide, OrderedPath, PathOk, Disjoint;
    PathApart(fs, d, t);
    AtAppend(s, n);
    var r := s + [n];
    forall j | 0 <= j < d ensures n.key !in Keys(fs[j].other) {
      assert Disjoint(Keys(fs[j].other), Keys(t));
      KeyNotInOther(Keys(fs[j].other), Keys(t), n.key);
    }
    PathLoad(s, r, fs, d, At(s), At(r), c, n.key);
    if d > 0 {
      PathOkKeys(s, fs, d, At(s), c);
      PathSideLoaded(s[d - 1], fs[d - 1].left, t, At(s), At(r), c, c - {n.key});
    }
  }

  lemma KeyNotInOther(a: set<int>, b: set<int>, k: int)
    requires Disjoint(a, b) && k in b
    ensures k !in a
  {
  }

  lemma PathSideLoaded<V>(n: LocalNode<V>, left: bool, t: Tree<V>, m: Index<V>, m': Index<V>, c: Cells<V>, c': Cells<V>)
    requires PathSide(n, left, t, m, c) && t.Node? && t.key in m && t.key in m'
    ensures PathSide(n, left, t, m', c')
  {
  }
}
