/** A search leaves the shape of the tree alone: the path it loads stays exact (avl_omap `search`). */
module AvlSearch {
  import opened Common
  import opened StashTrees
  import opened AvlTrees
  import opened AvlLocal
  import opened AvlRep
  import opened AvlZip
  import opened AvlClimb
  import opened AvlDescend
  import opened AvlShrink

  /** The tree with the value of `key`, if present, replaced. */
  function Update<V>(t: Tree<V>, key: int, value: V): Tree<V> {
    match t
    case Nil => Nil
    case Node(l, k, v, r) =>
      if key == k then Node(l, k, value, r)
      else if key < k then Node(Update(l, key, value), k, v, r)
      else Node(l, k, v, Update(r, key, value))
  }

  function Lookup<V>(t: Tree<V>, key: int): Option<V> {
    match t
    case Nil => None
    case Node(l, k, v, r) =>
      if key == k then Some(v) else if key < k then Lookup(l, key) else Lookup(r, key)
  }

  lemma {:induction false} LookupContents<V>(t: Tree<V>, key: int)
    requires Ordered(t)
    ensures Lookup(t, key) == if key in Contents(t) then Some(Contents(t)[key]) else None
  {
    if t.Node? {
      ContentsKeys(t.left);
      ContentsKeys(t.right);
      LookupContents(t.left, key);
      LookupContents(t.right, key);
    }
  }

  lemma {:induction false} UpdateShape<V>(t: Tree<V>, key: int, value: V)
    ensures Keys(Update(t, key, value)) == Keys(t) && Height(Update(t, key, value)) == Height(t)
    ensures Size(Update(t, key, value)) == Size(t)
    ensures Ordered(t) ==> Ordered(Update(t, key, value))
    ensures Balanced(t) ==> Balanced(Update(t, key, value))
  {
    if t.Node? {
      UpdateShape(t.left, key, value);
      UpdateShape(t.right, key, value);
    }
  }

  /** `t'` holds the entries of `t` with the value of `key`, if present, replaced. */
  ghost predicate Updated<V>(t: Tree<V>, key: int, value: V, t': Tree<V>) {
    Contents(t') == if key in Keys(t) then Contents(t)[key := value] else Contents(t)
  }

  lemma UpdatedLeft<V>(t: Tree<V>, key: int, value: V, l: Tree<V>)
    requires t.Node? && Ordered(t) && key < t.key && Updated(t.left, key, value, l)
    ensures Updated(t, key, value, t.(left := l))
  {
    ContentsKeys(t.left);
    ContentsKeys(t.right);
    PutInNode(Contents(t.left), t.key, t.value, Contents(t.right), key, value);
  }

  lemma UpdatedRight<V>(t: Tree<V>, key: int, value: V, r: Tree<V>)
    requires t.Node? && Ordered(t) && key > t.key && Updated(t.right, key, value, r)
    ensures Updated(t, key, value, t.(right := r))
  {
    ContentsKeys(t.left);
    ContentsKeys(t.right);
    PutInNode(Contents(t.left), t.key, t.value, Contents(t.right), key, value);
  }

  lemma {:induction false} UpdateContents<V>(t: Tree<V>, key: int, value: V)
    requires Ordered(t)
    ensures Updated(t, key, value, Update(t, key, value))
  {
    if t.Node? {
      if key < t.key {
        UpdateContents(t.left, key, value);
        UpdatedLeft(t, key, value, Update(t.left, key, value));
      } else if key > t.key {
        UpdateContents(t.right, key, value);
        UpdatedRight(t, key, value, Update(t.right, key, value));
      }
    }
  }

  lemma {:induction false} UpdateAlong<V>(fs: seq<Frame<V>>, t: Tree<V>, key: int, value: V)
    requires StrictPath(fs, key)
    ensures Update(Plug(fs, t), key, value) == Plug(fs, Update(t, key, value))
  {
    if fs != [] {
      var n := |fs| - 1;
      UpdateAlong(fs[..n], Join(fs[n], t), key, value);
    }
  }

  lemma {:induction false} LookupAlong<V>(fs: seq<Frame<V>>, t: Tree<V>, key: int)
    requires StrictPath(fs, key)
    ensures Lookup(Plug(fs, t), key) == Lookup(t, key)
  {
    if fs != [] {
      var n := |fs| - 1;
      LookupAlong(fs[..n], Join(fs[n], t), key);
    }
  }

  /** Number of nodes a search for `key` passes before it finds it or runs out of tree. */
  function Depth<V>(t: Tree<V>, key: int): nat {
    match t
    case Nil => 0
    case Node(l, k, _, r) => if key == k then 0 else 1 + Depth(if key < k then l else r, key)
  }

  lemma {:induction false} DepthAlong<V>(fs: seq<Frame<V>>, t: Tree<V>, key: int)
    requires StrictPath(fs, key)
    ensures Depth(Plug(fs, t), key) == |fs| + Depth(t, key)
  {
    if fs != [] {
      var n := |fs| - 1;
      DepthAlong(fs[..n], Join(fs[n], t), key);
    }
  }

  lemma {:induction false} DepthInHeight<V>(t: Tree<V>, key: int)
    requires Ordered(t)
    ensures Depth(t, key) <= Height(t)
    ensures key in Keys(t) ==> Depth(t, key) < Height(t)
  {
    if t.Node? {
      DepthInHeight(t.left, key);
      DepthInHeight(t.right, key);
    }
  }

  function PathHeight<V>(n: LocalNode<V>, left: bool): int {
    if left then n.avl.lHeight else n.avl.rHeight
  }

  /** The heights stored on the path side are exact too. */
  ghost predicate ExactPath<V>(s: Local<V>, fs: seq<Frame<V>>, d: nat, t: Tree<V>)
    requires d <= |s| && d <= |fs|
  {
    forall j :: 0 <= j < d ==> ExactAt(s, fs, d, t, j)
  }

  ghost predicate ExactAt<V>(s: Local<V>, fs: seq<Frame<V>>, d: nat, t: Tree<V>, j: nat)
    requires j < d <= |s| && d <= |fs|
  {
    PathHeight(s[j], fs[j].left) == Height(Plug(fs[j + 1..d], t))
  }

  lemma PlugEmpty<V>(fs: seq<Frame<V>>, t: Tree<V>)
    requires |fs| == 0
    ensures Plug(fs, t) == t
  {
  }

  /** The last frame of a slice goes to the focus. */
  lemma PlugSlice<V>(fs: seq<Frame<V>>, i: nat, d: nat, t: Tree<V>)
    requires i < d <= |fs|
    ensures Plug(fs[i..d], t) == Plug(fs[i..d - 1], Join(fs[d - 1], t))
  {
    assert fs[i..d][..d - i - 1] == fs[i..d - 1];
  }

  lemma ExactStep<V>(s: Local<V>, fs: seq<Frame<V>>, t: Tree<V>, c: Cells<V>, left: bool)
    requires |s| == |fs| && ExactPath(s, fs, |s|, t) && t.Node? && t.key in c && NodeExact(c[t.key].value, t, map[], c)
    ensures ExactPath(s + [Loaded(c[t.key], ParentAt(fs, |fs|))], fs + [Step(t, left)], |s| + 1, Child(t, left))
  {
    hide ExactAt;
    var n, d' := Loaded(c[t.key], ParentAt(fs, |fs|)), |s| + 1;
    var s', fs', t' := s + [n], fs + [Step(t, left)], Child(t, left);
    forall j | 0 <= j < d' ensures ExactAt(s', fs', d', t', j) {
      if j < |s| {
        ExactBelow(s, fs, t, n, left, j);
      } else {
        ExactLast(s, fs, t, c, left);
      }
    }
  }

  lemma ExactBelow<V>(s: Local<V>, fs: seq<Frame<V>>, t: Tree<V>, n: LocalNode<V>, left: bool, j: nat)
    requires |s| == |fs| && t.Node? && j < |s| && ExactAt(s, fs, |s|, t, j)
    ensures ExactAt(s + [n], fs + [Step(t, left)], |s| + 1, Child(t, left), j)
  {
    hide Plug, Height;
    var fs' := fs + [Step(t, left)];
    PlugSlice(fs', j + 1, |s| + 1, Child(t, left));
    assert fs'[j + 1..|s|] == fs[j + 1..|s|];
    assert Join(Step(t, left), Child(t, left)) == t;
  }

  lemma ExactLast<V>(s: Local<V>, fs: seq<Frame<V>>, t: Tree<V>, c: Cells<V>, left: bool)
    requires |s| == |fs| && t.Node? && t.key in c && NodeExact(c[t.key].value, t, map[], c)
    ensures ExactAt(s + [Loaded(c[t.key], ParentAt(fs, |fs|))], fs + [Step(t, left)], |s| + 1, Child(t, left), |s|)
  {
    PlugEmpty((fs + [Step(t, left)])[|s| + 1..|s| + 1], Child(t, left));
  }

  lemma ExactJoin<V>(s: Local<V>, fs: seq<Frame<V>>, d: nat, t: Tree<V>)
    requires 0 < d <= |s| && d <= |fs| && ExactPath(s, fs, d, t)
    ensures ExactPath(s, fs, d - 1, Join(fs[d - 1], t))
    ensures PathHeight(s[d - 1], fs[d - 1].left) == Height(t)
  {
    hide ExactAt, Join;
    var d', t' := d - 1, Join(fs[d - 1], t);
    forall j | 0 <= j < d' ensures ExactAt(s, fs, d', t', j) {
      ExactAbove(s, fs, d, t, j);
    }
    ExactTip(s, fs, d, t);
  }

  lemma ExactAbove<V>(s: Local<V>, fs: seq<Frame<V>>, d: nat, t: Tree<V>, j: nat)
    requires j + 1 < d <= |s| && d <= |fs| && ExactAt(s, fs, d, t, j)
    ensures ExactAt(s, fs, d - 1, Join(fs[d - 1], t), j)
  {
    hide Plug, Height, Join;
    PlugSlice(fs, j + 1, d, t);
  }

  lemma ExactTip<V>(s: Local<V>, fs: seq<Frame<V>>, d: nat, t: Tree<V>)
    requires 0 < d <= |s| && d <= |fs| && ExactAt(s, fs, d, t, d - 1)
    ensures PathHeight(s[d - 1], fs[d - 1].left) == Height(t)
  {
    PlugEmpty(fs[d..d], t);
  }

  lemma NothingToRefresh<V>(n: LocalNode<V>, f: Frame<V>, t: Tree<V>, m: Index<V>, c: Cells<V>)
    requires Proper(m) && FrameOk(n, f, n.parentKey, m, c) && PathSide(n, f.left, t, m, c)
    requires Rep(t, n.key, m, c) && PathHeight(n, f.left) == Height(t)
    ensures Refresh(n, m) == n
  {
    RootIsKey(f.other);
    if t.Node? && t.key in m { RootTilt(t, n.key, m, c); }
  }

  lemma LowestFrame<V>(s: Local<V>, fs: seq<Frame<V>>, d: nat, t: Tree<V>, c: Cells<V>)
    requires 0 < d && Zip(s, fs, d, t, c)
    ensures Unique(s) && d <= |s| && d <= |fs|
    ensures FrameOk(s[d - 1], fs[d - 1], s[d - 1].parentKey, At(s), c)
    ensures PathSide(s[d - 1], fs[d - 1].left, t, At(s), c) && Rep(t, s[d - 1].key, At(s), c)
  {
    hide At, Rep, PathOk, PathSide, OrderedPath, FrameOk;
    PathOkKeys(s, fs, d, At(s), c);
  }

  lemma ZipCloseStep<V>(s: Local<V>, fs: seq<Frame<V>>, d: nat, t: Tree<V>, c: Cells<V>)
    requires 0 < d && Zip(s, fs, d, t, c) && ExactPath(s, fs, d, t)
    ensures d <= |fs| && Zip(s, fs, d - 1, Join(fs[d - 1], t), c)
  {
    hide At, Zip, Rep, PathSide, FrameOk, Refresh, ExactPath, Join;
    LowestFrame(s, fs, d, t, c);
    ListProper(s);
    ExactJoin(s, fs, d, t);
    NothingToRefresh(s[d - 1], fs[d - 1], t, At(s), c);
    ZipRefreshNode(s, fs, d, t, c);
    assert s[d - 1 := s[d - 1]] == s;
  }

  /** A path with exact heights represents the whole tree as it is. */
  lemma {:induction false} ZipClose<V>(s: Local<V>, fs: seq<Frame<V>>, d: nat, t: Tree<V>, c: Cells<V>)
    requires Zip(s, fs, d, t, c) && ExactPath(s, fs, d, t)
    ensures d <= |fs| && Zip(s, fs, 0, Plug(fs[..d], t), c)
  {
    hide Zip, ExactPath;
    if d == 0 {
      assert fs[..0] == [];
    } else {
      ZipCloseStep(s, fs, d, t, c);
      ZipUnique(s, fs, d, t, c);
      ExactJoin(s, fs, d, t);
      ZipClose(s, fs, d - 1, Join(fs[d - 1], t), c);
      assert fs[..d][..d - 1] == fs[..d - 1];
    }
  }

  // ----- Replacing the value of the last path node -----

  function SetData<V>(s: Local<V>, value: V): Local<V>
    requires |s| > 0
  {
    s[|s| - 1 := s[|s| - 1].(avl := s[|s| - 1].avl.(data := value))]
  }

  function SetValue<V>(fs: seq<Frame<V>>, value: V): seq<Frame<V>>
    requires |fs| > 0
  {
    fs[|fs| - 1 := fs[|fs| - 1].(value := value)]
  }

  lemma SetValuePlug<V>(fs: seq<Frame<V>>, f: Frame<V>, t: Tree<V>, value: V)
    ensures Plug(SetValue(fs + [f], value), t) == Plug(fs, Join(f.(value := value), t))
  {
    var gs := SetValue(fs + [f], value);
    assert gs[..|gs| - 1] == fs && gs[|gs| - 1] == f.(value := value);
  }

  lemma SetValueOrder<V>(fs: seq<Frame<V>>, f: Frame<V>, t: Tree<V>, value: V)
    requires OrderedPath(fs + [f], |fs| + 1, t)
    ensures OrderedPath(SetValue(fs + [f], value), |fs| + 1, t)
    ensures Keys(Plug(SetValue(fs + [f], value), t)) == Keys(Plug(fs + [f], t))
  {
    hide Ordered, Keys;
    var hs := fs + [f];
    assert hs[..|hs|] == hs && hs[..|hs| - 1] == fs;
    SetValuePlug(fs, f, t, value);
    assert SetValue(hs, value)[..|hs|] == SetValue(hs, value);
    PlugOrdered(fs, Join(f, t));
    JoinValue(f, t, value);
    PlugReplace(fs, Join(f, t), Join(f.(value := value), t));
  }

  lemma JoinValue<V>(f: Frame<V>, t: Tree<V>, value: V)
    requires Ordered(Join(f, t))
    ensures Ordered(Join(f.(value := value), t)) && Keys(Join(f.(value := value), t)) == Keys(Join(f, t))
  {
  }

  lemma SetDataPath<V>(s: Local<V>, fs: seq<Frame<V>>, m: Index<V>, m': Index<V>, c: Cells<V>, value: V)
    requires |s| == |fs| > 0 && PathOk(s, fs, |s|, m, c) && m'.Keys == m.Keys
    ensures PathOk(SetData(s, value), SetValue(fs, value), |s|, m', c)
  {
    hide FrameOk;
    var s', fs' := SetData(s, value), SetValue(fs, value);
    forall j | 0 <= j < |s| ensures FrameOk(s'[j], fs'[j], ParentAt(fs', j), m', c) {
      assert ParentAt(fs', j) == ParentAt(fs, j);
      FrameSame(s[j], fs[j], ParentAt(fs, j), Nil, m, m', c);
      if j == |s| - 1 {
        FrameData(s[j], fs[j], ParentAt(fs, j), m', c, value);
      }
    }
  }

  lemma FrameData<V>(n: LocalNode<V>, f: Frame<V>, par: int, m: Index<V>, c: Cells<V>, value: V)
    requires FrameOk(n, f, par, m, c)
    ensures FrameOk(n.(avl := n.avl.(data := value)), f.(value := value), par, m, c)
  {
  }

  lemma SideData<V>(n: LocalNode<V>, left: bool, t: Tree<V>, m: Index<V>, m': Index<V>, c: Cells<V>, value: V)
    requires PathSide(n, left, t, m, c) && m'.Keys == m.Keys
    ensures PathSide(n.(avl := n.avl.(data := value)), left, t, m', c)
  {
  }

  lemma ZipSetData<V>(s: Local<V>, fs: seq<Frame<V>>, f: Frame<V>, t: Tree<V>, c: Cells<V>, value: V)
    requires |s| == |fs| + 1 && Zip(s, fs + [f], |s|, t, c)
    ensures Unique(SetData(s, value)) && At(SetData(s, value)).Keys == At(s).Keys
    ensures Zip(SetData(s, value), SetValue(fs + [f], value), |s|, t, c)
    ensures ExactPath(s, fs + [f], |s|, t) ==> ExactPath(SetData(s, value), SetValue(fs + [f], value), |s|, t)
  {
    hide At, Rep, Ordered, Keys, PathOk, PathSide, OrderedPath, FrameOk, Stored, Apart, ExactPath;
    var hs := fs + [f];
    var r := SetData(s, value);
    assert SameKeys(s, r);
    SameKeysSameIndex(s, r);
    FocusStored(s, hs, t, c);
    SetDataPath(s, hs, At(s), At(r), c, value);
    SideData(s[|s| - 1], f.left, t, At(s), At(r), c, value);
    SetValueOrder(fs, f, t, value);
    ApartLess(Keys(t), At(s), At(r));
    StoredIsRep(t, f.key, At(r), c);
    if ExactPath(s, hs, |s|, t) {
      ExactSetData(s, hs, t, value);
    }
  }

  lemma ExactSetData<V>(s: Local<V>, fs: seq<Frame<V>>, t: Tree<V>, value: V)
    requires |s| == |fs| > 0 && ExactPath(s, fs, |s|, t)
    ensures ExactPath(SetData(s, value), SetValue(fs, value), |s|, t)
  {
    var s', fs' := SetData(s, value), SetValue(fs, value);
    var d := |s|;
    forall j | 0 <= j < d ensures ExactAt(s', fs', d, t, j) {
      assert ExactAt(s, fs, d, t, j);
      SameHeights(fs[j + 1..|s|], fs'[j + 1..|s|], t, t);
    }
  }

  lemma {:induction false} SameHeights<V>(a: seq<Frame<V>>, b: seq<Frame<V>>, t: Tree<V>, u: Tree<V>)
    requires |a| == |b| && Height(t) == Height(u)
    requires forall j :: 0 <= j < |a| ==> a[j].left == b[j].left && a[j].other == b[j].other
    ensures Height(Plug(a, t)) == Height(Plug(b, u))
  {
    if a != [] {
      var n := |a| - 1;
      SameHeights(a[..n], b[..n], Join(a[n], t), Join(b[n], u));
    }
  }
}
