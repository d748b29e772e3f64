/** How a tree is represented while an operation runs: some nodes are in the client's list,
    linked by parent keys; the others are in ORAM blocks, linked by child keys and leaves. */
module AvlRep {
  import opened Common
  import opened StashTrees
  import opened AvlTrees
  import opened AvlLocal

  type Cells<+V> = map<int, Block<AvlNode<V>>>

  function RootKey<V>(t: Tree<V>): int {
    if t.Nil? then INVALID_KEY else t.key
  }

  /** A child pointer: the key is right, and unless the child is in the list, so are leaf and height. */
  ghost predicate Loose<V>(child: Tree<V>, key: int, leaf: int, height: int, m: Index<V>, c: Cells<V>) {
    && key == RootKey(child)
    && (child.Nil? ==> height == 0)
    && (child.Node? && child.key !in m ==>
          child.key in c && leaf == c[child.key].leaf && height == Height(child))
  }

  /** A child pointer with the exact height. */
  ghost predicate Exact<V>(child: Tree<V>, key: int, leaf: int, height: int, m: Index<V>, c: Cells<V>) {
    Loose(child, key, leaf, height, m, c) && height == Height(child)
  }

  ghost predicate NodeExact<V>(n: AvlNode<V>, t: Tree<V>, m: Index<V>, c: Cells<V>)
    requires t.Node?
  {
    && n.data == t.value
    && Exact(t.left, n.lKey, n.lLeaf, n.lHeight, m, c)
    && Exact(t.right, n.rKey, n.rLeaf, n.rHeight, m, c)
  }

  /** All nodes of `t` are in ORAM blocks. */
  ghost predicate Stored<V>(t: Tree<V>, c: Cells<V>) {
    match t
    case Nil => true
    case Node(l, k, _, r) =>
      && k in c && NodeExact(c[k].value, t, map[], c)
      && Stored(l, c) && Stored(r, c)
  }

  ghost predicate Apart<V>(s: set<int>, m: Index<V>) {
    forall k :: k in s ==> k !in m
  }

  /** `t` hangs below `par`, its upper part in the list and the rest in ORAM blocks. */
  ghost predicate Rep<V>(t: Tree<V>, par: int, m: Index<V>, c: Cells<V>) {
    match t
    case Nil => true
    case Node(l, k, _, r) =>
      if k in m then
        && m[k].parentKey == par && NodeExact(m[k].avl, t, m, c)
        && Rep(l, k, m, c) && Rep(r, k, m, c)
      else
        Stored(t, c) && Apart(Keys(t), m)
  }

  /** An index as obtained from a list: real keys, each naming its own node. */
  ghost predicate Proper<V>(m: Index<V>) {
    forall k :: k in m ==> k >= 0 && m[k].key == k
  }

  // ----- Frames -----

  lemma {:induction false} StoredFrame<V>(t: Tree<V>, c: Cells<V>, c': Cells<V>)
    requires Stored(t, c)
    requires forall k :: k in Keys(t) ==> k in c && k in c' && c'[k] == c[k]
    ensures Stored(t, c')
  {
    if t.Node? {
      StoredFrame(t.left, c, c');
      StoredFrame(t.right, c, c');
    }
  }

  lemma {:induction false} StoredKeys<V>(t: Tree<V>, c: Cells<V>)
    requires Stored(t, c)
    ensures Keys(t) <= c.Keys
  {
    if t.Node? {
      StoredKeys(t.left, c);
      StoredKeys(t.right, c);
    }
  }

  /** The lists `m` and `m'` agree on the nodes of `s`, and so do the blocks outside the list. */
  ghost predicate Agree<V>(s: set<int>, m: Index<V>, m': Index<V>, c: Cells<V>, c': Cells<V>) {
    forall k :: k in s ==>
      && (k in m <==> k in m')
      && (k in m ==> m'[k] == m[k])
      && (k !in m && k in c ==> k in c' && c'[k] == c[k])
  }

  lemma {:induction false} RepFrame<V>(t: Tree<V>, par: int, m: Index<V>, m': Index<V>, c: Cells<V>, c': Cells<V>)
    requires Rep(t, par, m, c) && Agree(Keys(t), m, m', c, c')
    ensures Rep(t, par, m', c')
  {
    if t.Node? {
      if t.key in m {
        RepFrame(t.left, t.key, m, m', c, c');
        RepFrame(t.right, t.key, m, m', c, c');
        LooseFrame(t.left, m[t.key].avl.lKey, m[t.key].avl.lLeaf, m[t.key].avl.lHeight, m, m', c, c');
        LooseFrame(t.right, m[t.key].avl.rKey, m[t.key].avl.rLeaf, m[t.key].avl.rHeight, m, m', c, c');
      } else {
        StoredKeys(t, c);
        assert forall k :: k in Keys(t) ==> k !in m;
        assert forall k :: k in Keys(t) ==> k !in m' && k in c' && c'[k] == c[k];
        StoredFrame(t, c, c');
      }
    }
  }

  lemma LooseFrame<V>(t: Tree<V>, key: int, leaf: int, height: int, m: Index<V>, m': Index<V>, c: Cells<V>, c': Cells<V>)
    requires Loose(t, key, leaf, height, m, c) && Agree(Keys(t), m, m', c, c')
    ensures Loose(t, key, leaf, height, m', c')
  {
    if t.Node? { assert t.key in Keys(t); }
  }

  /** Hanging a subtree below another parent changes only its root's parent key. */
  lemma Reparent<V>(t: Tree<V>, par: int, par': int, m: Index<V>, m': Index<V>, c: Cells<V>)
    requires Ordered(t) && Rep(t, par, m, c) && m'.Keys == m.Keys
    requires forall k :: k in Keys(t) && k in m && k != RootKey(t) ==> m'[k] == m[k]
    requires t.Node? && t.key in m ==> m'[t.key] == m[t.key].(parentKey := par')
    ensures Rep(t, par', m', c)
  {
    if t.Node? {
      if t.key in m {
        assert t.key !in Keys(t.left) && t.key !in Keys(t.right);
        RepFrame(t.left, t.key, m, m', c, c);
        RepFrame(t.right, t.key, m, m', c, c);
      }
    }
  }

  // ----- A rotation in the list is a rotation of the tree -----

  /** `m'` differs from `m` only in nodes of `s` and in the pointer of `par` to `was`. */
  ghost predicate TurnFrame<V>(m: Index<V>, m': Index<V>, s: set<int>, par: int, was: int, t': Tree<V>)
    requires t'.Node? && t'.key in m && m'.Keys == m.Keys
  {
    && (forall x :: x in m && x !in s && x != par ==> m'[x] == m[x])
    && (forall x :: x in m ==> m'[x].leaf == m[x].leaf)
    && (par in m ==> m'[par] == Repoint(m[par], was, t'.key, m[t'.key].leaf, Height(t')))
  }

  /** One unfolding of the search order. */
  lemma OrderedNode<V>(t: Tree<V>)
    requires t.Node? && Ordered(t)
    ensures Ordered(t.left) && Ordered(t.right)
    ensures Below(Keys(t.left), t.key) && Above(Keys(t.right), t.key)
    ensures Keys(t) == Keys(t.left) + {t.key} + Keys(t.right)
  {
  }

  // Where the keys of the parts lie, when the child `p` of `t` is about to become the root.

  lemma PartsOrdered<V>(t: Tree<V>, p: Tree<V>)
    requires Ordered(t) && t.Node? && p.Node? && (p == t.left || p == t.right)
    ensures Ordered(p.left) && Ordered(p.right) && Ordered(t.left) && Ordered(t.right)
    ensures t.key in Keys(t) && p.key in Keys(t)
  {
  }

  lemma PartsWithin<V>(t: Tree<V>, p: Tree<V>)
    requires t.Node? && p.Node? && (p == t.left || p == t.right)
    ensures forall x :: x in Keys(t.left) || x in Keys(t.right) || x in Keys(p.left) || x in Keys(p.right) ==> x in Keys(t)
  {
  }

  lemma BoundsLeft<V>(t: Tree<V>)
    requires Ordered(t) && t.Node? && t.right.Node?
    ensures t.key < t.right.key && Below(Keys(t.left), t.key) && Above(Keys(t.right.left), t.key)
    ensures Below(Keys(t.right.left), t.right.key) && Above(Keys(t.right.right), t.right.key)
  {
    hide Keys, Ordered;
    OrderedNode(t);
    OrderedNode(t.right);
    assert t.right.key in Keys(t.right);
  }

  lemma BoundsRight<V>(t: Tree<V>)
    requires Ordered(t) && t.Node? && t.left.Node?
    ensures t.left.key < t.key && Below(Keys(t.left.left), t.left.key) && Above(Keys(t.left.right), t.left.key)
    ensures Below(Keys(t.left.right), t.key) && Above(Keys(t.right), t.key)
  {
    hide Keys, Ordered;
    OrderedNode(t);
    OrderedNode(t.left);
    assert t.left.key in Keys(t.left);
  }

  lemma RootIsKey<V>(t: Tree<V>)
    ensures t.Node? ==> t.key in Keys(t)
  {
  }

  lemma NodeExactKeys<V>(n: AvlNode<V>, t: Tree<V>, m: Index<V>, m': Index<V>, c: Cells<V>)
    requires t.Node? && NodeExact(n, t, m, c) && m'.Keys == m.Keys
    ensures NodeExact(n, t, m', c)
  {
  }

  /** The nodes changed by a rotation, key by key. */
  lemma RotatedByKey<V>(m: Index<V>, k: int, pk: int, ik: int, par: int, left: bool)
    requires Proper(m) && k in m && pk in m && k != pk && ik != k && ik != pk && par != k && par != pk
    requires ik in m ==> ik != par
    requires PivotKey(m[k], left) == pk && InnerKey(m[pk], left) == ik && m[k].parentKey == par
    ensures var m' := Rotated(m, k, left);
            && m'.Keys == m.Keys
            && m'[k] == Lowered(m[k], m[pk], left) && m'[k].parentKey == pk
            && m'[pk] == Raised(m[k], m[pk], left) && m'[pk].parentKey == par
            && (par in m ==> m'[par] == Repoint(m[par], k, pk, m[pk].leaf, m'[pk].avl.H()))
            && (ik in m ==> m'[ik] == m[ik].(parentKey := k))
            && (forall x :: x in m && x != k && x != pk && x != par && x != ik ==> m'[x] == m[x])
            && (forall x :: x in m ==> m'[x].leaf == m[x].leaf)
  {
  }

  lemma RotatedLeft<V>(t: Tree<V>, par: int, m: Index<V>, c: Cells<V>)
    requires t.Node? && Ordered(t) && Rep(t, par, m, c) && t.key in m
    requires t.right.Node? && t.right.key in m && par !in Keys(t)
    requires Proper(m) && forall k :: k in Keys(t) ==> k >= 0
    ensures m[t.key].avl.rKey == t.right.key
    ensures var m' := Rotated(m, t.key, true);
            && m'.Keys == m.Keys
            && Rep(RotateLeft(t), par, m', c)
            && TurnFrame(m, m', Keys(t), par, t.key, RotateLeft(t))
  {
    hide NodeExact, Loose, Lowered, Raised, Repoint, Rotated, Ordered, Keys, Stored;
    var m' := Rotated(m, t.key, true);
    var p := t.right;
    var a, b, d := t.left, p.left, p.right;
    PartsOrdered(t, p);
    PartsWithin(t, p);
    BoundsLeft(t);
    RootIsKey(b);
    RotatedLeftNodes(t, m, c);
    RotatedByKey(m, t.key, p.key, RootKey(b), par, true);
    RepFrame(a, t.key, m, m', c, c);
    RepFrame(d, p.key, m, m', c, c);
    Reparent(b, p.key, t.key, m, m', c);
    NodeExactKeys(m'[t.key].avl, Node(a, t.key, t.value, b), m, m', c);
    NodeExactKeys(m'[p.key].avl, RotateLeft(t), m, m', c);
    assert Rep(Node(a, t.key, t.value, b), p.key, m', c);
  }

  /** The two rewritten nodes point exactly at their new children. */
  lemma RotatedLeftNodes<V>(t: Tree<V>, m: Index<V>, c: Cells<V>)
    requires t.Node? && t.right.Node? && t.key in m && t.right.key in m && Proper(m)
    requires NodeExact(m[t.key].avl, t, m, c) && NodeExact(m[t.right.key].avl, t.right, m, c)
    ensures var p := t.right;
            var a, b, d := t.left, p.left, p.right;
            var node, pivot := m[t.key], m[p.key];
            && PivotKey(node, true) == p.key && InnerKey(pivot, true) == RootKey(b)
            && NodeExact(Lowered(node, pivot, true).avl, Node(a, t.key, t.value, b), m, c)
            && NodeExact(Raised(node, pivot, true).avl, RotateLeft(t), m, c)
            && Raised(node, pivot, true).avl.H() == Height(RotateLeft(t))
  {
  }

  lemma RotatedRight<V>(t: Tree<V>, par: int, m: Index<V>, c: Cells<V>)
    requires t.Node? && Ordered(t) && Rep(t, par, m, c) && t.key in m
    requires t.left.Node? && t.left.key in m && par !in Keys(t)
    requires Proper(m) && forall k :: k in Keys(t) ==> k >= 0
    ensures m[t.key].avl.lKey == t.left.key
    ensures var m' := Rotated(m, t.key, false);
            && m'.Keys == m.Keys
            && Rep(RotateRight(t), par, m', c)
            && TurnFrame(m, m', Keys(t), par, t.key, RotateRight(t))
  {
    hide NodeExact, Loose, Lowered, Raised, Repoint, Rotated, Ordered, Keys, Stored;
    var m' := Rotated(m, t.key, false);
    var p := t.left;
    var a, b, d := t.right, p.right, p.left;
    PartsOrdered(t, p);
    PartsWithin(t, p);
    BoundsRight(t);
    RootIsKey(b);
    RotatedRightNodes(t, m, c);
    RotatedByKey(m, t.key, p.key, RootKey(b), par, false);
    RepFrame(a, t.key, m, m', c, c);
    RepFrame(d, p.key, m, m', c, c);
    Reparent(b, p.key, t.key, m, m', c);
    NodeExactKeys(m'[t.key].avl, Node(b, t.key, t.value, a), m, m', c);
    NodeExactKeys(m'[p.key].avl, RotateRight(t), m, m', c);
    assert Rep(Node(b, t.key, t.value, a), p.key, m', c);
  }

  /** The two rewritten nodes point exactly at their new children. */
  lemma RotatedRightNodes<V>(t: Tree<V>, m: Index<V>, c: Cells<V>)
    requires t.Node? && t.left.Node? && t.key in m && t.left.key in m && Proper(m)
    requires NodeExact(m[t.key].avl, t, m, c) && NodeExact(m[t.left.key].avl, t.left, m, c)
    ensures var p := t.left;
            var a, b, d := t.right, p.right, p.left;
            var node, pivot := m[t.key], m[p.key];
            && PivotKey(node, false) == p.key && InnerKey(pivot, false) == RootKey(b)
            && NodeExact(Lowered(node, pivot, false).avl, Node(b, t.key, t.value, a), m, c)
            && NodeExact(Raised(node, pivot, false).avl, RotateRight(t), m, c)
            && Raised(node, pivot, false).avl.H() == Height(RotateRight(t))
  {
  }

  // ----- Rebalancing one node in the list -----

  /** The nodes that rebalancing at the root of `t` touches are in the list. */
  ghost predicate PivotsLoaded<V>(t: Tree<V>, m: Index<V>)
    requires t.Node?
  {
    && (Tilt(t) > 1 ==> t.left.key in m && (Tilt(t.left) < 0 ==> t.left.right.key in m))
    && (Tilt(t) < -1 ==> t.right.key in m && (Tilt(t.right) > 0 ==> t.right.left.key in m))
  }

  /** `m'` differs from `m` only inside `t`, which has become `t'`, and, if it was rotated, in the
      pointer of `par` to it. */
  ghost predicate BalanceFrame<V>(m: Index<V>, m': Index<V>, par: int, t: Tree<V>, t': Tree<V>)
    requires t.Node? && t'.Node?
  {
    && m'.Keys == m.Keys
    && (forall x :: x in m && x !in Keys(t) && x != par ==> m'[x] == m[x])
    && (forall x :: x in m ==> m'[x].leaf == m[x].leaf)
    && (t' != t ==> t'.key in m)
    && (par in m && t' == t ==> m'[par] == m[par])
    && (par in m && t' != t ==> m'[par] == Repoint(m[par], t.key, t'.key, m[t'.key].leaf, Height(t')))
  }

  ghost predicate Whole<V>(t: Tree<V>, par: int, m: Index<V>, c: Cells<V>) {
    && Ordered(t) && Rep(t, par, m, c) && Proper(m) && par !in Keys(t)
    && forall k :: k in Keys(t) ==> k >= 0
  }

  lemma InnerLeft<V>(t: Tree<V>, par: int, m: Index<V>, c: Cells<V>)
    requires t.Node? && t.key in m && Whole(t, par, m, c)
    requires t.left.Node? && t.left.key in m && t.left.right.Node? && t.left.right.key in m
    ensures m[t.key].avl.lKey == t.left.key && m[t.left.key].avl.rKey == t.left.right.key
    ensures var m' := Rotated(m, t.left.key, true);
            var t' := t.(left := RotateLeft(t.left));
            && m'.Keys == m.Keys && Whole(t', par, m', c) && Keys(t') == Keys(t)
            && (forall x :: x in m && x !in Keys(t) ==> m'[x] == m[x])
            && (forall x :: x in m ==> m'[x].leaf == m[x].leaf)
  {
    hide Rotated, Stored;
    var l := t.left;
    var l' := RotateLeft(l);
    var m' := Rotated(m, l.key, true);
    OrderedNode(t);
    RootIsKey(l);
    RootIsKey(t);
    RotatedLeft(l, t.key, m, c);
    RotationKeeps(l.left, l.key, l.value, l.right.left, l.right.key, l.right.value, l.right.right);
    RepFrame(t.right, t.key, m, m', c, c);
    NodeExactKeys(m'[t.key].avl, t.(left := l'), m, m', c);
    RotatedProper(m, l.key, true);
  }

  lemma InnerRight<V>(t: Tree<V>, par: int, m: Index<V>, c: Cells<V>)
    requires t.Node? && t.key in m && Whole(t, par, m, c)
    requires t.right.Node? && t.right.key in m && t.right.left.Node? && t.right.left.key in m
    ensures m[t.key].avl.rKey == t.right.key && m[t.right.key].avl.lKey == t.right.left.key
    ensures var m' := Rotated(m, t.right.key, false);
            var t' := t.(right := RotateRight(t.right));
            && m'.Keys == m.Keys && Whole(t', par, m', c) && Keys(t') == Keys(t)
            && (forall x :: x in m && x !in Keys(t) ==> m'[x] == m[x])
            && (forall x :: x in m ==> m'[x].leaf == m[x].leaf)
  {
    hide Rotated, Stored;
    var r := t.right;
    var r' := RotateRight(r);
    var m' := Rotated(m, r.key, false);
    OrderedNode(t);
    RootIsKey(r);
    RootIsKey(t);
    RotatedRight(r, t.key, m, c);
    RotationKeeps(r.left.left, r.left.key, r.left.value, r.left.right, r.key, r.value, r.right);
    RepFrame(t.left, t.key, m, m', c, c);
    NodeExactKeys(m'[t.key].avl, t.(right := r'), m, m', c);
    RotatedProper(m, r.key, false);
  }

  lemma RotatedProper<V>(m: Index<V>, k: int, left: bool)
    requires Proper(m) && k in m
    ensures Proper(Rotated(m, k, left))
  {
  }

  lemma ListProper<V>(s: Local<V>)
    requires Unique(s)
    ensures Proper(At(s))
  {
  }

  lemma TurnedWhole<V>(t: Tree<V>, t': Tree<V>, par: int, m: Index<V>, m': Index<V>, c: Cells<V>)
    requires t.Node? && t'.Node? && t' != t && t'.key in m && Whole(t, par, m, c)
    requires Ordered(t') && Keys(t') == Keys(t)
    requires m'.Keys == m.Keys && Proper(m') && Rep(t', par, m', c)
    requires TurnFrame(m, m', Keys(t), par, t.key, t')
    ensures Whole(t', par, m', c) && BalanceFrame(m, m', par, t, t')
  {
    hide Rep;
  }

  lemma SingleRight<V>(t: Tree<V>, par: int, m: Index<V>, c: Cells<V>)
    requires t.Node? && t.key in m && Whole(t, par, m, c)
    requires t.left.Node? && t.left.key in m
    ensures PivotKey(m[t.key], false) == t.left.key && t.left.key != t.key
    ensures Whole(RotateRight(t), par, Rotated(m, t.key, false), c)
    ensures BalanceFrame(m, Rotated(m, t.key, false), par, t, RotateRight(t))
  {
    hide Rotated, Stored;
    RotatedRight(t, par, m, c);
    RotatedProper(m, t.key, false);
    BoundsRight(t);
    TurnKeeps(t);
    TurnedWhole(t, RotateRight(t), par, m, Rotated(m, t.key, false), c);
  }

  lemma SingleLeft<V>(t: Tree<V>, par: int, m: Index<V>, c: Cells<V>)
    requires t.Node? && t.key in m && Whole(t, par, m, c)
    requires t.right.Node? && t.right.key in m
    ensures PivotKey(m[t.key], true) == t.right.key && t.right.key != t.key
    ensures Whole(RotateLeft(t), par, Rotated(m, t.key, true), c)
    ensures BalanceFrame(m, Rotated(m, t.key, true), par, t, RotateLeft(t))
  {
    hide Rotated, Stored;
    RotatedLeft(t, par, m, c);
    RotatedProper(m, t.key, true);
    BoundsLeft(t);
    TurnKeeps(t);
    TurnedWhole(t, RotateLeft(t), par, m, Rotated(m, t.key, true), c);
  }

  lemma DoubleRight<V>(t: Tree<V>, par: int, m: Index<V>, c: Cells<V>)
    requires t.Node? && t.key in m && Whole(t, par, m, c)
    requires t.left.Node? && t.left.key in m && t.left.right.Node? && t.left.right.key in m
    ensures PivotKey(m[t.left.key], true) == t.left.right.key && t.left.right.key != t.left.key
    ensures var m' := Rotated(m, t.left.key, true);
            var t' := RotateRight(t.(left := RotateLeft(t.left)));
            && m'.Keys == m.Keys
            && PivotKey(m'[t.key], false) == t.left.right.key && t.left.right.key != t.key
            && Whole(t', par, Rotated(m', t.key, false), c)
            && BalanceFrame(m, Rotated(m', t.key, false), par, t, t')
  {
    hide Rotated, Keys, Ordered, Stored;
    InnerLeft(t, par, m, c);
    OrderedNode(t);
    BoundsLeft(t.left);
    var t' := t.(left := RotateLeft(t.left));
    var m' := Rotated(m, t.left.key, true);
    RotatedRight(t', par, m', c);
    RotatedProper(m', t.key, false);
    BoundsRight(t');
    TurnKeeps(t');
    TurnedWhole(t, RotateRight(t'), par, m, Rotated(m', t.key, false), c);
  }

  lemma DoubleLeft<V>(t: Tree<V>, par: int, m: Index<V>, c: Cells<V>)
    requires t.Node? && t.key in m && Whole(t, par, m, c)
    requires t.right.Node? && t.right.key in m && t.right.left.Node? && t.right.left.key in m
    ensures PivotKey(m[t.right.key], false) == t.right.left.key && t.right.left.key != t.right.key
    ensures var m' := Rotated(m, t.right.key, false);
            var t' := RotateLeft(t.(right := RotateRight(t.right)));
            && m'.Keys == m.Keys
            && PivotKey(m'[t.key], true) == t.right.left.key && t.right.left.key != t.key
            && Whole(t', par, Rotated(m', t.key, true), c)
            && BalanceFrame(m, Rotated(m', t.key, true), par, t, t')
  {
    hide Rotated, Keys, Ordered, Stored;
    InnerRight(t, par, m, c);
    OrderedNode(t);
    BoundsRight(t.right);
    var t' := t.(right := RotateRight(t.right));
    var m' := Rotated(m, t.right.key, false);
    RotatedLeft(t', par, m', c);
    RotatedProper(m', t.key, true);
    BoundsLeft(t');
    TurnKeeps(t');
    TurnedWhole(t, RotateLeft(t'), par, m, Rotated(m', t.key, true), c);
  }

  lemma TurnKeeps<V>(t: Tree<V>)
    requires t.Node? && Ordered(t)
    ensures t.right.Node? ==> Ordered(RotateLeft(t)) && Keys(RotateLeft(t)) == Keys(t)
    ensures t.left.Node? ==> Ordered(RotateRight(t)) && Keys(RotateRight(t)) == Keys(t)
  {
    hide Keys, Ordered;
    if t.right.Node? {
      RotationOrder(t.left, t.key, t.value, t.right.left, t.right.key, t.right.value, t.right.right);
    }
    if t.left.Node? {
      RotationOrder(t.left.left, t.left.key, t.left.value, t.left.right, t.key, t.value, t.right);
    }
  }

  /** One rebalancing step in the list is one rebalancing step of the tree. */
  method BalanceNode<V>(s: Local<V>, rootKey: int, idx: nat, ghost t: Tree<V>, ghost par: int, ghost c: Cells<V>)
    returns (r: Local<V>, rootKey': int)
    requires Unique(s) && idx < |s| && t.Node? && t.key == s[idx].key
    requires t.key in At(s) && Whole(t, par, At(s), c) && PivotsLoaded(t, At(s))
    requires rootKey == t.key || rootKey !in Keys(t)
    ensures SameKeys(s, r) && Unique(r)
    ensures Whole(Rebalance(t), par, At(r), c) && Rebalance(t).Node?
    ensures BalanceFrame(At(s), At(r), par, t, Rebalance(t))
    ensures rootKey' == if rootKey == t.key then Rebalance(t).key else rootKey
  {
    hide At, Rotated, Stored, Ordered, Keys, BalanceFrame;
    AtHas(s, idx);
    r, rootKey' := s, rootKey;
    var bal := s[idx].avl.Balance();
    RootTilt(t, par, At(s), c);
    if bal > 1 {
      var i := IndexOf(s, s[idx].avl.lKey);
      AtHas(s, i);
      RootTilt(t.left, t.key, At(s), c);
      if s[i].avl.Balance() < 0 {
        DoubleRight(t, par, At(s), c);
        r, rootKey' := Rotate(s, rootKey, i, true);
        AtHas(r, idx);
      } else {
        SingleRight(t, par, At(s), c);
      }
      r, rootKey' := Rotate(r, rootKey', idx, false);
    } else if bal < -1 {
      var i := IndexOf(s, s[idx].avl.rKey);
      AtHas(s, i);
      RootTilt(t.right, t.key, At(s), c);
      if s[i].avl.Balance() > 0 {
        DoubleLeft(t, par, At(s), c);
        r, rootKey' := Rotate(s, rootKey, i, false);
        AtHas(r, idx);
      } else {
        SingleLeft(t, par, At(s), c);
      }
      r, rootKey' := Rotate(r, rootKey', idx, true);
    } else {
      NoBalance(t, par, At(s));
    }
  }

  /** What the code reads off a loaded node. */
  lemma RootTilt<V>(t: Tree<V>, par: int, m: Index<V>, c: Cells<V>)
    requires t.Node? && t.key in m && Rep(t, par, m, c)
    ensures m[t.key].avl.Balance() == Tilt(t) && m[t.key].avl.H() == Height(t)
    ensures m[t.key].avl.lKey == RootKey(t.left) && m[t.key].avl.rKey == RootKey(t.right)
    ensures Rep(t.left, t.key, m, c) && Rep(t.right, t.key, m, c)
    ensures t.left.Node? ==> t.left.key in Keys(t)
    ensures t.right.Node? ==> t.right.key in Keys(t)
  {
  }

  lemma NoBalance<V>(t: Tree<V>, par: int, m: Index<V>)
    requires t.Node?
    ensures BalanceFrame(m, m, par, t, t)
  {
  }
}
