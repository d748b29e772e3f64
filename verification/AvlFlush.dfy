/** Giving every node in the list a fresh leaf, repairing the leaf pointers held in parents, and
    writing the nodes back as blocks (avl_omap `reassign_leaves`, `flush_local_to_stash`). */
module AvlFlush {
  import opened Common
  import opened StashTrees
  import opened AvlTrees
  import opened AvlLocal
  import opened AvlRep
  import opened AvlZip

  /** Leaf of the child `key` of the node `parentKey` if it is in the list. */
  ghost function ChildLeaf<V>(m: Index<V>, parentKey: int, key: int, leaf: int): int {
    if key in m && m[key].parentKey == parentKey then m[key].leaf else leaf
  }

  /** `n` with the current leaves of its loaded children. */
  ghost function Relinked<V>(n: LocalNode<V>, m: Index<V>): LocalNode<V> {
    n.(avl := n.avl.(
         lLeaf := ChildLeaf(m, n.key, n.avl.lKey, n.avl.lLeaf),
         rLeaf := if n.avl.rKey == n.avl.lKey then n.avl.rLeaf else ChildLeaf(m, n.key, n.avl.rKey, n.avl.rLeaf)))
  }

  /** Equal but for the nodes' own leaves. */
  ghost predicate SameButLeaves<V>(s: Local<V>, r: Local<V>) {
    |r| == |s| && forall i :: 0 <= i < |s| ==> r[i] == s[i].(leaf := r[i].leaf)
  }

  /** The node `n` after the children with index at least `i` have written their leaves to it. */
  ghost function PartlyLinked<V>(s: Local<V>, n: LocalNode<V>, i: nat): LocalNode<V>
    requires Unique(s)
  {
    var l, r := FindIndex(s, n.avl.lKey), FindIndex(s, n.avl.rKey);
    n.(avl := n.avl.(
         lLeaf := if l >= i && s[l].parentKey == n.key then s[l].leaf else n.avl.lLeaf,
         rLeaf := if n.avl.rKey != n.avl.lKey && r >= i && s[r].parentKey == n.key then s[r].leaf else n.avl.rLeaf))
  }

  /** `n` with the leaf of `child` written to its pointer to it, if `child` hangs below `n`. */
  function LeafWritten<V>(n: LocalNode<V>, child: LocalNode<V>): LocalNode<V> {
    if n.avl.lKey == child.key then n.(avl := n.avl.(lLeaf := child.leaf))
    else if n.avl.rKey == child.key then n.(avl := n.avl.(rLeaf := child.leaf))
    else n
  }

  lemma PartlyLinkedStep<V>(s: Local<V>, n: LocalNode<V>, i: nat)
    requires Unique(s) && i < |s|
    ensures PartlyLinked(s, n, i) == if n.key == s[i].parentKey then LeafWritten(PartlyLinked(s, n, i + 1), s[i])
                                     else PartlyLinked(s, n, i + 1)
  {
    hide At, Unique;
    AtHas(s, i);
  }

  lemma PartlyLinkedEnds<V>(s: Local<V>, n: LocalNode<V>)
    requires Unique(s)
    ensures PartlyLinked(s, n, |s|) == n && PartlyLinked(s, n, 0) == Relinked(n, At(s))
  {
    hide At;
  }

  lemma PartlyLinkedKeeps<V>(s: Local<V>, n: LocalNode<V>, i: nat)
    requires Unique(s)
    ensures PartlyLinked(s, n, i).key == n.key && PartlyLinked(s, n, i).parentKey == n.parentKey
    ensures PartlyLinked(s, n, i).leaf == n.leaf
  {
  }

  /** Every loaded child writes its leaf to its parent. */
  method LinkLeaves<V>(s: Local<V>) returns (r: Local<V>)
    requires Unique(s)
    ensures |r| == |s| && forall j :: 0 <= j < |s| ==> r[j] == Relinked(s[j], At(s))
  {
    hide At, PartlyLinked, Relinked;
    r := s;
    forall j | 0 <= j < |s| ensures PartlyLinked(s, s[j], |s|) == s[j] {
      PartlyLinkedEnds(s, s[j]);
    }
    for i := |s| downto 0
      invariant |r| == |s|
      invariant forall j :: 0 <= j < |s| ==> r[j] == PartlyLinked(s, s[j], i)
    {
      var child := r[i];
      forall j | 0 <= j < |s|
        ensures r[j].key == s[j].key && r[j].parentKey == s[j].parentKey && r[j].leaf == s[j].leaf
        ensures PartlyLinked(s, s[j], i) == if s[j].key == child.parentKey then LeafWritten(r[j], child) else r[j]
      {
        PartlyLinkedKeeps(s, s[j], i + 1);
        PartlyLinkedKeeps(s, s[i], i + 1);
        PartlyLinkedStep(s, s[j], i);
      }
      if child.parentKey != INVALID_KEY {
        var p := IndexOf(r, child.parentKey);
        if p >= 0 {
          r := r[p := LeafWritten(r[p], child)];
        }
      }
    }
    forall j | 0 <= j < |s| ensures PartlyLinked(s, s[j], 0) == Relinked(s[j], At(s)) {
      PartlyLinkedEnds(s, s[j]);
    }
  }

  /** The blocks written back for the nodes of the list. */
  ghost function Blocks<V>(m: Index<V>): Cells<V> {
    map k | k in m :: Block(k, m[k].leaf, m[k].avl)
  }

  /** `m'` is `m` with new own leaves and the leaves of loaded children copied to their parents. */
  ghost predicate Released<V>(m: Index<V>, m': Index<V>) {
    && m'.Keys == m.Keys
    && forall k :: k in m ==>
         && m'[k].key == m[k].key && m'[k].parentKey == m[k].parentKey
         && m'[k].avl == m[k].avl.(lLeaf := m'[k].avl.lLeaf, rLeaf := m'[k].avl.rLeaf)
         && LeafReleased(m, m', m[k].key, m[k].avl.lKey, m[k].avl.lLeaf, m'[k].avl.lLeaf)
         && (m[k].avl.rKey != m[k].avl.lKey ==>
               LeafReleased(m, m', m[k].key, m[k].avl.rKey, m[k].avl.rLeaf, m'[k].avl.rLeaf))
  }

  ghost predicate LeafReleased<V>(m: Index<V>, m': Index<V>, parentKey: int, key: int, leaf: int, leaf': int)
    requires m'.Keys == m.Keys
  {
    leaf' == if key in m && m[key].parentKey == parentKey then m'[key].leaf else leaf
  }

  lemma ReleasedSide<V>(t: Tree<V>, par: int, key: int, leaf: int, leaf': int, height: int, m: Index<V>, m': Index<V>,
      c: Cells<V>)
    requires Exact(t, key, leaf, height, m, c) && Rep(t, par, m, c) && Proper(m)
    requires m'.Keys == m.Keys && LeafReleased(m, m', par, key, leaf, leaf')
    ensures Exact(t, key, leaf', height, map[], c + Blocks(m'))
  {
    RootIsKey(t);
  }

  /** Writing back the released nodes stores the whole tree, with every child pointer exact. */
  lemma {:induction false} ReleaseStores<V>(t: Tree<V>, par: int, m: Index<V>, m': Index<V>, c: Cells<V>)
    requires Ordered(t) && Rep(t, par, m, c) && Proper(m) && Released(m, m')
    ensures Stored(t, c + Blocks(m'))
  {
    hide Ordered;
    if t.Node? {
      OrderedNode(t);
      if t.key in m {
        ReleaseStores(t.left, t.key, m, m', c);
        ReleaseStores(t.right, t.key, m, m', c);
        ReleasedSide(t.left, t.key, m[t.key].avl.lKey, m[t.key].avl.lLeaf, m'[t.key].avl.lLeaf, m[t.key].avl.lHeight, m, m', c);
        RootIsKey(t.left);
        RootIsKey(t.right);
        if t.right.Node? {
          ReleasedSide(t.right, t.key, m[t.key].avl.rKey, m[t.key].avl.rLeaf, m'[t.key].avl.rLeaf, m[t.key].avl.rHeight, m,
              m', c);
        }
      } else {
        StoredKeys(t, c);
        assert forall k :: k in Keys(t) ==> k !in m;
        StoredFrame(t, c, c + Blocks(m'));
      }
    }
  }

  /** The list operations of the release, as seen by key. */
  lemma ListReleased<V>(s: Local<V>, fresh_: Local<V>, r: Local<V>)
    requires Unique(s) && SameButLeaves(s, fresh_)
    requires Unique(fresh_)
    requires |r| == |s| && forall j :: 0 <= j < |s| ==> r[j] == Relinked(fresh_[j], At(fresh_))
    ensures Unique(r) && SameKeys(s, r) && Released(At(s), At(r))
  {
    hide At;
    SameKeysSameIndex(s, fresh_);
    SameKeysSameIndex(s, r);
    forall k | k in At(s)
      ensures var n, n', f := At(s)[k], At(r)[k], At(fresh_)[k];
              n' == Relinked(f, At(fresh_)) && f == n.(leaf := f.leaf) && n'.leaf == f.leaf
    {
      var j := AtIndex(s, k);
      AtHas(r, j);
      AtHas(fresh_, j);
    }
  }

  lemma SameButLeavesUnique<V>(s: Local<V>, r: Local<V>)
    requires Unique(s) && SameButLeaves(s, r)
    ensures Unique(r) && SameKeys(s, r)
  {
  }
}
