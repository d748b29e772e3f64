/** The client-side list `local_` of AVL nodes pulled out of the ORAM: the scans and
    in-list rotations of avl_omap, each specified by its effect on the nodes by key. */
module AvlLocal {
  import opened Common
  import opened AvlTrees

  /** A tree node as stored in one ORAM block. */
  datatype AvlNode<+V> = AvlNode(data: V, lKey: int, lLeaf: int, lHeight: int, rKey: int, rLeaf: int, rHeight: int)
  {
    function H(): int {
      1 + Max(lHeight, rHeight)
    }

    function Balance(): int {
      lHeight - rHeight
    }
  }

  datatype LocalNode<+V> = LocalNode(key: int, leaf: nat, avl: AvlNode<V>, parentKey: int)

  function FreshNode<V>(data: V): AvlNode<V> {
    AvlNode(data, INVALID_KEY, INVALID_LEAF, 0, INVALID_KEY, INVALID_LEAF, 0)
  }

  type Local<+V> = seq<LocalNode<V>>
  type Index<+V> = map<int, LocalNode<V>>

  /** Real, pairwise different keys. */
  ghost predicate Unique<V>(s: Local<V>) {
    && (forall i :: 0 <= i < |s| ==> s[i].key >= 0)
    && (forall i, j :: 0 <= i < j < |s| ==> s[i].key != s[j].key)
  }

  /** The nodes of the list by key. */
  ghost function At<V>(s: Local<V>): Index<V>
    requires Unique(s)
  {
    map i | 0 <= i < |s| :: s[i].key := s[i]
  }

  ghost predicate SameKeys<V>(s: Local<V>, t: Local<V>) {
    |s| == |t| && forall i :: 0 <= i < |s| ==> s[i].key == t[i].key
  }

  lemma AtHas<V>(s: Local<V>, i: nat)
    requires Unique(s) && i < |s|
    ensures s[i].key in At(s) && At(s)[s[i].key] == s[i]
  {
  }

  lemma AtIndex<V>(s: Local<V>, key: int) returns (i: nat)
    requires Unique(s) && key in At(s)
    ensures i < |s| && s[i].key == key && At(s)[key] == s[i]
  {
    i :| 0 <= i < |s| && s[i].key == key;
  }

  /** Lists with the same key at each index have the same keys, at the same places. */
  lemma SameKeysSameIndex<V>(s: Local<V>, t: Local<V>)
    requires Unique(s) && SameKeys(s, t)
    ensures Unique(t) && At(t).Keys == At(s).Keys
  {
    forall k ensures k in At(t) <==> k in At(s) {
      if k in At(s) { var j := AtIndex(s, k); AtHas(t, j); }
      if k in At(t) { var j := AtIndex(t, k); AtHas(s, j); }
    }
  }

  /** Index of `key` in the list, or -1. */
  ghost function FindIndex<V>(s: Local<V>, key: int): (i: int)
    requires Unique(s)
    ensures -1 <= i < |s|
    ensures i >= 0 <==> key in At(s)
    ensures i >= 0 ==> s[i].key == key && At(s)[key] == s[i]
    ensures forall j :: 0 <= j < |s| && s[j].key == key ==> j == i
  {
    if key in At(s) then (var i :| 0 <= i < |s| && s[i].key == key; i) else -1
  }

  lemma AtUpdate<V>(s: Local<V>, i: nat, x: LocalNode<V>)
    requires Unique(s) && i < |s| && x.key == s[i].key
    ensures Unique(s[i := x]) && SameKeys(s, s[i := x])
    ensures At(s[i := x]) == At(s)[x.key := x]
  {
    hide At;
    var t := s[i := x];
    SameKeysSameIndex(s, t);
    AtHas(s, i);
    forall k | k in At(t) ensures At(t)[k] == At(s)[x.key := x][k] {
      var j := AtIndex(t, k);
      AtHas(s, j);
      AtHas(t, j);
    }
  }

  lemma AtAppend<V>(s: Local<V>, x: LocalNode<V>)
    requires Unique(s) && x.key >= 0 && x.key !in At(s)
    ensures Unique(s + [x]) && At(s + [x]) == At(s)[x.key := x]
  {
    hide At;
    UniqueAppend(s, x);
    var t := s + [x];
    AtHas(t, |s|);
    forall k ensures k in At(t) <==> k in At(s) || k == x.key {
      if k in At(s) { var j := AtIndex(s, k); AtHas(t, j); }
      if k in At(t) { var j := AtIndex(t, k); if j < |s| { AtHas(s, j); } }
    }
    forall k | k in At(s) ensures At(t)[k] == At(s)[k] {
      var j := AtIndex(s, k);
      AtHas(t, j);
    }
  }

  lemma UniqueAppend<V>(s: Local<V>, x: LocalNode<V>)
    requires Unique(s) && x.key >= 0 && x.key !in At(s)
    ensures Unique(s + [x])
  {
    hide At;
    forall i | 0 <= i < |s| ensures s[i].key != x.key { AtHas(s, i); }
  }

  /** First position of a node with key `key`, or -1. */
  method IndexOf<V>(s: Local<V>, key: int) returns (at: int)
    ensures -1 <= at < |s|
    ensures at >= 0 ==> s[at].key == key && forall j :: 0 <= j < at ==> s[j].key != key
    ensures at < 0 ==> forall j :: 0 <= j < |s| ==> s[j].key != key
    ensures Unique(s) ==> (at >= 0 <==> key in At(s))
  {
    for i := 0 to |s|
      invariant forall j :: 0 <= j < i ==> s[j].key != key
    {
      if s[i].key == key { return i; }
    }
    at := -1;
  }

  // ----- Refreshing stored heights -----

  /** `n` with the height of each child that is in the list. */
  ghost function Refresh<V>(n: LocalNode<V>, m: Index<V>): LocalNode<V> {
    n.(avl := n.avl.(
         lHeight := if n.avl.lKey in m then m[n.avl.lKey].avl.H() else n.avl.lHeight,
         rHeight := if n.avl.rKey in m then m[n.avl.rKey].avl.H() else n.avl.rHeight))
  }

  /** The list after refreshing the nodes below index `n`, last first. */
  ghost function RefreshAll<V>(s: Local<V>, n: nat): (r: Local<V>)
    requires Unique(s) && n <= |s|
    ensures SameKeys(s, r) && Unique(r)
    decreases n
  {
    if n == 0 then s
    else
      assert Unique(s[n - 1 := Refresh(s[n - 1], At(s))]) by { AtUpdate(s, n - 1, Refresh(s[n - 1], At(s))); }
      RefreshAll(s[n - 1 := Refresh(s[n - 1], At(s))], n - 1)
  }

  method RefreshNode<V>(s: Local<V>, i: nat) returns (r: LocalNode<V>)
    requires Unique(s) && i < |s|
    ensures r == Refresh(s[i], At(s))
  {
    hide At;
    r := s[i];
    ghost var l, m := FindIndex(s, r.avl.lKey), FindIndex(s, r.avl.rKey);
    for j := 0 to |s|
      invariant r == s[i].(avl := s[i].avl.(lHeight := r.avl.lHeight, rHeight := r.avl.rHeight))
      invariant r.avl.lHeight == if 0 <= l < j then s[l].avl.H() else s[i].avl.lHeight
      invariant r.avl.rHeight == if 0 <= m < j then s[m].avl.H() else s[i].avl.rHeight
    {
      if s[j].key == r.avl.lKey {
        r := r.(avl := r.avl.(lHeight := s[j].avl.H()));
      }
      if s[j].key == r.avl.rKey {
        r := r.(avl := r.avl.(rHeight := s[j].avl.H()));
      }
    }
  }

  method UpdateHeights<V>(s: Local<V>) returns (r: Local<V>)
    requires Unique(s)
    ensures r == RefreshAll(s, |s|)
  {
    hide At, Refresh;
    r := s;
    for i := |s| downto 0
      invariant SameKeys(s, r) && Unique(r)
      invariant RefreshAll(r, i) == RefreshAll(s, |s|)
    {
      var n := RefreshNode(r, i);
      AtUpdate(r, i, n);
      r := r[i := n];
    }
  }

  // ----- Rotation in the list -----

  /** `p` with its pointer to `was` redirected to a node `now`. */
  function Repoint<V>(p: LocalNode<V>, was: int, now: int, leaf: int, height: int): LocalNode<V> {
    if p.avl.lKey == was then p.(avl := p.avl.(lKey := now, lLeaf := leaf, lHeight := height))
    else if p.avl.rKey == was then p.(avl := p.avl.(rKey := now, rLeaf := leaf, rHeight := height))
    else p
  }

  /** The rotated node: its inner child is the one it takes over from the pivot. */
  function Lowered<V>(node: LocalNode<V>, pivot: LocalNode<V>, left: bool): LocalNode<V> {
    node.(parentKey := pivot.key,
          avl := if left then node.avl.(rKey := pivot.avl.lKey, rLeaf := pivot.avl.lLeaf, rHeight := pivot.avl.lHeight)
                 else node.avl.(lKey := pivot.avl.rKey, lLeaf := pivot.avl.rLeaf, lHeight := pivot.avl.rHeight))
  }

  /** The pivot: it takes the place of the node and adopts it. */
  function Raised<V>(node: LocalNode<V>, pivot: LocalNode<V>, left: bool): LocalNode<V> {
    var h := Lowered(node, pivot, left).avl.H();
    pivot.(parentKey := node.parentKey,
           avl := if left then pivot.avl.(lKey := node.key, lLeaf := node.leaf, lHeight := h)
                  else pivot.avl.(rKey := node.key, rLeaf := node.leaf, rHeight := h))
  }

  function PivotKey<V>(node: LocalNode<V>, left: bool): int {
    if left then node.avl.rKey else node.avl.lKey
  }

  /** Key of the subtree that passes from the pivot to the node. */
  function InnerKey<V>(pivot: LocalNode<V>, left: bool): int {
    if left then pivot.avl.lKey else pivot.avl.rKey
  }

  /** Effect of a rotation at `k` on the nodes by key; none if the pivot is not loaded. */
  ghost function Rotated<V>(m: Index<V>, k: int, left: bool): Index<V>
    requires k in m
  {
    var node := m[k];
    var pk := PivotKey(node, left);
    if pk !in m then m else
      var pivot := m[pk];
      var up := Raised(node, pivot, left);
      var inner := InnerKey(pivot, left);
      var m1 := m[k := Lowered(node, pivot, left)][pk := up];
      var par := node.parentKey;
      var m2 := if par in m1 then m1[par := Repoint(m1[par], k, pk, pivot.leaf, up.avl.H())] else m1;
      if inner in m2 then m2[inner := m2[inner].(parentKey := k)] else m2
  }

  method Rotate<V>(s: Local<V>, rootKey: int, idx: nat, left: bool) returns (r: Local<V>, rootKey': int)
    requires Unique(s) && idx < |s|
    requires PivotKey(s[idx], left) != s[idx].key
    ensures SameKeys(s, r) && Unique(r)
    ensures s[idx].key in At(s) && At(r) == Rotated(At(s), s[idx].key, left)
    ensures rootKey' == if PivotKey(s[idx], left) in At(s) && rootKey == s[idx].key then PivotKey(s[idx], left) else rootKey
  {
    hide At;
    AtHas(s, idx);
    var node := s[idx];
    var pi := IndexOf(s, PivotKey(node, left));
    if pi < 0 {
      return s, rootKey;
    }
    AtHas(s, pi);
    var pivot := s[pi];
    var inner := InnerKey(pivot, left);
    var up := Raised(node, pivot, left);
    AtUpdate(s, idx, Lowered(node, pivot, left));
    r := s[idx := Lowered(node, pivot, left)];
    AtUpdate(r, pi, up);
    r := r[pi := up];
    var par := IndexOf(r, node.parentKey);
    if par >= 0 {
      var p := Repoint(r[par], node.key, pivot.key, pivot.leaf, up.avl.H());
      AtHas(r, par);
      AtUpdate(r, par, p);
      r := r[par := p];
    }
    if inner != INVALID_KEY {
      var c := IndexOf(r, inner);
      if c >= 0 {
        AtHas(r, c);
        AtUpdate(r, c, r[c].(parentKey := node.key));
        r := r[c := r[c].(parentKey := node.key)];
      }
    } else {
      NoInvalidKey(r);
    }
    rootKey' := if rootKey == node.key then pivot.key else rootKey;
  }

  lemma NoInvalidKey<V>(s: Local<V>)
    requires Unique(s)
    ensures forall k :: k in At(s) ==> k >= 0
  {
  }
}
