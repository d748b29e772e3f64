/** Bulk loading of the AVL map (avl_omap `init`): a balanced tree over the sorted entries. */
module AvlInit {
  import opened Common
  import opened StashTrees
  import opened AvlTrees
  import opened AvlLocal
  import opened AvlRep

  type Entries<+V> = seq<(int, V)>

  ghost predicate Distinct<V>(s: Entries<V>) {
    forall i, j :: 0 <= i < j < |s| ==> s[i].0 != s[j].0
  }

  ghost predicate Ascending<V>(s: Entries<V>) {
    forall i, j :: 0 <= i < j < |s| ==> s[i].0 < s[j].0
  }

  /** The map that the entries describe. */
  ghost function Assoc<V>(s: Entries<V>): map<int, V>
    requires Distinct(s)
  {
    map i | 0 <= i < |s| :: s[i].0 := s[i].1
  }

  // ----- Sorting -----

  /** Inserts `x` behind the entries with smaller keys. */
  method InsertSorted<V>(s: Entries<V>, x: (int, V)) returns (r: Entries<V>)
    requires Ascending(s) && forall i :: 0 <= i < |s| ==> s[i].0 != x.0
    ensures Ascending(r) && multiset(r) == multiset(s) + multiset{x}
  {
    var i := 0;
    while i < |s| && s[i].0 < x.0
      invariant 0 <= i <= |s| && forall j :: 0 <= j < i ==> s[j].0 < x.0
    {
      i := i + 1;
    }
    r := s[..i] + [x] + s[i..];
    InsertedBetween(s, i, x);
  }

  lemma InsertedBetween<V>(s: Entries<V>, i: nat, x: (int, V))
    requires Ascending(s) && i <= |s|
    requires (forall j :: 0 <= j < i ==> s[j].0 < x.0) && (i < |s| ==> x.0 < s[i].0)
    ensures Ascending(s[..i] + [x] + s[i..]) && multiset(s[..i] + [x] + s[i..]) == multiset(s) + multiset{x}
  {
    hide Ascending;
    assert s == s[..i] + s[i..];
    InsertedAscending(s, i, x);
  }

  lemma InsertedAscending<V>(s: Entries<V>, i: nat, x: (int, V))
    requires Ascending(s) && i <= |s|
    requires (forall j :: 0 <= j < i ==> s[j].0 < x.0) && (i < |s| ==> x.0 < s[i].0)
    ensures Ascending(s[..i] + [x] + s[i..])
  {
    var r := s[..i] + [x] + s[i..];
    forall j, k | 0 <= j < k < |r| ensures r[j].0 < r[k].0 {
      InsertedAt(s, i, x, j);
      InsertedAt(s, i, x, k);
    }
  }

  lemma InsertedAt<V>(s: Entries<V>, i: nat, x: (int, V), j: nat)
    requires i <= |s| && j <= |s|
    ensures (s[..i] + [x] + s[i..])[j] == if j < i then s[j] else if j == i then x else s[j - 1]
  {
  }

  method SortByKey<V>(data: Entries<V>) returns (sorted: Entries<V>)
    requires Distinct(data)
    ensures Ascending(sorted) && multiset(sorted) == multiset(data)
  {
    sorted := [];
    for i := 0 to |data|
      invariant Ascending(sorted) && multiset(sorted) == multiset(data[..i])
    {
      forall j | 0 <= j < |sorted| ensures sorted[j].0 != data[i].0 {
        assert sorted[j] in multiset(data[..i]);
      }
      assert data[..i + 1] == data[..i] + [data[i]];
      sorted := InsertSorted(sorted, data[i]);
    }
    assert data[..|data|] == data;
  }

  lemma SameEntries<V>(s: Entries<V>, t: Entries<V>)
    requires Distinct(s) && Distinct(t) && multiset(s) == multiset(t)
    ensures Assoc(s) == Assoc(t) && |s| == |t|
  {
    EntriesWithin(s, t);
    EntriesWithin(t, s);
    assert |multiset(s)| == |s| && |multiset(t)| == |t|;
  }

  lemma EntriesWithin<V>(s: Entries<V>, t: Entries<V>)
    requires Distinct(s) && Distinct(t) && multiset(s) == multiset(t)
    ensures forall k :: k in Assoc(s) ==> k in Assoc(t) && Assoc(t)[k] == Assoc(s)[k]
  {
    forall k | k in Assoc(s) ensures k in Assoc(t) && Assoc(t)[k] == Assoc(s)[k] {
      var i :| 0 <= i < |s| && s[i].0 == k;
      assert s[i] in multiset(t);
      var j :| 0 <= j < |t| && t[j] == s[i];
    }
  }

  // ----- The balanced tree -----

  function Mid(lo: int, hi: int): (mid: int)
    requires lo <= hi
    ensures lo <= mid <= hi && (hi - mid == mid - lo || hi - mid == mid - lo + 1)
  {
    lo + (hi - lo) / 2
  }

  function Built<V>(sorted: Entries<V>, lo: int, hi: int): Tree<V>
    requires 0 <= lo <= hi + 1 <= |sorted|
    decreases hi - lo + 1
  {
    if lo > hi then Nil
    else
      var mid := Mid(lo, hi);
      Node(Built(sorted, lo, mid - 1), sorted[mid].0, sorted[mid].1, Built(sorted, mid + 1, hi))
  }

  lemma {:induction false} BuiltKeys<V>(sorted: Entries<V>, lo: int, hi: int)
    requires 0 <= lo <= hi + 1 <= |sorted|
    ensures forall k :: k in Keys(Built(sorted, lo, hi)) <==> exists i :: lo <= i <= hi && sorted[i].0 == k
    ensures Size(Built(sorted, lo, hi)) == hi - lo + 1
    decreases hi - lo + 1
  {
    hide Mid;
    if lo <= hi {
      var mid := Mid(lo, hi);
      BuiltKeys(sorted, lo, mid - 1);
      BuiltKeys(sorted, mid + 1, hi);
      var t := Built(sorted, lo, hi);
      forall k ensures k in Keys(t) <==> exists i :: lo <= i <= hi && sorted[i].0 == k {
        if i :| lo <= i <= hi && sorted[i].0 == k {
          assert i < mid ==> k in Keys(t.left);
          assert i > mid ==> k in Keys(t.right);
        }
      }
    }
  }

  lemma {:induction false} BuiltOrdered<V>(sorted: Entries<V>, lo: int, hi: int)
    requires 0 <= lo <= hi + 1 <= |sorted| && Ascending(sorted)
    ensures Ordered(Built(sorted, lo, hi))
    decreases hi - lo + 1
  {
    hide Mid;
    if lo <= hi {
      var mid := Mid(lo, hi);
      BuiltOrdered(sorted, lo, mid - 1);
      BuiltOrdered(sorted, mid + 1, hi);
      BuiltKeys(sorted, lo, mid - 1);
      BuiltKeys(sorted, mid + 1, hi);
      BuiltParts(sorted, lo, hi);
      var l, r := Built(sorted, lo, mid - 1), Built(sorted, mid + 1, hi);
      hide Built, Keys;
      forall k | k in Keys(l) ensures k < sorted[mid].0 {
        var i :| lo <= i <= mid - 1 && sorted[i].0 == k;
      }
      forall k | k in Keys(r) ensures k > sorted[mid].0 {
        var i :| mid + 1 <= i <= hi && sorted[i].0 == k;
      }
    }
  }

  lemma {:induction false} BuiltContents<V>(sorted: Entries<V>, lo: int, hi: int)
    requires 0 <= lo <= hi + 1 <= |sorted| && Ascending(sorted)
    ensures forall i :: lo <= i <= hi ==>
              sorted[i].0 in Contents(Built(sorted, lo, hi)) && Contents(Built(sorted, lo, hi))[sorted[i].0] == sorted[i].1
    decreases hi - lo + 1
  {
    hide Mid, Contents;
    if lo <= hi {
      var mid := Mid(lo, hi);
      var t := Built(sorted, lo, hi);
      BuiltContents(sorted, lo, mid - 1);
      BuiltContents(sorted, mid + 1, hi);
      forall i | lo <= i <= hi ensures sorted[i].0 in Contents(t) && Contents(t)[sorted[i].0] == sorted[i].1 {
        if i < mid { RightKeysAbove(sorted, lo, mid, hi, i); }
        NodeContents(t, sorted[i].0);
      }
    }
  }

  lemma RightKeysAbove<V>(sorted: Entries<V>, lo: int, mid: int, hi: int, i: int)
    requires 0 <= lo <= i < mid <= hi < |sorted| && Ascending(sorted)
    ensures sorted[i].0 !in Contents(Built(sorted, mid + 1, hi))
  {
    hide Built;
    BuiltKeys(sorted, mid + 1, hi);
    ContentsKeys(Built(sorted, mid + 1, hi));
  }

  lemma NodeContents<V>(t: Tree<V>, k: int)
    requires t.Node?
    ensures k in Contents(t) <==> k == t.key || k in Contents(t.left) || k in Contents(t.right)
    ensures k in Contents(t) ==>
              Contents(t)[k] == if k == t.key then t.value
                                else if k in Contents(t.right) then Contents(t.right)[k] else Contents(t.left)[k]
  {
  }

  lemma AssocEntry<V>(s: Entries<V>, i: nat)
    requires Distinct(s) && i < |s|
    ensures s[i].0 in Assoc(s) && Assoc(s)[s[i].0] == s[i].1
  {
  }

  lemma AssocIndex<V>(s: Entries<V>, k: int) returns (i: nat)
    requires Distinct(s) && k in Assoc(s)
    ensures i < |s| && s[i].0 == k && Assoc(s)[k] == s[i].1
  {
    i :| 0 <= i < |s| && s[i].0 == k;
  }

  lemma AssocAppend<V>(s: Entries<V>, x: (int, V))
    requires Distinct(s) && x.0 !in Assoc(s)
    ensures Distinct(s + [x]) && Assoc(s + [x]) == Assoc(s)[x.0 := x.1]
  {
    var r := s + [x];
    DistinctAppend(s, x);
    hide Assoc;
    forall k ensures k in Assoc(r) <==> k in Assoc(s) || k == x.0 {
      if k in Assoc(s) { var i := AssocIndex(s, k); AssocEntry(r, i); }
      if k == x.0 { AssocEntry(r, |s|); }
      if k in Assoc(r) { var i := AssocIndex(r, k); if i < |s| { AssocEntry(s, i); } }
    }
    forall k | k in Assoc(r) ensures Assoc(r)[k] == Assoc(s)[x.0 := x.1][k] {
      var i := AssocIndex(r, k);
      AssocEntry(r, i);
      if i < |s| { AssocEntry(s, i); }
    }
  }

  lemma DistinctAppend<V>(s: Entries<V>, x: (int, V))
    requires Distinct(s) && x.0 !in Assoc(s)
    ensures Distinct(s + [x])
  {
    forall i | 0 <= i < |s| ensures s[i].0 != x.0 {
      assert s[i].0 in Assoc(s);
    }
  }

  lemma {:induction false} AssocSize<V>(s: Entries<V>)
    requires Distinct(s)
    ensures |Assoc(s)| == |s|
  {
    if s != [] {
      var n := |s| - 1;
      AssocSize(s[..n]);
      assert s[..n] + [s[n]] == s;
      forall k | k in Assoc(s[..n]) ensures k != s[n].0 {
        var i :| 0 <= i < n && s[..n][i].0 == k;
      }
      AssocAppend(s[..n], s[n]);
      InsertSize(Assoc(s[..n]), s[n].0, s[n].1);
    }
  }

  lemma InsertSize<V>(m: map<int, V>, k: int, v: V)
    requires k !in m
    ensures |m[k := v]| == |m| + 1
  {
    assert m[k := v].Keys == m.Keys + {k};
    assert |m.Keys + {k}| == |m.Keys| + 1;
  }

  /** The built tree holds exactly the entries. */
  lemma BuiltAssoc<V>(sorted: Entries<V>)
    requires Ascending(sorted)
    ensures Distinct(sorted) && Contents(Built(sorted, 0, |sorted| - 1)) == Assoc(sorted)
  {
    hide Built, Contents, Keys, Assoc;
    var t := Built(sorted, 0, |sorted| - 1);
    BuiltKeys(sorted, 0, |sorted| - 1);
    BuiltContents(sorted, 0, |sorted| - 1);
    ContentsKeys(t);
    forall k ensures k in Contents(t) <==> k in Assoc(sorted) {
      if k in Keys(t) {
        var i: nat :| i < |sorted| && sorted[i].0 == k;
        AssocEntry(sorted, i);
      }
      if k in Assoc(sorted) {
        var i := AssocIndex(sorted, k);
      }
    }
    forall k | k in Assoc(sorted) ensures Contents(t)[k] == Assoc(sorted)[k] {
      var i := AssocIndex(sorted, k);
    }
  }

  /** Height of the balanced tree over `n` entries. */
  function HalvingHeight(n: nat): nat {
    if n == 0 then 0 else 1 + HalvingHeight(n / 2)
  }

  lemma {:induction false} HalvingGrowth(n: nat)
    ensures HalvingHeight(n) <= HalvingHeight(n + 1) <= HalvingHeight(n) + 1
  {
    if n > 0 {
      if n % 2 == 1 { HalvingGrowth(n / 2); assert (n + 1) / 2 == n / 2 + 1; }
      else { assert (n + 1) / 2 == n / 2; }
    }
  }

  /** Halving splits n - 1 entries into sides whose heights differ by at most one. */
  lemma HalvingSides(n: nat, small: nat, large: nat)
    requires n > 0 && small + large == n - 1 && (large == small || large == small + 1)
    ensures HalvingHeight(n) == 1 + Max(HalvingHeight(small), HalvingHeight(large))
    ensures HalvingHeight(small) <= HalvingHeight(large) <= HalvingHeight(small) + 1
  {
    HalvingGrowth(small);
    assert n / 2 == large;
  }

  lemma BuiltParts<V>(sorted: Entries<V>, lo: int, hi: int)
    requires 0 <= lo <= hi + 1 <= |sorted|
    ensures lo > hi ==> Built(sorted, lo, hi) == Nil
    ensures lo <= hi ==>
              var mid := Mid(lo, hi);
              Built(sorted, lo, hi)
              == Node(Built(sorted, lo, mid - 1), sorted[mid].0, sorted[mid].1, Built(sorted, mid + 1, hi))
  {
  }

  lemma {:induction false} BuiltBalanced<V>(sorted: Entries<V>, lo: int, hi: int)
    requires 0 <= lo <= hi + 1 <= |sorted|
    ensures Balanced(Built(sorted, lo, hi)) && Height(Built(sorted, lo, hi)) == HalvingHeight(hi - lo + 1)
    decreases hi - lo + 1
  {
    hide HalvingHeight, Mid, Balanced, Height, Built;
    BuiltParts(sorted, lo, hi);
    if lo <= hi {
      var mid := Mid(lo, hi);
      BuiltBalanced(sorted, lo, mid - 1);
      BuiltBalanced(sorted, mid + 1, hi);
      HalvingSides(hi - lo + 1, mid - lo, hi - mid);
      JoinBalanced(Built(sorted, lo, mid - 1), sorted[mid].0, sorted[mid].1, Built(sorted, mid + 1, hi));
    } else {
      EmptyBalanced(Built(sorted, lo, hi));
    }
  }

  lemma EmptyBalanced<V>(t: Tree<V>)
    requires t == Nil
    ensures Balanced(t) && Height(t) == HalvingHeight(0)
  {
  }

  lemma JoinBalanced<V>(l: Tree<V>, k: int, v: V, r: Tree<V>)
    requires Balanced(l) && Balanced(r) && -1 <= Height(l) - Height(r) <= 1
    ensures Balanced(Node(l, k, v, r)) && Height(Node(l, k, v, r)) == 1 + Max(Height(l), Height(r))
  {
  }

  // ----- Loading it -----

  type Nodes<+V> = map<int, AvlNode<V>>

  /** `nodes` holds the nodes of `t`, linked by keys and, if `heights`, with the true heights. */
  ghost predicate Shaped<V>(t: Tree<V>, nodes: Nodes<V>, heights: bool) {
    match t
    case Nil => true
    case Node(l, k, v, r) =>
      && k in nodes && nodes[k].data == v && nodes[k].lKey == RootKey(l) && nodes[k].rKey == RootKey(r)
      && (heights ==> nodes[k].lHeight == Height(l) && nodes[k].rHeight == Height(r))
      && Shaped(l, nodes, heights) && Shaped(r, nodes, heights)
  }

  lemma {:induction false} ShapedFrame<V>(t: Tree<V>, nodes: Nodes<V>, nodes': Nodes<V>, heights: bool)
    requires Shaped(t, nodes, heights)
    requires forall k :: k in Keys(t) && k in nodes ==> k in nodes' && nodes'[k] == nodes[k]
    ensures Shaped(t, nodes', heights)
  {
    if t.Node? {
      ShapedFrame(t.left, nodes, nodes', heights);
      ShapedFrame(t.right, nodes, nodes', heights);
    }
  }

  lemma NothingShaped<V>(t: Tree<V>, nodes: Nodes<V>)
    requires t == Nil
    ensures Shaped(t, nodes, false) && Shaped(t, nodes, true) && Keys(t) == {}
  {
  }

  lemma ShapedNode<V>(t: Tree<V>, nodes: Nodes<V>, heights: bool)
    requires t.Node? && t.key in nodes && nodes[t.key].data == t.value
    requires nodes[t.key].lKey == RootKey(t.left) && nodes[t.key].rKey == RootKey(t.right)
    requires heights ==> nodes[t.key].lHeight == Height(t.left) && nodes[t.key].rHeight == Height(t.right)
    requires Shaped(t.left, nodes, heights) && Shaped(t.right, nodes, heights)
    ensures Shaped(t, nodes, heights)
  {
  }

  lemma ShapedParts<V>(t: Tree<V>, nodes: Nodes<V>)
    requires t.Node? && Shaped(t, nodes, false)
    ensures t.key in nodes && nodes[t.key].data == t.value
    ensures nodes[t.key].lKey == RootKey(t.left) && nodes[t.key].rKey == RootKey(t.right)
    ensures Shaped(t.left, nodes, false) && Shaped(t.right, nodes, false)
  {
  }

  method BuildBalanced<V>(sorted: Entries<V>, lo: int, hi: int, nodes: Nodes<V>) returns (root: int, nodes': Nodes<V>)
    requires 0 <= lo <= hi + 1 <= |sorted| && Ascending(sorted)
    ensures root == RootKey(Built(sorted, lo, hi)) && Shaped(Built(sorted, lo, hi), nodes', false)
    ensures nodes'.Keys == nodes.Keys + Keys(Built(sorted, lo, hi))
    ensures forall k :: k in nodes && k !in Keys(Built(sorted, lo, hi)) ==> nodes'[k] == nodes[k]
    decreases hi - lo + 1
  {
    hide Ordered, Keys, Shaped, Mid, Built;
    ghost var t := Built(sorted, lo, hi);
    BuiltParts(sorted, lo, hi);
    if lo > hi {
      NothingShaped(t, nodes);
      return INVALID_KEY, nodes;
    }
    var mid := Mid(lo, hi);
    var userKey := sorted[mid].0;
    var lKey, rKey;
    BuiltOrdered(sorted, lo, hi);
    OrderedNode(t);
    lKey, nodes' := BuildBalanced(sorted, lo, mid - 1, nodes);
    ghost var lefts := nodes';
    rKey, nodes' := BuildBalanced(sorted, mid + 1, hi, nodes');
    ghost var both := nodes';
    nodes' := nodes'[userKey := FreshNode(sorted[mid].1).(lKey := lKey, rKey := rKey)];
    ShapedFrame(t.left, lefts, nodes', false);
    ShapedFrame(t.right, both, nodes', false);
    ShapedNode(t, nodes', false);
    root := userKey;
  }

  method FixHeights<V>(key: int, nodes: Nodes<V>, ghost t: Tree<V>) returns (height: nat, nodes': Nodes<V>)
    requires Ordered(t) && Shaped(t, nodes, false) && key == RootKey(t) && forall k :: k in Keys(t) ==> k >= 0
    ensures height == Height(t) && Shaped(t, nodes', true) && nodes'.Keys == nodes.Keys
    ensures forall k :: k in nodes && k !in Keys(t) ==> nodes'[k] == nodes[k]
    decreases t
  {
    hide Ordered, Keys, Shaped;
    RootIsKey(t);
    if key == INVALID_KEY {
      NothingShaped(t, nodes);
      return 0, nodes;
    }
    OrderedNode(t);
    ShapedParts(t, nodes);
    var l, r;
    l, nodes' := FixHeights(nodes[key].lKey, nodes, t.left);
    ghost var lefts := nodes';
    nodes' := nodes'[key := nodes'[key].(lHeight := l)];
    ShapedFrame(t.right, nodes, nodes', false);
    ghost var linked := nodes';
    r, nodes' := FixHeights(nodes'[key].rKey, nodes', t.right);
    ghost var both := nodes';
    nodes' := nodes'[key := nodes'[key].(rHeight := r)];
    ShapedFrame(t.left, lefts, nodes', true);
    ShapedFrame(t.right, both, nodes', true);
    ShapedNode(t, nodes', true);
    height := nodes'[key].H();
  }

  /** `n` pointing at the leaves its children have been given. */
  function Pointed<V>(n: AvlNode<V>, leaves: map<int, nat>): AvlNode<V> {
    n.(lLeaf := if n.lKey != INVALID_KEY && n.lKey in leaves then leaves[n.lKey] else n.lLeaf,
       rLeaf := if n.rKey != INVALID_KEY && n.rKey in leaves then leaves[n.rKey] else n.rLeaf)
  }

  method PointAll<V>(nodes: Nodes<V>, leaves: map<int, nat>) returns (r: Nodes<V>)
    ensures r.Keys == nodes.Keys && forall k :: k in nodes ==> r[k] == Pointed(nodes[k], leaves)
  {
    r := nodes;
    var todo := nodes.Keys;
    while todo != {}
      invariant todo <= nodes.Keys && r.Keys == nodes.Keys
      invariant forall k :: k in nodes ==> r[k] == if k in todo then nodes[k] else Pointed(nodes[k], leaves)
      decreases todo
    {
      var k := Pick(todo);
      r := r[k := Pointed(r[k], leaves)];
      todo := todo - {k};
    }
  }

  /** Blocks made of shaped nodes with matching leaves represent the tree. */
  lemma {:induction false} ShapedStored<V>(t: Tree<V>, nodes: Nodes<V>, leaves: map<int, nat>, c: Cells<V>)
    requires Shaped(t, nodes, true) && forall k :: k in Keys(t) ==> k >= 0 && k in leaves
    requires forall k :: k in Keys(t) ==> k in nodes && k in c && c[k] == Block(k, leaves[k], Pointed(nodes[k], leaves))
    ensures Stored(t, c)
  {
    if t.Node? {
      ShapedStored(t.left, nodes, leaves, c);
      ShapedStored(t.right, nodes, leaves, c);
      RootIsKey(t.left);
      RootIsKey(t.right);
    }
  }

  /** The entries of a node table, in an arbitrary order. */
  method TableEntries<V>(nodes: map<int, V>) returns (all: Entries<V>)
    ensures Distinct(all)
    ensures forall i :: 0 <= i < |all| ==> all[i].0 in nodes && all[i].1 == nodes[all[i].0]
    ensures forall k :: k in nodes ==> exists i :: 0 <= i < |all| && all[i].0 == k
  {
    all := [];
    var todo := nodes.Keys;
    while todo != {}
      invariant Distinct(all) && todo <= nodes.Keys
      invariant forall i :: 0 <= i < |all| ==> all[i].0 in nodes && all[i].0 !in todo && all[i].1 == nodes[all[i].0]
      invariant forall k :: k in nodes && k !in todo ==> exists i :: 0 <= i < |all| && all[i].0 == k
      decreases todo
    {
      var k := Pick(todo);
      ghost var before := all;
      all := all + [(k, nodes[k])];
      todo := todo - {k};
      assert all[|before|].0 == k;
      forall k' | k' in nodes && k' !in todo ensures exists i :: 0 <= i < |all| && all[i].0 == k' {
        if k' != k {
          var i :| 0 <= i < |before| && before[i].0 == k';
          assert all[i].0 == k';
        }
      }
    }
  }
}
