/** Loading many AVL trees into one ORAM (da_ost_omap `do_avl_init`). */
module Groves {
  import opened Common
  import opened StashTrees
  import opened AvlTrees
  import opened AvlLocal
  import opened AvlRep
  import opened AvlInit
  import opened AvlOmaps
  import opened AvlSteps

  /** The entries hashed to position `p`, in order. */
  function Hashed<V>(data: Entries<V>, pos: int -> nat, p: nat): Entries<V> {
    if data == [] then []
    else
      var n := |data| - 1;
      Hashed(data[..n], pos, p) + (if pos(data[n].0) == p then [data[n]] else [])
  }

  lemma {:induction false} HashedMember<V>(data: Entries<V>, pos: int -> nat, p: nat, e: (int, V))
    ensures e in Hashed(data, pos, p) <==> e in data && pos(e.0) == p
  {
    if data != [] {
      var n := |data| - 1;
      assert data == data[..n] + [data[n]];
      HashedMember(data[..n], pos, p, e);
    }
  }

  lemma {:induction false} HashedDistinct<V>(data: Entries<V>, pos: int -> nat, p: nat)
    requires Distinct(data)
    ensures Distinct(Hashed(data, pos, p))
  {
    if data != [] {
      var n := |data| - 1;
      HashedDistinct(data[..n], pos, p);
      var rest := Hashed(data[..n], pos, p);
      forall i | 0 <= i < |rest| ensures rest[i].0 != data[n].0 {
        HashedMember(data[..n], pos, p, rest[i]);
        assert rest[i] in data[..n];
      }
    }
  }

  method Select<V>(data: Entries<V>, pos: int -> nat, p: nat) returns (items: Entries<V>)
    ensures items == Hashed(data, pos, p)
  {
    items := [];
    for i := 0 to |data|
      invariant items == Hashed(data[..i], pos, p)
    {
      assert data[..i + 1][..i] == data[..i];
      if pos(data[i].0) == p {
        items := items + [data[i]];
      }
    }
    assert data[..|data|] == data;
  }

  /** The trees hold the nodes, each at the position of its keys; the first `done` trees have
      their heights. */
  ghost predicate Grove<V>(ts: seq<Tree<V>>, nodes: Nodes<V>, pos: int -> nat, done: nat) {
    && (forall q :: 0 <= q < |ts| ==> TreeAt(ts[q], pos, q) && Shaped(ts[q], nodes, q < done))
    && (forall k :: k in nodes ==> pos(k) < |ts| && k in Keys(ts[pos(k)]))
  }

  ghost predicate TreeAt<V>(t: Tree<V>, pos: int -> nat, q: nat) {
    Avl(t) && forall k :: k in Keys(t) ==> k >= 0 && pos(k) == q
  }

  lemma GroveStep<V>(ts: seq<Tree<V>>, nodes: Nodes<V>, nodes': Nodes<V>, pos: int -> nat, t: Tree<V>)
    requires Grove(ts, nodes, pos, 0) && TreeAt(t, pos, |ts|) && Shaped(t, nodes', false)
    requires nodes'.Keys == nodes.Keys + Keys(t)
    requires forall k :: k in nodes && k !in Keys(t) ==> nodes'[k] == nodes[k]
    ensures Grove(ts + [t], nodes', pos, 0)
  {
    hide Shaped, Keys, Ordered, Balanced;
    var r := ts + [t];
    forall q | 0 <= q < |r| ensures TreeAt(r[q], pos, q) && Shaped(r[q], nodes', q < 0) {
      if q < |ts| {
        assert TreeAt(ts[q], pos, q);
        ShapedFrame(ts[q], nodes, nodes', false);
      }
    }
    forall k | k in nodes' ensures pos(k) < |r| && k in Keys(r[pos(k)]) {
      assert k in nodes || k in Keys(t);
    }
  }

  lemma GroveFix<V>(ts: seq<Tree<V>>, nodes: Nodes<V>, nodes': Nodes<V>, pos: int -> nat, d: nat)
    requires Grove(ts, nodes, pos, d) && d < |ts| && Shaped(ts[d], nodes', true) && nodes'.Keys == nodes.Keys
    requires forall k :: k in nodes && k !in Keys(ts[d]) ==> nodes'[k] == nodes[k]
    ensures Grove(ts, nodes', pos, d + 1)
  {
    hide Shaped, Keys, Ordered, Balanced;
    forall q | 0 <= q < |ts| ensures TreeAt(ts[q], pos, q) && Shaped(ts[q], nodes', q < d + 1) {
      if q != d {
        assert TreeAt(ts[q], pos, q) && TreeAt(ts[d], pos, d);
        ShapedFrame(ts[q], nodes, nodes', q < d);
      }
    }
  }

  /** Builds the tree of every position. */
  method Grow<V>(data: Entries<V>, pos: int -> nat, n: nat) returns (roots: seq<int>, nodes: Nodes<V>, ghost ts: seq<Tree<V>>)
    requires Distinct(data) && forall i :: 0 <= i < |data| ==> data[i].0 >= 0
    ensures |ts| == |roots| == n && Grove(ts, nodes, pos, 0)
    ensures forall q :: 0 <= q < n ==> roots[q] == RootKey(ts[q]) && HoldsHashed(ts[q], data, pos, q)
  {
    hide Grove, Ordered, Balanced, Keys, Shaped, Contents, Built, HoldsHashed;
    roots, nodes, ts := [], map[], [];
    EmptyGrove<V>(pos);
    for p := 0 to n
      invariant |ts| == |roots| == p && Grove(ts, nodes, pos, 0)
      invariant forall q :: 0 <= q < p ==> roots[q] == RootKey(ts[q]) && HoldsHashed(ts[q], data, pos, q)
    {
      var items := Select(data, pos, p);
      HashedDistinct(data, pos, p);
      forall i | 0 <= i < |items| ensures items[i].0 >= 0 && pos(items[i].0) == p {
        HashedMember(data, pos, p, items[i]);
        assert items[i] in data;
      }
      var sorted := SortByKey(items);
      ghost var t := Built(sorted, 0, |sorted| - 1);
      BuiltFits(items, sorted);
      HashedTree(items, t, pos, p);
      IsHashedTree(t, data, pos, p);
      ghost var was := nodes;
      var root;
      root, nodes := BuildBalanced(sorted, 0, |sorted| - 1, nodes);
      GroveStep(ts, was, nodes, pos, t);
      roots, ts := roots + [root], ts + [t];
    }
  }

  lemma EmptyGrove<V>(pos: int -> nat)
    ensures Grove<V>([], map[], pos, 0)
  {
  }

  lemma HashedTree<V>(items: Entries<V>, t: Tree<V>, pos: int -> nat, p: nat)
    requires Distinct(items) && Contents(t) == Assoc(items) && Avl(t)
    requires forall i :: 0 <= i < |items| ==> items[i].0 >= 0 && pos(items[i].0) == p
    ensures TreeAt(t, pos, p)
  {
    ContentsKeys(t);
  }

  /** The tree holds the entries hashed to `q`. */
  ghost predicate HoldsHashed<V>(t: Tree<V>, data: Entries<V>, pos: int -> nat, q: nat) {
    && Distinct(Hashed(data, pos, q)) && Contents(t) == Assoc(Hashed(data, pos, q)) && Size(t) == |Hashed(data, pos, q)|
  }

  lemma IsHashedTree<V>(t: Tree<V>, data: Entries<V>, pos: int -> nat, q: nat)
    requires Distinct(Hashed(data, pos, q)) && Contents(t) == Assoc(Hashed(data, pos, q)) && Size(t) == |Hashed(data, pos, q)|
    ensures HoldsHashed(t, data, pos, q)
  {
  }

  method FixAll<V>(roots: seq<int>, nodes: Nodes<V>, pos: int -> nat, ghost ts: seq<Tree<V>>) returns (nodes': Nodes<V>)
    requires |roots| == |ts| && Grove(ts, nodes, pos, 0) && forall q :: 0 <= q < |ts| ==> roots[q] == RootKey(ts[q])
    ensures Grove(ts, nodes', pos, |ts|)
  {
    hide Ordered, Balanced, Keys, Shaped, Contents, Grove;
    nodes' := nodes;
    for q := 0 to |roots|
      invariant Grove(ts, nodes', pos, q)
    {
      GroveTree(ts, nodes', pos, q, q);
      ghost var was := nodes';
      var height;
      height, nodes' := FixHeights(roots[q], nodes', ts[q]);
      GroveFix(ts, was, nodes', pos, q);
    }
  }

  lemma GroveTree<V>(ts: seq<Tree<V>>, nodes: Nodes<V>, pos: int -> nat, d: nat, q: nat)
    requires Grove(ts, nodes, pos, d) && q < |ts|
    ensures TreeAt(ts[q], pos, q) && Ordered(ts[q]) && Shaped(ts[q], nodes, q < d)
    ensures forall k :: k in Keys(ts[q]) ==> k >= 0
  {
  }

  lemma {:induction false} ShapedKeys<V>(t: Tree<V>, nodes: Nodes<V>, heights: bool)
    requires Shaped(t, nodes, heights)
    ensures forall k :: k in Keys(t) ==> k in nodes
  {
    if t.Node? {
      ShapedKeys(t.left, nodes, heights);
      ShapedKeys(t.right, nodes, heights);
    }
  }

  /** The blocks made of a finished grove represent every tree in it. */
  lemma GroveStored<V>(ts: seq<Tree<V>>, nodes: Nodes<V>, leaves: map<int, nat>, c: Cells<V>, pos: int -> nat, q: nat)
    requires Grove(ts, nodes, pos, |ts|) && leaves.Keys == nodes.Keys && q < |ts|
    requires forall k :: k in nodes ==> k in c && c[k] == Block(k, leaves[k], Pointed(nodes[k], leaves))
    ensures Stored(ts[q], c) && Avl(ts[q]) && forall k :: k in Keys(ts[q]) ==> k >= 0 && pos(k) == q && k in leaves
  {
    hide Ordered, Balanced, Keys, Shaped, Grove;
    GroveTree(ts, nodes, pos, |ts|, q);
    ShapedKeys(ts[q], nodes, true);
    ShapedStored(ts[q], nodes, leaves, c);
  }

  /** Together the trees hold the data. */
  lemma GroveData<V>(ts: seq<Tree<V>>, data: Entries<V>, pos: int -> nat, k: int)
    requires Distinct(data) && pos(k) < |ts| && HoldsHashed(ts[pos(k)], data, pos, pos(k))
    ensures k in Contents(ts[pos(k)]) <==> k in Assoc(data)
    ensures k in Assoc(data) ==> Contents(ts[pos(k)])[k] == Assoc(data)[k]
  {
    hide Contents;
    var part := Hashed(data, pos, pos(k));
    if k in Assoc(part) {
      var i := AssocIndex(part, k);
      HashedMember(data, pos, pos(k), part[i]);
      assert part[i] in data;
      var j :| 0 <= j < |data| && data[j] == part[i];
    }
    if k in Assoc(data) {
      var j := AssocIndex(data, k);
      HashedMember(data, pos, pos(k), data[j]);
      assert data[j] in part;
      var i :| 0 <= i < |part| && part[i] == data[j];
      AssocEntry(part, i);
    }
  }
}
