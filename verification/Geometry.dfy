/** Heap-index geometry of the bucket tree (binary_tree_storage). */
module Geometry {

  function Pow2(n: nat): (r: nat)
    ensures r >= 1
  {
    if n == 0 then 1 else 2 * Pow2(n - 1)
  }

  /** Least e with n <= 2^e; 0 for n <= 1. */
  function CeilLog2(n: int): nat
    decreases n
  {
    if n <= 1 then 0 else 1 + CeilLog2((n + 1) / 2)
  }

  function Parent(node: nat): nat
    requires node > 0
  {
    (node - 1) / 2
  }

  /** The nodes visited when walking from `node` up to the root. */
  function Ancestors(node: nat): (s: set<nat>)
    ensures node in s && 0 in s
    ensures forall m :: m in s ==> m <= node
  {
    if node == 0 then {0} else {node} + Ancestors(Parent(node))
  }

  /** `node` is on the root path of leaf `leaf`, in a tree with `range` leaves. */
  predicate OnPath(range: nat, leaf: nat, node: nat)
    requires range > 0
  {
    node in Ancestors(range - 1 + leaf)
  }

  /** Union of the root paths of all `leaves`. */
  function PathNodes(range: nat, leaves: seq<nat>): set<nat>
    requires range > 0
  {
    if leaves == [] then {}
    else PathNodes(range, leaves[..|leaves| - 1]) + Ancestors(range - 1 + leaves[|leaves| - 1])
  }

  lemma {:induction false} PathNodesMember(range: nat, leaves: seq<nat>, node: nat)
    requires range > 0
    ensures node in PathNodes(range, leaves) <==> exists i :: 0 <= i < |leaves| && OnPath(range, leaves[i], node)
  {
    if leaves != [] {
      var init := leaves[..|leaves| - 1];
      PathNodesMember(range, init, node);
      assert forall i :: 0 <= i < |init| ==> init[i] == leaves[i];
    }
  }

  lemma PathNodesStep(range: nat, leaves: seq<nat>, i: nat)
    requires range > 0 && i < |leaves|
    ensures PathNodes(range, leaves[..i + 1]) == PathNodes(range, leaves[..i]) + Ancestors(range - 1 + leaves[i])
  {
    assert leaves[..i + 1][..i] == leaves[..i];
  }

  lemma {:induction false} CeilLog2IsLeast(n: int)
    ensures n <= Pow2(CeilLog2(n))
    ensures CeilLog2(n) > 0 ==> Pow2(CeilLog2(n) - 1) < n
  {
    if n > 1 {
      CeilLog2IsLeast((n + 1) / 2);
    }
  }

  /** The node reached after `d` steps towards the root, staying at the root. */
  function Up(node: nat, d: nat): nat
  {
    if d == 0 then node else if node == 0 then 0 else Up(Parent(node), d - 1)
  }

  /** The nodes reached in fewer than `n` steps. */
  ghost function UpSet(node: nat, n: nat): set<nat> {
    set d | 0 <= d < n :: Up(node, d)
  }

  lemma {:induction false} UpStep(node: nat, d: nat)
    ensures Up(node, d + 1) == if Up(node, d) == 0 then 0 else Parent(Up(node, d))
  {
    if d > 0 && node > 0 {
      UpStep(Parent(node), d - 1);
    }
  }

  /** A leaf node of a tree with `level` levels reaches the root in level - 1 steps, and
      its ancestors are exactly the nodes on the way. */
  lemma {:induction false} UpReachesRoot(level: nat, node: nat)
    requires level > 0 && Pow2(level - 1) - 1 <= node < Pow2(level) - 1
    ensures Up(node, level - 1) == 0
    ensures Ancestors(node) == UpSet(node, level)
    ensures forall d, e :: 0 <= d < e < level ==> Up(node, d) != Up(node, e)
  {
    if level > 1 {
      var p := Parent(node);
      UpReachesRoot(level - 1, p);
      var whole := UpSet(node, level);
      var above := UpSet(p, level - 1);
      forall m | m in whole ensures m in {node} + above {
        var d :| 0 <= d < level && m == Up(node, d);
        if d > 0 { assert Up(p, d - 1) == m; }
      }
      forall m | m in {node} + above ensures m in whole {
        if m == node { assert Up(node, 0) == m; }
        else { var d :| 0 <= d < level - 1 && m == Up(p, d); assert Up(node, d + 1) == m; }
      }
      forall d, e | 0 <= d < e < level ensures Up(node, d) != Up(node, e) {
        if d == 0 {
          assert Up(node, e) == Up(p, e - 1) && Up(p, e - 1) in above;
        } else {
          assert Up(node, d) == Up(p, d - 1) && Up(node, e) == Up(p, e - 1);
        }
      }
    } else {
      assert node == 0;
      assert UpSet(node, level) == {0} by { assert Up(0, 0) == 0; }
    }
  }

  /** Every ancestor of a leaf node is a valid node index. */
  lemma LeafNodeInTree(level: nat, leaf: nat)
    requires level > 0 && leaf < Pow2(level - 1)
    ensures Pow2(level - 1) - 1 <= Pow2(level - 1) - 1 + leaf < Pow2(level) - 1
  {
  }
}
