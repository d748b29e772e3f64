/** The pointer surgery of a removal on the client's list (avl_omap `remove`): a node with at
    most one child is unlinked; a node with two children takes over its successor's entry and
    the successor is unlinked instead. */
module AvlUnlink {
  import opened Common
  import opened AvlTrees
  import opened AvlLocal

  /** The list is a root path: each node hangs below the previous one. */
  ghost predicate Chain<V>(s: Local<V>) {
    && (|s| > 0 ==> s[0].parentKey == INVALID_KEY)
    && (forall j :: 0 < j < |s| ==> s[j].parentKey == s[j - 1].key)
  }

  lemma ChainAt<V>(s: Local<V>, j: nat)
    requires Chain(s) && j < |s|
    ensures j == 0 ==> s[j].parentKey == INVALID_KEY
    ensures j > 0 ==> s[j].parentKey == s[j - 1].key
  {
  }

  /** In a chain, only the next node hangs below a given one. */
  lemma ChainParent<V>(s: Local<V>, i: nat, j: nat)
    requires Unique(s) && Chain(s) && i < |s| && j < |s|
    ensures s[j].parentKey == s[i].key <==> j == i + 1
  {
    ChainAt(s, j);
  }

  function OnlyChildKey<V>(n: AvlNode<V>): int {
    if n.lKey != INVALID_KEY then n.lKey else n.rKey
  }

  function OnlyChildLeaf<V>(n: AvlNode<V>): int {
    if n.lKey != INVALID_KEY then n.lLeaf else n.rLeaf
  }

  function OnlyChildHeight<V>(n: AvlNode<V>): int {
    if OnlyChildKey(n) == INVALID_KEY then 0 else if n.lKey != INVALID_KEY then n.lHeight else n.rHeight
  }

  /** The path without its last node, whose only child takes its place. */
  ghost function DropLast<V>(s: Local<V>): Local<V>
    requires |s| > 0
  {
    var k := |s| - 1;
    var n := s[k].avl;
    if k == 0 then []
    else s[..k - 1] + [Repoint(s[k - 1], s[k].key, OnlyChildKey(n), OnlyChildLeaf(n), OnlyChildHeight(n))]
  }

  /** `n` with its pointer to `was` carrying the key `now`. */
  function RenameChild<V>(n: LocalNode<V>, was: int, now: int): LocalNode<V> {
    if n.avl.lKey == was then n.(avl := n.avl.(lKey := now))
    else if n.avl.rKey == was then n.(avl := n.avl.(rKey := now))
    else n
  }

  /** The path after the node at `i` has taken over the entry (`key`, `data`). */
  ghost predicate RenamedAt<V>(s: Local<V>, i: nat, key: int, data: V, r: Local<V>)
    requires i < |s|
  {
    && |r| == |s|
    && r[i] == s[i].(key := key, avl := s[i].avl.(data := data))
    && (i > 0 ==> r[i - 1] == RenameChild(s[i - 1], s[i].key, key))
    && (i + 1 < |s| ==> r[i + 1] == s[i + 1].(parentKey := key))
    && (forall j :: 0 <= j < |s| && j != i - 1 && j != i && j != i + 1 ==> r[j] == s[j])
  }

  /** Replaces every parent key `was` by `now`. */
  method RenameParents<V>(s: Local<V>, was: int, now: int) returns (r: Local<V>)
    ensures |r| == |s|
    ensures forall j :: 0 <= j < |s| ==> r[j] == if s[j].parentKey == was then s[j].(parentKey := now) else s[j]
  {
    r := s;
    for i := 0 to |s|
      invariant |r| == |s|
      invariant forall j :: 0 <= j < |s| ==>
                  r[j] == if j < i && s[j].parentKey == was then s[j].(parentKey := now) else s[j]
    {
      if r[i].parentKey == was {
        r := r[i := r[i].(parentKey := now)];
      }
    }
  }

  /** Every node's children differ, and each path node points at the next. */
  ghost predicate Linked<V>(s: Local<V>) {
    && Unique(s) && Chain(s)
    && (forall j :: 0 <= j < |s| - 1 ==> s[j].avl.lKey == s[j + 1].key || s[j].avl.rKey == s[j + 1].key)
  }

  /** The target takes over the entry of the last node, its successor. */
  method TakeSuccessor<V>(s: Local<V>, rootKey: int, target: nat) returns (r: Local<V>, rootKey': int)
    requires Linked(s) && target < |s| - 1 && rootKey == s[0].key
    ensures RenamedAt(s, target, s[|s| - 1].key, s[|s| - 1].avl.data, r)
    ensures rootKey' == if target == 0 then s[|s| - 1].key else rootKey
  {
    var succKey, succData := s[|s| - 1].key, s[|s| - 1].avl.data;
    var oldKey, par := s[target].key, s[target].parentKey;
    ChainAt(s, target);
    r := s[target := s[target].(key := succKey, avl := s[target].avl.(data := succData))];
    if par != INVALID_KEY {
      assert r[target - 1].key == par;
      var p := IndexOf(r, par);
      assert p == target - 1;
      r := r[p := RenameChild(r[p], oldKey, succKey)];
    }
    rootKey' := if rootKey == oldKey then succKey else rootKey;
    ghost var q := r;
    r := RenameParents(r, oldKey, succKey);
    forall j | 0 <= j < |s| ensures q[j].parentKey == s[j].parentKey && (s[j].parentKey == oldKey <==> j == target + 1) {
      ChainParent(s, target, j);
    }
  }

  /** Unlinks the last node of the path in favour of its only child, if any. */
  method UnlinkLast<V>(s: Local<V>, rootKey: int, rootLeaf: int) returns (r: Local<V>, rootKey': int, rootLeaf': int)
    requires |s| > 0
    requires |s| > 1 ==> s[|s| - 1].parentKey == s[|s| - 2].key != INVALID_KEY
    requires |s| == 1 ==> s[0].parentKey == INVALID_KEY
    requires forall j :: 0 <= j < |s| - 2 ==> s[j].key != s[|s| - 2].key
    ensures r == DropLast(s)
    ensures |s| > 1 ==> rootKey' == rootKey && rootLeaf' == rootLeaf
    ensures |s| == 1 ==> rootKey' == OnlyChildKey(s[0].avl)
    ensures |s| == 1 ==> rootLeaf' == if rootKey' == INVALID_KEY then INVALID_LEAF else OnlyChildLeaf(s[0].avl)
  {
    r, rootKey', rootLeaf' := s, rootKey, rootLeaf;
    var at := |s| - 1;
    var node := s[at];
    var childKey, childLeaf, childHeight := OnlyChildKey(node.avl), OnlyChildLeaf(node.avl), OnlyChildHeight(node.avl);
    if node.parentKey != INVALID_KEY {
      var p := IndexOf(s, node.parentKey);
      assert s[at - 1].key == node.parentKey;
      r := s[p := Repoint(s[p], node.key, childKey, childLeaf, childHeight)];
    } else {
      rootKey' := childKey;
      rootLeaf' := if childKey != INVALID_KEY then childLeaf else INVALID_LEAF;
    }
    r := r[..at] + r[at + 1..];
  }

  /** Taking over the successor's entry and unlinking the successor commute. */
  lemma RenameThenDrop<V>(s: Local<V>, target: nat, key: int, data: V, q: Local<V>)
    requires target < |s| - 1 && s[|s| - 1].key == key && RenamedAt(s, target, key, data, q)
    ensures RenamedAt(DropLast(s), target, key, data, DropLast(q))
  {
    var k := |s| - 1;
    assert q[k].key == key && q[k].avl == s[k].avl;
    var d, e := DropLast(s), DropLast(q);
    forall j | 0 <= j < k && j != target - 1 && j != target && j != target + 1 ensures e[j] == d[j] {
    }
  }

  /** Deletes the target of a removal from the path. It is the last node if it has at most one
      child; otherwise its successor is last, and the target takes over the successor's entry. */
  method DeleteTarget<V>(s: Local<V>, rootKey: int, rootLeaf: int, target: nat, twoChild: bool)
    returns (r: Local<V>, rootKey': int, rootLeaf': int)
    requires Linked(s) && target < |s| && rootKey == s[0].key
    requires if twoChild then target < |s| - 1 else target == |s| - 1
    ensures !twoChild ==> r == DropLast(s)
    ensures !twoChild && target > 0 ==> rootKey' == rootKey && rootLeaf' == rootLeaf
    ensures !twoChild && target == 0 ==> rootKey' == OnlyChildKey(s[0].avl)
    ensures !twoChild && target == 0 ==>
              rootLeaf' == if rootKey' == INVALID_KEY then INVALID_LEAF else OnlyChildLeaf(s[0].avl)
    ensures twoChild ==> |DropLast(s)| == |s| - 1
    ensures twoChild ==> RenamedAt(DropLast(s), target, s[|s| - 1].key, s[|s| - 1].avl.data, r)
    ensures twoChild ==> rootLeaf' == rootLeaf && rootKey' == if target == 0 then s[|s| - 1].key else rootKey
  {
    r, rootKey', rootLeaf' := s, rootKey, rootLeaf;
    ChainAt(s, |s| - 1);
    if twoChild {
      r, rootKey' := TakeSuccessor(r, rootKey', target);
      RenameThenDrop(s, target, s[|s| - 1].key, s[|s| - 1].avl.data, r);
    }
    r, rootKey', rootLeaf' := UnlinkLast(r, rootKey', rootLeaf');
  }
}
