/** Bucket tree plus client stash: the part of Path ORAM shared by the position-mapped
    ORAM, by every level of the counter-based ORAM, and by the AVL map
    (binary_tree_storage, and the read / extract / evict primitives of path_oram). */
module StashTrees {
  import opened Common
  import opened Geometry

  datatype Block<+V> = Block(key: int, leaf: nat, value: V)

  type Bucket<+V> = seq<Block<V>>

  // ----- Multisets of blocks held by buckets -----

  /** All blocks in the first `n` buckets, skipping the nodes in `skip`. */
  ghost function TreeSum<V>(tree: seq<Bucket<V>>, skip: set<nat>, n: nat): multiset<Block<V>>
    requires n <= |tree|
  {
    if n == 0 then multiset{}
    else TreeSum(tree, skip, n - 1) + (if n - 1 in skip then multiset{} else multiset(tree[n - 1]))
  }

  /** All blocks in the buckets of `path` with index below `n`. */
  ghost function PathSum<V>(path: map<nat, Bucket<V>>, n: nat): multiset<Block<V>>
  {
    if n == 0 then multiset{}
    else PathSum(path, n - 1) + (if n - 1 in path then multiset(path[n - 1]) else multiset{})
  }

  function Restrict<V>(tree: seq<Bucket<V>>, nodes: set<nat>): map<nat, Bucket<V>>
    requires forall i :: i in nodes ==> i < |tree|
  {
    map i | i in nodes :: tree[i]
  }

  /** `after` is `tree` with the buckets of `path` written over it. */
  ghost predicate Written<V>(tree: seq<Bucket<V>>, path: map<nat, Bucket<V>>, after: seq<Bucket<V>>)
  {
    && |after| == |tree|
    && forall i :: 0 <= i < |tree| ==> after[i] == if i in path then path[i] else tree[i]
  }

  lemma {:induction false} TreeSumMember<V>(tree: seq<Bucket<V>>, skip: set<nat>, n: nat, b: Block<V>)
    requires n <= |tree|
    ensures b in TreeSum(tree, skip, n) <==> exists i :: 0 <= i < n && i !in skip && b in tree[i]
  {
    if n > 0 {
      TreeSumMember(tree, skip, n - 1, b);
    }
  }

  /** Reading: the blocks of the tree are those on the path and those off it. */
  lemma {:induction false} ReadSplits<V>(tree: seq<Bucket<V>>, nodes: set<nat>, n: nat)
    requires n <= |tree| && forall i :: i in nodes ==> i < |tree|
    ensures TreeSum(tree, {}, n) == TreeSum(tree, nodes, n) + PathSum(Restrict(tree, nodes), n)
  {
    if n > 0 {
      ReadSplits(tree, nodes, n - 1);
    }
  }

  /** Writing: the written path replaces exactly the blocks on the path. */
  lemma {:induction false} WriteJoins<V>(tree: seq<Bucket<V>>, path: map<nat, Bucket<V>>,
                                         after: seq<Bucket<V>>, n: nat)
    requires n <= |tree| && Written(tree, path, after)
    ensures TreeSum(after, {}, n) == TreeSum(tree, path.Keys, n) + PathSum(path, n)
  {
    if n > 0 {
      WriteJoins(tree, path, after, n - 1);
    }
  }

  lemma {:induction false} PathSumPut<V>(path: map<nat, Bucket<V>>, node: nat, bucket: Bucket<V>, n: nat)
    ensures node < n && node !in path ==>
              PathSum(path[node := bucket], n) == PathSum(path, n) + multiset(bucket)
    ensures n <= node ==> PathSum(path[node := bucket], n) == PathSum(path, n)
  {
    if n > 0 {
      PathSumPut(path, node, bucket, n - 1);
    }
  }

  lemma {:induction false} PathSumPush<V>(path: map<nat, Bucket<V>>, node: nat, b: Block<V>, n: nat)
    requires node in path
    ensures node < n ==>
              PathSum(path[node := path[node] + [b]], n) == PathSum(path, n) + multiset{b}
    ensures n <= node ==> PathSum(path[node := path[node] + [b]], n) == PathSum(path, n)
  {
    if n > 0 {
      PathSumPush(path, node, b, n - 1);
    }
  }

  lemma {:induction false} PathSumEmpty<V>(path: map<nat, Bucket<V>>, n: nat)
    requires forall i :: i in path ==> path[i] == []
    ensures PathSum(path, n) == multiset{}
  {
    if n > 0 {
      PathSumEmpty(path, n - 1);
    }
  }

  lemma {:induction false} AncestorsCompose(node: nat, leafNode: nat)
    requires node in Ancestors(leafNode)
    ensures Ancestors(node) <= Ancestors(leafNode)
    ensures forall m :: m in Ancestors(leafNode) && m !in Ancestors(node) ==> m > node
  {
    if node != leafNode {
      AncestorsCompose(node, Parent(leafNode));
    }
  }

  // ----- Contents -----

  ghost predicate Keyed<V>(c: map<int, Block<V>>) {
    forall k :: k in c ==> c[k].key == k
  }

  /** Each block of `c`, exactly once. */
  ghost function Bag<V>(c: map<int, Block<V>>): multiset<Block<V>> {
    multiset(set k | k in c :: c[k])
  }

  lemma BagMember<V>(c: map<int, Block<V>>, b: Block<V>)
    requires Keyed(c)
    ensures b in Bag(c) <==> b.key in c && c[b.key] == b
    ensures Bag(c)[b] <= 1
  {
  }

  lemma BagAdd<V>(c: map<int, Block<V>>, b: Block<V>)
    requires Keyed(c) && b.key !in c
    ensures Keyed(c[b.key := b])
    ensures Bag(c[b.key := b]) == Bag(c) + multiset{b}
  {
    var d := c[b.key := b];
    var s := set k | k in c :: c[k];
    var t := set k | k in d :: d[k];
    assert t == s + {b} by {
      assert d[b.key] == b;
      forall x | x in s ensures x in t {
        assert x.key in c && d[x.key] == x;
      }
    }
    assert b !in s;
  }

  lemma BagRemove<V>(c: map<int, Block<V>>, key: int)
    requires Keyed(c) && key in c
    ensures Keyed(c - {key})
    ensures Bag(c) == Bag(c - {key}) + multiset{c[key]}
  {
    BagAdd(c - {key}, c[key]);
    assert (c - {key})[key := c[key]] == c;
  }

  // ----- Filling one block into a fetched path -----

  /** Indices of `s` below `n`, deepest first (larger heap indices are at least as deep). */
  function Descending(s: set<nat>, n: nat): (r: seq<nat>)
    ensures forall m :: m in r <==> m in s && m < n
    ensures forall i :: 0 <= i < |r| ==> r[i] < n
    ensures forall i, j :: 0 <= i < j < |r| ==> r[i] > r[j]
  {
    if n == 0 then [] else
      var rest := Descending(s, n - 1);
      if n - 1 in s then [n - 1] + rest else rest
  }

  method IsAncestor(node: nat, target: nat) returns (found: bool)
    ensures found <==> node in Ancestors(target)
  {
    var cur := target;
    while true
      invariant node in Ancestors(cur) <==> node in Ancestors(target)
      decreases cur
    {
      if cur == node { return true; }
      if cur == 0 { return false; }
      cur := Parent(cur);
    }
  }

  method AddPath(nodes: set<nat>, leafNode: nat) returns (r: set<nat>)
    ensures r == nodes + Ancestors(leafNode)
  {
    r := nodes;
    var node := leafNode;
    while true
      invariant r + Ancestors(node) == nodes + Ancestors(leafNode)
      decreases node
    {
      r := r + {node};
      if node == 0 { break; }
      node := Parent(node);
    }
  }

  method MergedPathIndices(range: nat, leaves: seq<nat>) returns (nodes: set<nat>)
    requires range > 0
    ensures nodes == PathNodes(range, leaves)
  {
    nodes := {};
    for i := 0 to |leaves|
      invariant nodes == PathNodes(range, leaves[..i])
    {
      PathNodesStep(range, leaves, i);
      nodes := AddPath(nodes, range - 1 + leaves[i]);
    }
    assert leaves[..|leaves|] == leaves;
  }

  /** A block with leaf `leaf` may still go to `node` of `path`. */
  predicate Eligible<V>(path: map<nat, Bucket<V>>, range: nat, bucketSize: nat, leaf: nat, node: nat)
    requires range > 0
  {
    node in path && |path[node]| < bucketSize && OnPath(range, leaf, node)
  }

  /** `node` is the deepest bucket of `path` that can still take a block with leaf `leaf`. */
  ghost predicate Deepest<V>(path: map<nat, Bucket<V>>, range: nat, bucketSize: nat, leaf: nat, node: nat)
    requires range > 0
  {
    && Eligible(path, range, bucketSize, leaf, node)
    && forall m: nat :: Eligible(path, range, bucketSize, leaf, m) ==> m <= node
  }

  /** Sending `block` to the deepest bucket of `path` with room gives `after`. */
  ghost predicate PutDeepest<V>(path: map<nat, Bucket<V>>, range: nat, bucketSize: nat, block: Block<V>,
                                after: map<nat, Bucket<V>>, node: nat)
    requires range > 0
  {
    Deepest(path, range, bucketSize, block.leaf, node) && after == path[node := path[node] + [block]]
  }

  method FillBlockToPath<V>(block: Block<V>, path: map<nat, Bucket<V>>, range: nat, bucketSize: nat,
                            bound: nat)
    returns (inserted: bool, after: map<nat, Bucket<V>>)
    requires range > 0 && forall n :: n in path ==> n < bound
    ensures inserted ==> exists n: nat :: PutDeepest(path, range, bucketSize, block, after, n)
    ensures !inserted ==> after == path && forall n: nat :: !Eligible(path, range, bucketSize, block.leaf, n)
  {
    hide Ancestors, Descending;
    var sorted := Descending(path.Keys, bound);
    after := path;
    for i := 0 to |sorted|
      invariant after == path
      invariant forall j :: 0 <= j < i ==> !Eligible(path, range, bucketSize, block.leaf, sorted[j])
    {
      var node := sorted[i];
      assert node in sorted;
      if |path[node]| < bucketSize {
        var up := IsAncestor(node, range - 1 + block.leaf);
        if up {
          after := path[node := path[node] + [block]];
          forall m: nat | Eligible(path, range, bucketSize, block.leaf, m) ensures m <= node {
            assert m in sorted;
          }
          assert PutDeepest(path, range, bucketSize, block, after, node);
          return true, after;
        }
      }
    }
    inserted := false;
    forall n: nat ensures !Eligible(path, range, bucketSize, block.leaf, n) {
      if n in path { assert n in sorted; }
    }
  }

  /** Buckets outside `skip` respect the capacity and hold only blocks of their subtree. */
  ghost predicate Placed<V>(tree: seq<Bucket<V>>, skip: set<nat>, range: nat, bucketSize: nat)
    requires range > 0
  {
    && (forall i :: 0 <= i < |tree| && i !in skip ==> |tree[i]| <= bucketSize)
    && (forall i, b :: 0 <= i < |tree| && i !in skip && b in tree[i] ==> OnPath(range, b.leaf, i))
  }

  /** Greedy maximality on the buckets at `nodes`: no block there fits deeper, and no stashed
      block fits at all. */
  ghost predicate Maximal<V>(tree: seq<Bucket<V>>, nodes: set<nat>, stash: seq<Block<V>>,
                             range: nat, bucketSize: nat)
    requires range > 0 && forall n :: n in nodes ==> n < |tree|
  {
    && (forall n, m, b :: n in nodes && m in nodes && m > n && b in tree[n] && OnPath(range, b.leaf, m) ==>
          |tree[m]| == bucketSize)
    && (forall b, n :: b in stash && n in nodes && OnPath(range, b.leaf, n) ==> |tree[n]| == bucketSize)
  }

  lemma WritePlaced<V>(tree: seq<Bucket<V>>, path: map<nat, Bucket<V>>, after: seq<Bucket<V>>,
                       stash: seq<Block<V>>, range: nat, bucketSize: nat)
    requires range > 0 && Placed(tree, path.Keys, range, bucketSize)
    requires PathPlaced(path, range, bucketSize) && Written(tree, path, after)
    requires forall n :: n in path ==> n < |tree|
    requires NoRoom(path, stash, range, bucketSize)
    ensures SameOutside(tree, after, path.Keys)
    ensures Placed(after, {}, range, bucketSize)
    ensures Maximal(after, path.Keys, stash, range, bucketSize)
  {
  }

  lemma PutPlaced<V>(tree: seq<Bucket<V>>, range: nat, bucketSize: nat, node: nat, block: Block<V>)
    requires range > 0 && Placed(tree, {}, range, bucketSize)
    requires node < |tree| && |tree[node]| < bucketSize && OnPath(range, block.leaf, node)
    ensures Placed(tree[node := tree[node] + [block]], {}, range, bucketSize)
  {
  }

  ghost predicate SameOutside<V>(tree: seq<Bucket<V>>, after: seq<Bucket<V>>, nodes: set<nat>) {
    && |after| == |tree|
    && forall i :: 0 <= i < |tree| && i !in nodes ==> after[i] == tree[i]
  }

  /** Every bucket that a block of `stash` could use is full. */
  ghost predicate NoRoom<V>(path: map<nat, Bucket<V>>, stash: seq<Block<V>>, range: nat, bucketSize: nat)
    requires range > 0
  {
    forall b, n :: b in stash && n in path && OnPath(range, b.leaf, n) ==> |path[n]| == bucketSize
  }

  ghost predicate PathPlaced<V>(path: map<nat, Bucket<V>>, range: nat, bucketSize: nat)
    requires range > 0
  {
    && (forall n :: n in path ==> |path[n]| <= bucketSize)
    && (forall n, b :: n in path && b in path[n] ==> OnPath(range, b.leaf, n))
    && (forall n, m, b :: n in path && m in path && m > n && b in path[n] && OnPath(range, b.leaf, m) ==>
          |path[m]| == bucketSize)
  }

  /** Progress of a greedy eviction that has handled the blocks `seen`. */
  ghost predicate Filled<V>(seen: seq<Block<V>>, path: map<nat, Bucket<V>>, remaining: seq<Block<V>>,
                            range: nat, bucketSize: nat, bound: nat)
    requires range > 0
  {
    && multiset(remaining) + PathSum(path, bound) == multiset(seen)
    && PathPlaced(path, range, bucketSize)
    && NoRoom(path, remaining, range, bucketSize)
  }

  lemma FilledPush<V>(seen: seq<Block<V>>, path: map<nat, Bucket<V>>, remaining: seq<Block<V>>,
                      range: nat, bucketSize: nat, bound: nat, at: nat, b: Block<V>)
    requires range > 0 && Filled(seen, path, remaining, range, bucketSize, bound)
    requires Deepest(path, range, bucketSize, b.leaf, at) && at < bound
    ensures Filled(seen + [b], path[at := path[at] + [b]], remaining, range, bucketSize, bound)
  {
    hide PathPlaced, NoRoom, PathSum, OnPath;
    PathSumPush(path, at, b, bound);
    PushPlaced(path, range, bucketSize, at, b);
    PushNoRoom(path, remaining, range, bucketSize, at, b);
  }

  lemma PushNoRoom<V>(path: map<nat, Bucket<V>>, stash: seq<Block<V>>, range: nat, bucketSize: nat, at: nat, b: Block<V>)
    requires range > 0 && NoRoom(path, stash, range, bucketSize) && Deepest(path, range, bucketSize, b.leaf, at)
    ensures NoRoom(path[at := path[at] + [b]], stash, range, bucketSize)
  {
  }

  lemma PushPlaced<V>(path: map<nat, Bucket<V>>, range: nat, bucketSize: nat, at: nat, b: Block<V>)
    requires range > 0 && PathPlaced(path, range, bucketSize) && Deepest(path, range, bucketSize, b.leaf, at)
    ensures PathPlaced(path[at := path[at] + [b]], range, bucketSize)
  {
    hide OnPath;
    var next := path[at := path[at] + [b]];
    forall n, m, x | n in next && m in next && m > n && x in next[n] && OnPath(range, x.leaf, m)
      ensures |next[m]| == bucketSize
    {
      if n == at && x == b {
        assert !Eligible(path, range, bucketSize, b.leaf, m);
      }
    }
  }

  lemma FilledSkip<V>(seen: seq<Block<V>>, path: map<nat, Bucket<V>>, remaining: seq<Block<V>>,
                      range: nat, bucketSize: nat, bound: nat, b: Block<V>)
    requires range > 0 && Filled(seen, path, remaining, range, bucketSize, bound)
    requires forall n: nat :: !Eligible(path, range, bucketSize, b.leaf, n)
    ensures Filled(seen + [b], path, remaining + [b], range, bucketSize, bound)
  {
    forall n | n in path && OnPath(range, b.leaf, n) ensures |path[n]| == bucketSize {
      assert !Eligible(path, range, bucketSize, b.leaf, n);
    }
  }

  /** Greedy eviction of `stash`, in order, into empty buckets at `nodes`. No block is lost
      or duplicated; blocks land on their own root path within bucket capacity, as deep as
      the filled path allows; and a block that does not fit has every bucket it could use full. */
  method FillPaths<V>(stash: seq<Block<V>>, nodes: set<nat>, range: nat, bucketSize: nat, bound: nat)
    returns (path: map<nat, Bucket<V>>, remaining: seq<Block<V>>)
    requires range > 0 && forall n :: n in nodes ==> n < bound
    ensures path.Keys == nodes
    ensures Filled(stash, path, remaining, range, bucketSize, bound)
  {
    path := map n | n in nodes :: [];
    PathSumEmpty(path, bound);
    remaining := [];
    for i := 0 to |stash|
      invariant path.Keys == nodes
      invariant Filled(stash[..i], path, remaining, range, bucketSize, bound)
    {
      var block := stash[i];
      assert stash[..i + 1] == stash[..i] + [block];
      var inserted, next := FillBlockToPath(block, path, range, bucketSize, bound);
      if inserted {
        ghost var at: nat :| PutDeepest(path, range, bucketSize, block, next, at);
        FilledPush(stash[..i], path, remaining, range, bucketSize, bound, at, block);
      } else {
        FilledSkip(stash[..i], path, remaining, range, bucketSize, bound, block);
        remaining := remaining + [block];
      }
      path := next;
    }
    assert stash[..|stash|] == stash;
  }

  /** No bucket on the way from `leafNode` to the root has room. */
  ghost predicate Crowded<V>(tree: seq<Bucket<V>>, leafNode: nat, bucketSize: nat)
    requires leafNode < |tree|
  {
    forall n :: n in Ancestors(leafNode) ==> |tree[n]| >= bucketSize
  }

  /** `node` is the deepest bucket on the way from `leafNode` to the root that has room. */
  ghost predicate Roomiest<V>(tree: seq<Bucket<V>>, leafNode: nat, bucketSize: nat, node: nat)
    requires leafNode < |tree|
  {
    && node in Ancestors(leafNode) && |tree[node]| < bucketSize
    && forall n :: n in Ancestors(leafNode) && n > node ==> |tree[n]| >= bucketSize
  }

  method FindRoom<V>(tree: seq<Bucket<V>>, leafNode: nat, bucketSize: nat) returns (r: Option<nat>)
    requires leafNode < |tree|
    ensures r.Some? ==> Roomiest(tree, leafNode, bucketSize, r.value)
    ensures r.None? ==> Crowded(tree, leafNode, bucketSize)
  {
    var node := leafNode;
    while true
      invariant node in Ancestors(leafNode)
      invariant forall n :: n in Ancestors(leafNode) && n !in Ancestors(node) ==> |tree[n]| >= bucketSize
      decreases node
    {
      AncestorsCompose(node, leafNode);
      if |tree[node]| < bucketSize {
        return Some(node);
      }
      if node == 0 { return None; }
      AncestorsCompose(Parent(node), leafNode);
      node := Parent(node);
    }
  }

  /** Concatenates the fetched buckets to `stash`, in an arbitrary order. */
  method AppendBuckets<V>(stash: seq<Block<V>>, fetched: map<nat, Bucket<V>>, bound: nat)
    returns (r: seq<Block<V>>)
    requires forall n :: n in fetched ==> n < bound
    ensures multiset(r) == multiset(stash) + PathSum(fetched, bound)
    ensures stash <= r
  {
    r := stash;
    var todo := fetched.Keys;
    ghost var done: map<nat, Bucket<V>> := map[];
    PathSumEmpty(done, bound);
    while todo != {}
      invariant todo <= fetched.Keys && done.Keys == fetched.Keys - todo
      invariant forall n :: n in done ==> done[n] == fetched[n]
      invariant multiset(r) == multiset(stash) + PathSum(done, bound)
      invariant stash <= r
      decreases todo
    {
      var node := Pick(todo);
      PathSumPut(done, node, fetched[node], bound);
      r := r + fetched[node];
      done := done[node := fetched[node]];
      todo := todo - {node};
    }
    assert done == fetched;
  }

  lemma TwiceInSeq<T>(s: seq<T>, i: nat, j: nat)
    requires i < |s| && j < |s| && i != j && s[i] == s[j]
    ensures multiset(s)[s[i]] >= 2
  {
    var lo, hi := if i < j then i else j, if i < j then j else i;
    assert s == s[..lo] + [s[lo]] + s[lo + 1..hi] + [s[hi]] + s[hi + 1..];
  }

  lemma {:induction false} EmptyTreeSum<V>(tree: seq<Bucket<V>>, n: nat)
    requires n <= |tree| && forall i :: 0 <= i < |tree| ==> tree[i] == []
    ensures TreeSum(tree, {}, n) == multiset{}
  {
    if n > 0 {
      EmptyTreeSum(tree, n - 1);
    }
  }

  // ----- Each store operation, on values -----

  /** Stash and tree together hold each block of `content` once; the copies at `pending`
      nodes are stale and do not count. */
  ghost predicate Holds<V>(stash: seq<Block<V>>, tree: seq<Bucket<V>>, pending: set<nat>, content: map<int, Block<V>>) {
    && Keyed(content)
    && multiset(stash) + TreeSum(tree, pending, |tree|) == Bag(content)
  }

  lemma HoldsRead<V>(stash: seq<Block<V>>, tree: seq<Bucket<V>>, content: map<int, Block<V>>,
                     nodes: set<nat>, stash': seq<Block<V>>)
    requires Holds(stash, tree, {}, content)
    requires forall i :: i in nodes ==> i < |tree|
    requires multiset(stash') == multiset(stash) + PathSum(Restrict(tree, nodes), |tree|)
    ensures Holds(stash', tree, nodes, content)
  {
    ReadSplits(tree, nodes, |tree|);
  }

  lemma HoldsStashed<V>(stash: seq<Block<V>>, tree: seq<Bucket<V>>, pending: set<nat>, content: map<int, Block<V>>,
                        i: nat)
    requires Holds(stash, tree, pending, content) && i < |stash|
    ensures stash[i].key in content && content[stash[i].key] == stash[i]
    ensures forall j :: 0 <= j < |stash| && j != i ==> stash[j].key != stash[i].key
  {
    assert stash[i] in multiset(stash);
    BagMember(content, stash[i]);
    forall j | 0 <= j < |stash| && j != i ensures stash[j].key != stash[i].key {
      assert stash[j] in multiset(stash);
      BagMember(content, stash[j]);
      if stash[j].key == stash[i].key {
        TwiceInSeq(stash, i, j);
        assert false;
      }
    }
  }

  lemma HoldsUpdate<V>(stash: seq<Block<V>>, tree: seq<Bucket<V>>, pending: set<nat>, content: map<int, Block<V>>,
                       i: nat, leaf: nat, value: V)
    requires Holds(stash, tree, pending, content) && i < |stash|
    ensures var now := Block(stash[i].key, leaf, value);
            Holds(stash[i := now], tree, pending, content[now.key := now])
  {
    hide TreeSum, Bag;
    HoldsStashed(stash, tree, pending, content, i);
    var was := stash[i];
    var now := Block(was.key, leaf, value);
    BagReplace(content, now);
    SeqReplace(stash, i, now);
    var inTree := TreeSum(tree, pending, |tree|);
    assert multiset(stash[i := now]) + inTree == multiset(stash) + inTree - multiset{was} + multiset{now};
  }

  lemma SeqReplace<T>(s: seq<T>, i: nat, x: T)
    requires i < |s|
    ensures multiset(s[i := x]) == multiset(s) - multiset{s[i]} + multiset{x}
    ensures s[i] in multiset(s)
  {
  }

  lemma BagReplace<V>(c: map<int, Block<V>>, now: Block<V>)
    requires Keyed(c) && now.key in c
    ensures Keyed(c[now.key := now])
    ensures Bag(c[now.key := now]) == Bag(c) - multiset{c[now.key]} + multiset{now}
  {
    hide Bag;
    BagRemove(c, now.key);
    var rest := c - {now.key};
    BagAdd(rest, now);
    assert c[now.key := now] == rest[now.key := now];
  }

  lemma HoldsExtract<V>(stash: seq<Block<V>>, tree: seq<Bucket<V>>, pending: set<nat>, content: map<int, Block<V>>,
                        i: nat)
    requires Holds(stash, tree, pending, content) && i < |stash|
    ensures Holds(stash[..i] + stash[i + 1..], tree, pending, content - {stash[i].key})
  {
    HoldsStashed(stash, tree, pending, content, i);
    BagRemove(content, stash[i].key);
    var x, rest, inTree := stash[i], stash[..i] + stash[i + 1..], TreeSum(tree, pending, |tree|);
    assert stash == stash[..i] + [x] + stash[i + 1..];
    assert multiset(stash) == multiset(rest) + multiset{x};
    assert multiset(rest) + inTree == multiset(stash) + inTree - multiset{x};
    assert Bag(content - {x.key}) == Bag(content) - multiset{x};
  }

  lemma HoldsAdd<V>(stash: seq<Block<V>>, tree: seq<Bucket<V>>, pending: set<nat>, content: map<int, Block<V>>,
                    block: Block<V>)
    requires Holds(stash, tree, pending, content) && block.key !in content
    ensures Holds(stash + [block], tree, pending, content[block.key := block])
  {
    BagAdd(content, block);
  }

  lemma HoldsPut<V>(stash: seq<Block<V>>, tree: seq<Bucket<V>>, content: map<int, Block<V>>,
                    node: nat, block: Block<V>)
    requires Holds(stash, tree, {}, content) && block.key !in content && node < |tree|
    ensures Holds(stash, tree[node := tree[node] + [block]], {}, content[block.key := block])
  {
    BagAdd(content, block);
    TreeSumPut(tree, node, block, tree[node := tree[node] + [block]], |tree|);
  }

  lemma {:induction false} TreeSumPut<V>(tree: seq<Bucket<V>>, node: nat, block: Block<V>,
                                         after: seq<Bucket<V>>, n: nat)
    requires node < |tree| && n <= |tree| && SameOutside(tree, after, {node})
    requires after[node] == tree[node] + [block]
    ensures TreeSum(after, {}, n) == TreeSum(tree, {}, n) + (if node < n then multiset{block} else multiset{})
  {
    if n > 0 {
      TreeSumPut(tree, node, block, after, n - 1);
      SumStep(TreeSum(tree, {}, n - 1), TreeSum(after, {}, n - 1), if node < n - 1 then multiset{block} else multiset{},
              tree[n - 1], after[n - 1], block, node == n - 1);
    }
  }

  /** Adding one more bucket, the same one on both sides or one with `block` put in. */
  lemma SumStep<V>(a: multiset<Block<V>>, a': multiset<Block<V>>, x: multiset<Block<V>>, b: Bucket<V>, b': Bucket<V>,
                   block: Block<V>, put: bool)
    requires a' == a + x && if put then x == multiset{} && b' == b + [block] else b' == b
    ensures a' + multiset(b') == a + multiset(b) + (if put then multiset{block} else x)
  {
    if put {
      assert multiset(b') == multiset(b) + multiset{block};
    } else {
      AddSwap(a, x, multiset(b));
    }
  }

  lemma AddSwap<T>(a: multiset<T>, b: multiset<T>, c: multiset<T>)
    ensures a + b + c == a + c + b
  {
  }

  lemma HoldsEmpty<V>(tree: seq<Bucket<V>>)
    requires forall i :: 0 <= i < |tree| ==> tree[i] == []
    ensures Holds([], tree, {}, map[])
    ensures forall range: nat, bucketSize: nat :: range > 0 ==> Placed(tree, {}, range, bucketSize)
  {
    EmptyTreeSum(tree, |tree|);
  }

  lemma HoldsEvict<V>(stash: seq<Block<V>>, tree: seq<Bucket<V>>, content: map<int, Block<V>>,
                      path: map<nat, Bucket<V>>, remaining: seq<Block<V>>, tree': seq<Bucket<V>>)
    requires Holds(stash, tree, path.Keys, content)
    requires multiset(remaining) + PathSum(path, |tree|) == multiset(stash)
    requires Written(tree, path, tree')
    ensures Holds(remaining, tree', {}, content)
  {
    WriteJoins(tree, path, tree', |tree|);
  }

  // ----- The store -----

  class StashTree<V> {
    const level: nat
    const bucketSize: nat
    const stashMax: nat

    var tree: seq<Bucket<V>>
    var stash: seq<Block<V>>

    // The logical contents: each key's one live block.
    ghost var content: map<int, Block<V>>
    // Nodes whose stored copies were fetched into the stash and not yet overwritten.
    ghost var pending: set<nat>
    // Number of path fetches so far.
    ghost var fetches: nat

    function Range(): (r: nat)
      ensures r > 0
    {
      Pow2(if level > 0 then level - 1 else 0)
    }

    ghost predicate Valid()
      reads this
    {
      && level > 0 && |tree| == Pow2(level) - 1
      && (forall i :: i in pending ==> i < |tree|)
      && Keyed(content)
      && (forall k :: k in content ==> content[k].leaf < Range())
      && Holds(stash, tree, pending, content)
      && Placed(tree, pending, Range(), bucketSize)
    }

    ghost predicate Quiet()
      reads this
    {
      Valid() && pending == {}
    }

    /** More blocks than the stash may keep after an eviction. */
    predicate Overfull()
      reads this
    {
      |stash| > stashMax
    }

    /** The block of `key` is where a fetch of its recorded path finds it: in the stash,
        or in a bucket of the root path of its leaf; and there is no other block of `key`. */
    lemma BlockIsOnItsPath(key: int)
      requires Quiet() && key in content
      ensures content[key] in stash
              || exists i :: 0 <= i < |tree| && OnPath(Range(), content[key].leaf, i) && content[key] in tree[i]
      ensures var all := multiset(stash) + TreeSum(tree, {}, |tree|);
              all[content[key]] == 1 && forall b :: b in all && b.key == key ==> b == content[key]
    {
      BagMember(content, content[key]);
      TreeSumMember(tree, {}, |tree|, content[key]);
      forall b | b in Bag(content) && b.key == key ensures b == content[key] {
        BagMember(content, b);
      }
    }

    constructor Empty(numData: int, bucketSize: nat, stashScale: nat)
      ensures Quiet() && content == map[] && stash == []
      ensures level == CeilLog2(numData) + 1 && this.bucketSize == bucketSize
      ensures fetches == 0
      ensures forall i :: 0 <= i < |tree| ==> tree[i] == []
    {
      level := CeilLog2(numData) + 1;
      this.bucketSize := bucketSize;
      stashMax := stashScale * (if CeilLog2(numData) > 1 then CeilLog2(numData) else 1);
      tree := seq(Pow2(CeilLog2(numData) + 1) - 1, _ => []);
      stash := [];
      content := map[];
      pending := {};
      fetches := 0;
      new;
      HoldsEmpty(tree);
    }

    /** Empties tree and stash. */
    method Reset()
      requires Valid()
      modifies this
      ensures Quiet() && content == map[] && stash == [] && fetches == old(fetches)
    {
      hide Holds, Placed;
      tree := seq(|tree|, _ => []);
      stash := [];
      content := map[];
      pending := {};
      HoldsEmpty(tree);
    }

    /** Puts a new block into the deepest bucket of its path that has room, if any. */
    method FillDataToLeaf(block: Block<V>) returns (placed: bool)
      requires Quiet() && block.key !in content && block.leaf < Range()
      modifies `tree, `content
      ensures Quiet()
      ensures content == if placed then old(content)[block.key := block] else old(content)
      ensures placed ==> exists n: nat :: Roomiest(old(tree), Range() - 1 + block.leaf, bucketSize, n)
                                          && tree == old(tree)[n := old(tree)[n] + [block]]
      ensures !placed ==> tree == old(tree) && Crowded(tree, Range() - 1 + block.leaf, bucketSize)
    {
      hide Holds, Placed;
      var node := FindRoom(tree, Range() - 1 + block.leaf, bucketSize);
      if node.None? {
        return false;
      }
      HoldsPut(stash, tree, content, node.value, block);
      PutPlaced(tree, Range(), bucketSize, node.value, block);
      tree := tree[node.value := tree[node.value] + [block]];
      content := content[block.key := block];
      placed := true;
    }

    /** Loads `blocks` into the tree; the keys of those that found room are returned. */
    method BulkLoad(blocks: seq<Block<V>>) returns (placedKeys: set<int>)
      requires Quiet() && content == map[]
      requires forall i, j :: 0 <= i < j < |blocks| ==> blocks[i].key != blocks[j].key
      requires forall i :: 0 <= i < |blocks| ==> blocks[i].leaf < Range()
      modifies `tree, `content
      ensures Quiet() && content.Keys == placedKeys
      ensures forall k :: k in placedKeys ==> content[k] in blocks && content[k].key == k
    {
      hide Holds, Placed;
      placedKeys := {};
      for i := 0 to |blocks|
        invariant Quiet() && content.Keys == placedKeys
        invariant forall k :: k in placedKeys ==> content[k] in blocks[..i] && content[k].key == k
      {
        var placed := FillDataToLeaf(blocks[i]);
        if placed {
          placedKeys := placedKeys + {blocks[i].key};
        }
      }
    }

    /** Makes `blocks` the whole contents; those without room in the tree go to the stash. */
    method LoadBlocks(blocks: seq<Block<V>>)
      requires Valid()
      requires forall i, j :: 0 <= i < j < |blocks| ==> blocks[i].key != blocks[j].key
      requires forall i :: 0 <= i < |blocks| ==> blocks[i].leaf < Range()
      modifies this
      ensures Quiet() && fetches == old(fetches)
      ensures forall i :: 0 <= i < |blocks| ==> blocks[i].key in content
      ensures forall k :: k in content ==> content[k] in blocks && content[k].key == k
    {
      hide Holds, Placed;
      Reset();
      var placed := BulkLoad(blocks);
      for i := 0 to |blocks|
        invariant Quiet() && fetches == old(fetches)
        invariant forall k :: k in content ==> content[k] in blocks && content[k].key == k
        invariant forall j :: 0 <= j < |blocks| ==> (blocks[j].key in content <==> j < i || blocks[j].key in placed)
      {
        if blocks[i].key !in placed {
          AddToStash(blocks[i]);
        }
      }
    }

    method RandomLeaf() returns (leaf: nat)
      ensures leaf < Range()
    {
      leaf :| 0 <= leaf < Range();
    }

    /** Copies every block on the root paths of `leaves` to the stash, bucket by bucket in
        an arbitrary order. */
    method ReadPaths(leaves: seq<nat>)
      requires Quiet()
      requires forall i :: 0 <= i < |leaves| ==> leaves[i] < Range()
      modifies this
      ensures Valid() && content == old(content) && tree == old(tree)
      ensures pending == PathNodes(Range(), leaves)
      ensures multiset(stash) == multiset(old(stash)) + PathSum(Restrict(tree, pending), |tree|)
      ensures forall k :: k in content && content[k].leaf in leaves ==> content[k] in stash
      ensures old(stash) <= stash
      ensures fetches == old(fetches) + 1
    {
      hide Holds, Pow2, PathSum, TreeSum, OnPath, Keyed, Ancestors, PathNodes;
      var nodes := MergedPathIndices(Range(), leaves);
      PathsInTree(leaves);
      stash := AppendBuckets(stash, Restrict(tree, nodes), |tree|);
      HoldsRead(old(stash), tree, content, nodes, stash);
      pending := nodes;
      fetches := fetches + 1;
      forall k | k in content && content[k].leaf in leaves ensures content[k] in stash {
        FetchedIsInStash(k, leaves);
      }
    }

    lemma PathsInTree(leaves: seq<nat>)
      requires Quiet() && forall i :: 0 <= i < |leaves| ==> leaves[i] < Range()
      ensures forall n :: n in PathNodes(Range(), leaves) ==> n < |tree|
    {
      hide Holds, Placed;
      forall n | n in PathNodes(Range(), leaves) ensures n < |tree| {
        PathNodesMember(Range(), leaves, n);
      }
    }

    lemma FetchedIsInStash(k: int, leaves: seq<nat>)
      requires Valid() && pending == PathNodes(Range(), leaves)
      requires k in content && content[k].leaf in leaves
      ensures content[k] in stash
    {
      BagMember(content, content[k]);
      TreeSumMember(tree, pending, |tree|, content[k]);
      assert content[k] in multiset(stash) + TreeSum(tree, pending, |tree|);
      forall i | 0 <= i < |tree| && i !in pending ensures !OnPath(Range(), content[k].leaf, i) {
        PathNodesMember(Range(), leaves, i);
      }
    }

    /** Index of the block of `key` in the stash, or -1. */
    method FindInStash(key: int) returns (at: int)
      requires Valid()
      ensures -1 <= at < |stash|
      ensures at >= 0 ==> stash[at].key == key && key in content && stash[at] == content[key]
      ensures at < 0 ==> forall j :: 0 <= j < |stash| ==> stash[j].key != key
      ensures at < 0 && key in content ==> content[key] !in stash
    {
      for i := 0 to |stash|
        invariant forall j :: 0 <= j < i ==> stash[j].key != key
      {
        if stash[i].key == key {
          HoldsStashed(stash, tree, pending, content, i);
          return i;
        }
      }
      at := -1;
    }

    /** Overwrites leaf and value of the stashed block at index `at`. */
    method UpdateInStash(at: nat, leaf: nat, value: V)
      requires Valid() && at < |stash| && leaf < Range()
      modifies `stash, `content
      ensures Valid()
      ensures content == old(content)[old(stash[at].key) := Block(old(stash[at].key), leaf, value)]
      ensures stash == old(stash)[at := Block(old(stash[at].key), leaf, value)]
    {
      HoldsUpdate(stash, tree, pending, content, at, leaf, value);
      var now := Block(stash[at].key, leaf, value);
      stash := stash[at := now];
      content := content[now.key := now];
    }

    /** Takes the block of `key` out of the stash; it is then held by the caller. */
    method ExtractFromStash(key: int) returns (r: Option<Block<V>>)
      requires Valid()
      modifies `stash, `content
      ensures Valid()
      ensures r.Some? <==> key in old(content) && old(content[key]) in old(stash)
      ensures r.Some? ==> r.value == old(content[key]) && content == old(content) - {key}
      ensures r.None? ==> content == old(content) && stash == old(stash)
    {
      var at := FindInStash(key);
      if at < 0 {
        return None;
      }
      HoldsExtract(stash, tree, pending, content, at);
      r := Some(stash[at]);
      stash := stash[..at] + stash[at + 1..];
      content := content - {key};
    }

    method AddToStash(block: Block<V>)
      requires Valid() && block.key !in content && block.leaf < Range()
      modifies `stash, `content
      ensures Valid()
      ensures content == old(content)[block.key := block]
      ensures stash == old(stash) + [block]
    {
      HoldsAdd(stash, tree, pending, content, block);
      stash := stash + [block];
      content := content[block.key := block];
    }

    /** Greedy eviction along the paths that were fetched. On success no block is lost or
        duplicated, every block lies on its own path within bucket capacity, and the result
        is maximal: a block cannot move deeper on a written path, and a block left in the
        stash has every bucket it could use on the written paths full. */
    method EvictStash(leaves: seq<nat>) returns (ok: bool)
      requires Valid() && pending == PathNodes(Range(), leaves)
      modifies this
      ensures ok <==> !Overfull()
      ensures fetches == old(fetches)
      ensures ok ==> Quiet() && content == old(content)
      ensures ok ==> SameOutside(old(tree), tree, old(pending))
      ensures ok ==> Maximal(tree, old(pending), stash, Range(), bucketSize)
    {
      var nodes := MergedPathIndices(Range(), leaves);
      var path, remaining := FillPaths(stash, nodes, Range(), bucketSize, |tree|);
      stash := remaining;
      if Overfull() {
        return false;
      }
      ghost var before := tree;
      WriteMultiplePaths(path);
      HoldsEvict(old(stash), before, content, path, remaining, tree);
      WritePlaced(before, path, tree, remaining, Range(), bucketSize);
      pending := {};
      ok := true;
    }

    method WriteMultiplePaths(path: map<nat, Bucket<V>>)
      requires forall n :: n in path ==> n < |tree|
      modifies `tree
      ensures Written(old(tree), path, tree)
    {
      var todo := path.Keys;
      while todo != {}
        invariant todo <= path.Keys && |tree| == |old(tree)|
        invariant forall i :: 0 <= i < |tree| ==>
                    tree[i] == if i in path && i !in todo then path[i] else old(tree)[i]
        decreases todo
      {
        var node := Pick(todo);
        tree := tree[node := path[node]];
        todo := todo - {node};
      }
    }
  }
}
