/** Slots, buckets and blocks of the enclave ORAM, on values (tee/enclave_oram). */
module EnclaveSlots {
  import opened Common
  import opened Geometry
  import opened StashTrees
  import opened Compaction

  function AsBlock<V>(x: Slot<V>): Block<V> {
    Block(x.key, if x.leaf >= 0 then x.leaf else 0, x.value)
  }

  function Cleared<V>(x: Slot<V>): Slot<V> {
    x.(key := INVALID_KEY)
  }

  /** The block of a real slot. */
  ghost function One<V>(x: Slot<V>): multiset<Block<V>> {
    if x.Real() then multiset{AsBlock(x)} else multiset{}
  }

  /** The blocks in real slots. */
  ghost function RealBag<V>(s: Slots<V>): multiset<Block<V>> {
    if s == [] then multiset{} else RealBag(s[..|s| - 1]) + One(s[|s| - 1])
  }

  lemma {:induction false} RealBagAppend<V>(a: Slots<V>, b: Slots<V>)
    ensures RealBag(a + b) == RealBag(a) + RealBag(b)
  {
    if b == [] {
      assert a + b == a;
    } else {
      var n := |b| - 1;
      assert (a + b)[..|a + b| - 1] == a + b[..n];
      RealBagAppend(a, b[..n]);
    }
  }

  lemma RealBagOne<V>(x: Slot<V>)
    ensures RealBag([x]) == One(x)
  {
    assert [x][..0] == [];
  }

  lemma RealBagUpdate<V>(s: Slots<V>, i: nat, x: Slot<V>)
    requires i < |s|
    ensures RealBag(s[i := x]) + One(s[i]) == RealBag(s) + One(x)
  {
    hide RealBag, One;
    assert s == s[..i] + [s[i]] + s[i + 1..];
    assert s[i := x] == s[..i] + [x] + s[i + 1..];
    RealBagAppend(s[..i] + [s[i]], s[i + 1..]);
    RealBagAppend(s[..i], [s[i]]);
    RealBagAppend(s[..i] + [x], s[i + 1..]);
    RealBagAppend(s[..i], [x]);
    RealBagOne(s[i]);
    RealBagOne(x);
  }

  lemma {:induction false} RealBagMember<V>(s: Slots<V>, b: Block<V>)
    ensures b in RealBag(s) <==> exists i :: 0 <= i < |s| && s[i].Real() && AsBlock(s[i]) == b
  {
    if s != [] {
      var n := |s| - 1;
      RealBagMember(s[..n], b);
      if i :| 0 <= i < |s| && s[i].Real() && AsBlock(s[i]) == b {
        if i < n { assert s[..n][i] == s[i]; }
      }
      if j :| 0 <= j < n && s[..n][j].Real() && AsBlock(s[..n][j]) == b {
        assert s[j].Real();
      }
    }
  }

  lemma RealBagHas<V>(s: Slots<V>, i: nat)
    requires i < |s| && s[i].Real()
    ensures AsBlock(s[i]) in RealBag(s)
  {
    RealBagMember(s, AsBlock(s[i]));
  }

  lemma RealBagTwice<V>(s: Slots<V>, i: nat, j: nat)
    requires i < j < |s| && s[i].Real() && s[j].Real() && AsBlock(s[i]) == AsBlock(s[j])
    ensures RealBag(s)[AsBlock(s[i])] >= 2
  {
    hide RealBag;
    assert s == s[..j] + [s[j]] + s[j + 1..];
    RealBagAppend(s[..j] + [s[j]], s[j + 1..]);
    RealBagAppend(s[..j], [s[j]]);
    RealBagOne(s[j]);
    assert s[..j][i] == s[i];
    RealBagHas(s[..j], i);
  }

  lemma {:induction false} RealBagKept<V>(s: Slots<V>)
    ensures RealBag(Kept(s, true)) == RealBag(s)
  {
    hide RealBag;
    if s == [] {
      assert Kept(s, true) == s;
    } else {
      var n := |s| - 1;
      RealBagKept(s[..n]);
      assert s == s[..n] + [s[n]];
      RealBagAppend(s[..n], [s[n]]);
      RealBagOne(s[n]);
      if s[n].Real() {
        RealBagAppend(Kept(s[..n], true), [s[n]]);
      } else {
        assert Kept(s, true) == Kept(s[..n], true);
      }
    }
  }

  ghost predicate AllDummy<V>(s: Slots<V>) {
    forall i :: 0 <= i < |s| ==> !s[i].Real()
  }

  lemma {:induction false} DummyBag<V>(s: Slots<V>)
    requires AllDummy(s)
    ensures RealBag(s) == multiset{}
  {
    if s != [] {
      DummyBag(s[..|s| - 1]);
    }
  }

  /** The blocks in the first `n` buckets. */
  ghost function Stock<V>(tree: seq<Slots<V>>, n: nat): multiset<Block<V>>
    requires n <= |tree|
  {
    if n == 0 then multiset{} else Stock(tree, n - 1) + RealBag(tree[n - 1])
  }

  lemma {:induction false} StockUpdate<V>(tree: seq<Slots<V>>, i: nat, b: Slots<V>, n: nat)
    requires i < |tree| && n <= |tree|
    ensures i >= n ==> Stock(tree[i := b], n) == Stock(tree, n)
    ensures i < n ==> Stock(tree[i := b], n) + RealBag(tree[i]) == Stock(tree, n) + RealBag(b)
  {
    hide RealBag;
    if n > 0 {
      var after := tree[i := b];
      StockUpdate(tree, i, b, n - 1);
      if i == n - 1 {
        AddSwap(Stock(tree, n - 1), RealBag(b), RealBag(tree[i]));
      } else if i < n {
        AddRight(Stock(tree, n - 1), Stock(after, n - 1), RealBag(tree[i]), RealBag(b), RealBag(tree[n - 1]));
      }
    }
  }

  lemma AddRight<T>(a: multiset<T>, a': multiset<T>, w: multiset<T>, n: multiset<T>, x: multiset<T>)
    requires a' + w == a + n
    ensures a' + x + w == a + x + n
  {
    AddSwap(a', x, w);
    AddSwap(a, x, n);
  }

  lemma {:induction false} StockMember<V>(tree: seq<Slots<V>>, n: nat, b: Block<V>)
    requires n <= |tree|
    ensures b in Stock(tree, n) <==> exists i :: 0 <= i < n && b in RealBag(tree[i])
  {
    hide RealBag;
    if n > 0 {
      StockMember(tree, n - 1, b);
    }
  }

  /** What leaves one side arrives on the other. */
  lemma Transfer<T>(a: multiset<T>, a': multiset<T>, b: multiset<T>, b': multiset<T>, s: multiset<T>, s': multiset<T>,
                    x: multiset<T>, y: multiset<T>)
    requires a' + x == a + y && b' + y == b + x && s' + b == s + b'
    ensures a' + s' == a + s
  {
    forall e | e in a' + s' + a + s ensures (a' + s')[e] == (a + s)[e] {
      assert (a' + x)[e] == (a + y)[e] && (b' + y)[e] == (b + x)[e] && (s' + b)[e] == (s + b')[e];
    }
  }

  /** The same change on both sides of an equality. */
  lemma BothChange<T>(a: multiset<T>, a': multiset<T>, s: multiset<T>, bag: multiset<T>, bag': multiset<T>,
                      w: multiset<T>, n: multiset<T>)
    requires a' + w == a + n && bag' + w == bag + n && a + s == bag
    ensures a' + s == bag'
  {
    forall e | e in a' + s + bag' ensures (a' + s)[e] == bag'[e] {
      assert (a' + w)[e] == (a + n)[e] && (bag' + w)[e] == (bag + n)[e] && (a + s)[e] == bag[e];
    }
  }

  // ----- The state -----

  /** Tree and stash together hold each block of `content` exactly once. */
  ghost predicate Holding<V>(stash: Slots<V>, tree: seq<Slots<V>>, content: map<int, Block<V>>) {
    Keyed(content) && RealBag(stash) + Stock(tree, |tree|) == Bag(content)
  }

  lemma HoldingKeyed<V>(stash: Slots<V>, tree: seq<Slots<V>>, content: map<int, Block<V>>)
    requires Holding(stash, tree, content)
    ensures Keyed(content)
  {
  }

  /** Every real slot lies on the path of its leaf; buckets have their fixed size. */
  ghost predicate WellPlaced<V>(tree: seq<Slots<V>>, range: nat, bucketSize: nat)
    requires range > 0
  {
    && (forall i :: 0 <= i < |tree| ==> |tree[i]| == bucketSize)
    && (forall i, j :: 0 <= i < |tree| && 0 <= j < |tree[i]| && tree[i][j].Real() ==>
          0 <= tree[i][j].leaf < range && OnPath(range, tree[i][j].leaf, i))
  }

  ghost predicate LeavesOk<V>(s: Slots<V>, range: nat) {
    forall i :: 0 <= i < |s| && s[i].Real() ==> 0 <= s[i].leaf < range
  }

  /** A slot of the bucket at `node` goes to the end of the stash. */
  lemma DrainSlot<V>(stash: Slots<V>, tree: seq<Slots<V>>, content: map<int, Block<V>>, range: nat, bucketSize: nat,
                     node: nat, j: nat, d: Slot<V>)
    requires range > 0 && Holding(stash, tree, content) && WellPlaced(tree, range, bucketSize) && LeavesOk(stash, range)
    requires node < |tree| && j < |tree[node]| && !d.Real()
    ensures Holding(stash + [tree[node][j]], tree[node := tree[node][j := d]], content)
    ensures WellPlaced(tree[node := tree[node][j := d]], range, bucketSize) && LeavesOk(stash + [tree[node][j]], range)
  {
    hide Bag, RealBag, Stock;
    var b := tree[node];
    RealBagAppend(stash, [b[j]]);
    RealBagOne(b[j]);
    RealBagUpdate(b, j, d);
    StockUpdate(tree, node, b[j := d], |tree|);
    Transfer(RealBag(stash), RealBag(stash + [b[j]]), RealBag(b), RealBag(b[j := d]), Stock(tree, |tree|),
             Stock(tree[node := b[j := d]], |tree|), multiset{}, One(b[j]));
  }

  /** A stashed block goes to a free slot of a bucket on its path. */
  lemma FillMove<V>(stash: Slots<V>, tree: seq<Slots<V>>, content: map<int, Block<V>>, range: nat, bucketSize: nat,
                    node: nat, j: nat, at: nat)
    requires range > 0 && Holding(stash, tree, content) && WellPlaced(tree, range, bucketSize) && LeavesOk(stash, range)
    requires node < |tree| && j < |tree[node]| && !tree[node][j].Real()
    requires at < |stash| && stash[at].Real() && OnPath(range, stash[at].leaf, node)
    ensures Holding(stash[at := Cleared(stash[at])], tree[node := tree[node][j := stash[at]]], content)
    ensures WellPlaced(tree[node := tree[node][j := stash[at]]], range, bucketSize)
    ensures LeavesOk(stash[at := Cleared(stash[at])], range)
  {
    hide Bag, RealBag, Stock, OnPath;
    var b, x := tree[node], stash[at];
    RealBagUpdate(stash, at, Cleared(x));
    RealBagUpdate(b, j, x);
    StockUpdate(tree, node, b[j := x], |tree|);
    Transfer(RealBag(stash), RealBag(stash[at := Cleared(x)]), RealBag(b), RealBag(b[j := x]), Stock(tree, |tree|),
             Stock(tree[node := b[j := x]], |tree|), One(x), multiset{});
  }

  /** The block of `key`, once its path has been drained. */
  lemma DrainedIsStashed<V>(stash: Slots<V>, tree: seq<Slots<V>>, content: map<int, Block<V>>, range: nat, bucketSize: nat,
                            leaf: nat, key: int) returns (at: nat)
    requires range > 0 && Holding(stash, tree, content) && WellPlaced(tree, range, bucketSize)
    requires forall i :: 0 <= i < |tree| && OnPath(range, leaf, i) ==> AllDummy(tree[i])
    requires key in content && content[key].leaf == leaf
    ensures at < |stash| && stash[at].Real() && AsBlock(stash[at]) == content[key]
  {
    var b := content[key];
    BagMember(content, b);
    hide Bag;
    DrainedNotInTree(tree, range, bucketSize, leaf, b);
    assert b in RealBag(stash) + Stock(tree, |tree|);
    RealBagMember(stash, b);
    at :| 0 <= at < |stash| && stash[at].Real() && AsBlock(stash[at]) == b;
  }

  lemma DrainedNotInTree<V>(tree: seq<Slots<V>>, range: nat, bucketSize: nat, leaf: nat, b: Block<V>)
    requires range > 0 && WellPlaced(tree, range, bucketSize) && b.leaf == leaf
    requires forall i :: 0 <= i < |tree| && OnPath(range, leaf, i) ==> AllDummy(tree[i])
    ensures b !in Stock(tree, |tree|)
  {
    hide OnPath;
    StockMember(tree, |tree|, b);
    forall i | 0 <= i < |tree| ensures b !in RealBag(tree[i]) {
      RealBagMember(tree[i], b);
      forall j | 0 <= j < |tree[i]| ensures !(tree[i][j].Real() && AsBlock(tree[i][j]) == b) {
      }
    }
  }

  /** Where the block of a key can be. */
  lemma BlockOnPath<V>(stash: Slots<V>, tree: seq<Slots<V>>, content: map<int, Block<V>>, range: nat, bucketSize: nat, key: int)
    requires range > 0 && Holding(stash, tree, content) && WellPlaced(tree, range, bucketSize) && key in content
    ensures || (exists i :: 0 <= i < |stash| && stash[i].Real() && AsBlock(stash[i]) == content[key])
            || (exists i, j :: 0 <= i < |tree| && 0 <= j < |tree[i]| && tree[i][j].Real() && AsBlock(tree[i][j]) == content[key]
                               && OnPath(range, content[key].leaf, i))
  {
    hide OnPath;
    var b := content[key];
    BagMember(content, b);
    hide Bag;
    assert b in RealBag(stash) + Stock(tree, |tree|);
    if b in RealBag(stash) {
      RealBagMember(stash, b);
    } else {
      StockMember(tree, |tree|, b);
      var i :| 0 <= i < |tree| && b in RealBag(tree[i]);
      RealBagMember(tree[i], b);
      var j :| 0 <= j < |tree[i]| && tree[i][j].Real() && AsBlock(tree[i][j]) == b;
    }
  }

  /** A stashed block is the one of its key, and the only one in the stash. */
  lemma StashedIsContent<V>(stash: Slots<V>, tree: seq<Slots<V>>, content: map<int, Block<V>>, at: nat)
    requires Holding(stash, tree, content) && at < |stash| && stash[at].Real()
    ensures stash[at].key in content && content[stash[at].key] == AsBlock(stash[at])
    ensures forall j :: 0 <= j < |stash| && j != at && stash[j].Real() ==> stash[j].key != stash[at].key
  {
    hide RealBag, Stock;
    RealBagHas(stash, at);
    BagMember(content, AsBlock(stash[at]));
    forall j | 0 <= j < |stash| && j != at && stash[j].Real() ensures stash[j].key != stash[at].key {
      RealBagHas(stash, j);
      BagMember(content, AsBlock(stash[j]));
      if stash[j].key == stash[at].key {
        RealBagTwice(stash, if j < at then j else at, if j < at then at else j);
        assert false;
      }
    }
  }

  /** Rewriting a stashed block in place. */
  lemma HoldingRewrite<V>(stash: Slots<V>, tree: seq<Slots<V>>, content: map<int, Block<V>>, at: nat, leaf: nat, value: V)
    requires Holding(stash, tree, content) && at < |stash| && stash[at].Real()
    ensures var k := stash[at].key;
            Holding(stash[at := Slot(k, leaf, value)], tree, content[k := Block(k, leaf, value)])
  {
    StashedIsContent(stash, tree, content, at);
    hide RealBag, Stock, Bag;
    var now := Slot(stash[at].key, leaf, value);
    RealBagUpdate(stash, at, now);
    BagMember(content, content[now.key]);
    BagReplace(content, AsBlock(now));
    BothChange(RealBag(stash), RealBag(stash[at := now]), Stock(tree, |tree|), Bag(content),
               Bag(content[now.key := AsBlock(now)]), One(stash[at]), One(now));
  }

  lemma HoldingExtract<V>(stash: Slots<V>, tree: seq<Slots<V>>, content: map<int, Block<V>>, at: nat)
    requires Holding(stash, tree, content) && at < |stash| && stash[at].Real()
    ensures Holding(stash[at := Cleared(stash[at])], tree, content - {stash[at].key})
  {
    StashedIsContent(stash, tree, content, at);
    hide RealBag, Stock, Bag;
    RealBagUpdate(stash, at, Cleared(stash[at]));
    BagRemove(content, stash[at].key);
    BothChange(RealBag(stash), RealBag(stash[at := Cleared(stash[at])]), Stock(tree, |tree|), Bag(content),
               Bag(content - {stash[at].key}), One(stash[at]), multiset{});
  }

  lemma HoldingAdd<V>(stash: Slots<V>, tree: seq<Slots<V>>, content: map<int, Block<V>>, x: Slot<V>)
    requires Holding(stash, tree, content) && x.Real() && x.key !in content && x.leaf >= 0
    ensures Holding(stash + [x], tree, content[x.key := AsBlock(x)])
  {
    hide RealBag, Stock, Bag;
    RealBagAppend(stash, [x]);
    RealBagOne(x);
    BagAdd(content, AsBlock(x));
  }

  lemma HoldingDummy<V>(stash: Slots<V>, tree: seq<Slots<V>>, content: map<int, Block<V>>, x: Slot<V>)
    requires Holding(stash, tree, content) && !x.Real()
    ensures Holding(stash + [x], tree, content)
  {
    hide RealBag, Stock, Bag;
    PaddedBag(stash, x);
  }

  /** Real slots of `now` are as in `was`; some have been emptied. */
  ghost predicate Shrunk<V>(was: Slots<V>, now: Slots<V>) {
    |now| == |was| && forall i :: 0 <= i < |now| && now[i].Real() ==> now[i] == was[i]
  }

  /** No stashed block could still use the bucket at `node`, or there is no room for one. */
  ghost predicate Exhausted<V>(stash: Slots<V>, bucket: Slots<V>, range: nat, node: nat)
    requires range > 0
  {
    || (forall j :: 0 <= j < |bucket| ==> bucket[j].Real())
    || (forall i :: 0 <= i < |stash| && stash[i].Real() ==> stash[i].leaf >= 0 && !OnPath(range, stash[i].leaf, node))
  }

  lemma ShrunkExhausted<V>(was: Slots<V>, now: Slots<V>, bucket: Slots<V>, range: nat, node: nat)
    requires range > 0 && Shrunk(was, now) && Exhausted(was, bucket, range, node)
    ensures Exhausted(now, bucket, range, node)
  {
  }

  lemma KeptExhausted<V>(was: Slots<V>, now: Slots<V>, bucket: Slots<V>, range: nat, node: nat)
    requires range > 0 && Exhausted(was, bucket, range, node) && Kept(now, true) == Kept(was, true)
    ensures Exhausted(now, bucket, range, node)
  {
    forall i | 0 <= i < |now| && now[i].Real() ensures exists j :: 0 <= j < |was| && was[j] == now[i] {
      KeptMember(now, i);
      var j := KeptOrigin(was, now[i]);
    }
  }

  lemma {:induction false} KeptMember<V>(s: Slots<V>, i: nat)
    requires i < |s| && s[i].Real()
    ensures s[i] in Kept(s, true)
  {
    var n := |s| - 1;
    if i < n { KeptMember(s[..n], i); }
  }

  lemma {:induction false} KeptOrigin<V>(s: Slots<V>, x: Slot<V>) returns (i: nat)
    requires x in Kept(s, true)
    ensures i < |s| && s[i] == x
  {
    var n := |s| - 1;
    if s[n] == x {
      i := n;
    } else {
      i := KeptOrigin(s[..n], x);
    }
  }

  lemma KeptLeaves<V>(was: Slots<V>, now: Slots<V>, range: nat)
    requires LeavesOk(was, range) && Kept(now, true) == Kept(was, true)
    ensures LeavesOk(now, range)
  {
    forall i | 0 <= i < |now| && now[i].Real() ensures 0 <= now[i].leaf < range {
      KeptMember(now, i);
      var j := KeptOrigin(was, now[i]);
    }
  }

  /** A new block goes straight to a free slot of a bucket on its path. */
  lemma PlaceNew<V>(stash: Slots<V>, tree: seq<Slots<V>>, content: map<int, Block<V>>, range: nat, bucketSize: nat,
                    node: nat, j: nat, x: Slot<V>)
    requires range > 0 && Holding(stash, tree, content) && WellPlaced(tree, range, bucketSize)
    requires node < |tree| && j < |tree[node]| && !tree[node][j].Real()
    requires x.Real() && x.key !in content && 0 <= x.leaf < range && OnPath(range, x.leaf, node)
    ensures Holding(stash, tree[node := tree[node][j := x]], content[x.key := AsBlock(x)])
    ensures WellPlaced(tree[node := tree[node][j := x]], range, bucketSize)
  {
    hide Bag, RealBag, Stock, OnPath;
    var b := tree[node];
    RealBagUpdate(b, j, x);
    StockUpdate(tree, node, b[j := x], |tree|);
    BagAdd(content, AsBlock(x));
    Arrives(RealBag(stash), RealBag(b), RealBag(b[j := x]), Stock(tree, |tree|), Stock(tree[node := b[j := x]], |tree|), One(x));
  }

  /** What is in a dummy slot does not matter. */
  lemma DummyInto<V>(stash: Slots<V>, tree: seq<Slots<V>>, content: map<int, Block<V>>, range: nat, bucketSize: nat,
                     node: nat, j: nat, x: Slot<V>)
    requires range > 0 && Holding(stash, tree, content) && WellPlaced(tree, range, bucketSize)
    requires node < |tree| && j < |tree[node]| && !tree[node][j].Real() && !x.Real()
    ensures Holding(stash, tree[node := tree[node][j := x]], content)
    ensures WellPlaced(tree[node := tree[node][j := x]], range, bucketSize)
  {
    hide Bag, RealBag, Stock, OnPath;
    var b := tree[node];
    RealBagUpdate(b, j, x);
    StockUpdate(tree, node, b[j := x], |tree|);
    Arrives(RealBag(stash), RealBag(b), RealBag(b[j := x]), Stock(tree, |tree|), Stock(tree[node := b[j := x]], |tree|),
        multiset{});
  }

  lemma Arrives<T>(a: multiset<T>, b: multiset<T>, b': multiset<T>, s: multiset<T>, s': multiset<T>, x: multiset<T>)
    requires b' == b + x && s' + b == s + b'
    ensures a + s' == a + s + x
  {
    forall e | e in a + s' + s + x ensures (a + s')[e] == (a + s + x)[e] {
      assert b'[e] == (b + x)[e] && (s' + b)[e] == (s + b')[e];
    }
  }

  lemma {:induction false} PaddedBag<V>(s: Slots<V>, d: Slot<V>)
    requires !d.Real()
    ensures RealBag(s + [d]) == RealBag(s)
  {
    hide RealBag;
    RealBagAppend(s, [d]);
    RealBagOne(d);
  }
}
