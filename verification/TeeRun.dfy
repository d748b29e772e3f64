/** Runs of insertions and removals on the enclave's AVL map (tee_avl_omap): how long the fixed
    number of steps reaches every key, and a run that leaves its reach with few keys. */
module TeeRuns {
  import opened Common
  import opened Geometry
  import opened AvlTrees
  import opened AvlRep
  import opened AvlSearch
  import opened AvlAttach
  import opened AvlHeights
  import opened EnclaveOrams
  import opened TeeReach
  import opened TeeCalm
  import opened TeeAvls

  datatype Op<+V> = Put(key: int, value: V) | Drop(key: int)

  // ----- Any run -----

  function Puts<V>(ops: seq<Op<V>>): nat {
    if ops == [] then 0 else (if ops[0].Put? then 1 else 0) + Puts(ops[1..])
  }

  function AfterOp<V>(m: map<int, V>, op: Op<V>): map<int, V> {
    match op
    case Put(k, v) => m[k := v]
    case Drop(k) => m - {k}
  }

  function AfterOps<V>(m: map<int, V>, ops: seq<Op<V>>): map<int, V>
    decreases |ops|
  {
    if ops == [] then m else AfterOps(AfterOp(m, ops[0]), ops[1..])
  }

  /** Every insertion is one of a real, absent key. */
  predicate Legal<V>(m: map<int, V>, ops: seq<Op<V>>)
    decreases |ops|
  {
    ops == [] || ((ops[0].Put? ==> ops[0].key >= 0 && ops[0].key !in m) && Legal(AfterOp(m, ops[0]), ops[1..]))
  }

  /** As long as the insertions are no more than the levels left, the run is that of a map, and
      every key stays in reach. */
  method Run<V>(m: TeeAvl<V>, ops: seq<Op<V>>) returns (ok: bool)
    requires m.Valid() && Legal(m.Map(), ops) && Height(m.tree) + Puts(ops) <= m.maxHeight
    modifies m, m.oram
    ensures ok ==> m.Valid() && m.Map() == AfterOps(old(m.Map()), ops) && Height(m.tree) <= Height(old(m.tree)) + Puts(ops)
    ensures ok ==> forall k :: k in m.Map() ==> Depth(m.tree, k) < m.maxHeight
    ensures !ok ==> m.oram.Overfull()
  {
    hide EnclaveOram.Valid, Height, Depth, Contents, Keys, Balanced, Ordered, CalmPut, CalmDrop, Attach, Inserted, Deleted;
    ok := true;
    for i := 0 to |ops|
      invariant ok && m.Valid() && Legal(m.Map(), ops[i..])
      invariant AfterOps(m.Map(), ops[i..]) == AfterOps(old(m.Map()), ops)
      invariant Height(m.tree) + Puts(ops[i..]) <= Height(old(m.tree)) + Puts(ops)
    {
      assert ops[i..][1..] == ops[i + 1..];
      if ops[i].Put? {
        DepthInHeight(m.tree, ops[i].key);
        var r := m.Insert(ops[i].key, ops[i].value);
        ok := r.Ok?;
      } else {
        var r := m.Remove(ops[i].key);
        ok := r.Ok?;
      }
      if !ok { return; }
    }
    forall k | k in m.Map() ensures Depth(m.tree, k) < m.maxHeight {
      ContentsKeys(m.tree);
      DepthInHeight(m.tree, k);
    }
  }

  // ----- Runs without rotations -----

  function Applied<V>(t: Tree<V>, op: Op<V>): Tree<V> {
    match op
    case Put(k, v) => Attach(t, k, v)
    case Drop(k) => Deleted(t, k)
  }

  function Final<V>(t: Tree<V>, ops: seq<Op<V>>): Tree<V>
    decreases |ops|
  {
    if ops == [] then t else Final(Applied(t, ops[0]), ops[1..])
  }

  ghost predicate CalmOp<V>(t: Tree<V>, op: Op<V>) {
    match op
    case Put(k, v) => k >= 0 && k !in Keys(t) && CalmPut(t, k, v)
    case Drop(k) => k in Keys(t) && CalmDrop(t, k)
  }

  /** Nothing is rotated, there are never more than `cap` keys, and before each operation the tree
      is no higher than `h`. */
  ghost predicate CalmRun<V>(t: Tree<V>, ops: seq<Op<V>>, cap: nat, h: nat)
    decreases |ops|
  {
    Size(t) <= cap && (ops != [] ==> Height(t) <= h && CalmOp(t, ops[0]) && CalmRun(Applied(t, ops[0]), ops[1..], cap, h))
  }

  lemma {:induction false} RunsJoin<V>(t: Tree<V>, a: seq<Op<V>>, b: seq<Op<V>>, cap: nat, h: nat)
    requires CalmRun(t, a, cap, h) && CalmRun(Final(t, a), b, cap, h)
    ensures CalmRun(t, a + b, cap, h) && Final(t, a + b) == Final(Final(t, a), b)
    decreases |a|
  {
    if a == [] {
      assert a + b == b;
    } else {
      assert (a + b)[1..] == a[1..] + b;
      RunsJoin(Applied(t, a[0]), a[1..], b, cap, h);
    }
  }

  lemma {:induction false} Wider<V>(t: Tree<V>, ops: seq<Op<V>>, cap: nat, h: nat, cap': nat, h': nat)
    requires CalmRun(t, ops, cap, h) && cap <= cap' && h <= h'
    ensures CalmRun(t, ops, cap', h')
    decreases |ops|
  {
    if ops != [] { Wider(Applied(t, ops[0]), ops[1..], cap, h, cap', h'); }
  }

  predicate Within<V>(ops: seq<Op<V>>, lo: int, hi: int) {
    forall i :: 0 <= i < |ops| ==> lo <= ops[i].key < hi
  }

  /** A run in the left subtree, the right one being as high. */
  lemma {:induction false} RunLeft<V>(l: Tree<V>, k: int, v: V, r: Tree<V>, ops: seq<Op<V>>, cap: nat, h: nat, lo: int)
    requires CalmRun(l, ops, cap, h) && Within(ops, lo, k) && Above(Keys(r), k)
    requires h <= Height(r) + 1 && Height(Final(l, ops)) <= Height(r) + 1
    ensures CalmRun(Node(l, k, v, r), ops, cap + 1 + Size(r), 1 + Max(h, Height(r)))
    ensures Final(Node(l, k, v, r), ops) == Node(Final(l, ops), k, v, r)
    decreases |ops|
  {
    if ops != [] {
      OpLeft(l, k, v, r, ops[0]);
      RunLeft(Applied(l, ops[0]), k, v, r, ops[1..], cap, h, lo);
    }
  }

  lemma OpLeft<V>(l: Tree<V>, k: int, v: V, r: Tree<V>, op: Op<V>)
    requires CalmOp(l, op) && op.key < k && Above(Keys(r), k) && Height(Applied(l, op)) <= Height(r) + 1
    ensures CalmOp(Node(l, k, v, r), op) && Applied(Node(l, k, v, r), op) == Node(Applied(l, op), k, v, r)
  {
    hide Height;
  }

  lemma {:induction false} RunRight<V>(l: Tree<V>, k: int, v: V, r: Tree<V>, ops: seq<Op<V>>, cap: nat, h: nat, hi: int)
    requires CalmRun(r, ops, cap, h) && Within(ops, k + 1, hi) && Below(Keys(l), k)
    requires h <= Height(l) + 1 && Height(Final(r, ops)) <= Height(l) + 1
    ensures CalmRun(Node(l, k, v, r), ops, cap + 1 + Size(l), 1 + Max(h, Height(l)))
    ensures Final(Node(l, k, v, r), ops) == Node(l, k, v, Final(r, ops))
    decreases |ops|
  {
    if ops != [] {
      OpRight(l, k, v, r, ops[0]);
      RunRight(l, k, v, Applied(r, ops[0]), ops[1..], cap, h, hi);
    }
  }

  lemma OpRight<V>(l: Tree<V>, k: int, v: V, r: Tree<V>, op: Op<V>)
    requires CalmOp(r, op) && op.key > k && Below(Keys(l), k) && Height(Applied(r, op)) <= Height(l) + 1
    ensures CalmOp(Node(l, k, v, r), op) && Applied(Node(l, k, v, r), op) == Node(l, k, v, Applied(r, op))
  {
    hide Height;
  }

  // ----- A tree that grows with few keys -----

  // The keys from `lo` on are laid out as in a full tree of `d` levels, and keep their places.
  function Middle(lo: int, d: nat): int
    requires d > 0
  {
    lo + Pow2(d - 1) - 1
  }

  function RightOf(lo: int, d: nat): int
    requires d > 0
  {
    lo + Pow2(d - 1)
  }

  /** A tree of one node a level, always on the left. */
  function Spine<V>(lo: int, d: nat, h: nat, v: V): Tree<V>
    requires h <= d
  {
    if h == 0 then Nil else Node(Spine(lo, d - 1, h - 1, v), Middle(lo, d), v, Nil)
  }

  /** From one spine to the next: a second spine on the right lets the left one grow, and goes. */
  function GrowOps<V>(lo: int, d: nat, h: nat, v: V): seq<Op<V>>
    requires h < d
    decreases h
  {
    if h == 0 then [Put(Middle(lo, d), v)]
    else BuildOps(RightOf(lo, d), d - 1, h - 1, v) + GrowOps(lo, d - 1, h - 1, v) + ClearOps(RightOf(lo, d), d - 1, h - 1)
  }

  /** A spine from nothing. */
  function BuildOps<V>(lo: int, d: nat, h: nat, v: V): seq<Op<V>>
    requires h <= d
    decreases h
  {
    if h == 0 then [] else BuildOps(lo, d, h - 1, v) + GrowOps(lo, d, h - 1, v)
  }

  /** A spine removed from the top. */
  function ClearOps<V>(lo: int, d: nat, h: nat): seq<Op<V>>
    requires h <= d
    decreases h
  {
    if h == 0 then [] else [Drop(Middle(lo, d))] + ClearOps(lo, d - 1, h - 1)
  }

  /** The same growth as `GrowOps`, ending with the insertion on the new level. */
  function RaiseOps<V>(lo: int, d: nat, h: nat, v: V): seq<Op<V>>
    requires h < d
    decreases h
  {
    if h == 0 then [Put(Middle(lo, d), v)]
    else BuildOps(RightOf(lo, d), d - 1, h - 1, v) + RaiseOps(lo, d - 1, h - 1, v)
  }

  /** The key of that insertion. */
  function Newest(lo: int, d: nat, h: nat): int
    requires h < d
  {
    if h == 0 then Middle(lo, d) else Newest(lo, d - 1, h - 1)
  }

  /** The most keys that growing from `h` levels takes: 1 + h * (h + 1) / 2. */
  function Peak(h: nat): nat {
    if h == 0 then 1 else h + Peak(h - 1)
  }

  lemma {:induction false} PeakIs(h: nat)
    ensures 2 * Peak(h) == 2 + h * (h + 1) && Peak(h) >= h + 1
  {
    if h > 0 { PeakIs(h - 1); }
  }

  lemma {:induction false} SpineFacts<V>(lo: int, d: nat, h: nat, v: V)
    requires h <= d
    ensures var t := Spine(lo, d, h, v);
            Height(t) == h && Size(t) == h && forall k :: k in Keys(t) ==> lo <= k < lo + Pow2(d) - 1
  {
    if h > 0 {
      SpineFacts(lo, d - 1, h - 1, v);
    }
  }

  /** Removing the top of a spine leaves a shorter one. */
  lemma TopDrop<V>(lo: int, d: nat, h: nat, v: V)
    requires 0 < h <= d
    ensures var t := Spine(lo, d, h, v);
            CalmOp(t, Drop(Middle(lo, d))) && Applied(t, Drop(Middle(lo, d))) == Spine(lo, d - 1, h - 1, v)
    ensures lo <= Middle(lo, d) < lo + Pow2(d) - 1 && Pow2(d - 1) <= Pow2(d)
  {
  }

  lemma {:induction false} ClearRun<V>(lo: int, d: nat, h: nat, v: V)
    requires h <= d
    ensures CalmRun(Spine(lo, d, h, v), ClearOps(lo, d, h), h, h) && Final(Spine(lo, d, h, v), ClearOps(lo, d, h)) == Nil
    ensures Within<V>(ClearOps(lo, d, h), lo, lo + Pow2(d) - 1)
  {
    hide Keys, CalmDrop, Deleted, Middle, Height, Depth, Size, Ordered, Balanced;
    SpineFacts(lo, d, h, v);
    if h > 0 {
      var t := Spine(lo, d, h, v);
      var ops := ClearOps<V>(lo, d, h);
      ClearRun(lo, d - 1, h - 1, v);
      ClearParts<V>(lo, d, h);
      TopDrop(lo, d, h, v);
      hide Pow2, Spine, ClearOps;
      Wider(Spine(lo, d - 1, h - 1, v), ops[1..], h - 1, h - 1, h, h);
      WithinWider<V>(ops[1..], lo, lo + Pow2(d - 1) - 1, lo, lo + Pow2(d) - 1);
      forall i | 0 <= i < |ops| ensures lo <= ops[i].key < lo + Pow2(d) - 1 {
        if i > 0 { assert ops[i] == ops[1..][i - 1]; }
      }
    }
  }

  lemma ClearParts<V>(lo: int, d: nat, h: nat)
    requires 0 < h <= d
    ensures var ops := ClearOps<V>(lo, d, h);
            |ops| > 0 && ops[0] == Drop(Middle(lo, d)) && ops[1..] == ClearOps(lo, d - 1, h - 1)
    ensures Pow2(d) == 2 * Pow2(d - 1) && Pow2(d - 1) >= 1
  {
  }

  lemma WithinWider<V>(ops: seq<Op<V>>, lo: int, hi: int, lo': int, hi': int)
    requires Within(ops, lo, hi) && lo' <= lo && hi <= hi'
    ensures Within(ops, lo', hi')
  {
  }

  lemma WithinJoin<V>(a: seq<Op<V>>, b: seq<Op<V>>, lo: int, hi: int)
    requires Within(a, lo, hi) && Within(b, lo, hi)
    ensures Within(a + b, lo, hi)
  {
  }

  function BuildPeak(h: nat): nat {
    if h == 0 then 0 else Peak(h - 1)
  }

  lemma PeakRoom(h: nat)
    requires h > 0
    ensures BuildPeak(h - 1) + h <= Peak(h) && Peak(h - 1) + h == Peak(h) && 2 * h <= Peak(h) && BuildPeak(h) <= Peak(h)
  {
    PeakIs(h - 1);
  }

  lemma SpineNode<V>(lo: int, d: nat, h: nat, v: V)
    requires 0 < h <= d
    ensures Spine(lo, d, h, v) == Node(Spine(lo, d - 1, h - 1, v), Middle(lo, d), v, Nil)
    ensures RightOf(lo, d) == Middle(lo, d) + 1 == lo + Pow2(d - 1) && RightOf(lo, d) + Pow2(d - 1) == lo + Pow2(d)
    ensures Pow2(d - 1) >= 1
  {
  }

  /** The second spine comes. */
  lemma ComeRun<V>(lo: int, d: nat, h: nat, v: V, ops: seq<Op<V>>)
    requires 0 < h < d && CalmRun(Nil, ops, BuildPeak(h - 1), h - 1) && Final(Nil, ops) == Spine(RightOf(lo, d), d - 1, h - 1, v)
    requires Within(ops, RightOf(lo, d), RightOf(lo, d) + Pow2(d - 1) - 1)
    ensures CalmRun(Spine(lo, d, h, v), ops, Peak(h), h)
    ensures Final(Spine(lo, d, h, v), ops)
         == Node(Spine(lo, d - 1, h - 1, v), Middle(lo, d), v, Spine(RightOf(lo, d), d - 1, h - 1, v))
  {
    hide CalmRun, Final, Peak, BuildPeak, Pow2, Spine, Within;
    var c, k := Spine(lo, d - 1, h - 1, v), Middle(lo, d);
    SpineNode(lo, d, h, v);
    SpineFacts(lo, d - 1, h - 1, v);
    SpineFacts(RightOf(lo, d), d - 1, h - 1, v);
    PeakRoom(h);
    RunRight(c, k, v, Nil, ops, BuildPeak(h - 1), h - 1, RightOf(lo, d) + Pow2(d - 1) - 1);
    Wider(Spine(lo, d, h, v), ops, BuildPeak(h - 1) + 1 + Size(c), 1 + Max(h - 1, Height(c)), Peak(h), h);
  }

  /** The left spine grows beside it. */
  lemma LeftRun<V>(lo: int, d: nat, h: nat, v: V, ops: seq<Op<V>>, g: nat)
    requires 0 < h < d && CalmRun(Spine(lo, d - 1, h - 1, v), ops, Peak(h - 1), g) && g <= h
    requires Height(Final(Spine(lo, d - 1, h - 1, v), ops)) == h && Within(ops, lo, lo + Pow2(d - 1) - 1)
    ensures var s2 := Spine(RightOf(lo, d), d - 1, h - 1, v);
            var t := Node(Spine(lo, d - 1, h - 1, v), Middle(lo, d), v, s2);
            && CalmRun(t, ops, Peak(h), 1 + Max(g, h - 1))
            && Final(t, ops) == Node(Final(Spine(lo, d - 1, h - 1, v), ops), Middle(lo, d), v, s2)
  {
    hide CalmRun, Final, Peak, Pow2, Spine, Within;
    SpineNode(lo, d, h, v);
    SpineFacts(RightOf(lo, d), d - 1, h - 1, v);
    PeakRoom(h);
    RunLeft(Spine(lo, d - 1, h - 1, v), Middle(lo, d), v, Spine(RightOf(lo, d), d - 1, h - 1, v), ops, Peak(h - 1), g, lo);
  }

  /** The second spine goes. */
  lemma GoRun<V>(lo: int, d: nat, h: nat, v: V)
    requires 0 < h < d
    ensures var t := Node(Spine(lo, d - 1, h, v), Middle(lo, d), v, Spine(RightOf(lo, d), d - 1, h - 1, v));
            var ops := ClearOps(RightOf(lo, d), d - 1, h - 1);
            CalmRun(t, ops, Peak(h), h + 1) && Final(t, ops) == Spine(lo, d, h + 1, v)
  {
    hide CalmRun, Final, Peak, Pow2, Spine, Within, ClearOps;
    var c, k, s2 := Spine(lo, d - 1, h, v), Middle(lo, d), Spine(RightOf(lo, d), d - 1, h - 1, v);
    var ops: seq<Op<V>> := ClearOps(RightOf(lo, d), d - 1, h - 1);
    SpineNode(lo, d, h + 1, v);
    SpineFacts(lo, d - 1, h, v);
    SpineFacts(RightOf(lo, d), d - 1, h - 1, v);
    PeakRoom(h);
    ClearRun(RightOf(lo, d), d - 1, h - 1, v);
    RunRight(c, k, v, s2, ops, h - 1, h - 1, RightOf(lo, d) + Pow2(d - 1) - 1);
    Wider(Node(c, k, v, s2), ops, h - 1 + 1 + Size(c), 1 + Max(h - 1, Height(c)), Peak(h), h + 1);
  }

  lemma FirstRun<V>(lo: int, d: nat, v: V, h: nat)
    requires d > 0 && lo >= 0
    ensures CalmRun(Nil, [Put(Middle(lo, d), v)], 1, h) && Final(Nil, [Put(Middle(lo, d), v)]) == Node(Nil, Middle(lo, d), v, Nil)
    ensures Within([Put(Middle(lo, d), v)], lo, lo + Pow2(d) - 1)
  {
    var ops := [Put(Middle(lo, d), v)];
    assert ops[1..] == [] && Applied(Nil, ops[0]) == Node(Nil, Middle(lo, d), v, Nil);
    assert Pow2(d - 1) >= 1;
  }

  lemma Nothing<V>(lo: int, d: nat, v: V)
    ensures Spine(lo, d, 0, v) == Nil && Peak(0) == 1 && BuildOps(lo, d, 0, v) == [] && CalmRun<V>(Nil, [], 0, 0)
    ensures Within<V>([], lo, lo + Pow2(d) - 1) && BuildPeak(0) == 0 && Final<V>(Nil, []) == Nil
    ensures d > 0 ==>
              && GrowOps(lo, d, 0, v) == [Put(Middle(lo, d), v)] == RaiseOps(lo, d, 0, v) && Newest(lo, d, 0) == Middle(lo, d)
              && Spine(lo, d, 1, v) == Node(Nil, Middle(lo, d), v, Nil) && lo <= Middle(lo, d) < lo + Pow2(d) - 1
  {
  }

  lemma OpsParts<V>(lo: int, d: nat, h: nat, v: V)
    requires 0 < h < d
    ensures GrowOps(lo, d, h, v) == BuildOps(RightOf(lo, d), d - 1, h - 1, v) + GrowOps(lo, d - 1, h - 1, v)
                                    + ClearOps(RightOf(lo, d), d - 1, h - 1)
    ensures RaiseOps(lo, d, h, v) == BuildOps(RightOf(lo, d), d - 1, h - 1, v) + RaiseOps(lo, d - 1, h - 1, v)
    ensures Newest(lo, d, h) == Newest(lo, d - 1, h - 1)
  {
  }

  lemma BuildParts<V>(lo: int, d: nat, h: nat, v: V)
    requires 0 < h <= d
    ensures BuildOps(lo, d, h, v) == BuildOps(lo, d, h - 1, v) + GrowOps(lo, d, h - 1, v) && BuildPeak(h) == Peak(h - 1)
  {
  }

  lemma OneLeaf<V>(k: int, v: V)
    ensures var t := Node(Nil, k, v, Nil);
            k in Keys(t) && Depth(t, k) == 0 && Height(t) == 1
  {
  }

  /** Growing by a level takes at most Peak(h) keys and leaves a spine again. */
  lemma {:induction false} GrowRun<V>(lo: int, d: nat, h: nat, v: V)
    requires h < d && lo >= 0
    ensures CalmRun(Spine(lo, d, h, v), GrowOps(lo, d, h, v), Peak(h), h + 1)
    ensures Final(Spine(lo, d, h, v), GrowOps(lo, d, h, v)) == Spine(lo, d, h + 1, v)
    ensures Within(GrowOps(lo, d, h, v), lo, lo + Pow2(d) - 1)
    decreases h
  {
    hide CalmRun, Final, Peak, Pow2, Spine, Within, ClearOps, BuildOps, GrowOps, Middle, RightOf, BuildPeak;
    if h == 0 {
      Nothing(lo, d, v);
      FirstRun(lo, d, v, 1);
    } else {
      SpineNode(lo, d, h, v);
      BuildRun(RightOf(lo, d), d - 1, h - 1, v);
      GrowRun(lo, d - 1, h - 1, v);
      GrowCalm(lo, d, h, v);
      GrowWithin(lo, d, h, v);
    }
  }

  lemma GrowCalm<V>(lo: int, d: nat, h: nat, v: V)
    requires 0 < h < d && lo >= 0
    requires var (right, a) := (RightOf(lo, d), BuildOps(RightOf(lo, d), d - 1, h - 1, v));
             && CalmRun(Nil, a, BuildPeak(h - 1), h - 1) && Final(Nil, a) == Spine(right, d - 1, h - 1, v)
             && Within(a, right, right + Pow2(d - 1) - 1)
    requires var b := GrowOps(lo, d - 1, h - 1, v);
             && CalmRun(Spine(lo, d - 1, h - 1, v), b, Peak(h - 1), h)
             && Final(Spine(lo, d - 1, h - 1, v), b) == Spine(lo, d - 1, h, v) && Within(b, lo, lo + Pow2(d - 1) - 1)
    ensures CalmRun(Spine(lo, d, h, v), GrowOps(lo, d, h, v), Peak(h), h + 1)
    ensures Final(Spine(lo, d, h, v), GrowOps(lo, d, h, v)) == Spine(lo, d, h + 1, v)
  {
    hide CalmRun, Final, Peak, Pow2, Spine, Within, ClearOps, BuildOps, GrowOps, Middle, RightOf, BuildPeak, Height;
    var right := RightOf(lo, d);
    var a, b, c := BuildOps(right, d - 1, h - 1, v), GrowOps(lo, d - 1, h - 1, v), ClearOps<V>(right, d - 1, h - 1);
    var t := Spine(lo, d, h, v);
    OpsParts(lo, d, h, v);
    ComeRun(lo, d, h, v, a);
    Wider(t, a, Peak(h), h, Peak(h), h + 1);
    SpineFacts(lo, d - 1, h, v);
    LeftRun(lo, d, h, v, b, h);
    RunsJoin(t, a, b, Peak(h), h + 1);
    GoRun(lo, d, h, v);
    RunsJoin(t, a + b, c, Peak(h), h + 1);
  }

  lemma GrowWithin<V>(lo: int, d: nat, h: nat, v: V)
    requires 0 < h < d && lo >= 0
    requires Within(BuildOps(RightOf(lo, d), d - 1, h - 1, v), RightOf(lo, d), RightOf(lo, d) + Pow2(d - 1) - 1)
    requires Within(GrowOps(lo, d - 1, h - 1, v), lo, lo + Pow2(d - 1) - 1)
    ensures Within(GrowOps(lo, d, h, v), lo, lo + Pow2(d) - 1)
  {
    hide Peak, Spine, Within, ClearOps, BuildOps, GrowOps, Middle, RightOf, Pow2;
    var k, right := Middle(lo, d), RightOf(lo, d);
    var a, b, c := BuildOps(right, d - 1, h - 1, v), GrowOps(lo, d - 1, h - 1, v), ClearOps<V>(right, d - 1, h - 1);
    SpineNode(lo, d, h, v);
    OpsParts(lo, d, h, v);
    ClearRun(right, d - 1, h - 1, v);
    WithinParts(a, b, lo, k, right, lo + Pow2(d) - 1);
    WithinWider(c, right, right + Pow2(d - 1) - 1, lo, lo + Pow2(d) - 1);
    WithinJoin(a + b, c, lo, lo + Pow2(d) - 1);
  }

  lemma WithinParts<V>(a: seq<Op<V>>, b: seq<Op<V>>, lo: int, k: int, right: int, hi: int)
    requires Within(a, right, hi) && Within(b, lo, k) && lo <= k < right <= hi
    ensures Within(a + b, lo, hi)
  {
  }

  /** A spine of any height is built with few keys. */
  lemma {:induction false} BuildRun<V>(lo: int, d: nat, h: nat, v: V)
    requires h <= d && lo >= 0
    ensures CalmRun(Nil, BuildOps(lo, d, h, v), BuildPeak(h), h) && Final(Nil, BuildOps(lo, d, h, v)) == Spine(lo, d, h, v)
    ensures Within(BuildOps(lo, d, h, v), lo, lo + Pow2(d) - 1)
    decreases h
  {
    hide Peak, Pow2, Spine, Within, GrowOps, CalmRun, Final, BuildPeak, BuildOps;
    if h == 0 {
      Nothing(lo, d, v);
    } else {
      var a, b := BuildOps(lo, d, h - 1, v), GrowOps(lo, d, h - 1, v);
      BuildParts(lo, d, h, v);
      BuildRun(lo, d, h - 1, v);
      GrowRun(lo, d, h - 1, v);
      BuildPeakLess(h);
      Wider(Nil, a, BuildPeak(h - 1), h - 1, BuildPeak(h), h);
      RunsJoin(Nil, a, b, BuildPeak(h), h);
      WithinJoin(a, b, lo, lo + Pow2(d) - 1);
    }
  }

  lemma BuildPeakLess(h: nat)
    requires h > 0
    ensures BuildPeak(h - 1) <= BuildPeak(h)
  {
    if h > 1 { PeakRoom(h - 1); }
  }

  /** The growth that ends with an insertion on level `h`. */
  lemma {:induction false} RaiseRun<V>(lo: int, d: nat, h: nat, v: V)
    requires h < d && lo >= 0
    ensures var t := Final(Spine(lo, d, h, v), RaiseOps(lo, d, h, v));
            && CalmRun(Spine(lo, d, h, v), RaiseOps(lo, d, h, v), Peak(h), h)
            && Height(t) == h + 1 && Newest(lo, d, h) in Keys(t) && Depth(t, Newest(lo, d, h)) == h
    ensures Within(RaiseOps(lo, d, h, v), lo, lo + Pow2(d) - 1) && lo <= Newest(lo, d, h) < lo + Pow2(d) - 1
    decreases h
  {
    hide CalmRun, Final, Peak, Pow2, Spine, Within, BuildOps, RaiseOps, RightOf, Newest, Middle, Depth, Keys, Height;
    if h == 0 {
      Nothing(lo, d, v);
      FirstRun(lo, d, v, 0);
      OneLeaf(Middle(lo, d), v);
    } else {
      var k, right := Middle(lo, d), RightOf(lo, d);
      var a, b := BuildOps(right, d - 1, h - 1, v), RaiseOps(lo, d - 1, h - 1, v);
      SpineNode(lo, d, h, v);
      BuildRun(right, d - 1, h - 1, v);
      RaiseRun(lo, d - 1, h - 1, v);
      OpsParts(lo, d, h, v);
      var t, u := Spine(lo, d, h, v), Final(Spine(lo, d - 1, h - 1, v), b);
      ComeRun(lo, d, h, v, a);
      LeftRun(lo, d, h, v, b, h - 1);
      RunsJoin(t, a, b, Peak(h), h);
      WithinParts(a, b, lo, k, right, lo + Pow2(d) - 1);
      SpineFacts(right, d - 1, h - 1, v);
      Deeper(u, k, v, Spine(right, d - 1, h - 1, v), Newest(lo, d, h));
    }
  }

  lemma Deeper<V>(l: Tree<V>, k: int, v: V, r: Tree<V>, key: int)
    requires key in Keys(l) && key < k && Height(r) <= Height(l)
    ensures var t := Node(l, k, v, r);
            key in Keys(t) && Depth(t, key) == 1 + Depth(l, key) && Height(t) == 1 + Height(l)
  {
  }

  // ----- Out of reach within the capacity -----

  /** Makes a run without rotations: the tree follows it step by step. */
  method RunCalm<V>(m: TeeAvl<V>, ops: seq<Op<V>>, ghost cap: nat) returns (ok: bool)
    requires m.Valid() && CalmRun(m.tree, ops, cap, m.maxHeight)
    modifies m, m.oram
    ensures ok ==> m.Valid() && m.tree == Final(old(m.tree), ops)
    ensures !ok ==> m.oram.Overfull()
  {
    hide EnclaveOram.Valid, Height, Depth, Contents, Keys, Balanced, Ordered, CalmPut, CalmDrop, Attach, Inserted, Deleted, Size;
    ok := true;
    for i := 0 to |ops|
      invariant ok && m.Valid() && CalmRun(m.tree, ops[i..], cap, m.maxHeight)
      invariant Final(m.tree, ops[i..]) == Final(old(m.tree), ops)
    {
      assert ops[i..][1..] == ops[i + 1..];
      assert CalmOp(m.tree, ops[i]);
      ContentsKeys(m.tree);
      if ops[i].Put? {
        DepthInHeight(m.tree, ops[i].key);
        var r := m.Insert(ops[i].key, ops[i].value);
        ok := r.Ok?;
      } else {
        var r := m.Remove(ops[i].key);
        ok := r.Ok?;
      }
      if !ok { return; }
    }
  }

  /** An empty map is brought out of its reach: by a run of insertions and removals during which it
      never has more than Peak(maxHeight) keys (`cap`), and after which a key of the map is not found. */
  method OutgrowReach<V>(m: TeeAvl<V>, v: V) returns (r: Result<V>, ops: seq<Op<V>>, found: bool, key: int)
    requires m.Valid() && m.Map() == map[]
    modifies m, m.oram
    ensures CalmRun(Nil, ops, Peak(m.maxHeight), m.maxHeight)
    ensures r.Ok? ==> m.Valid() && key in m.Map() && !found && |m.Map()| <= Peak(m.maxHeight)
    ensures r.Err? ==> m.oram.Overfull()
  {
    hide EnclaveOram.Valid, Height, Depth, Contents, Keys, Balanced, Ordered, CalmRun, Final, Spine, BuildOps, RaiseOps, Peak,
         BuildPeak, Newest, Within, Size;
    var h := m.maxHeight;
    EmptyContents(m.tree);
    var build, raise := BuildOps(0, h + 1, h, v), RaiseOps(0, h + 1, h, v);
    ops, key, found := build + raise, Newest(0, h + 1, h), false;
    BuildRun(0, h + 1, h, v);
    RaiseRun(0, h + 1, h, v);
    PeakRoom(h);
    Wider(Nil, build, BuildPeak(h), h, Peak(h), h);
    RunsJoin(Nil, build, raise, Peak(h), h);
    FinalSize(Nil, ops, Peak(h), h);
    var ok := RunCalm(m, ops, Peak(h));
    if !ok { return Err(StashOverflow), ops, false, key; }
    ContentsKeys(m.tree);
    OrderedSize(m.tree);
    ghost var keys := m.Map();
    r, found := m.SearchOrDummy(key, true, None, None);
  }

  lemma {:induction false} FinalSize<V>(t: Tree<V>, ops: seq<Op<V>>, cap: nat, h: nat)
    requires CalmRun(t, ops, cap, h)
    ensures Size(Final(t, ops)) <= cap
    decreases |ops|
  {
    if ops != [] { FinalSize(Applied(t, ops[0]), ops[1..], cap, h); }
  }

  lemma {:induction false} CubeBelow(h: nat)
    requires h >= 10
    ensures Power(Peak(h) - 1, 3) <= Power(4, h - 1)
  {
    var x := Peak(h - 1) - 1;
    if h == 10 {
      TenLevels();
    } else {
      CubeBelow(h - 1);
      PeakIs(h - 1);
      RoomForLevel(h);
      Cube(x);
      Cube(x + h);
      HalfMore(x, x + h);
    }
  }

  lemma TenLevels()
    ensures Peak(10) - 1 == 55 && Power(55, 3) <= Power(4, 9)
  {
    assert Peak(5) == 16;
    assert Peak(10) == 10 + (9 + (8 + (7 + (6 + Peak(5)))));
    Cube(55);
    assert Power(4, 4) == 256;
    hide Power;
    PowerSum(4, 4, 4);
    PowerSum(4, 8, 1);
    assert Power(4, 1) == 4 by { First(4); }
  }

  lemma First(b: nat)
    ensures Power(b, 1) == b
  {
    assert Power(b, 1) == b * Power(b, 0);
  }

  lemma RoomForLevel(h: nat)
    requires h > 10
    ensures Peak(h) - 1 == Peak(h - 1) - 1 + h && 2 * h <= Peak(h - 1) - 1
  {
    PeakIs(h - 1);
    Product(4, h - 1, h, h);
  }

  lemma Cube(x: nat)
    ensures Power(x, 3) == x * x * x
  {
    Square(x);
    PowerSum(x, 2, 1);
    First(x);
  }

  /** Half as much again is less than four times the cube. */
  lemma HalfMore(x: nat, y: nat)
    requires 2 * y <= 3 * x
    ensures y * y * y <= 4 * (x * x * x)
  {
    var a, b := 2 * y, 3 * x;
    Product(a, b, a, b);
    Product(a * a, b * b, a, b);
    Eight(y);
    TwentySeven(x);
  }

  lemma Eight(y: nat)
    ensures 2 * y * (2 * y) * (2 * y) == 8 * (y * y * y)
  {
  }

  lemma TwentySeven(x: nat)
    ensures 3 * x * (3 * x) * (3 * x) == 27 * (x * x * x)
  {
  }

  /** With so many keys fewer than the run takes, a limit one lower would do. */
  lemma LowLimit(c: nat, h: nat)
    requires h >= 9 && 2 <= c < Peak(h)
    ensures LimitFor(c, h - 1)
  {
    hide Power, Peak;
    PowerMonotone(c, Peak(h) - 1, 36);
    if h == 9 {
      NineLevels();
      PowerOfPower(45, 2, 18);
      PowerMonotone(Power(45, 2), Power(2, 11), 18);
      PowerOfPower(2, 11, 18);
      PowerGrows(198, 200);
    } else {
      CubeBelow(h);
      PowerOfPower(Peak(h) - 1, 3, 12);
      PowerMonotone(Power(Peak(h) - 1, 3), Power(4, h - 1), 12);
      assert Power(4, h - 1) == Power(2, 2 * (h - 1)) by { Square(2); PowerOfPower(2, 2, h - 1); }
      PowerOfPower(2, 2 * (h - 1), 12);
      PowerGrows(24 * (h - 1), 25 * (h - 1));
    }
  }

  lemma NineLevels()
    ensures Peak(9) - 1 == 45 && Power(45, 2) <= Power(2, 11)
  {
    assert Peak(5) == 16;
    assert Peak(9) == 9 + (8 + (7 + (6 + Peak(5))));
    Square(45);
    PowerSum(2, 6, 5);
    assert Power(2, 6) == 64 && Power(2, 5) == 32;
  }

  lemma {:induction false} PeakGrows(a: nat, b: nat)
    requires a <= b
    ensures Peak(a) <= Peak(b)
  {
    if a < b { PeakGrows(a, b - 1); }
  }

  /** For every capacity from 37 on the run fits: with the least limit for the capacity, a map that
      never has more keys than its capacity can lose one to its searches. */
  lemma CapacityIsEnough(capacity: nat, h: nat)
    requires capacity >= 37 && h > 0 && LimitFor(capacity, h) && !LimitFor(capacity, h - 1)
    ensures Peak(h) <= capacity
  {
    hide Power, Peak;
    if h <= 8 {
      PeakGrows(h, 8);
      EightLevels();
    } else if capacity < Peak(h) {
      LowLimit(capacity, h);
    }
  }

  lemma EightLevels()
    ensures Peak(8) == 37 && Peak(7) == 29
  {
    assert Peak(5) == 16;
    assert Peak(7) == 7 + (6 + Peak(5));
    assert Peak(8) == 8 + Peak(7);
  }
}
