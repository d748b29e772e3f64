/** The enclave's node list (tee_avl_omap): real nodes with dummy entries among them, so that its
    length does not depend on the tree. Every operation scans the whole list; without the
    dummies it is the corresponding operation on the list of real nodes. */
module TeeLists {
  import opened Common
  import opened AvlLocal

  /** An entry of the list; a dummy has the invalid key and a meaningless node. */
  datatype Entry<+V> = Entry(key: int, leaf: int, avl: AvlNode<V>, parentKey: int) {
    predicate Real() {
      key != INVALID_KEY
    }
  }

  type Padded<+V> = seq<Entry<V>>

  function AsLocal<V>(e: Entry<V>): LocalNode<V> {
    LocalNode(e.key, if e.leaf >= 0 then e.leaf else 0, e.avl, e.parentKey)
  }

  /** The list without its dummies. */
  function Reals<V>(p: Padded<V>): Local<V> {
    if p == [] then []
    else Reals(p[..|p| - 1]) + (if p[|p| - 1].Real() then [AsLocal(p[|p| - 1])] else [])
  }

  /** Number of real entries before index `i`. */
  function Rank<V>(p: Padded<V>, i: nat): nat
    requires i <= |p|
  {
    |Reals(p[..i])|
  }

  /** Real entries have real, pairwise different keys and real leaves. */
  ghost predicate Sound<V>(p: Padded<V>) {
    && (forall i :: 0 <= i < |p| && p[i].Real() ==> p[i].key >= 0 && p[i].leaf >= 0)
    && (forall i, j :: 0 <= i < j < |p| && p[i].Real() && p[j].Real() ==> p[i].key != p[j].key)
  }

  ghost predicate SameShape<V>(p: Padded<V>, r: Padded<V>) {
    |r| == |p| && forall i :: 0 <= i < |p| ==> r[i].key == p[i].key
  }

  // ----- The real entries -----

  lemma {:induction false} RealsPrefix<V>(p: Padded<V>, i: nat)
    requires i < |p|
    ensures Rank(p, i) <= |Reals(p)| && Rank(p, i + 1) == Rank(p, i) + (if p[i].Real() then 1 else 0)
    ensures p[i].Real() ==> Rank(p, i) < |Reals(p)| && Reals(p)[Rank(p, i)] == AsLocal(p[i])
    ensures Reals(p[..i]) == Reals(p)[..Rank(p, i)]
  {
    assert p[..i + 1][..i] == p[..i];
    if i == |p| - 1 {
      assert p[..i + 1] == p;
    } else {
      var q := p[..|p| - 1];
      RealsPrefix(q, i);
      assert q[..i] == p[..i] && q[..i + 1] == p[..i + 1];
    }
  }

  lemma RankEnds<V>(p: Padded<V>)
    ensures Rank(p, 0) == 0 && Rank(p, |p|) == |Reals(p)|
  {
    assert p[..|p|] == p && p[..0] == [];
  }

  lemma {:induction false} RealsOrigin<V>(p: Padded<V>, r: nat) returns (i: nat)
    requires r < |Reals(p)|
    ensures i < |p| && p[i].Real() && Rank(p, i) == r && Reals(p)[r] == AsLocal(p[i])
  {
    var n := |p| - 1;
    if p[n].Real() && r == |Reals(p)| - 1 {
      i := n;
    } else {
      i := RealsOrigin(p[..n], r);
      assert p[..n][..i] == p[..i];
    }
  }

  lemma SoundUnique<V>(p: Padded<V>)
    requires Sound(p)
    ensures Unique(Reals(p))
  {
    hide Reals, Rank;
    forall r, r' | 0 <= r < r' < |Reals(p)| ensures Reals(p)[r].key >= 0 && Reals(p)[r].key != Reals(p)[r'].key {
      var i := RealsOrigin(p, r);
      var i' := RealsOrigin(p, r');
    }
    forall r | 0 <= r < |Reals(p)| ensures Reals(p)[r].key >= 0 {
      var i := RealsOrigin(p, r);
    }
  }

  /** The real entries by key. */
  ghost function Slots<V>(p: Padded<V>): Index<V>
    requires Sound(p)
  {
    SoundUnique(p);
    At(Reals(p))
  }

  lemma SlotHas<V>(p: Padded<V>, i: nat)
    requires Sound(p) && i < |p| && p[i].Real()
    ensures p[i].key in Slots(p) && Slots(p)[p[i].key] == AsLocal(p[i])
  {
    hide At, Reals, Rank;
    SoundUnique(p);
    RealsPrefix(p, i);
    AtHas(Reals(p), Rank(p, i));
  }

  lemma SlotOf<V>(p: Padded<V>, key: int) returns (i: nat)
    requires Sound(p) && key in Slots(p)
    ensures i < |p| && p[i].Real() && p[i].key == key && Slots(p)[key] == AsLocal(p[i])
  {
    hide At, Reals, Rank;
    SoundUnique(p);
    var r := AtIndex(Reals(p), key);
    i := RealsOrigin(p, r);
  }

  /** Index of the real entry `key`, or -1. */
  ghost function FindSlot<V>(p: Padded<V>, key: int): (i: int)
    requires Sound(p)
    ensures -1 <= i < |p|
    ensures i >= 0 <==> key in Slots(p)
    ensures i >= 0 ==> p[i].Real() && p[i].key == key && Slots(p)[key] == AsLocal(p[i])
    ensures forall j :: 0 <= j < |p| && p[j].Real() && p[j].key == key ==> j == i
  {
    hide Slots;
    if k: nat :| k < |p| && p[k].Real() && p[k].key == key then
      SlotHas(p, k);
      k
    else
      assert key !in Slots(p) by {
        if key in Slots(p) { var k := SlotOf(p, key); }
      }
      -1
  }

  // ----- Changing entries without changing their keys -----

  lemma {:induction false} SameRanks<V>(p: Padded<V>, r: Padded<V>)
    requires SameShape(p, r)
    ensures SameKeys(Reals(p), Reals(r)) && |Reals(r)| == |Reals(p)|
  {
    if p != [] {
      var n := |p| - 1;
      SameRanks(p[..n], r[..n]);
      SameKeysJoin(Reals(p[..n]), Reals(r[..n]), if p[n].Real() then [AsLocal(p[n])] else [],
                   if r[n].Real() then [AsLocal(r[n])] else []);
    }
  }

  lemma SameKeysJoin<V>(a: Local<V>, b: Local<V>, x: Local<V>, y: Local<V>)
    requires SameKeys(a, b) && SameKeys(x, y)
    ensures SameKeys(a + x, b + y)
  {
  }

  lemma SameRankAt<V>(p: Padded<V>, r: Padded<V>, i: nat)
    requires SameShape(p, r) && i <= |p|
    ensures Rank(r, i) == Rank(p, i)
  {
    SameRanks(p[..i], r[..i]);
  }

  lemma {:induction false} RealsUpdate<V>(p: Padded<V>, i: nat, x: Entry<V>)
    requires i < |p| && x.key == p[i].key
    ensures p[i].Real() ==> Rank(p, i) < |Reals(p)| && Reals(p[i := x]) == Reals(p)[Rank(p, i) := AsLocal(x)]
    ensures !p[i].Real() ==> Reals(p[i := x]) == Reals(p)
  {
    var n := |p| - 1;
    if i == n {
      assert p[i := x][..n] == p[..n];
    } else {
      assert p[i := x][..n] == p[..n][i := x];
      assert p[..n][..i] == p[..i];
      RealsUpdate(p[..n], i, x);
    }
  }

  lemma SameSlotKeys<V>(p: Padded<V>, r: Padded<V>)
    requires Sound(p) && Sound(r) && SameShape(p, r)
    ensures Slots(r).Keys == Slots(p).Keys
  {
    hide At, Reals;
    SoundUnique(p);
    SameRanks(p, r);
    SameKeysSameIndex(Reals(p), Reals(r));
  }

  lemma SlotsAre<V>(p: Padded<V>, r: Padded<V>, m: Index<V>)
    requires Sound(p) && Sound(r) && SameShape(p, r) && m.Keys == Slots(p).Keys
    requires forall i :: 0 <= i < |p| && p[i].Real() ==> p[i].key in m && AsLocal(r[i]) == m[p[i].key]
    ensures Slots(r) == m
  {
    hide Slots;
    SameSlotKeys(p, r);
    forall k | k in m ensures Slots(r)[k] == m[k] {
      var i := SlotOf(p, k);
      SlotHas(r, i);
    }
  }

  // ----- Stored heights -----

  /** `e` with the height of each child that is in the list. */
  ghost function RefreshedEntry<V>(p: Padded<V>, e: Entry<V>): Entry<V>
    requires Sound(p)
  {
    if e.Real() then e.(avl := Refresh(AsLocal(e), Slots(p)).avl) else e
  }

  method RefreshEntry<V>(p: Padded<V>, i: nat) returns (e: Entry<V>)
    requires Sound(p) && i < |p|
    ensures e == RefreshedEntry(p, p[i])
  {
    hide Slots;
    e := p[i];
    ghost var l, m := FindSlot(p, e.avl.lKey), FindSlot(p, e.avl.rKey);
    for j := 0 to |p|
      invariant e == p[i].(avl := p[i].avl.(lHeight := e.avl.lHeight, rHeight := e.avl.rHeight))
      invariant e.avl.lHeight == if p[i].Real() && 0 <= l < j then p[l].avl.H() else p[i].avl.lHeight
      invariant e.avl.rHeight == if p[i].Real() && 0 <= m < j then p[m].avl.H() else p[i].avl.rHeight
    {
      var active := p[i].Real() && p[j].Real();
      var isLeft, isRight := active && p[j].key == e.avl.lKey, active && p[j].key == e.avl.rKey;
      var h := p[j].avl.H();
      e := e.(avl := e.avl.(lHeight := if isLeft then h else e.avl.lHeight, rHeight := if isRight then h else e.avl.rHeight));
    }
  }

  lemma SoundUpdate<V>(p: Padded<V>, i: nat, x: Entry<V>)
    requires Sound(p) && i < |p| && x.key == p[i].key && (x.Real() ==> x.leaf >= 0)
    ensures Sound(p[i := x]) && SameShape(p, p[i := x])
  {
  }

  /** `update_heights`: without the dummies it is the refreshing of the real list, last first. */
  method UpdateHeights<V>(p: Padded<V>) returns (r: Padded<V>)
    requires Sound(p)
    ensures SameShape(p, r) && Sound(r)
    ensures Unique(Reals(p)) && Reals(r) == RefreshAll(Reals(p), |Reals(p)|)
  {
    hide At, Refresh, Reals, Rank, Slots, Sound, Unique;
    SoundUnique(p);
    RankEnds(p);
    r := p;
    for i := |p| downto 0
      invariant SameShape(p, r) && Sound(r) && Unique(Reals(r)) && Rank(p, i) <= |Reals(r)|
      invariant RefreshAll(Reals(r), Rank(p, i)) == RefreshAll(Reals(p), |Reals(p)|)
    {
      var e := RefreshEntry(r, i);
      SameRankAt(p, r, i);
      RealsPrefix(p, i);
      RealsPrefix(r, i);
      RealsUpdate(r, i, e);
      SlotsOf(r);
      EntryKeeps(r, i, e);
      SoundUpdate(r, i, e);
      r := r[i := e];
      SoundUnique(r);
    }
    RankEnds(r);
  }

  lemma SlotsOf<V>(p: Padded<V>)
    requires Sound(p)
    ensures Unique(Reals(p)) && Slots(p) == At(Reals(p))
  {
    SoundUnique(p);
  }

  lemma EntryKeeps<V>(p: Padded<V>, i: nat, e: Entry<V>)
    requires Sound(p) && i < |p| && e == RefreshedEntry(p, p[i])
    ensures e.key == p[i].key && e.leaf == p[i].leaf && (e.Real() ==> e.leaf >= 0)
    ensures e.Real() ==> AsLocal(e) == Refresh(AsLocal(p[i]), Slots(p))
  {
  }

  // ----- Conditional rotation -----

  /** The parent of `k` is outside the rotation and points at `k` with one of its sides only. */
  ghost predicate HangsOnce<V>(m: Index<V>, k: int, pk: int)
    requires k in m
  {
    var par := m[k].parentKey;
    && par != k && par != pk
    && (par in m ==> m[par].avl.lKey != k || m[par].avl.rKey != k)
  }

  /** An entry after the scan that writes the pivot back, repoints the parent of `key` and hangs
      the subtree `trans` below `key`. */
  function Scattered<V>(e: Entry<V>, isPivot: bool, up: LocalNode<V>, parent: int, key: int, trans: int): Entry<V> {
    var e1 := if isPivot then e.(parentKey := up.parentKey, avl := up.avl.(data := e.avl.data)) else e;
    var isParent := e1.key == parent && e1.Real();
    var onLeft, onRight := isParent && e1.avl.lKey == key, isParent && e1.avl.rKey == key;
    var h := up.avl.H();
    var e2 := if onLeft then e1.(avl := e1.avl.(lKey := up.key, lLeaf := up.leaf, lHeight := h)) else e1;
    var e3 := if onRight then e2.(avl := e2.avl.(rKey := up.key, rLeaf := up.leaf, rHeight := h)) else e2;
    if trans != INVALID_KEY && e3.Real() && e3.key == trans then e3.(parentKey := key) else e3
  }

  function LoweredEntry<V>(e: Entry<V>, pivot: Entry<V>, left: bool): Entry<V> {
    var n := Lowered(AsLocal(e), AsLocal(pivot), left);
    e.(parentKey := n.parentKey, avl := n.avl)
  }

  /** Full scan for the real entry `key`. */
  method Gather<V>(p: Padded<V>, key: int, default_: Entry<V>) returns (found: bool, at: nat, e: Entry<V>)
    requires Sound(p) && |p| > 0
    ensures found <==> key in Slots(p)
    ensures at < |p|
    ensures found ==> p[at].Real() && p[at].key == key && e == p[at] && Slots(p)[key] == AsLocal(e)
    ensures !found ==> e == default_
  {
    hide Slots;
    found, at, e := false, 0, default_;
    ghost var k := FindSlot(p, key);
    for i := 0 to |p|
      invariant at < |p| && (found <==> 0 <= k < i)
      invariant if found then at == k && e == p[at] else e == default_
    {
      var match_ := p[i].key == key && p[i].Real();
      at := if match_ then i else at;
      e := if match_ then p[i] else e;
      found := found || match_;
    }
  }

  /** The rotation, pointwise. */
  ghost predicate Turned<V>(p: Padded<V>, r: Padded<V>, idx: nat, pi: nat, left: bool)
    requires idx < |p| && pi < |p|
  {
    var node, pivot := p[idx], p[pi];
    var up := Raised(AsLocal(node), AsLocal(pivot), left);
    var q := p[idx := LoweredEntry(node, pivot, left)];
    |r| == |p| && forall i :: 0 <= i < |p| ==>
      r[i] == Scattered(q[i], i == pi, up, node.parentKey, node.key, InnerKey(AsLocal(pivot), left))
  }

  method RotateCond<V>(p: Padded<V>, rootKey: int, idx: nat, active: bool, left: bool)
    returns (r: Padded<V>, rootKey': int)
    requires Sound(p) && idx < |p|
    requires active ==> p[idx].Real() && p[idx].key in Slots(p)
    requires active ==> var pk := PivotKey(AsLocal(p[idx]), left);
                        pk != p[idx].key && (pk in Slots(p) ==> HangsOnce(Slots(p), p[idx].key, pk))
    ensures SameShape(p, r) && Sound(r)
    ensures !active ==> r == p && rootKey' == rootKey
    ensures active ==> Slots(r) == Rotated(Slots(p), p[idx].key, left)
    ensures active ==> var pk := PivotKey(AsLocal(p[idx]), left);
                       rootKey' == if pk in Slots(p) && rootKey == p[idx].key then pk else rootKey
  {
    hide Slots, Sound, Scattered, LoweredEntry, Raised, Lowered, Rotated;
    var node := p[idx];
    var none := Entry(INVALID_KEY, INVALID_LEAF, node.avl, INVALID_KEY);
    var found, pi, pivot := Gather(p, PivotKey(AsLocal(node), left), none);
    var act := active && found;
    var up := Raised(AsLocal(node), AsLocal(pivot), left);
    var trans := InnerKey(AsLocal(pivot), left);
    r := p[idx := if act then LoweredEntry(node, pivot, left) else node];
    ghost var q := r;
    for i := 0 to |p|
      invariant |r| == |p| && forall j :: i <= j < |p| ==> r[j] == q[j]
      invariant forall j :: 0 <= j < i ==>
                  r[j] == if act then Scattered(q[j], j == pi, up, node.parentKey, node.key, trans) else q[j]
    {
      var e := Scattered(r[i], i == pi, up, node.parentKey, node.key, trans);
      r := r[i := if act then e else r[i]];
    }
    rootKey' := if act && rootKey == node.key then pivot.key else rootKey;
    if act {
      TurnedSlots(p, r, idx, pi, left);
    } else {
      assert r == p;
      if active { NothingRotated(p, idx, left); }
    }
  }

  lemma NothingRotated<V>(p: Padded<V>, idx: nat, left: bool)
    requires Sound(p) && idx < |p| && p[idx].Real() && PivotKey(AsLocal(p[idx]), left) !in Slots(p)
    ensures p[idx].key in Slots(p) && Rotated(Slots(p), p[idx].key, left) == Slots(p)
  {
    hide Slots;
    SlotHas(p, idx);
  }

  lemma TurnedShape<V>(p: Padded<V>, r: Padded<V>, idx: nat, pi: nat, left: bool)
    requires Sound(p) && idx < |p| && pi < |p| && Turned(p, r, idx, pi, left)
    ensures SameShape(p, r) && Sound(r)
  {
    forall i | 0 <= i < |p| ensures r[i].key == p[i].key && r[i].leaf == p[i].leaf {
    }
  }

  lemma TurnedSlots<V>(p: Padded<V>, r: Padded<V>, idx: nat, pi: nat, left: bool)
    requires Sound(p) && idx < |p| && pi < |p| && p[idx].Real() && p[pi].Real() && p[idx].key in Slots(p)
    requires Turned(p, r, idx, pi, left) && p[pi].key == PivotKey(AsLocal(p[idx]), left) && p[pi].key != p[idx].key
    requires HangsOnce(Slots(p), p[idx].key, p[pi].key)
    ensures SameShape(p, r) && Sound(r) && Slots(r) == Rotated(Slots(p), p[idx].key, left)
  {
    hide Slots, Scattered, LoweredEntry, Rotated, Sound;
    TurnedShape(p, r, idx, pi, left);
    var k, m := p[idx].key, Slots(p);
    var m' := Rotated(m, k, left);
    RotatedKeys(m, k, left);
    forall i | 0 <= i < |p| && p[i].Real() ensures p[i].key in m' && AsLocal(r[i]) == m'[p[i].key] {
      SlotHas(p, i);
      SlotHas(p, idx);
      SlotHas(p, pi);
      TurnedEntry(p, r, idx, pi, left, i);
    }
    SlotsAre(p, r, m');
  }

  lemma RotatedKeys<V>(m: Index<V>, k: int, left: bool)
    requires k in m
    ensures Rotated(m, k, left).Keys == m.Keys
  {
  }

  lemma DifferentKeys<V>(p: Padded<V>, i: nat, j: nat)
    requires Sound(p) && i < |p| && j < |p| && p[i].Real() && p[j].Real() && p[i].key == p[j].key
    ensures i == j
  {
  }

  lemma TurnedEntry<V>(p: Padded<V>, r: Padded<V>, idx: nat, pi: nat, left: bool, i: nat)
    requires Sound(p) && idx < |p| && pi < |p| && i < |p| && p[idx].Real() && p[pi].Real() && p[i].Real()
    requires Turned(p, r, idx, pi, left) && p[pi].key == PivotKey(AsLocal(p[idx]), left) && p[pi].key != p[idx].key
    requires p[idx].key in Slots(p) && Slots(p)[p[idx].key] == AsLocal(p[idx])
    requires p[pi].key in Slots(p) && Slots(p)[p[pi].key] == AsLocal(p[pi])
    requires p[i].key in Slots(p) && Slots(p)[p[i].key] == AsLocal(p[i])
    requires HangsOnce(Slots(p), p[idx].key, p[pi].key)
    ensures p[i].key in Rotated(Slots(p), p[idx].key, left)
    ensures AsLocal(r[i]) == Rotated(Slots(p), p[idx].key, left)[p[i].key]
  {
    hide Slots, Sound;
    RotatedKeys(Slots(p), p[idx].key, left);
    if p[i].key == p[idx].key { DifferentKeys(p, i, idx); }
    if p[i].key == p[pi].key { DifferentKeys(p, i, pi); }
  }

  // ----- Appending -----

  lemma RealsAppend<V>(p: Padded<V>, e: Entry<V>)
    ensures Reals(p + [e]) == Reals(p) + (if e.Real() then [AsLocal(e)] else [])
  {
    assert (p + [e])[..|p|] == p;
  }

  lemma SoundAppend<V>(p: Padded<V>, e: Entry<V>)
    requires Sound(p) && (e.Real() ==> e.key >= 0 && e.leaf >= 0 && e.key !in Slots(p))
    ensures Sound(p + [e])
  {
    hide Slots;
    forall i | 0 <= i < |p| && p[i].Real() && e.Real() ensures p[i].key != e.key {
      SlotHas(p, i);
    }
  }

  /** If the last entry is real, it is the last of the real list. */
  lemma LastReal<V>(p: Padded<V>)
    requires |p| > 0 && p[|p| - 1].Real()
    ensures |Reals(p)| > 0 && Reals(p)[|Reals(p)| - 1] == AsLocal(p[|p| - 1])
    ensures Rank(p, |p| - 1) + 1 == |Reals(p)|
  {
  }

  lemma DummyAppended<V>(p: Padded<V>, e: Entry<V>, i: nat)
    requires !e.Real() && i <= |p|
    ensures Reals(p + [e]) == Reals(p) && Rank(p + [e], i) == Rank(p, i)
  {
    RealsAppend(p, e);
    assert (p + [e])[..i] == p[..i];
    assert Reals(p) + [] == Reals(p);
  }
}
