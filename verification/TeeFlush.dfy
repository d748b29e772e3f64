/** Fresh leaves for the real entries of the enclave's list, written to their parents by full
    scans (tee_avl_omap `reassign_leaves`). */
module TeeFlush {
  import opened Common
  import opened AvlLocal
  import opened AvlFlush
  import opened TeeLists

  ghost predicate SameButOwnLeaves<V>(p: Padded<V>, r: Padded<V>) {
    && |r| == |p|
    && forall i :: 0 <= i < |p| ==> r[i] == if p[i].Real() then p[i].(leaf := r[i].leaf) else p[i]
  }

  /** Leaf of the child `key` of `parent` if that child is a real entry with index at least `i`. */
  ghost function FedLeaf<V>(p: Padded<V>, parent: int, key: int, leaf: int, i: nat): int
    requires Sound(p)
  {
    var k := FindSlot(p, key);
    if k >= i && p[k].parentKey == parent && parent != INVALID_KEY then p[k].leaf else leaf
  }

  /** The entry `e` after the children with index at least `i` have written their leaves to it. */
  ghost function Fed<V>(p: Padded<V>, e: Entry<V>, i: nat): Entry<V>
    requires Sound(p)
  {
    if !e.Real() then e
    else e.(avl := e.avl.(lLeaf := FedLeaf(p, e.key, e.avl.lKey, e.avl.lLeaf, i),
                          rLeaf := FedLeaf(p, e.key, e.avl.rKey, e.avl.rLeaf, i)))
  }

  /** `e` after one child has been compared with it. */
  function FedBy<V>(e: Entry<V>, child: Entry<V>): Entry<V> {
    var isParent := child.Real() && child.parentKey != INVALID_KEY && e.Real() && e.key == child.parentKey;
    var onLeft, onRight := isParent && e.avl.lKey == child.key, isParent && e.avl.rKey == child.key;
    e.(avl := e.avl.(lLeaf := if onLeft then child.leaf else e.avl.lLeaf,
                     rLeaf := if onRight then child.leaf else e.avl.rLeaf))
  }

  lemma FedStep<V>(p: Padded<V>, e: Entry<V>, i: nat)
    requires Sound(p) && i < |p|
    ensures Fed(p, e, i) == FedBy(Fed(p, e, i + 1), p[i])
    ensures Fed(p, e, i).key == e.key && Fed(p, e, i).parentKey == e.parentKey && Fed(p, e, i).leaf == e.leaf
  {
    hide Slots, Sound;
  }

  lemma FedNothing<V>(p: Padded<V>, e: Entry<V>)
    requires Sound(p)
    ensures Fed(p, e, |p|) == e
  {
    hide Slots, Sound;
  }

  /** Every real child writes its leaf to its real parent. */
  method FeedParents<V>(p: Padded<V>) returns (r: Padded<V>)
    requires Sound(p)
    ensures |r| == |p| && forall j :: 0 <= j < |p| ==> r[j] == Fed(p, p[j], 0)
  {
    hide Slots, Sound, Fed, FedBy;
    r := p;
    forall j | 0 <= j < |p| ensures Fed(p, p[j], |p|) == p[j] {
      FedNothing(p, p[j]);
    }
    for i := |p| downto 0
      invariant |r| == |p| && forall j :: 0 <= j < |p| ==> r[j] == Fed(p, p[j], i)
    {
      ghost var q := r;
      forall j | 0 <= j < |p| ensures Fed(p, p[j], i) == FedBy(q[j], p[i]) {
        FedStep(p, p[j], i);
      }
      var child := r[i];
      if i + 1 < |p| { FedStep(p, p[i], i + 1); }
      for j := 0 to |p|
        invariant |r| == |p| && forall k :: j <= k < |p| ==> r[k] == q[k]
        invariant forall k :: 0 <= k < j ==> r[k] == Fed(p, p[k], i)
      {
        SameChild(q[j], p[i], child);
        r := r[j := FedBy(r[j], child)];
      }
    }
  }

  lemma SameChild<V>(e: Entry<V>, child: Entry<V>, child': Entry<V>)
    requires child'.key == child.key && child'.parentKey == child.parentKey && child'.leaf == child.leaf
    ensures FedBy(e, child') == FedBy(e, child)
  {
  }

  lemma FedReleased<V>(p: Padded<V>, q: Padded<V>, r: Padded<V>)
    requires Sound(p) && Sound(q) && SameButOwnLeaves(p, q)
    requires |r| == |p| && forall j :: 0 <= j < |p| ==> r[j] == Fed(q, q[j], 0)
    ensures SameShape(p, r) && Sound(r) && Released(Slots(p), Slots(r))
    ensures forall j :: 0 <= j < |p| ==> r[j].leaf == q[j].leaf
  {
    hide Slots;
    assert SameShape(p, q) && SameShape(q, r);
    SameSlotKeys(p, q);
    assert Sound(r);
    SameSlotKeys(p, r);
    forall k | k in Slots(p)
      ensures var n, n' := Slots(p)[k], Slots(r)[k];
              && n'.key == n.key && n'.parentKey == n.parentKey
              && n'.avl == n.avl.(lLeaf := n'.avl.lLeaf, rLeaf := n'.avl.rLeaf)
              && LeafReleased(Slots(p), Slots(r), n.key, n.avl.lKey, n.avl.lLeaf, n'.avl.lLeaf)
              && LeafReleased(Slots(p), Slots(r), n.key, n.avl.rKey, n.avl.rLeaf, n'.avl.rLeaf)
    {
      var j := SlotOf(p, k);
      SlotHas(q, j);
      SlotHas(r, j);
      FedLeafReleased(p, q, r, k, p[j].avl.lKey, p[j].avl.lLeaf);
      FedLeafReleased(p, q, r, k, p[j].avl.rKey, p[j].avl.rLeaf);
    }
  }

  lemma FedLeafReleased<V>(p: Padded<V>, q: Padded<V>, r: Padded<V>, parent: int, key: int, leaf: int)
    requires Sound(p) && Sound(q) && Sound(r) && SameButOwnLeaves(p, q) && Slots(q).Keys == Slots(p).Keys == Slots(r).Keys
    requires |r| == |p| && forall j :: 0 <= j < |p| ==> r[j] == Fed(q, q[j], 0)
    requires parent in Slots(p)
    ensures LeafReleased(Slots(p), Slots(r), parent, key, leaf, FedLeaf(q, parent, key, leaf, 0))
  {
    hide Slots;
    var j := SlotOf(p, parent);
    if key in Slots(p) {
      var i := SlotOf(p, key);
      SlotHas(q, i);
      SlotHas(r, i);
    }
  }
}
