/** How one layer's blocks are placed by the counter blocks of the layer above it (da_oram). */
module DaLedgers {
  import opened Common
  import opened StashTrees
  import opened Counters

  function Group(k: nat, n: nat): nat
    requires n > 0
  {
    k / n
  }

  function Slot(k: nat, n: nat): (i: nat)
    requires n > 0
    ensures i < n
  {
    k % n
  }

  /** Number of groups of `n` slots that `total` keys need. */
  function Groups(total: nat, n: nat): nat
    requires n > 0
  {
    (total + n - 1) / n
  }

  /** Slots of group `g` that belong to keys below `total`. */
  function Managed(g: nat, total: nat, n: nat): (m: nat)
    requires n > 0
    ensures m <= n && (n <= total ==> m <= n) && m <= total
  {
    if total <= g * n then 0
    else if total - g * n >= n then n
    else total - g * n
  }

  lemma GroupParts(k: nat, n: nat)
    requires n > 0
    ensures k == Group(k, n) * n + Slot(k, n)
  {
  }

  lemma {:induction false} DivUnique(a: nat, b: nat, i: nat, j: nat, n: nat)
    requires i < n && j < n && a * n + i == b * n + j
    ensures a == b && i == j
  {
    if a < b {
      MulLess(a, b, n);
      assert false;
    } else if b < a {
      MulLess(b, a, n);
      assert false;
    }
  }

  lemma MulLess(a: nat, b: nat, n: nat)
    requires a < b
    ensures a * n + n <= b * n
  {
    assert (b - a) * n >= n by { MulAtLeast(b - a, n); }
    assert b * n == a * n + (b - a) * n;
  }

  lemma MulAtLeast(a: nat, n: nat)
    requires a >= 1
    ensures a * n >= n
  {
  }

  lemma GroupIs(g: nat, i: nat, n: nat)
    requires i < n
    ensures Group(g * n + i, n) == g && Slot(g * n + i, n) == i
  {
    GroupParts(g * n + i, n);
    DivUnique(Group(g * n + i, n), g, Slot(g * n + i, n), i, n);
  }

  lemma GroupInRange(k: nat, total: nat, n: nat)
    requires n > 0 && k < total
    ensures Group(k, n) < Groups(total, n)
    ensures Slot(k, n) < Managed(Group(k, n), total, n)
  {
    GroupParts(k, n);
    GroupParts(total + n - 1, n);
    if Groups(total, n) <= Group(k, n) {
      if Groups(total, n) < Group(k, n) { MulLess(Groups(total, n), Group(k, n), n); }
      assert false;
    }
  }

  /** A slot that belongs to a key names a key below `total`. */
  lemma ManagedKey(g: nat, i: nat, total: nat, n: nat)
    requires n > 0 && i < Managed(g, total, n)
    ensures g * n + i < total
  {
  }

  // ----- Ledgers -----

  type Ledger = map<int, CounterBlock>

  ghost predicate CounterOk(cb: CounterBlock, m: nat, n: nat, icMax: int)
    requires m <= n
  {
    cb.Shaped(n) && Bounded(cb, m, icMax)
  }

  /** Counter blocks for every group of the `total` keys, each within the safe bound. */
  ghost predicate LedgerOk(l: Ledger, total: nat, n: nat, icMax: int)
    requires n > 0
  {
    && (forall g :: g in l <==> 0 <= g < Groups(total, n))
    && (forall g :: g in l ==> CounterOk(l[g], Managed(g, total, n), n, icMax))
  }

  ghost predicate Covered(l: Ledger, k: nat, n: nat)
    requires n > 0
  {
    Group(k, n) in l && l[Group(k, n)].Shaped(n)
  }

  lemma LedgerCovers(l: Ledger, total: nat, n: nat, icMax: int, k: nat)
    requires n > 0 && LedgerOk(l, total, n, icMax) && k < total
    ensures Covered(l, k, n)
  {
    GroupInRange(k, total, n);
  }

  /** Where the ledger places key `k`. */
  function Place(prf: Prf, l: Ledger, k: nat, n: nat, range: nat): nat
    requires n > 0 && Covered(l, k, n)
  {
    LeafOf(prf, k, l[Group(k, n)], Slot(k, n), range)
  }

  /** Every block carries the leaf that the ledger computes for it. */
  ghost predicate Tracks<T>(content: map<int, Block<T>>, l: Ledger, n: nat, range: nat, prf: Prf)
    requires n > 0
  {
    forall k :: k in content ==> k >= 0 && Covered(l, k, n) && content[k].leaf == Place(prf, l, k, n, range)
  }

  // ----- One step of a ledger -----

  /** The block to move for an access, and the late block to catch up (or -1). */
  datatype Move = Move(target: nat, cur: nat, next: nat, reset: int, resetCur: nat, resetNext: int)

  ghost function After(l: Ledger, t: nat, total: nat, n: nat, icMax: int): Ledger
    requires n > 0 && Covered(l, t, n)
  {
    var g := Group(t, n);
    l[g := Stepped(l[g], Slot(t, n), Managed(g, total, n), icMax)]
  }

  /** What `mv` must say for an access to `mv.target`. */
  ghost predicate MoveFor(mv: Move, prf: Prf, l: Ledger, l': Ledger, total: nat, n: nat, range: nat)
    requires n > 0 && range > 0
  {
    && mv.target < total && Covered(l, mv.target, n) && Covered(l', mv.target, n)
    && mv.cur == Place(prf, l, mv.target, n, range) && mv.next == Place(prf, l', mv.target, n, range)
    && mv.reset != mv.target && mv.reset < total && mv.resetCur < range
    && (mv.reset >= 0 ==>
          && Covered(l, mv.reset, n) && Covered(l', mv.reset, n)
          && mv.resetCur == Place(prf, l, mv.reset, n, range) && mv.resetNext == Place(prf, l', mv.reset, n, range))
  }

  /** No other key's place has changed. */
  ghost predicate OthersStay(mv: Move, prf: Prf, l: Ledger, l': Ledger, total: nat, n: nat, range: nat)
    requires n > 0
  {
    forall k: nat :: k < total && k != mv.target && k != mv.reset ==>
      Covered(l, k, n) && Covered(l', k, n) && Place(prf, l', k, n, range) == Place(prf, l, k, n, range)
  }

  /** The counter group's step as the code reports it. */
  ghost predicate GroupMove(mv: Move, prf: Prf, cb: CounterBlock, n: nat, total: nat, range: nat, icMax: int)
    requires n > 0 && range > 0 && cb.Shaped(n)
  {
    var g, i := Group(mv.target, n), Slot(mv.target, n);
    var m := Managed(g, total, n);
    var u := Updated(cb, i, icMax);
    var r := Stepped(cb, i, m, icMax);
    var late := FirstLate(u.backup, m);
    && mv.cur == LeafOf(prf, mv.target, cb, i, range) && mv.next == LeafOf(prf, mv.target, u, i, range)
    && (late == m ==> mv.reset == -1 && mv.resetCur < range)
    && (late < m ==>
          && mv.reset == g * n + late
          && mv.resetCur == LeafOf(prf, mv.reset, u, late, range) && mv.resetNext == LeafOf(prf, mv.reset, r, late, range))
  }

  lemma GroupStep(mv: Move, prf: Prf, cb: CounterBlock, n: nat, total: nat, range: nat, icMax: int)
    requires n > 0 && range > 0 && cb.Shaped(n) && mv.target < total
    requires SafeStep(cb, Slot(mv.target, n), Managed(Group(mv.target, n), total, n), icMax)
    requires GroupMove(mv, prf, cb, n, total, range, icMax)
    ensures var g, i := Group(mv.target, n), Slot(mv.target, n);
            var r := Stepped(cb, i, Managed(g, total, n), icMax);
            && r.Shaped(n) && mv.cur == LeafOf(prf, mv.target, cb, i, range) && mv.next == LeafOf(prf, mv.target, r, i, range)
            && mv.reset < total && mv.reset != mv.target && mv.resetCur < range
            && (mv.reset >= 0 ==>
                  && Group(mv.reset, n) == g
                  && mv.resetCur == LeafOf(prf, mv.reset, cb, Slot(mv.reset, n), range)
                  && mv.resetNext == LeafOf(prf, mv.reset, r, Slot(mv.reset, n), range))
            && forall k: nat :: k < total && Group(k, n) == g && k != mv.target && k != mv.reset ==>
                 LeafOf(prf, k, r, Slot(k, n), range) == LeafOf(prf, k, cb, Slot(k, n), range)
  {
    hide Stepped, Updated, SafeStep, FirstLate, PrfLeaf, Managed, Groups, Group, Slot, SlotGc;
    var g, i := Group(mv.target, n), Slot(mv.target, n);
    var m := Managed(g, total, n);
    var u := Updated(cb, i, icMax);
    var r := Stepped(cb, i, m, icMax);
    var late := FirstLate(u.backup, m);
    SteppedShape(cb, i, m, n, icMax);
    GroupParts(mv.target, n);
    GroupInRange(mv.target, total, n);
    StepFindsLate(cb, i, m, n, icMax);
    StepLeavesTarget(cb, i, m, n, icMax);
    if late < m {
      GroupIs(g, late, n);
      ManagedKey(g, late, total, n);
    }
    forall k: nat | k < total && Group(k, n) == g && k != mv.target && k != mv.reset
      ensures LeafOf(prf, k, r, Slot(k, n), range) == LeafOf(prf, k, cb, Slot(k, n), range)
    {
      GroupParts(k, n);
      GroupInRange(k, total, n);
      StepKeepsOthers(cb, i, m, n, icMax, Slot(k, n));
    }
  }

  /** Catching up does not touch the slot just accessed. */
  lemma StepLeavesTarget(cb: CounterBlock, i: nat, m: nat, n: nat, icMax: int)
    requires cb.Shaped(n) && i < n && m <= n
    ensures SlotGc(Stepped(cb, i, m, icMax), i) == SlotGc(Updated(cb, i, icMax), i)
    ensures Stepped(cb, i, m, icMax).ic[i] == Updated(cb, i, icMax).ic[i]
  {
  }

  /** One step keeps the ledger within its bound and moves only the two blocks it reports. */
  lemma LedgerStep(mv: Move, prf: Prf, l: Ledger, total: nat, n: nat, range: nat, icMax: int)
    requires n > 0 && range > 0 && mv.target < total && LedgerOk(l, total, n, icMax)
    requires Spacious(icMax, if n < total then n else total)
    requires Covered(l, mv.target, n) && GroupMove(mv, prf, l[Group(mv.target, n)], n, total, range, icMax)
    ensures var l' := After(l, mv.target, total, n, icMax);
            && LedgerOk(l', total, n, icMax)
            && MoveFor(mv, prf, l, l', total, n, range) && OthersStay(mv, prf, l, l', total, n, range)
  {
    hide Stepped, GroupMove, LeafOf, Managed, Groups, Group, Slot, Bounded;
    var g, i := Group(mv.target, n), Slot(mv.target, n);
    var m := Managed(g, total, n);
    var cb := l[g];
    GroupInRange(mv.target, total, n);
    BoundedIsSafe(cb, i, m, n, icMax);
    StepKeepsBound(cb, i, m, n, icMax);
    GroupStep(mv, prf, cb, n, total, range, icMax);
    var l' := After(l, mv.target, total, n, icMax);
    forall k: nat | k < total ensures Covered(l, k, n) && Covered(l', k, n) {
      LedgerCovers(l, total, n, icMax, k);
      LedgerCovers(l', total, n, icMax, k);
    }
  }

  /** The contents after both blocks of `mv` have been moved and the target holds `value`. */
  function Relocated<T>(content: map<int, Block<T>>, mv: Move, value: T): map<int, Block<T>> {
    var c := content[mv.target := Block(mv.target, mv.next, value)];
    if mv.reset >= 0 && mv.resetNext >= 0 && mv.reset in c
    then c[mv.reset := Block(mv.reset, mv.resetNext, c[mv.reset].value)] else c
  }

  lemma RelocatedTracks<T>(content: map<int, Block<T>>, mv: Move, value: T, prf: Prf, l: Ledger, l': Ledger,
                           total: nat, n: nat, range: nat)
    requires n > 0 && range > 0 && Tracks(content, l, n, range, prf)
    requires forall k :: k in content ==> 0 <= k < total
    requires MoveFor(mv, prf, l, l', total, n, range) && OthersStay(mv, prf, l, l', total, n, range)
    ensures Tracks(Relocated(content, mv, value), l', n, range, prf)
    ensures Keyed(content) ==> Keyed(Relocated(content, mv, value))
    ensures Relocated(content, mv, value).Keys == content.Keys + {mv.target}
  {
    hide LeafOf, Group, Slot;
    var c := Relocated(content, mv, value);
    forall k | k in c ensures k >= 0 && Covered(l', k, n) && c[k].leaf == Place(prf, l', k, n, range) {
      if k != mv.target && k != mv.reset { assert k in content; }
    }
  }

  /** The values stored in a layer; those of a layer of counter blocks are the ledger of the
      layer below. */
  function Values<T>(content: map<int, Block<T>>): map<int, T> {
    map k | k in content :: content[k].value
  }

  function OnChipLedger(onChip: seq<CounterBlock>): Ledger {
    map g | 0 <= g < |onChip| :: onChip[g]
  }

  lemma RelocatedValues<T>(content: map<int, Block<T>>, mv: Move, value: T)
    ensures Values(Relocated(content, mv, value)) == Values(content)[mv.target := value]
  {
  }

  /** Fresh counters place every block where it is loaded. */
  lemma FreshLedger(l: Ledger, total: nat, n: nat, icMax: int)
    requires n > 0 && (forall g :: g in l <==> 0 <= g < Groups(total, n)) && forall g :: g in l ==> l[g] == Fresh(n)
    ensures LedgerOk(l, total, n, icMax)
  {
    hide Managed, Groups, Bounded;
    forall g | g in l ensures CounterOk(l[g], Managed(g, total, n), n, icMax) {
      FreshBounded(n, Managed(g, total, n), icMax);
    }
  }

  lemma FreshTracks<T>(content: map<int, Block<T>>, l: Ledger, total: nat, n: nat, range: nat, icMax: int, prf: Prf)
    requires n > 0 && range > 0 && LedgerOk(l, total, n, icMax) && forall g :: g in l ==> l[g] == Fresh(n)
    requires forall k :: k in content ==> 0 <= k < total && content[k].leaf == PrfLeaf(prf, k, 0, 0, range)
    ensures Tracks(content, l, n, range, prf)
  {
    hide Group, Slot, Groups, Managed, PrfLeaf;
    forall k | k in content ensures Covered(l, k, n) && content[k].leaf == Place(prf, l, k, n, range) {
      LedgerCovers(l, total, n, icMax, k);
    }
  }
}
