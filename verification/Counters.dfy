/** One counter group of the counter-based position map (da_oram): the position of a block is a
    hash of its key, a counter shared by the group and a counter of its own. When an own
    counter is used up the shared one moves on and every sibling becomes one step late; the
    siblings are caught up one per access. */
module Counters {
  import opened Common

  const GC_MOD: int := 0x1_0000_0000_0000_0000
  const IC_MOD: int := 256

  /** `gc` is a 64-bit and each `ic` an 8-bit unsigned counter; `backup[i]` says that slot i is
      still placed by the previous value of `gc`. */
  datatype CounterBlock = CounterBlock(gc: nat, ic: seq<nat>, backup: seq<bool>)
  {
    ghost predicate Shaped(n: nat) {
      && gc < GC_MOD && |ic| == n && |backup| == n
      && forall i :: 0 <= i < n ==> ic[i] < IC_MOD
    }
  }

  function Fresh(n: nat): (cb: CounterBlock)
    ensures cb.Shaped(n)
  {
    CounterBlock(0, seq(n, _ => 0), seq(n, _ => false))
  }

  /** The counters that place slot `i`. */
  function SlotGc(cb: CounterBlock, i: nat): nat
    requires i < |cb.backup|
  {
    if cb.backup[i] then (cb.gc - 1) % GC_MOD else cb.gc
  }

  type Prf = (int, nat, nat) -> nat

  function PrfLeaf(prf: Prf, key: int, gc: nat, ic: nat, range: nat): (leaf: nat)
    ensures range > 0 ==> leaf < range
  {
    if range <= 0 then 0 else prf(key, gc, ic) % range
  }

  /** Where slot `i`, which belongs to `key`, is placed. */
  function LeafOf(prf: Prf, key: int, cb: CounterBlock, i: nat, range: nat): nat
    requires i < |cb.ic| == |cb.backup|
  {
    PrfLeaf(prf, key, SlotGc(cb, i), cb.ic[i], range)
  }

  // ----- One access to a slot, followed by one catch-up -----

  /** Using slot `i` once more uses up its own counter. */
  predicate Overflows(cb: CounterBlock, i: nat, icMax: int)
    requires i < |cb.ic| == |cb.backup|
  {
    !cb.backup[i] && cb.ic[i] + 1 >= icMax
  }

  function Updated(cb: CounterBlock, i: nat, icMax: int): (r: CounterBlock)
    requires i < |cb.ic| == |cb.backup|
    ensures |r.ic| == |cb.ic| && |r.backup| == |cb.backup|
  {
    if cb.backup[i] then cb.(ic := cb.ic[i := 0], backup := cb.backup[i := false])
    else if Overflows(cb, i, icMax) then
      CounterBlock((cb.gc + 1) % GC_MOD, cb.ic[i := 0],
                   seq(|cb.backup|, j requires 0 <= j < |cb.backup| => if j == i then cb.backup[i] else true))
    else cb.(ic := cb.ic[i := (cb.ic[i] + 1) % IC_MOD])
  }

  /** First late slot among the `m` slots that manage a block, or `m`. */
  function FirstLate(backup: seq<bool>, m: nat): (i: nat)
    requires m <= |backup|
    ensures i <= m && (i < m ==> backup[i])
    ensures forall j :: 0 <= j < i ==> !backup[j]
  {
    if m == 0 then 0
    else
      var i := FirstLate(backup, m - 1);
      if i < m - 1 then i else if backup[m - 1] then m - 1 else m
  }

  function CaughtUp(cb: CounterBlock, m: nat): (r: CounterBlock)
    requires m <= |cb.ic| == |cb.backup|
    ensures |r.ic| == |cb.ic| && |r.backup| == |cb.backup|
  {
    var i := FirstLate(cb.backup, m);
    if i < m then cb.(ic := cb.ic[i := 0], backup := cb.backup[i := false]) else cb
  }

  function Stepped(cb: CounterBlock, i: nat, m: nat, icMax: int): (r: CounterBlock)
    requires i < |cb.ic| == |cb.backup| && m <= |cb.ic|
    ensures |r.ic| == |cb.ic| && |r.backup| == |cb.backup|
  {
    CaughtUp(Updated(cb, i, icMax), m)
  }

  /** No other managed slot is still late when slot `i` overflows. */
  ghost predicate SafeStep(cb: CounterBlock, i: nat, m: nat, icMax: int)
    requires i < |cb.ic| == |cb.backup| && m <= |cb.ic|
  {
    Overflows(cb, i, icMax) ==> forall j :: 0 <= j < m && j != i ==> !cb.backup[j]
  }

  lemma SteppedShape(cb: CounterBlock, i: nat, m: nat, n: nat, icMax: int)
    requires cb.Shaped(n) && i < n && m <= n
    ensures Stepped(cb, i, m, icMax).Shaped(n) && Updated(cb, i, icMax).Shaped(n)
  {
  }

  /** A safe step moves the accessed slot and at most one late slot; every other managed slot
      keeps the counters that place it. */
  lemma StepKeepsOthers(cb: CounterBlock, i: nat, m: nat, n: nat, icMax: int, j: nat)
    requires cb.Shaped(n) && i < n && m <= n && SafeStep(cb, i, m, icMax)
    requires j < m && j != i && j != FirstLate(Updated(cb, i, icMax).backup, m)
    ensures SlotGc(Stepped(cb, i, m, icMax), j) == SlotGc(cb, j)
    ensures Stepped(cb, i, m, icMax).ic[j] == cb.ic[j]
  {
    var u := Updated(cb, i, icMax);
    if Overflows(cb, i, icMax) {
      assert !cb.backup[j] && u.backup[j];
      GcBack(cb.gc);
    }
  }

  lemma GcBack(gc: nat)
    requires gc < GC_MOD
    ensures ((gc + 1) % GC_MOD - 1) % GC_MOD == gc
  {
  }

  /** Until it is caught up, a late slot stays where the access found it. */
  lemma StepFindsLate(cb: CounterBlock, i: nat, m: nat, n: nat, icMax: int)
    requires cb.Shaped(n) && i < n && m <= n && SafeStep(cb, i, m, icMax)
    ensures var u := Updated(cb, i, icMax);
            var late := FirstLate(u.backup, m);
            late < m ==> late != i && SlotGc(u, late) == SlotGc(cb, late) && u.ic[late] == cb.ic[late]
  {
    GcBack(cb.gc);
  }

  /** An unsafe step loses the block of a late slot: the counters no longer place it where it is. */
  lemma LateTwiceIsLost(cb: CounterBlock, i: nat, j: nat, n: nat, icMax: int)
    requires cb.Shaped(n) && i < n && j < n && j != i && Overflows(cb, i, icMax) && cb.backup[j]
    ensures SlotGc(Updated(cb, i, icMax), j) != SlotGc(cb, j)
  {
    GcBack(cb.gc);
  }

  // ----- The bound that makes every run safe -----

  /** Number of late slots among the first `m`. */
  function Late(backup: seq<bool>, m: nat): (c: nat)
    requires m <= |backup|
    ensures c <= m
  {
    if m == 0 then 0 else Late(backup, m - 1) + (if backup[m - 1] then 1 else 0)
  }

  lemma {:induction false} LateNone(backup: seq<bool>, m: nat)
    requires m <= |backup|
    ensures Late(backup, m) == 0 <==> forall j :: 0 <= j < m ==> !backup[j]
  {
    if m > 0 {
      LateNone(backup, m - 1);
    }
  }

  lemma {:induction false} LateClear(backup: seq<bool>, i: nat, m: nat)
    requires i < |backup| && m <= |backup| && backup[i]
    ensures Late(backup[i := false], m) == Late(backup, m) - (if i < m then 1 else 0)
  {
    if m > 0 {
      LateClear(backup, i, m - 1);
    }
  }

  lemma {:induction false} LateAllBut(backup: seq<bool>, i: nat, m: nat)
    requires i < |backup| && m <= |backup| && !backup[i] && forall j :: 0 <= j < |backup| && j != i ==> backup[j]
    ensures Late(backup, m) == m - (if i < m then 1 else 0)
  {
    if m > 0 {
      LateAllBut(backup, i, m - 1);
    }
  }

  function AtLeast1(x: int): int {
    if x < 1 then 1 else x
  }

  /** The own counters last until the siblings have been caught up, or they never overflow. */
  predicate Spacious(icMax: int, m: nat) {
    AtLeast1(icMax) >= m - 1 || icMax > IC_MOD
  }

  /** What every step keeps: while siblings are late, own counters are low enough. */
  ghost predicate Bounded(cb: CounterBlock, m: nat, icMax: int)
    requires m <= |cb.ic| == |cb.backup|
  {
    if icMax > IC_MOD then forall j :: 0 <= j < m ==> !cb.backup[j]
    else Late(cb.backup, m) > 0 ==>
           forall j :: 0 <= j < m && !cb.backup[j] ==> cb.ic[j] + Late(cb.backup, m) <= m - 2
  }

  lemma BoundedIsSafe(cb: CounterBlock, i: nat, m: nat, n: nat, icMax: int)
    requires cb.Shaped(n) && i < m <= n && Spacious(icMax, m) && Bounded(cb, m, icMax)
    ensures SafeStep(cb, i, m, icMax)
  {
    LateNone(cb.backup, m);
  }

  lemma FreshBounded(n: nat, m: nat, icMax: int)
    requires m <= n
    ensures Bounded(Fresh(n), m, icMax)
  {
    LateNone(Fresh(n).backup, m);
  }

  lemma CatchUpCounts(u: CounterBlock, m: nat, n: nat)
    requires u.Shaped(n) && m <= n
    ensures var r := CaughtUp(u, m);
            && Late(r.backup, m) == (if Late(u.backup, m) > 0 then Late(u.backup, m) - 1 else 0)
            && forall j :: 0 <= j < m && !r.backup[j] ==>
                 r.ic[j] == (if u.backup[j] then 0 else u.ic[j])
  {
    LateNone(u.backup, m);
    var i := FirstLate(u.backup, m);
    if i < m {
      LateClear(u.backup, i, m);
    }
  }

  lemma UpdateCounts(cb: CounterBlock, i: nat, m: nat, n: nat, icMax: int)
    requires cb.Shaped(n) && i < m <= n && icMax <= IC_MOD && SafeStep(cb, i, m, icMax)
    ensures var u := Updated(cb, i, icMax);
            && u.Shaped(n) && !u.backup[i]
            && (forall j :: 0 <= j < m && j != i && !u.backup[j] ==> !cb.backup[j] && u.ic[j] == cb.ic[j])
            && (if Overflows(cb, i, icMax) then Late(cb.backup, m) == 0 && Late(u.backup, m) == m - 1 && u.ic[i] == 0
                else if cb.backup[i] then Late(u.backup, m) == Late(cb.backup, m) - 1 && u.ic[i] == 0
                else u.backup == cb.backup && u.ic[i] == cb.ic[i] + 1)
  {
    var u := Updated(cb, i, icMax);
    if cb.backup[i] {
      LateClear(cb.backup, i, m);
    } else if Overflows(cb, i, icMax) {
      LateNone(cb.backup, m);
      LateAllBut(u.backup, i, m);
    }
  }

  lemma StepKeepsBound(cb: CounterBlock, i: nat, m: nat, n: nat, icMax: int)
    requires cb.Shaped(n) && i < m <= n && Spacious(icMax, m) && Bounded(cb, m, icMax)
    ensures Stepped(cb, i, m, icMax).Shaped(n) && Bounded(Stepped(cb, i, m, icMax), m, icMax)
  {
    SteppedShape(cb, i, m, n, icMax);
    BoundedIsSafe(cb, i, m, n, icMax);
    if icMax <= IC_MOD {
      var u := Updated(cb, i, icMax);
      UpdateCounts(cb, i, m, n, icMax);
      CatchUpCounts(u, m, n);
    }
  }

  // ----- Runs -----

  /** Every step of the run that accesses `slots` in turn is safe. */
  ghost predicate SafeRun(cb: CounterBlock, slots: seq<nat>, m: nat, icMax: int)
    requires |cb.ic| == |cb.backup| >= m && forall j :: 0 <= j < |slots| ==> slots[j] < m
    decreases |slots|
  {
    slots == [] || (SafeStep(cb, slots[0], m, icMax) && SafeRun(Stepped(cb, slots[0], m, icMax), slots[1..], m, icMax))
  }

  lemma {:induction false} BoundedRun(cb: CounterBlock, slots: seq<nat>, m: nat, n: nat, icMax: int)
    requires cb.Shaped(n) && m <= n && Spacious(icMax, m) && Bounded(cb, m, icMax)
    requires forall j :: 0 <= j < |slots| ==> slots[j] < m
    ensures SafeRun(cb, slots, m, icMax)
    decreases |slots|
  {
    if slots != [] {
      BoundedIsSafe(cb, slots[0], m, n, icMax);
      StepKeepsBound(cb, slots[0], m, n, icMax);
      BoundedRun(Stepped(cb, slots[0], m, icMax), slots[1..], m, n, icMax);
    }
  }

  // ----- Too little space: hammering one slot gets a sibling two steps behind -----

  function Hammer(k: nat): (s: seq<nat>)
    ensures |s| == k && forall j :: 0 <= j < k ==> s[j] == 0
  {
    seq(k, _ => 0)
  }

  /** Slot 0 has been used `j` times since the shared counter was last moved. */
  ghost predicate Hammered(cb: CounterBlock, j: nat, n: nat, moved: bool) {
    && cb.Shaped(n) && n > 0 && cb.ic[0] == j && !cb.backup[0]
    && forall i :: 1 <= i < n ==> (cb.backup[i] <==> moved && i >= j + 2)
  }

  lemma FirstLateIs(backup: seq<bool>, m: nat, i: nat)
    requires m <= |backup| && i < m && backup[i] && forall j :: 0 <= j < i ==> !backup[j]
    ensures FirstLate(backup, m) == i
  {
  }

  lemma HammerStep(cb: CounterBlock, j: nat, m: nat, n: nat, icMax: int, moved: bool)
    requires Hammered(cb, j, n, moved) && m <= n && j + 1 < icMax <= IC_MOD && (moved ==> j + 2 < m)
    ensures Hammered(Stepped(cb, 0, m, icMax), j + 1, n, moved)
  {
    var u := Updated(cb, 0, icMax);
    assert u.backup == cb.backup;
    if moved {
      FirstLateIs(u.backup, m, j + 2);
    }
  }

  lemma HammerOverflow(cb: CounterBlock, j: nat, m: nat, n: nat, icMax: int)
    requires Hammered(cb, j, n, false) && 2 < m <= n && j + 1 >= icMax
    ensures Hammered(Stepped(cb, 0, m, icMax), 0, n, true)
  {
    var u := Updated(cb, 0, icMax);
    FirstLateIs(u.backup, m, 1);
  }

  lemma {:induction false} HammerRun(cb: CounterBlock, j: nat, k: nat, m: nat, n: nat, icMax: int, moved: bool)
    requires Hammered(cb, j, n, moved) && 2 < m <= n && icMax <= IC_MOD && AtLeast1(icMax) < m - 1
    requires j < AtLeast1(icMax)
    requires k == AtLeast1(icMax) - j + if moved then 0 else AtLeast1(icMax)
    ensures !SafeRun(cb, Hammer(k), m, icMax)
    decreases k
  {
    var e := AtLeast1(icMax);
    assert Hammer(k)[1..] == Hammer(k - 1);
    if j + 1 < e {
      HammerStep(cb, j, m, n, icMax, moved);
      HammerRun(Stepped(cb, 0, m, icMax), j + 1, k - 1, m, n, icMax, moved);
    } else if !moved {
      HammerOverflow(cb, j, m, n, icMax);
      HammerRun(Stepped(cb, 0, m, icMax), 0, k - 1, m, n, icMax, true);
    } else {
      assert Overflows(cb, 0, icMax);
      assert cb.backup[m - 1];
    }
  }

  /** Exactly when the reset scheme works: no run whatsoever gets a managed sibling two steps
      behind if and only if the own counters are spacious enough. */
  lemma ResetBoundExact(m: nat, n: nat, icMax: int)
    requires m <= n
    ensures Spacious(icMax, m) <==>
            forall slots: seq<nat> :: (forall j :: 0 <= j < |slots| ==> slots[j] < m) ==>
              SafeRun(Fresh(n), slots, m, icMax)
  {
    if Spacious(icMax, m) {
      forall slots: seq<nat> | forall j :: 0 <= j < |slots| ==> slots[j] < m
        ensures SafeRun(Fresh(n), slots, m, icMax)
      {
        FreshBounded(n, m, icMax);
        BoundedRun(Fresh(n), slots, m, n, icMax);
      }
    } else {
      HammerRun(Fresh(n), 0, 2 * AtLeast1(icMax), m, n, icMax, false);
    }
  }
}
