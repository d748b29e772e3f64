/** Oblivious compaction of the enclave's stash (tee/enclave_oram `evict_path`): a fixed number of
    compare-and-swap passes that moves the real slots to the front. */
module Compaction {
  import opened Common

  /** One slot of a bucket or of the stash; a slot with key -1 is a dummy. */
  datatype Slot<+V> = Slot(key: int, leaf: int, value: V)
  {
    predicate Real() {
      key != INVALID_KEY
    }
  }

  type Slots<+V> = seq<Slot<V>>

  /** The slots that are real (or dummy), in order. */
  function Kept<V>(s: Slots<V>, kind: bool): (r: Slots<V>)
    ensures |r| <= |s|
    ensures forall i :: 0 <= i < |r| ==> r[i].Real() == kind
  {
    if s == [] then []
    else Kept(s[..|s| - 1], kind) + (if s[|s| - 1].Real() == kind then [s[|s| - 1]] else [])
  }

  lemma {:induction false} KeptAppend<V>(a: Slots<V>, b: Slots<V>, kind: bool)
    ensures Kept(a + b, kind) == Kept(a, kind) + Kept(b, kind)
  {
    if b == [] {
      assert a + b == a;
    } else {
      var n := |b| - 1;
      assert (a + b)[..|a + b| - 1] == a + b[..n];
      KeptAppend(a, b[..n], kind);
    }
  }

  lemma KeptOne<V>(x: Slot<V>, kind: bool)
    ensures Kept([x], kind) == if x.Real() == kind then [x] else []
  {
    assert [x][..0] == [];
  }

  lemma KeptPair<V>(x: Slot<V>, y: Slot<V>, kind: bool)
    requires x.Real() != y.Real()
    ensures Kept([x, y], kind) == Kept([y, x], kind)
  {
    KeptOne(x, kind);
    KeptOne(y, kind);
    KeptAppend([x], [y], kind);
    KeptAppend([y], [x], kind);
    assert [x] + [y] == [x, y] && [y] + [x] == [y, x];
  }

  /** Swapping neighbours of different kind keeps both orders. */
  lemma KeptSwap<V>(s: Slots<V>, i: nat, kind: bool)
    requires i + 1 < |s| && s[i].Real() != s[i + 1].Real()
    ensures Kept(s[i := s[i + 1]][i + 1 := s[i]], kind) == Kept(s, kind)
  {
    var t := s[i := s[i + 1]][i + 1 := s[i]];
    assert s == s[..i] + [s[i], s[i + 1]] + s[i + 2..];
    assert t == s[..i] + [s[i + 1], s[i]] + s[i + 2..];
    KeptAppend(s[..i] + [s[i], s[i + 1]], s[i + 2..], kind);
    KeptAppend(s[..i], [s[i], s[i + 1]], kind);
    KeptAppend(s[..i] + [s[i + 1], s[i]], s[i + 2..], kind);
    KeptAppend(s[..i], [s[i + 1], s[i]], kind);
    KeptPair(s[i], s[i + 1], kind);
  }

  /** From position `m` on, a real slot has only real slots before it. */
  ghost predicate SettledFrom<V>(s: Slots<V>, m: nat) {
    forall i, j :: m <= i < |s| && 0 <= j <= i && s[i].Real() ==> s[j].Real()
  }

  /** A dummy among the first `i` slots has bubbled up to position `i`. */
  ghost predicate Bubbled<V>(s: Slots<V>, i: nat)
    requires i < |s|
  {
    s[i].Real() ==> forall j :: 0 <= j <= i ==> s[j].Real()
  }

  /** Compare-and-swap of two neighbours: always two writes. */
  function Bubble<V>(s: Slots<V>, i: nat): (r: Slots<V>)
    requires i + 1 < |s|
    ensures |r| == |s|
  {
    var swap := !s[i].Real() && s[i + 1].Real();
    s[i := if swap then s[i + 1] else s[i]][i + 1 := if swap then s[i] else s[i + 1]]
  }

  lemma BubbleKeeps<V>(s: Slots<V>, i: nat, kind: bool)
    requires i + 1 < |s|
    ensures Kept(Bubble(s, i), kind) == Kept(s, kind)
  {
    if !s[i].Real() && s[i + 1].Real() {
      KeptSwap(s, i, kind);
    } else {
      assert Bubble(s, i) == s;
    }
  }

  lemma BubbleSettles<V>(s: Slots<V>, i: nat, m: nat)
    requires i + 1 < |s| && 0 < m && SettledFrom(s, m) && Bubbled(s, i)
    requires i >= m - 1 ==> Bubbled(s, m - 1)
    ensures SettledFrom(Bubble(s, i), m) && Bubbled(Bubble(s, i), i + 1)
    ensures i + 1 >= m - 1 ==> Bubbled(Bubble(s, i), m - 1)
  {
    hide Kept;
    var swap := !s[i].Real() && s[i + 1].Real();
    if swap {
      assert i + 1 < m;
    } else {
      assert Bubble(s, i) == s;
    }
  }

  /** One pass of neighbour swaps. */
  method Pass<V>(s: Slots<V>, ghost m: nat) returns (r: Slots<V>)
    requires 0 < m <= |s| && SettledFrom(s, m)
    ensures |r| == |s| && Kept(r, true) == Kept(s, true) && Kept(r, false) == Kept(s, false)
    ensures SettledFrom(r, m - 1)
  {
    hide Kept, Bubble, Bubbled, SettledFrom;
    r := s;
    FirstBubbled(s);
    for i := 0 to |s| - 1
      invariant |r| == |s| && Kept(r, true) == Kept(s, true) && Kept(r, false) == Kept(s, false)
      invariant SettledFrom(r, m) && Bubbled(r, i)
      invariant i >= m - 1 ==> Bubbled(r, m - 1)
    {
      BubbleKeeps(r, i, true);
      BubbleKeeps(r, i, false);
      BubbleSettles(r, i, m);
      r := Bubble(r, i);
    }
    SettledMore(r, m);
  }

  lemma FirstBubbled<V>(s: Slots<V>)
    requires s != []
    ensures Bubbled(s, 0)
  {
  }

  lemma SettledMore<V>(s: Slots<V>, m: nat)
    requires 0 < m <= |s| && SettledFrom(s, m) && Bubbled(s, m - 1)
    ensures SettledFrom(s, m - 1)
  {
  }

  /** As many passes as there are slots: a stable partition, real slots first. */
  method Compact<V>(s: Slots<V>) returns (r: Slots<V>)
    ensures r == Kept(s, true) + Kept(s, false)
  {
    r := s;
    var n := |s|;
    for pass := 0 to n
      invariant |r| == n && Kept(r, true) == Kept(s, true) && Kept(r, false) == Kept(s, false)
      invariant SettledFrom(r, n - pass)
    {
      r := Pass(r, n - pass);
    }
    PartitionIsKept(r);
  }

  lemma {:induction false} AllKept<V>(s: Slots<V>, kind: bool)
    requires forall i :: 0 <= i < |s| ==> s[i].Real() == kind
    ensures Kept(s, kind) == s && Kept(s, !kind) == []
  {
    if s != [] {
      AllKept(s[..|s| - 1], kind);
    }
  }

  lemma {:induction false} PartitionIsKept<V>(s: Slots<V>)
    requires SettledFrom(s, 0)
    ensures s == Kept(s, true) + Kept(s, false)
  {
    if s != [] {
      var n := |s| - 1;
      if s[n].Real() {
        AllKept(s, true);
      } else {
        PartitionIsKept(s[..n]);
      }
    }
  }

  /** Number of real slots, counted slot by slot. */
  method CountReal<V>(s: Slots<V>) returns (c: nat)
    ensures c == |Kept(s, true)|
  {
    c := 0;
    for i := 0 to |s|
      invariant c == |Kept(s[..i], true)|
    {
      assert s[..i + 1][..i] == s[..i];
      c := c + (if s[i].Real() then 1 else 0);
    }
    assert s[..|s|] == s;
  }

  /** Cutting a compacted stash at or behind its real slots drops dummies only. */
  lemma CutKeepsReal<V>(s: Slots<V>, cut: nat)
    requires s == Kept(s, true) + Kept(s, false) && |Kept(s, true)| <= cut <= |s|
    ensures Kept(s[..cut], true) == Kept(s, true)
  {
    var front, dummies := Kept(s, true), Kept(s, false);
    var rest := dummies[..cut - |front|];
    assert s[..cut] == front + rest;
    KeptAppend(front, rest, true);
    AllKept(front, true);
    AllKept(rest, false);
  }
}
