/** B+ trees as values, and what lookups, insertions and leaf splits do to them. */
module BPlusTrees {
  import opened Common
  import opened AvlInit
  import opened BPlusNodes

  datatype BTree =
    | Tip(id: int, keys: seq<int>, vals: seq<Bytes>)
    | Fork(id: int, seps: seq<int>, kids: seq<BTree>)

  // ----- Order -----

  predicate Increasing(s: seq<int>) {
    forall i, j :: 0 <= i < j < |s| ==> s[i] < s[j]
  }

  predicate Within(lo: Option<int>, k: int, hi: Option<int>) {
    (lo.Some? ==> lo.value <= k) && (hi.Some? ==> k < hi.value)
  }

  /** The bounds of child `i` between the separators. */
  function Low(seps: seq<int>, lo: Option<int>, i: nat): Option<int>
    requires i <= |seps|
  {
    if i == 0 then lo else Some(seps[i - 1])
  }

  function High(seps: seq<int>, hi: Option<int>, i: nat): Option<int>
    requires i <= |seps|
  {
    if i == |seps| then hi else Some(seps[i])
  }

  /** A search tree with all keys in the bounds. */
  ghost predicate Sorted(t: BTree, lo: Option<int>, hi: Option<int>) {
    match t
    case Tip(_, keys, vals) => |keys| == |vals| && Increasing(keys) && forall i :: 0 <= i < |keys| ==> Within(lo, keys[i], hi)
    case Fork(_, seps, kids) =>
      && |kids| == |seps| + 1 && Increasing(seps) && (forall i :: 0 <= i < |seps| ==> Within(lo, seps[i], hi))
      && forall i :: 0 <= i < |kids| ==> Sorted(kids[i], Low(seps, lo, i), High(seps, hi, i))
  }

  /** The parts of every node fit together. */
  ghost predicate Formed(t: BTree) {
    match t
    case Tip(_, keys, vals) => |keys| == |vals|
    case Fork(_, seps, kids) => |kids| == |seps| + 1 && forall i :: 0 <= i < |kids| ==> Formed(kids[i])
  }

  lemma {:induction false} SortedFormed(t: BTree, lo: Option<int>, hi: Option<int>)
    requires Sorted(t, lo, hi)
    ensures Formed(t)
  {
    if t.Fork? {
      forall i | 0 <= i < |t.kids| ensures Formed(t.kids[i]) {
        SortedFormed(t.kids[i], Low(t.seps, lo, i), High(t.seps, hi, i));
      }
    }
  }

  /** All leaves are on level `h`. */
  ghost predicate Level(t: BTree, h: nat) {
    match t
    case Tip(_, _, _) => h == 1
    case Fork(_, _, kids) => h > 1 && forall i :: 0 <= i < |kids| ==> Level(kids[i], h - 1)
  }

  /** No leaf has more than `most` keys. */
  ghost predicate Roomy(t: BTree, most: nat) {
    match t
    case Tip(_, keys, _) => |keys| <= most
    case Fork(_, _, kids) => forall i :: 0 <= i < |kids| ==> Roomy(kids[i], most)
  }

  // ----- Entries -----

  ghost function EntriesOf(t: BTree): Entries<Bytes>
    decreases t
  {
    match t
    case Tip(_, keys, vals) => if |keys| == |vals| then seq(|keys|, i requires 0 <= i < |keys| => (keys[i], vals[i])) else []
    case Fork(_, _, kids) => Joined(kids)
  }

  ghost function Joined(ts: seq<BTree>): Entries<Bytes>
    decreases ts
  {
    if ts == [] then [] else Joined(ts[..|ts| - 1]) + EntriesOf(ts[|ts| - 1])
  }

  lemma {:induction false} JoinedMember(ts: seq<BTree>, e: (int, Bytes))
    ensures e in Joined(ts) <==> exists i :: 0 <= i < |ts| && e in EntriesOf(ts[i])
  {
    if ts != [] {
      var n := |ts| - 1;
      var front := ts[..n];
      JoinedMember(front, e);
      hide EntriesOf;
      if i :| 0 <= i < n && e in EntriesOf(front[i]) {
        assert e in EntriesOf(ts[i]);
      }
      if i :| 0 <= i < |ts| && e in EntriesOf(ts[i]) {
        assert i < n ==> e in EntriesOf(front[i]);
      }
    }
  }

  lemma {:induction false} JoinedAppend(a: seq<BTree>, b: seq<BTree>)
    ensures Joined(a + b) == Joined(a) + Joined(b)
  {
    if b == [] {
      assert a + b == a;
    } else {
      var n := |b| - 1;
      assert (a + b)[..|a| + n] == a + b[..n];
      JoinedAppend(a, b[..n]);
    }
  }

  /** The entries come in the order of their keys, all in the bounds. */
  lemma {:induction false} EntriesSorted(t: BTree, lo: Option<int>, hi: Option<int>)
    requires Sorted(t, lo, hi)
    ensures Ascending(EntriesOf(t)) && forall i :: 0 <= i < |EntriesOf(t)| ==> Within(lo, EntriesOf(t)[i].0, hi)
    decreases t, 1
  {
    if t.Fork? {
      RowSorted(t, lo, hi, |t.kids|);
      assert t.kids[..|t.kids|] == t.kids;
    }
  }

  lemma {:induction false} RowSorted(t: BTree, lo: Option<int>, hi: Option<int>, n: nat)
    requires t.Fork? && Sorted(t, lo, hi) && n <= |t.kids|
    ensures var e := Joined(t.kids[..n]);
            && Ascending(e)
            && forall i :: 0 <= i < |e| ==> Within(lo, e[i].0, if n == 0 then hi else High(t.seps, hi, n - 1))
    decreases t, 0, n
  {
    if n > 0 {
      RowSorted(t, lo, hi, n - 1);
      EntriesSorted(t.kids[n - 1], Low(t.seps, lo, n - 1), High(t.seps, hi, n - 1));
      assert t.kids[..n][..n - 1] == t.kids[..n - 1];
    }
  }

  /** The map that the tree holds. */
  ghost function Contents(t: BTree): map<int, Bytes>
    requires Sorted(t, None, None)
  {
    EntriesSorted(t, None, None);
    Assoc(EntriesOf(t))
  }

  // ----- Lookup -----

  /** The first position from `i` on whose separator is above `key`. */
  function ChildFrom(seps: seq<int>, key: int, i: nat): (r: nat)
    requires i <= |seps|
    ensures i <= r <= |seps| && (forall j :: i <= j < r ==> seps[j] <= key) && (r < |seps| ==> key < seps[r])
    decreases |seps| - i
  {
    if i < |seps| && key >= seps[i] then ChildFrom(seps, key, i + 1) else i
  }

  function ChildIndex(seps: seq<int>, key: int): nat {
    ChildFrom(seps, key, 0)
  }

  lemma ChildIndexIs(seps: seq<int>, key: int, i: nat)
    requires Increasing(seps) && i <= |seps| && (i > 0 ==> seps[i - 1] <= key) && (i < |seps| ==> key < seps[i])
    ensures ChildIndex(seps, key) == i
  {
  }

  /** The position of `key` from `i` on, or the end. */
  function KeyFrom(keys: seq<int>, key: int, i: nat): (r: nat)
    requires i <= |keys|
    ensures i <= r <= |keys| && (forall j :: i <= j < r ==> keys[j] != key) && (r < |keys| ==> keys[r] == key)
    decreases |keys| - i
  {
    if i < |keys| && keys[i] != key then KeyFrom(keys, key, i + 1) else i
  }

  function Lookup(t: BTree, key: int): Option<Bytes> {
    match t
    case Tip(_, keys, vals) => var i := KeyFrom(keys, key, 0); if i < |keys| && i < |vals| then Some(vals[i]) else None
    case Fork(_, seps, kids) => var i := ChildIndex(seps, key); if i < |kids| then Lookup(kids[i], key) else None
  }

  /** A lookup finds exactly the entries. */
  lemma {:induction false} LookupFinds(t: BTree, lo: Option<int>, hi: Option<int>, key: int)
    requires Sorted(t, lo, hi)
    ensures Lookup(t, key).Some? ==> (key, Lookup(t, key).value) in EntriesOf(t)
    ensures forall v :: (key, v) in EntriesOf(t) ==> Lookup(t, key) == Some(v)
  {
    match t {
      case Tip(_, keys, vals) =>
        var i := KeyFrom(keys, key, 0);
        if i < |keys| { assert EntriesOf(t)[i] == (key, vals[i]); }
      case Fork(_, seps, kids) =>
        var i := ChildIndex(seps, key);
        LookupFinds(kids[i], Low(seps, lo, i), High(seps, hi, i), key);
        if Lookup(t, key).Some? { JoinedMember(kids, (key, Lookup(t, key).value)); }
        forall v | (key, v) in EntriesOf(t) ensures Lookup(t, key) == Some(v) {
          JoinedMember(kids, (key, v));
          var j :| 0 <= j < |kids| && (key, v) in EntriesOf(kids[j]);
          EntriesSorted(kids[j], Low(seps, lo, j), High(seps, hi, j));
          ChildIndexIs(seps, key, j);
        }
    }
  }

  /** So it is a lookup in the map. */
  lemma LookupContents(t: BTree, key: int)
    requires Sorted(t, None, None)
    ensures Lookup(t, key) == if key in Contents(t) then Some(Contents(t)[key]) else None
  {
    EntriesSorted(t, None, None);
    LookupFinds(t, None, None, key);
    if key in Contents(t) {
      assert (key, Contents(t)[key]) in EntriesOf(t);
    }
  }

  /** The leaf where `key` belongs. */
  function LeafFor(t: BTree, key: int): (leaf: BTree)
    ensures leaf == t || t.Fork?
  {
    if t.Fork? && ChildIndex(t.seps, key) < |t.kids| then LeafFor(t.kids[ChildIndex(t.seps, key)], key) else t
  }

  lemma {:induction false} LookupInLeaf(t: BTree, key: int)
    ensures Lookup(t, key) == Lookup(LeafFor(t, key), key)
    ensures Formed(t) ==> Formed(LeafFor(t, key))
  {
    if t.Fork? && ChildIndex(t.seps, key) < |t.kids| {
      LookupInLeaf(t.kids[ChildIndex(t.seps, key)], key);
    }
  }

  lemma {:induction false} LeafSorted(t: BTree, lo: Option<int>, hi: Option<int>, key: int)
    requires Sorted(t, lo, hi)
    ensures LeafFor(t, key).Tip? && |LeafFor(t, key).keys| == |LeafFor(t, key).vals| && Increasing(LeafFor(t, key).keys)
  {
    if t.Fork? {
      var i := ChildIndex(t.seps, key);
      LeafSorted(t.kids[i], Low(t.seps, lo, i), High(t.seps, hi, i), key);
    }
  }

  // ----- One entry -----

  /** The first position from `i` on whose key is not below `key`. */
  function LowerFrom(keys: seq<int>, key: int, i: nat): (r: nat)
    requires i <= |keys|
    ensures i <= r <= |keys| && (forall j :: i <= j < r ==> keys[j] < key) && (r < |keys| ==> key <= keys[r])
    decreases |keys| - i
  {
    if i < |keys| && keys[i] < key then LowerFrom(keys, key, i + 1) else i
  }

  /** `x` put in at position `i`. */
  function PutIn<T>(s: seq<T>, i: nat, x: T): (r: seq<T>)
    requires i <= |s|
    ensures |r| == |s| + 1
    ensures forall j :: 0 <= j < |r| ==> r[j] == if j < i then s[j] else if j == i then x else s[j - 1]
  {
    s[..i] + [x] + s[i..]
  }

  /** A leaf with `key` set to `v`. */
  function PutTip(t: BTree, key: int, v: Bytes): BTree
    requires t.Tip? && |t.keys| == |t.vals|
  {
    var i := LowerFrom(t.keys, key, 0);
    if i < |t.keys| && t.keys[i] == key then t.(vals := t.vals[i := v])
    else t.(keys := PutIn(t.keys, i, key), vals := PutIn(t.vals, i, v))
  }

  /** The tree with `key` set to `v` in its leaf. */
  function Put(t: BTree, key: int, v: Bytes): BTree {
    match t
    case Tip(_, keys, vals) => if |keys| == |vals| then PutTip(t, key, v) else t
    case Fork(_, seps, kids) =>
      var i := ChildIndex(seps, key);
      if i < |kids| then t.(kids := kids[i := Put(kids[i], key, v)]) else t
  }

  lemma PutTipPresent(t: BTree, key: int, v: Bytes)
    requires t.Tip? && |t.keys| == |t.vals| && Increasing(t.keys) && KeyFrom(t.keys, key, 0) < |t.keys|
    ensures PutTip(t, key, v) == t.(vals := t.vals[KeyFrom(t.keys, key, 0) := v])
  {
    var i, j := KeyFrom(t.keys, key, 0), LowerFrom(t.keys, key, 0);
    assert j <= i;
  }

  lemma PutTipSorted(t: BTree, lo: Option<int>, hi: Option<int>, key: int, v: Bytes)
    requires t.Tip? && Sorted(t, lo, hi) && Within(lo, key, hi)
    ensures Sorted(PutTip(t, key, v), lo, hi)
  {
  }

  lemma PutTipLookup(t: BTree, key: int, v: Bytes, k: int)
    requires t.Tip? && Sorted(t, None, None)
    ensures Lookup(PutTip(t, key, v), k) == if k == key then Some(v) else Lookup(t, k)
  {
    var t' := PutTip(t, key, v);
    var i := LowerFrom(t.keys, key, 0);
    if |t'.keys| > |t.keys| {
      assert key !in t.keys;
      PutInFinds(t.keys, i, key, k);
    } else {
      KeyFromIs(t.keys, key, i);
    }
  }

  lemma KeyFromIs(keys: seq<int>, key: int, i: nat)
    requires i < |keys| && keys[i] == key && forall j :: 0 <= j < i ==> keys[j] != key
    ensures KeyFrom(keys, key, 0) == i
  {
  }

  lemma PutInFinds(keys: seq<int>, i: nat, key: int, k: int)
    requires i <= |keys| && key !in keys
    ensures var at := KeyFrom(keys, k, 0);
            KeyFrom(PutIn(keys, i, key), k, 0) == if k == key then i else if at < i then at else at + 1
  {
    var keys', at := PutIn(keys, i, key), KeyFrom(keys, k, 0);
    hide PutIn, KeyFrom;
    if k == key {
      KeyFromIs(keys', k, i);
    } else if at < |keys| {
      KeyFromIs(keys', k, if at < i then at else at + 1);
    } else {
      assert forall j :: 0 <= j < |keys'| ==> keys'[j] != k;
    }
  }

  lemma {:induction false} PutSorted(t: BTree, lo: Option<int>, hi: Option<int>, key: int, v: Bytes)
    requires Sorted(t, lo, hi) && Within(lo, key, hi)
    ensures Sorted(Put(t, key, v), lo, hi)
  {
    match t {
      case Tip(_, _, _) => PutTipSorted(t, lo, hi, key, v);
      case Fork(_, seps, kids) =>
        var i := ChildIndex(seps, key);
        PutSorted(kids[i], Low(seps, lo, i), High(seps, hi, i), key, v);
    }
  }

  lemma {:induction false} PutLookup(t: BTree, lo: Option<int>, hi: Option<int>, key: int, v: Bytes, k: int)
    requires Sorted(t, lo, hi)
    ensures Lookup(Put(t, key, v), k) == if k == key then Some(v) else Lookup(t, k)
  {
    match t {
      case Tip(_, _, _) => PutTipLookup(t, key, v, k);
      case Fork(_, seps, kids) =>
        var i := ChildIndex(seps, key);
        PutLookup(kids[i], Low(seps, lo, i), High(seps, hi, i), key, v, k);
    }
  }

  /** Two search trees whose lookups differ by one entry hold maps that do. */
  lemma ContentsFrom(t: BTree, t': BTree, key: int, v: Bytes)
    requires Sorted(t, None, None) && Sorted(t', None, None)
    requires forall k :: Lookup(t', k) == if k == key then Some(v) else Lookup(t, k)
    ensures Contents(t') == Contents(t)[key := v]
  {
    forall k ensures k in Contents(t') <==> k in Contents(t)[key := v] {
      LookupContents(t, k);
      LookupContents(t', k);
    }
    forall k | k in Contents(t') ensures Contents(t')[k] == Contents(t)[key := v][k] {
      LookupContents(t, k);
      LookupContents(t', k);
    }
  }

  /** Setting a key is setting it in the map, and keeps the order. */
  lemma PutContents(t: BTree, key: int, v: Bytes)
    requires Sorted(t, None, None)
    ensures Sorted(Put(t, key, v), None, None) && Contents(Put(t, key, v)) == Contents(t)[key := v]
  {
    hide Sorted, Contents;
    PutSorted(t, None, None, key, v);
    forall k ensures Lookup(Put(t, key, v), k) == if k == key then Some(v) else Lookup(t, k) {
      PutLookup(t, None, None, key, v, k);
    }
    ContentsFrom(t, Put(t, key, v), key, v);
  }

  // ----- Splitting a leaf -----

  function LeftHalf(t: BTree): BTree
    requires t.Tip? && |t.keys| == |t.vals|
  {
    t.(keys := t.keys[..|t.keys| / 2], vals := t.vals[..|t.keys| / 2])
  }

  function RightHalf(t: BTree, newId: int): BTree
    requires t.Tip? && |t.keys| == |t.vals|
  {
    Tip(newId, t.keys[|t.keys| / 2..], t.vals[|t.keys| / 2..])
  }

  /** A leaf of `key` that can be split. */
  predicate Splits(t: BTree, key: int) {
    match t
    case Tip(_, keys, vals) => |keys| == |vals| >= 2
    case Fork(_, seps, kids) => |kids| == |seps| + 1 && Splits(kids[ChildIndex(seps, key)], key)
  }

  /** The parent of two halves of child `i`. */
  function Opened(t: BTree, i: nat, newId: int): BTree
    requires t.Fork? && i < |t.kids| == |t.seps| + 1 && t.kids[i].Tip? && |t.kids[i].keys| == |t.kids[i].vals| >= 2
  {
    var right := RightHalf(t.kids[i], newId);
    t.(seps := PutIn(t.seps, i, right.keys[0]), kids := PutIn(t.kids[i := LeftHalf(t.kids[i])], i + 1, right))
  }

  /** The tree with the leaf of `key` split, its right half being the new node `newId`. */
  function SplitBelow(t: BTree, key: int, newId: int): BTree
    requires t.Fork? && Splits(t, key)
  {
    var i := ChildIndex(t.seps, key);
    assert Splits(t.kids[i], key);
    if t.kids[i].Tip? then Opened(t, i, newId) else t.(kids := t.kids[i := SplitBelow(t.kids[i], key, newId)])
  }

  lemma HalvesSorted(t: BTree, lo: Option<int>, hi: Option<int>, newId: int)
    requires t.Tip? && Sorted(t, lo, hi) && |t.keys| >= 2
    ensures var right := RightHalf(t, newId);
            && Sorted(LeftHalf(t), lo, Some(right.keys[0])) && Sorted(right, Some(right.keys[0]), hi)
            && Within(lo, right.keys[0], hi) && (lo.Some? ==> lo.value < right.keys[0])
  {
    assert t.keys[0] < t.keys[|t.keys| / 2];
  }

  lemma HalvesLookup(t: BTree, lo: Option<int>, hi: Option<int>, newId: int, k: int)
    requires t.Tip? && Sorted(t, lo, hi) && |t.keys| >= 2
    ensures var right := RightHalf(t, newId);
            Lookup(t, k) == if k < right.keys[0] then Lookup(LeftHalf(t), k) else Lookup(right, k)
  {
    var m, at := |t.keys| / 2, KeyFrom(t.keys, k, 0);
    var left, right := LeftHalf(t), RightHalf(t, newId);
    var l, r := KeyFrom(left.keys, k, 0), KeyFrom(right.keys, k, 0);
    if at < |t.keys| {
      if at < m {
        assert l == at;
      } else {
        assert t.keys[m] <= t.keys[at];
        assert r == at - m;
      }
    } else {
      assert forall j :: 0 <= j < |t.keys| ==> t.keys[j] != k;
      assert l == |left.keys| && r == |right.keys|;
    }
  }

  lemma PutInIncreasing(s: seq<int>, i: nat, x: int)
    requires Increasing(s) && i <= |s| && (i > 0 ==> s[i - 1] < x) && (i < |s| ==> x < s[i])
    ensures Increasing(PutIn(s, i, x))
  {
    forall j | 0 <= j < i ensures s[j] < x {
      assert j < i - 1 ==> s[j] < s[i - 1];
    }
    forall j | i <= j < |s| ensures x < s[j] {
      assert j > i ==> s[i] < s[j];
    }
  }

  lemma OpenedBounds(seps: seq<int>, lo: Option<int>, hi: Option<int>, i: nat, sep: int, j: nat)
    requires i <= |seps| && j <= |seps| + 1
    ensures var s := PutIn(seps, i, sep);
            && Low(s, lo, j) == (if j <= i then Low(seps, lo, j) else if j == i + 1 then Some(sep) else Low(seps, lo, j - 1))
            && High(s, hi, j) == (if j < i then High(seps, hi, j) else if j == i then Some(sep) else High(seps, hi, j - 1))
  {
  }

  lemma AboveLow(seps: seq<int>, lo: Option<int>, hi: Option<int>, i: nat, sep: int)
    requires i <= |seps| && Within(Low(seps, lo, i), sep, High(seps, hi, i))
    requires Low(seps, lo, i).Some? ==> Low(seps, lo, i).value < sep
    requires forall j :: 0 <= j < |seps| ==> Within(lo, seps[j], hi)
    ensures (i > 0 ==> seps[i - 1] < sep) && (i < |seps| ==> sep < seps[i]) && Within(lo, sep, hi)
  {
  }

  lemma ForkSorted(t: BTree, lo: Option<int>, hi: Option<int>)
    requires t.Fork? && |t.kids| == |t.seps| + 1 && Increasing(t.seps)
    requires forall i :: 0 <= i < |t.seps| ==> Within(lo, t.seps[i], hi)
    requires forall i :: 0 <= i < |t.kids| ==> Sorted(t.kids[i], Low(t.seps, lo, i), High(t.seps, hi, i))
    ensures Sorted(t, lo, hi)
  {
  }

  lemma SortedFork(t: BTree, lo: Option<int>, hi: Option<int>)
    requires t.Fork? && Sorted(t, lo, hi)
    ensures |t.kids| == |t.seps| + 1 && Increasing(t.seps)
    ensures forall i :: 0 <= i < |t.seps| ==> Within(lo, t.seps[i], hi)
    ensures forall i :: 0 <= i < |t.kids| ==> Sorted(t.kids[i], Low(t.seps, lo, i), High(t.seps, hi, i))
    ensures forall i :: 0 <= i < |t.kids| && t.kids[i].Tip? ==> |t.kids[i].keys| == |t.kids[i].vals|
  {
  }

  lemma OpenedSorted(t: BTree, lo: Option<int>, hi: Option<int>, i: nat, newId: int)
    requires t.Fork? && Sorted(t, lo, hi) && i < |t.kids| == |t.seps| + 1
    requires t.kids[i].Tip? && |t.kids[i].keys| == |t.kids[i].vals| >= 2
    ensures Sorted(Opened(t, i, newId), lo, hi)
  {
    hide Sorted, Increasing, Low, High;
    SortedFork(t, lo, hi);
    var l, h, t' := Low(t.seps, lo, i), High(t.seps, hi, i), Opened(t, i, newId);
    HalvesSorted(t.kids[i], l, h, newId);
    var sep := RightHalf(t.kids[i], newId).keys[0];
    AboveLow(t.seps, lo, hi, i, sep);
    PutInIncreasing(t.seps, i, sep);
    forall j | 0 <= j < |t'.kids| ensures Sorted(t'.kids[j], Low(t'.seps, lo, j), High(t'.seps, hi, j)) {
      OpenedBounds(t.seps, lo, hi, i, sep, j);
      if j < i {
        assert t'.kids[j] == t.kids[j];
      } else if j > i + 1 {
        assert t'.kids[j] == t.kids[j - 1];
      }
    }
    ForkSorted(t', lo, hi);
  }

  lemma {:induction false} SplitSorted(t: BTree, lo: Option<int>, hi: Option<int>, key: int, newId: int)
    requires t.Fork? && Sorted(t, lo, hi) && Splits(t, key)
    ensures Sorted(SplitBelow(t, key, newId), lo, hi)
  {
    var i := ChildIndex(t.seps, key);
    assert Splits(t.kids[i], key);
    if t.kids[i].Tip? {
      OpenedSorted(t, lo, hi, i, newId);
    } else {
      SplitSorted(t.kids[i], Low(t.seps, lo, i), High(t.seps, hi, i), key, newId);
    }
  }

  lemma OpenedLookup(t: BTree, lo: Option<int>, hi: Option<int>, i: nat, newId: int, k: int)
    requires t.Fork? && Sorted(t, lo, hi) && i < |t.kids| == |t.seps| + 1
    requires t.kids[i].Tip? && |t.kids[i].keys| == |t.kids[i].vals| >= 2
    ensures Lookup(Opened(t, i, newId), k) == Lookup(t, k)
  {
    hide Sorted;
    OpenedSorted(t, lo, hi, i, newId);
    SortedFork(t, lo, hi);
    SortedFork(Opened(t, i, newId), lo, hi);
    var seps', j := Opened(t, i, newId).seps, ChildIndex(t.seps, k);
    HalvesLookup(t.kids[i], Low(t.seps, lo, i), High(t.seps, hi, i), newId, k);
    ChildIndexIs(seps', k, if j < i || (j == i && k < seps'[i]) then j else j + 1);
  }

  lemma {:induction false} SplitLookup(t: BTree, lo: Option<int>, hi: Option<int>, key: int, newId: int, k: int)
    requires t.Fork? && Sorted(t, lo, hi) && Splits(t, key)
    ensures Lookup(SplitBelow(t, key, newId), k) == Lookup(t, k)
  {
    var i := ChildIndex(t.seps, key);
    assert Splits(t.kids[i], key);
    if t.kids[i].Tip? {
      OpenedLookup(t, lo, hi, i, newId, k);
    } else {
      SplitLookup(t.kids[i], Low(t.seps, lo, i), High(t.seps, hi, i), key, newId, k);
    }
  }

  /** The inner node above the leaf of `key`. */
  function ParentFor(t: BTree, key: int): (parent: BTree)
    requires t.Fork?
    ensures parent.Fork?
  {
    var i := ChildIndex(t.seps, key);
    if i < |t.kids| && t.kids[i].Fork? then ParentFor(t.kids[i], key) else t
  }

  /** There, any key of the leaf leads to the leaf. */
  lemma {:induction false} SameChild(t: BTree, lo: Option<int>, hi: Option<int>, key: int, i: nat)
    requires t.Fork? && Sorted(t, lo, hi) && LeafFor(t, key).Tip? && i < |LeafFor(t, key).keys|
    ensures var seps := ParentFor(t, key).seps; ChildIndex(seps, LeafFor(t, key).keys[i]) == ChildIndex(seps, key)
  {
    var j := ChildIndex(t.seps, key);
    if t.kids[j].Fork? {
      SameChild(t.kids[j], Low(t.seps, lo, j), High(t.seps, hi, j), key, i);
    } else {
      ChildIndexIs(t.seps, t.kids[j].keys[i], j);
    }
  }

  // ----- Insertion -----

  /** The tree has room for another entry in the leaf of `key`. */
  predicate HasRoom(t: BTree, key: int, most: nat) {
    var leaf := LeafFor(t, key);
    leaf.Tip? && |leaf.keys| < most
  }

  /** The tree after the insertion of an absent key: if its leaf is full, that is split. */
  function Inserted(t: BTree, key: int, v: Bytes, most: nat, newId: int): BTree
    requires HasRoom(t, key, most) || (t.Fork? && Put(t, key, v).Fork? && Splits(Put(t, key, v), key))
  {
    if HasRoom(t, key, most) then Put(t, key, v) else SplitBelow(Put(t, key, v), key, newId)
  }

  lemma {:induction false} PutSplits(t: BTree, lo: Option<int>, hi: Option<int>, key: int, v: Bytes, most: nat)
    requires Sorted(t, lo, hi) && Lookup(t, key).None? && most > 0
    ensures !HasRoom(t, key, most) ==> Splits(Put(t, key, v), key)
    ensures Put(t, key, v).Fork? == t.Fork?
  {
    if t.Fork? {
      var i := ChildIndex(t.seps, key);
      PutSplits(t.kids[i], Low(t.seps, lo, i), High(t.seps, hi, i), key, v, most);
    } else {
      PutTipAbsent(t, key, v);
    }
  }

  lemma PutTipAbsent(t: BTree, key: int, v: Bytes)
    requires t.Tip? && |t.keys| == |t.vals| && Lookup(t, key).None?
    ensures |PutTip(t, key, v).keys| == |PutTip(t, key, v).vals| == |t.keys| + 1
  {
  }

  lemma {:induction false} PutLeaf(t: BTree, key: int, v: Bytes)
    requires LeafFor(t, key).Tip? && |LeafFor(t, key).keys| == |LeafFor(t, key).vals|
    ensures LeafFor(Put(t, key, v), key) == PutTip(LeafFor(t, key), key, v)
  {
    if t.Fork? {
      PutLeaf(t.kids[ChildIndex(t.seps, key)], key, v);
    }
  }

  /** The leaf to be split, and its place in its parent. */
  lemma {:induction false} SplitsLeaf(t: BTree, key: int)
    requires Splits(t, key)
    ensures var leaf := LeafFor(t, key); leaf.Tip? && |leaf.keys| == |leaf.vals| >= 2
    ensures t.Fork? ==>
              var p := ParentFor(t, key);
              |p.kids| == |p.seps| + 1 && p.kids[ChildIndex(p.seps, key)] == LeafFor(t, key)
  {
    if t.Fork? {
      SplitsLeaf(t.kids[ChildIndex(t.seps, key)], key);
    }
  }

  /** An insertion, with or without a split, is the map insertion and keeps the order. */
  lemma InsertedContents(t: BTree, key: int, v: Bytes, most: nat, newId: int)
    requires Sorted(t, None, None) && Lookup(t, key).None? && most > 0 && (HasRoom(t, key, most) || t.Fork?)
    ensures HasRoom(t, key, most) || Splits(Put(t, key, v), key)
    ensures var t' := Inserted(t, key, v, most, newId); Sorted(t', None, None) && Contents(t') == Contents(t)[key := v]
  {
    hide Sorted, Contents, HasRoom, Splits;
    PutSplits(t, None, None, key, v, most);
    PutContents(t, key, v);
    var p, t' := Put(t, key, v), Inserted(t, key, v, most, newId);
    if !HasRoom(t, key, most) {
      SplitSorted(p, None, None, key, newId);
      forall k ensures Lookup(t', k) == if k == key then Some(v) else Lookup(t, k) {
        SplitLookup(p, None, None, key, newId, k);
        PutLookup(t, None, None, key, v, k);
      }
      ContentsFrom(t, t', key, v);
    }
  }

  /** All leaves stay on their level. */
  lemma {:induction false} PutLevel(t: BTree, h: nat, key: int, v: Bytes)
    requires Level(t, h)
    ensures Level(Put(t, key, v), h)
  {
    if t.Fork? && ChildIndex(t.seps, key) < |t.kids| {
      PutLevel(t.kids[ChildIndex(t.seps, key)], h - 1, key, v);
    }
  }

  lemma {:induction false} SplitLevel(t: BTree, h: nat, key: int, newId: int)
    requires Level(t, h) && t.Fork? && Splits(t, key)
    ensures Level(SplitBelow(t, key, newId), h)
  {
    var i := ChildIndex(t.seps, key);
    assert Splits(t.kids[i], key);
    if t.kids[i].Fork? {
      SplitLevel(t.kids[i], h - 1, key, newId);
    }
  }

  lemma {:induction false} PutRoomy(t: BTree, lo: Option<int>, hi: Option<int>, key: int, v: Bytes, most: nat)
    requires Sorted(t, lo, hi) && Roomy(t, most) && Lookup(t, key).Some?
    ensures Roomy(Put(t, key, v), most)
  {
    if t.Fork? {
      var i := ChildIndex(t.seps, key);
      PutRoomy(t.kids[i], Low(t.seps, lo, i), High(t.seps, hi, i), key, v, most);
    } else {
      PutTipPresent(t, key, v);
    }
  }

  /** And no leaf gets too full. */
  lemma {:induction false} InsertedRoomy(t: BTree, key: int, v: Bytes, most: nat, newId: int)
    requires Roomy(t, most) && (HasRoom(t, key, most) || (t.Fork? && Put(t, key, v).Fork? && Splits(Put(t, key, v), key)))
    ensures Roomy(Inserted(t, key, v, most, newId), most)
  {
    if t.Fork? && ChildIndex(t.seps, key) < |t.kids| {
      var i := ChildIndex(t.seps, key);
      var p := Put(t, key, v);
      assert HasRoom(t, key, most) == HasRoom(t.kids[i], key, most);
      if HasRoom(t, key, most) || t.kids[i].Fork? {
        assert !HasRoom(t, key, most) ==> Splits(p.kids[i], key);
        InsertedRoomy(t.kids[i], key, v, most, newId);
      } else {
        assert Splits(p.kids[i], key) && |p.kids[i].keys| <= most + 1;
      }
    }
  }

  // ----- Nodes -----

  ghost function Ids(t: BTree): set<int>
    decreases t
  {
    match t
    case Tip(id, _, _) => {id}
    case Fork(id, _, kids) => {id} + IdsOf(kids)
  }

  ghost function IdsOf(ts: seq<BTree>): set<int>
    decreases ts
  {
    set i, x | 0 <= i < |ts| && x in Ids(ts[i]) :: x
  }

  /** No id is used twice. */
  ghost predicate Apart(t: BTree)
    decreases t
  {
    t.Fork? ==> t.id !in IdsOf(t.kids) && AllApart(t.kids)
  }

  ghost predicate AllApart(ts: seq<BTree>)
    decreases ts
  {
    && (forall i :: 0 <= i < |ts| ==> Apart(ts[i]))
    && forall i, j, x :: 0 <= i < j < |ts| && x in Ids(ts[i]) ==> x !in Ids(ts[j])
  }

  lemma {:induction false} PutIds(t: BTree, key: int, v: Bytes)
    ensures Ids(Put(t, key, v)) == Ids(t) && Put(t, key, v).id == t.id
    ensures Apart(t) ==> Apart(Put(t, key, v))
  {
    if t.Fork? && ChildIndex(t.seps, key) < |t.kids| {
      var i := ChildIndex(t.seps, key);
      PutIds(t.kids[i], key, v);
      SameIds(t, Put(t, key, v));
    }
  }

  lemma SameIds(t: BTree, t': BTree)
    requires t.Fork? && t'.Fork? && t.id == t'.id && |t.kids| == |t'.kids|
    requires forall i :: 0 <= i < |t.kids| ==> Ids(t'.kids[i]) == Ids(t.kids[i]) && (Apart(t.kids[i]) ==> Apart(t'.kids[i]))
    ensures Ids(t') == Ids(t) && (Apart(t) ==> Apart(t'))
  {
    forall x ensures x in IdsOf(t'.kids) <==> x in IdsOf(t.kids) {
      if x in IdsOf(t'.kids) {
        var i :| 0 <= i < |t'.kids| && x in Ids(t'.kids[i]);
        assert x in Ids(t.kids[i]);
      }
      if x in IdsOf(t.kids) {
        var i :| 0 <= i < |t.kids| && x in Ids(t.kids[i]);
        assert x in Ids(t'.kids[i]);
      }
    }
    if Apart(t) {
      var ts, ts' := t.kids, t'.kids;
      assert AllApart(ts);
      forall i, j, x | 0 <= i < j < |ts'| && x in Ids(ts'[i]) ensures x !in Ids(ts'[j]) {
        assert x in Ids(ts[i]);
      }
      assert AllApart(ts');
    }
  }

  lemma KidIds(ts: seq<BTree>, i: nat, t: BTree, x: int)
    requires i < |ts|
    ensures x in IdsOf(ts[i := t]) <==> x in Ids(t) || exists j :: 0 <= j < |ts| && j != i && x in Ids(ts[j])
    ensures x in IdsOf(ts) <==> x in Ids(ts[i]) || exists j :: 0 <= j < |ts| && j != i && x in Ids(ts[j])
  {
    var us := ts[i := t];
    if j :| 0 <= j < |us| && x in Ids(us[j]) {
      assert j != i ==> us[j] == ts[j];
    }
    if j :| 0 <= j < |ts| && j != i && x in Ids(ts[j]) {
      assert us[j] == ts[j];
    }
    assert us[i] == t;
  }

  lemma {:induction false} SplitIds(t: BTree, key: int, newId: int)
    requires t.Fork? && Splits(t, key) && newId !in Ids(t) && Apart(t)
    ensures Ids(SplitBelow(t, key, newId)) == Ids(t) + {newId} && SplitBelow(t, key, newId).id == t.id
    ensures Apart(SplitBelow(t, key, newId))
  {
    var i := ChildIndex(t.seps, key);
    assert Splits(t.kids[i], key);
    var t' := SplitBelow(t, key, newId);
    if t.kids[i].Tip? {
      OpenedIds(t, i, newId);
    } else {
      var kid := SplitBelow(t.kids[i], key, newId);
      SplitIds(t.kids[i], key, newId);
      forall x ensures x in IdsOf(t'.kids) <==> x in IdsOf(t.kids) || x == newId {
        KidIds(t.kids, i, kid, x);
      }
    }
  }

  lemma OpenedIds(t: BTree, i: nat, newId: int)
    requires t.Fork? && i < |t.kids| == |t.seps| + 1 && t.kids[i].Tip? && |t.kids[i].keys| == |t.kids[i].vals| >= 2
    requires newId !in Ids(t) && Apart(t)
    ensures Ids(Opened(t, i, newId)) == Ids(t) + {newId} && Apart(Opened(t, i, newId))
  {
    var kids, kids' := t.kids, Opened(t, i, newId).kids;
    forall j | 0 <= j < |kids'|
      ensures Ids(kids'[j]) == if j == i + 1 then {newId} else Ids(kids[if j <= i then j else j - 1])
      ensures Apart(kids'[j])
    {
    }
    forall x ensures x in IdsOf(kids') <==> x in IdsOf(kids) || x == newId {
      if j :| 0 <= j < |kids| && x in Ids(kids[j]) {
        assert x in Ids(kids'[if j <= i then j else j + 1]);
      }
      if x == newId { assert x in Ids(kids'[i + 1]); }
    }
  }

  /** Insertion keeps the whole form of the tree. */
  lemma InsertedIds(t: BTree, key: int, v: Bytes, most: nat, newId: int)
    requires (HasRoom(t, key, most) || (t.Fork? && Put(t, key, v).Fork? && Splits(Put(t, key, v), key)))
    requires Apart(t) && newId !in Ids(t)
    ensures var t' := Inserted(t, key, v, most, newId);
            && Apart(t') && t'.id == t.id && Ids(t') == if HasRoom(t, key, most) then Ids(t) else Ids(t) + {newId}
  {
    hide Ids, Apart, Splits, HasRoom, SplitBelow, Put;
    PutIds(t, key, v);
    if !HasRoom(t, key, most) { SplitIds(Put(t, key, v), key, newId); }
  }

  // ----- A new root -----

  /** The tree above the two halves of a root leaf. */
  function NewRoot(t: BTree, rootId: int, newId: int): BTree
    requires t.Tip? && |t.keys| == |t.vals| >= 2
  {
    Fork(rootId, [RightHalf(t, newId).keys[0]], [LeftHalf(t), RightHalf(t, newId)])
  }

  lemma NewRootOpened(t: BTree, rootId: int, newId: int)
    requires t.Tip? && Sorted(t, None, None) && |t.keys| >= 2
    ensures var only := Fork(rootId, [], [t]); Sorted(only, None, None) && Opened(only, 0, newId) == NewRoot(t, rootId, newId)
  {
    var only, t' := Fork(rootId, [], [t]), NewRoot(t, rootId, newId);
    hide LeftHalf, RightHalf;
    assert PutIn(only.seps, 0, RightHalf(t, newId).keys[0]) == t'.seps;
    assert PutIn(only.kids[0 := LeftHalf(t)], 1, RightHalf(t, newId)) == t'.kids;
  }

  lemma NewRootIds(t: BTree, rootId: int, newId: int)
    requires t.Tip? && |t.keys| == |t.vals| >= 2
    requires newId != t.id && rootId != t.id && rootId != newId
    ensures var t' := NewRoot(t, rootId, newId); Apart(t') && Ids(t') == {t.id, newId, rootId} && t'.id == rootId
  {
    var kids := NewRoot(t, rootId, newId).kids;
    assert Ids(kids[0]) == {t.id} && Ids(kids[1]) == {newId};
    forall x ensures x in IdsOf(kids) <==> x == t.id || x == newId {
    }
  }

  lemma NewRootKids(t: BTree, rootId: int, newId: int)
    requires t.Tip? && |t.keys| == |t.vals| >= 2
    ensures var kids := NewRoot(t, rootId, newId).kids; |kids| == 2 && kids[0].id == t.id && kids[1].id == newId
  {
  }

  lemma NewRootLevel(t: BTree, most: nat, rootId: int, newId: int)
    requires t.Tip? && |t.keys| == |t.vals| && 2 <= |t.keys| <= most + 1
    ensures Level(NewRoot(t, rootId, newId), 2) && Roomy(NewRoot(t, rootId, newId), most)
  {
    var kids := NewRoot(t, rootId, newId).kids;
    assert |kids| == 2 && kids[0] == LeftHalf(t) && kids[1] == RightHalf(t, newId);
    assert Level(kids[0], 1) && Level(kids[1], 1) && Roomy(kids[0], most) && Roomy(kids[1], most);
  }

  lemma NewRootForm(t: BTree, most: nat, rootId: int, newId: int)
    requires t.Tip? && Sorted(t, None, None) && 2 <= |t.keys| <= most + 1
    ensures var t' := NewRoot(t, rootId, newId);
            && Sorted(t', None, None) && Level(t', 2) && Roomy(t', most) && Contents(t') == Contents(t)
  {
    var only, t' := Fork(rootId, [], [t]), NewRoot(t, rootId, newId);
    NewRootLevel(t, most, rootId, newId);
    NewRootOpened(t, rootId, newId);
    hide Sorted, Contents, NewRoot, Opened, Level, Roomy;
    OpenedSorted(only, None, None, 0, newId);
    forall k ensures Lookup(t', k) == Lookup(t, k) {
      OpenedLookup(only, None, None, 0, newId, k);
      assert ChildIndex(only.seps, k) == 0;
    }
    SameContents(t, t');
  }

  lemma SameContents(t: BTree, t': BTree)
    requires Sorted(t, None, None) && Sorted(t', None, None) && forall k :: Lookup(t', k) == Lookup(t, k)
    ensures Contents(t') == Contents(t)
  {
    forall k ensures (k in Contents(t') <==> k in Contents(t)) && (k in Contents(t) ==> Contents(t')[k] == Contents(t)[k]) {
      LookupContents(t, k);
      LookupContents(t', k);
    }
  }
}