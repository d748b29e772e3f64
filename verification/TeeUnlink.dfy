/** The pointer surgery of a removal by full scans of the enclave's list (tee_avl_omap `remove`,
    phase 3). Without the dummies it is the surgery on the list of real nodes. */
module TeeUnlink {
  import opened Common
  import opened StashTrees
  import opened AvlTrees
  import opened AvlLocal
  import opened AvlRep
  import opened AvlZip
  import opened AvlClimb
  import opened AvlShrink
  import opened AvlUnlink
  import opened AvlRemoval
  import opened TeeLists

  ghost predicate SameKinds<V>(p: Padded<V>, r: Padded<V>) {
    |r| == |p| && forall i :: 0 <= i < |p| ==> (r[i].Real() <==> p[i].Real())
  }

  lemma {:induction false} SameKindRanks<V>(p: Padded<V>, r: Padded<V>)
    requires SameKinds(p, r)
    ensures |Reals(r)| == |Reals(p)|
  {
    if p != [] {
      var n := |p| - 1;
      SameKindRanks(p[..n], r[..n]);
    }
  }

  /** The real entries of `r` are given rank by rank. */
  lemma RealsBy<V>(p: Padded<V>, r: Padded<V>, s: Local<V>)
    requires SameKinds(p, r) && |s| == |Reals(p)|
    requires forall i :: 0 <= i < |p| && p[i].Real() ==> Rank(p, i) < |s| && AsLocal(r[i]) == s[Rank(p, i)]
    ensures Reals(r) == s
  {
    hide Reals, Rank;
    SameKindRanks(p, r);
    forall j | 0 <= j < |s| ensures Reals(r)[j] == s[j] {
      var i := RealsOrigin(p, j);
      RealsPrefix(r, i);
      SameKindRank(p, r, i);
    }
  }

  lemma SameKindRank<V>(p: Padded<V>, r: Padded<V>, i: nat)
    requires SameKinds(p, r) && i <= |p|
    ensures Rank(r, i) == Rank(p, i)
  {
    SameKindRanks(p[..i], r[..i]);
  }

  lemma {:induction false} RankMonotone<V>(p: Padded<V>, i: nat, j: nat)
    requires i <= j <= |p|
    ensures Rank(p, i) <= Rank(p, j)
    decreases j
  {
    hide Rank;
    if i < j {
      RealsPrefix(p, j - 1);
      RankMonotone(p, i, j - 1);
    }
  }

  lemma {:induction false} TrailingDummies<V>(p: Padded<V>, n: nat)
    requires n <= |p| && forall i :: n <= i < |p| ==> !p[i].Real()
    ensures Reals(p) == Reals(p[..n])
  {
    if n == |p| {
      assert p[..n] == p;
    } else {
      var q := p[..|p| - 1];
      TrailingDummies(q, n);
      assert q[..n] == p[..n];
    }
  }

  // ----- The target takes over its successor's entry -----

  /** Only the path node before `i` points at the node at `i`, with one side, and only the next
      node hangs below it. */
  ghost predicate OnlyNext<V>(s: Local<V>, i: nat)
    requires i < |s|
  {
    forall j :: 0 <= j < |s| ==>
      && (s[j].avl.lKey == s[i].key ==> j + 1 == i && s[j].avl.rKey != s[i].key)
      && (s[j].avl.rKey == s[i].key ==> j + 1 == i)
      && (s[j].parentKey == s[i].key <==> j == i + 1)
  }

  /** `e` after the target, whose key was `was`, has taken over the entry (`key`, `data`). */
  function TakenOver<V>(e: Entry<V>, isTarget: bool, key: int, data: V, was: int): Entry<V> {
    var e1 := if isTarget then e.(key := key, avl := e.avl.(data := data)) else e;
    var onLeft, onRight := e1.Real() && e1.avl.lKey == was, e1.Real() && e1.avl.rKey == was;
    var e2 := e1.(avl := e1.avl.(lKey := if onLeft then key else e1.avl.lKey, rKey := if onRight then key else e1.avl.rKey));
    if e2.parentKey == was then e2.(parentKey := key) else e2
  }

  /** Key and data of the entry at `at`, gathered by a full scan. */
  method GatherAt<V>(p: Padded<V>, active: bool, at: int, zero: V) returns (key: int, data: V)
    ensures active && 0 <= at < |p| ==> key == p[at].key && data == p[at].avl.data
    ensures !active ==> key == INVALID_KEY
  {
    key, data := INVALID_KEY, zero;
    for i := 0 to |p|
      invariant active && 0 <= at < i ==> key == p[at].key && data == p[at].avl.data
      invariant !active ==> key == INVALID_KEY
    {
      var match_ := active && i == at;
      key, data := if match_ then p[i].key else key, if match_ then p[i].avl.data else data;
    }
  }

  method TakeSuccessor<V>(p: Padded<V>, rootKey: int, hasTwo: bool, target: int, succ: int, zero: V)
    returns (r: Padded<V>, rootKey': int)
    requires hasTwo ==>
               && 0 <= target < |p| && 0 <= succ < |p| && target != succ && p[target].Real() && p[succ].Real()
               && Rank(p, target) < |Reals(p)| && OnlyNext(Reals(p), Rank(p, target))
    ensures SameKinds(p, r) && forall i :: 0 <= i < |p| ==> r[i].leaf == p[i].leaf
    ensures !hasTwo ==> r == p && rootKey' == rootKey
    ensures hasTwo ==> r[succ].key == p[succ].key
    ensures hasTwo ==> RenamedAt(Reals(p), Rank(p, target), p[succ].key, p[succ].avl.data, Reals(r))
    ensures hasTwo ==> rootKey' == if rootKey == p[target].key then p[succ].key else rootKey
  {
    hide Reals, Rank, OnlyNext, RenamedAt, TakenOver;
    var key, data := GatherAt(p, hasTwo, succ, zero);
    var was := INVALID_KEY;
    r := p;
    for i := 0 to |p|
      invariant |r| == |p| && forall j :: i <= j < |p| ==> r[j] == p[j]
      invariant forall j :: 0 <= j < i ==> r[j] == if hasTwo && j == target then p[j].(key := key,
                avl := p[j].avl.(data := data)) else p[j]
      invariant was == if hasTwo && 0 <= target < i then p[target].key else INVALID_KEY
    {
      var match_ := hasTwo && i == target;
      was := if match_ then r[i].key else was;
      r := r[i := if match_ then r[i].(key := key, avl := r[i].avl.(data := data)) else r[i]];
    }
    ghost var q := r;
    for i := 0 to |p|
      invariant |r| == |p| && forall j :: i <= j < |p| ==> r[j] == q[j]
      invariant forall j :: 0 <= j < i ==> r[j] == if hasTwo then TakenOver(q[j], false, key, data, was) else q[j]
    {
      var e := TakenOver(r[i], false, key, data, was);
      r := r[i := if hasTwo then e else r[i]];
    }
    rootKey' := if hasTwo && rootKey == was then key else rootKey;
    if hasTwo {
      forall i | 0 <= i < |p| ensures r[i] == TakenOver(p[i], i == target, key, data, was) {
        TakenOverTwice(p[i], i == target, key, data, was);
      }
      TakenOverReals(p, r, target, key, data);
      TakenOverKey(p[succ], key, data, was);
      forall i | 0 <= i < |p| ensures r[i].leaf == p[i].leaf { TakenOverLeaf(p[i], i == target, key, data, was); }
    } else {
      assert r == p;
    }
  }

  lemma TakenOverTwice<V>(e: Entry<V>, isTarget: bool, key: int, data: V, was: int)
    ensures var e1 := if isTarget then e.(key := key, avl := e.avl.(data := data)) else e;
            TakenOver(e1, false, key, data, was) == TakenOver(e, isTarget, key, data, was)
  {
  }

  lemma TakenOverKey<V>(e: Entry<V>, key: int, data: V, was: int)
    ensures TakenOver(e, false, key, data, was).key == e.key
  {
  }

  lemma TakenOverLeaf<V>(e: Entry<V>, isTarget: bool, key: int, data: V, was: int)
    ensures TakenOver(e, isTarget, key, data, was).leaf == e.leaf
  {
  }

  lemma TakenOverReals<V>(p: Padded<V>, r: Padded<V>, target: nat, key: int, data: V)
    requires target < |p| && p[target].Real() && key != INVALID_KEY
    requires Rank(p, target) < |Reals(p)| && OnlyNext(Reals(p), Rank(p, target))
    requires |r| == |p| && forall i :: 0 <= i < |p| ==> r[i] == TakenOver(p[i], i == target, key, data, p[target].key)
    ensures SameKinds(p, r) && RenamedAt(Reals(p), Rank(p, target), key, data, Reals(r))
  {
    hide Reals, Rank, OnlyNext, TakenOver;
    forall i | 0 <= i < |p| ensures r[i].Real() <==> p[i].Real() {
      TakenOverKind(p[i], i == target, key, data, p[target].key);
    }
    var s := Reals(p);
    SameKindRanks(p, r);
    forall j | 0 <= j < |s| ensures Reals(r)[j] == TakenOverAt(s, Rank(p, target), key, data, j) {
      var i := RealsOrigin(p, j);
      SameKindRank(p, r, i);
      RealsPrefix(r, i);
      RealsPrefix(p, target);
      if j == Rank(p, target) { SameRankSame(p, i, target); }
      TakenOverIs(p[i], s, Rank(p, target), key, data, j);
    }
    TakenOverRenamed(s, Rank(p, target), key, data, Reals(r));
  }

  lemma TakenOverKind<V>(e: Entry<V>, isTarget: bool, key: int, data: V, was: int)
    requires key != INVALID_KEY && (isTarget ==> e.Real())
    ensures TakenOver(e, isTarget, key, data, was).Real() <==> e.Real()
  {
  }

  lemma SameRankSame<V>(p: Padded<V>, i: nat, j: nat)
    requires i < |p| && j < |p| && p[i].Real() && p[j].Real() && Rank(p, i) == Rank(p, j)
    ensures i == j
  {
    hide Rank, Reals;
    RealsPrefix(p, i);
    RealsPrefix(p, j);
    if i < j { RankMonotone(p, i + 1, j); }
    if j < i { RankMonotone(p, j + 1, i); }
  }

  function TakenOverAt<V>(s: Local<V>, i: nat, key: int, data: V, j: nat): LocalNode<V>
    requires i < |s| && j < |s|
  {
    var was := s[i].key;
    if j == i then s[i].(key := key, avl := s[i].avl.(data := data))
    else if j + 1 == i then RenameChild(s[j], was, key)
    else if j == i + 1 then s[j].(parentKey := key)
    else s[j]
  }

  lemma TakenOverIs<V>(e: Entry<V>, s: Local<V>, i: nat, key: int, data: V, j: nat)
    requires i < |s| && j < |s| && e.Real() && AsLocal(e) == s[j] && OnlyNext(s, i) && key != INVALID_KEY
    ensures AsLocal(TakenOver(e, j == i, key, data, s[i].key)) == TakenOverAt(s, i, key, data, j)
  {
  }

  lemma TakenOverRenamed<V>(s: Local<V>, i: nat, key: int, data: V, r: Local<V>)
    requires i < |s| == |r| && forall j :: 0 <= j < |s| ==> r[j] == TakenOverAt(s, i, key, data, j)
    ensures RenamedAt(s, i, key, data, r)
  {
  }

  // ----- The last path node is unlinked -----

  /** The last node can be unlinked: its parent comes before it and points at it once, and its
      only child is not in the list. */
  ghost predicate Droppable<V>(s: Local<V>) {
    && |s| > 0
    && (var k := |s| - 1;
        && (k == 0 ==> s[k].parentKey == INVALID_KEY)
        && (k > 0 ==>
              && s[k].parentKey == s[k - 1].key != INVALID_KEY
              && (s[k - 1].avl.lKey != s[k].key || s[k - 1].avl.rKey != s[k].key)
              && forall j :: 0 <= j < k - 1 ==> s[j].key != s[k - 1].key)
        && forall j :: 0 <= j < |s| ==> s[j].key != OnlyChildKey(s[k].avl))
  }

  /** `e` after the node (`key`, child of `parent`) has been cut out in favour of its only child. */
  function CutAround<V>(e: Entry<V>, isDeleted: bool, key: int, parent: int, n: AvlNode<V>): Entry<V> {
    var child, leaf, height := OnlyChildKey(n), OnlyChildLeaf(n), OnlyChildHeight(n);
    var isParent := parent != INVALID_KEY && e.key == parent && e.Real();
    var onLeft, onRight := isParent && e.avl.lKey == key, isParent && e.avl.rKey == key;
    var e1 := if onLeft then e.(avl := e.avl.(lKey := child, lLeaf := leaf, lHeight := height)) else e;
    var e2 := if onRight then e1.(avl := e1.avl.(rKey := child, rLeaf := leaf, rHeight := height)) else e1;
    var e3 := if isDeleted then e2.(key := INVALID_KEY) else e2;
    if child != INVALID_KEY && e3.Real() && e3.key == child then e3.(parentKey := parent) else e3
  }

  method UnlinkLast<V>(p: Padded<V>, rootKey: int, rootLeaf: int, found: bool, del: int)
    returns (r: Padded<V>, rootKey': int, rootLeaf': int)
    requires |p| > 0
    requires found ==>
               && 0 <= del < |p| && p[del].Real() && Rank(p, del) + 1 == |Reals(p)| && Droppable(Reals(p))
    ensures |r| == |p|
    ensures !found ==> r == p && rootKey' == rootKey && rootLeaf' == rootLeaf
    ensures found ==> |Reals(p)| > 0 && Reals(r) == DropLast(Reals(p))
    ensures found ==> forall i :: 0 <= i < |p| && r[i].Real() ==> r[i].key == p[i].key && r[i].leaf == p[i].leaf
    ensures found && |Reals(p)| > 1 ==> rootKey' == rootKey && rootLeaf' == rootLeaf
    ensures found && |Reals(p)| == 1 ==> rootKey' == OnlyChildKey(p[del].avl)
    ensures found && |Reals(p)| == 1 ==>
              rootLeaf' == if rootKey' == INVALID_KEY then INVALID_LEAF else OnlyChildLeaf(p[del].avl)
  {
    hide Reals, Rank, Droppable, CutAround, DropLast, OnlyChildKey, OnlyChildLeaf, OnlyChildHeight;
    var key, parent := INVALID_KEY, INVALID_KEY;
    var n := p[0].avl.(lKey := INVALID_KEY, lLeaf := INVALID_LEAF, lHeight := 0,
                       rKey := INVALID_KEY, rLeaf := INVALID_LEAF, rHeight := 0);
    for i := 0 to |p|
      invariant found && 0 <= del < i ==> key == p[del].key && parent == p[del].parentKey && n == p[del].avl
    {
      var match_ := found && i == del;
      key, parent, n := if match_ then p[i].key else key, if match_ then p[i].parentKey else parent,
          if match_ then p[i].avl else n;
    }
    r := p;
    for i := 0 to |p|
      invariant |r| == |p| && forall j :: i <= j < |p| ==> r[j] == p[j]
      invariant forall j :: 0 <= j < i ==> r[j] == if found then CutAround(p[j], j == del, key, parent, n) else p[j]
    {
      var e := CutAround(r[i], i == del, key, parent, n);
      r := r[i := if found then e else r[i]];
    }
    var atRoot := found && parent == INVALID_KEY;
    var child := OnlyChildKey(n);
    rootKey' := if atRoot then child else rootKey;
    rootLeaf' := if atRoot then (if child == INVALID_KEY then INVALID_LEAF else OnlyChildLeaf(n)) else rootLeaf;
    if found {
      CutReals(p, r, del);
      DroppableRoot(p, del);
      forall i | 0 <= i < |p| ensures r[i].leaf == p[i].leaf && (r[i].Real() ==> r[i].key == p[i].key) {
        CutKeeps(p[i], i == del, key, parent, n);
      }
    } else {
      assert r == p;
    }
  }

  lemma CutKeeps<V>(e: Entry<V>, isDeleted: bool, key: int, parent: int, n: AvlNode<V>)
    ensures CutAround(e, isDeleted, key, parent, n).leaf == e.leaf
    ensures CutAround(e, isDeleted, key, parent, n).key == if isDeleted then INVALID_KEY else e.key
  {
  }

  lemma DroppableRoot<V>(p: Padded<V>, del: nat)
    requires del < |p| && p[del].Real() && Rank(p, del) + 1 == |Reals(p)| && Droppable(Reals(p))
    ensures p[del].parentKey == INVALID_KEY <==> |Reals(p)| == 1
  {
    hide Reals, Rank;
    RealsPrefix(p, del);
  }

  lemma NoRealsBehind<V>(p: Padded<V>, del: nat, i: nat)
    requires del < i < |p| && p[del].Real() && Rank(p, del) + 1 == |Reals(p)|
    ensures !p[i].Real()
  {
    hide Reals, Rank;
    RealsPrefix(p, del);
    RankMonotone(p, del + 1, i);
    RealsPrefix(p, i);
  }

  lemma CutReals<V>(p: Padded<V>, r: Padded<V>, del: nat)
    requires del < |p| && p[del].Real() && Rank(p, del) + 1 == |Reals(p)| && Droppable(Reals(p))
    requires |r| == |p|
    requires forall i :: 0 <= i < |p| ==> r[i] == CutAround(p[i], i == del, p[del].key, p[del].parentKey, p[del].avl)
    ensures Reals(r) == DropLast(Reals(p))
  {
    hide Reals, Rank, CutAround, Droppable, DropLast;
    var s, k := Reals(p), |Reals(p)| - 1;
    forall i | del <= i < |p| ensures !r[i].Real() {
      if i > del { NoRealsBehind(p, del, i); }
      CutKeeps(p[i], i == del, p[del].key, p[del].parentKey, p[del].avl);
    }
    TrailingDummies(r, del);
    RealsPrefix(p, del);
    var p0, r0 := p[..del], r[..del];
    forall i | 0 <= i < del ensures r0[i].Real() <==> p0[i].Real() {
      CutKeeps(p[i], false, p[del].key, p[del].parentKey, p[del].avl);
    }
    DropLastSize(s);
    forall i | 0 <= i < |p0| && p0[i].Real() ensures Rank(p0, i) < |DropLast(s)| && AsLocal(r0[i]) == DropLast(s)[Rank(p0, i)] {
      RealsPrefix(p0, i);
      CutIs(p0[i], s, p[del], Rank(p0, i));
    }
    RealsBy(p0, r0, DropLast(s));
  }

  lemma DropLastSize<V>(s: Local<V>)
    requires |s| > 0
    ensures |DropLast(s)| == |s| - 1
  {
  }

  lemma CutIs<V>(e: Entry<V>, s: Local<V>, last: Entry<V>, j: nat)
    requires Droppable(s) && j < |s| - 1 && e.Real() && AsLocal(e) == s[j] && AsLocal(last) == s[|s| - 1]
    ensures |DropLast(s)| == |s| - 1
    ensures AsLocal(CutAround(e, false, last.key, last.parentKey, last.avl)) == DropLast(s)[j]
  {
  }

  // ----- What a represented path provides -----

  lemma ZipOnlyNext<V>(s: Local<V>, fs: seq<Frame<V>>, t: Tree<V>, c: Cells<V>, i: nat)
    requires |s| == |fs| && Zip(s, fs, |s|, t, c) && i < |s|
    ensures OnlyNext(s, i)
  {
    hide At, Zip, Ordered, Keys, OrderedPath, KeysAlong, ParentAt;
    ZipKeysAlong(s, fs, t, c);
    ZipOrder(s, fs, t, c);
    forall j | 0 <= j < |s| ensures
      && (s[j].avl.lKey == s[i].key ==> j + 1 == i && s[j].avl.rKey != s[i].key)
      && (s[j].avl.rKey == s[i].key ==> j + 1 == i)
      && (s[j].parentKey == s[i].key <==> j == i + 1)
    {
      OnlyNextAt(s, fs, t, i, j);
    }
  }

  /** The keys and pointers along a path, without what they stand for. */
  ghost predicate KeysAlong<V>(s: Local<V>, fs: seq<Frame<V>>, t: Tree<V>, j: nat)
    requires |s| == |fs| && j < |s|
  {
    && s[j].key == fs[j].key >= 0 && s[j].parentKey == ParentAt(fs, j)
    && PathKey(s[j], fs[j].left) == (if j + 1 < |s| then fs[j + 1].key else RootKey(t))
    && PathKey(s[j], !fs[j].left) == RootKey(fs[j].other)
  }

  lemma ZipKeysAlong<V>(s: Local<V>, fs: seq<Frame<V>>, t: Tree<V>, c: Cells<V>)
    requires |s| == |fs| && Zip(s, fs, |s|, t, c)
    ensures forall j :: 0 <= j < |s| ==> KeysAlong(s, fs, t, j)
  {
    hide At, Rep, Ordered, Keys, OrderedPath, FrameOk, PathSide, PathKey, PathOk, ParentAt;
    PathOkKeys(s, fs, |s|, At(s), c);
    forall j | 0 <= j < |s| ensures KeysAlong(s, fs, t, j) {
      FrameAt(s, fs, |s|, At(s), c, j);
      FrameKeys(s[j], fs[j], ParentAt(fs, j), At(s), c);
      if j + 1 == |s| { SideKey(s[j], fs[j].left, t, At(s), c); }
    }
  }

  lemma OnlyNextAt<V>(s: Local<V>, fs: seq<Frame<V>>, t: Tree<V>, i: nat, j: nat)
    requires |s| == |fs| && i < |s| && j < |s| && OrderedPath(fs, |fs|, t)
    requires KeysAlong(s, fs, t, i) && KeysAlong(s, fs, t, j) && (j > 0 ==> KeysAlong(s, fs, t, j - 1))
    ensures s[j].avl.lKey == s[i].key ==> j + 1 == i && s[j].avl.rKey != s[i].key
    ensures s[j].avl.rKey == s[i].key ==> j + 1 == i
    ensures s[j].parentKey == s[i].key <==> j == i + 1
  {
    hide Keys, Ordered, OrderedPath;
    PathApart(fs, |fs|, t);
    PathIsOrdered(fs, t);
    PathDistinct(fs, t);
    RootIsKey(t);
    RootIsKey(fs[j].other);
    assert fs[i].key !in Keys(t) && fs[i].key !in Keys(fs[j].other);
  }

  lemma FrameKeys<V>(n: LocalNode<V>, f: Frame<V>, par: int, m: Index<V>, c: Cells<V>)
    requires FrameOk(n, f, par, m, c)
    ensures n.key == f.key && PathKey(n, !f.left) == RootKey(f.other)
  {
  }

  lemma SideKey<V>(n: LocalNode<V>, left: bool, t: Tree<V>, m: Index<V>, c: Cells<V>)
    requires PathSide(n, left, t, m, c)
    ensures PathKey(n, left) == RootKey(t)
  {
  }

  lemma PathIsOrdered<V>(fs: seq<Frame<V>>, t: Tree<V>)
    requires OrderedPath(fs, |fs|, t)
    ensures Ordered(Plug(fs, t))
  {
    assert fs[..|fs|] == fs;
  }

  /** The last path node can be unlinked if it has at most one child. */
  lemma ZipDroppable<V>(s: Local<V>, fs: seq<Frame<V>>, t: Tree<V>, c: Cells<V>)
    requires |s| == |fs| > 0 && Zip(s, fs, |s|, t, c) && (t == Nil || fs[|fs| - 1].other == Nil)
    ensures Droppable(s)
  {
    hide At, Zip, Ordered, Keys, OrderedPath, KeysAlong, OnlyNext;
    var k := |s| - 1;
    ZipUnique(s, fs, |s|, t, c);
    ZipKeysAlong(s, fs, t, c);
    ZipOrder(s, fs, t, c);
    ZipOnlyNext(s, fs, t, c, k);
    ZipOnlyNextAt(s, k);
    DroppableEnds(s, fs, t);
    forall j | 0 <= j < |s| ensures s[j].key != OnlyChildKey(s[k].avl) {
      NotOnlyChild(s, fs, t, j);
    }
  }

  lemma DroppableEnds<V>(s: Local<V>, fs: seq<Frame<V>>, t: Tree<V>)
    requires |s| == |fs| > 0 && Unique(s) && KeysAlong(s, fs, t, |s| - 1) && (|s| > 1 ==> KeysAlong(s, fs, t, |s| - 2))
    ensures |s| == 1 ==> s[0].parentKey == INVALID_KEY
    ensures |s| > 1 ==> s[|s| - 1].parentKey == s[|s| - 2].key != INVALID_KEY
    ensures forall j :: 0 <= j < |s| - 2 ==> s[j].key != s[|s| - 2].key
  {
  }

  lemma NotOnlyChild<V>(s: Local<V>, fs: seq<Frame<V>>, t: Tree<V>, j: nat)
    requires |s| == |fs| > 0 && j < |s| && (t == Nil || fs[|fs| - 1].other == Nil) && OrderedPath(fs, |fs|, t)
    requires KeysAlong(s, fs, t, j) && KeysAlong(s, fs, t, |s| - 1)
    ensures s[j].key != OnlyChildKey(s[|s| - 1].avl)
  {
    hide Keys, Ordered, OrderedPath;
    var k := |s| - 1;
    PathApart(fs, |fs|, t);
    PathIsOrdered(fs, t);
    PathDistinct(fs, t);
    StoredPositive(fs, t);
    OnlyChildIs(s[k].avl, fs[k].left, t, fs[k].other);
    RootIsKey(t);
    RootIsKey(fs[k].other);
    assert fs[j].key !in Keys(t) && fs[j].key !in Keys(fs[k].other);
  }

  lemma ZipOnlyNextAt<V>(s: Local<V>, k: nat)
    requires k < |s| && OnlyNext(s, k)
    ensures k > 0 ==> (s[k - 1].avl.lKey != s[k].key || s[k - 1].avl.rKey != s[k].key)
  {
  }

  lemma OnlyChildIs<V>(n: AvlNode<V>, left: bool, t: Tree<V>, other: Tree<V>)
    requires (if left then n.lKey else n.rKey) == RootKey(t) && (if left then n.rKey else n.lKey) == RootKey(other)
    requires t == Nil || other == Nil
    requires (t.Node? ==> t.key >= 0) && (other.Node? ==> other.key >= 0)
    ensures OnlyChildKey(n) == RootKey(if t == Nil then other else t)
  {
  }

  /** Taking over the last node's entry leaves that node droppable. */
  lemma RenamedDroppable<V>(s: Local<V>, i: nat, key: int, data: V, r: Local<V>)
    requires Unique(s) && Droppable(s) && i < |s| - 1 && key == s[|s| - 1].key && RenamedAt(s, i, key, data, r)
    ensures Droppable(r)
  {
  }

  /** A list with sound leaves whose real entries have different keys is sound. */
  lemma UniqueSound<V>(p: Padded<V>)
    requires Unique(Reals(p)) && forall i :: 0 <= i < |p| && p[i].Real() ==> p[i].leaf >= 0
    ensures Sound(p)
  {
    hide Reals, Rank;
    forall i | 0 <= i < |p| && p[i].Real() ensures p[i].key >= 0 {
      RealsPrefix(p, i);
    }
    forall i, j | 0 <= i < j < |p| && p[i].Real() && p[j].Real() ensures p[i].key != p[j].key {
      RealsPrefix(p, i);
      RealsPrefix(p, j);
      RankMonotone(p, i + 1, j);
    }
  }
}
