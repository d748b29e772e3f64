/** The mathematical AVL tree that the AVL map stores node by node in ORAM: what its
    rebalancing computes, and why that keeps order, balance and contents (avl_omap). */
module AvlTrees {
  import opened Common

  datatype Tree<+V> = Nil | Node(left: Tree<V>, key: int, value: V, right: Tree<V>)

  function Max(a: int, b: int): int {
    if a > b then a else b
  }

  function Height<V>(t: Tree<V>): nat {
    match t
    case Nil => 0
    case Node(l, _, _, r) => 1 + Max(Height(l), Height(r))
  }

  function Size<V>(t: Tree<V>): nat {
    match t
    case Nil => 0
    case Node(l, _, _, r) => Size(l) + 1 + Size(r)
  }

  /** Left height minus right height. */
  function Tilt<V>(t: Tree<V>): int {
    match t
    case Nil => 0
    case Node(l, _, _, r) => Height(l) - Height(r)
  }

  function Keys<V>(t: Tree<V>): set<int> {
    match t
    case Nil => {}
    case Node(l, k, _, r) => Keys(l) + {k} + Keys(r)
  }

  function Contents<V>(t: Tree<V>): map<int, V> {
    match t
    case Nil => map[]
    case Node(l, k, v, r) => Contents(l) + Contents(r) + map[k := v]
  }

  ghost predicate Below(s: set<int>, k: int) {
    forall x :: x in s ==> x < k
  }

  ghost predicate Above(s: set<int>, k: int) {
    forall x :: x in s ==> k < x
  }

  ghost predicate Ordered<V>(t: Tree<V>) {
    match t
    case Nil => true
    case Node(l, k, _, r) => Ordered(l) && Ordered(r) && Below(Keys(l), k) && Above(Keys(r), k)
  }

  ghost predicate Balanced<V>(t: Tree<V>) {
    match t
    case Nil => true
    case Node(l, _, _, r) => Balanced(l) && Balanced(r) && -1 <= Tilt(t) <= 1
  }

  ghost predicate Avl<V>(t: Tree<V>) {
    Ordered(t) && Balanced(t)
  }

  // ----- Rotations and rebalancing -----

  /** Left rotation: the right child becomes the root. */
  function RotateLeft<V>(t: Tree<V>): Tree<V>
    requires t.Node? && t.right.Node?
  {
    var p := t.right;
    Node(Node(t.left, t.key, t.value, p.left), p.key, p.value, p.right)
  }

  function RotateRight<V>(t: Tree<V>): Tree<V>
    requires t.Node? && t.left.Node?
  {
    var p := t.left;
    Node(p.left, p.key, p.value, Node(p.right, t.key, t.value, t.right))
  }

  /** One rebalancing step at the root, with a first rotation of the child if it leans inwards. */
  function Rebalance<V>(t: Tree<V>): Tree<V>
    requires t.Node?
  {
    if Tilt(t) > 1 then
      var l := t.left;
      RotateRight(if Tilt(l) < 0 then t.(left := RotateLeft(l)) else t)
    else if Tilt(t) < -1 then
      var r := t.right;
      RotateLeft(if Tilt(r) > 0 then t.(right := RotateRight(r)) else t)
    else
      t
  }

  function Inserted<V>(t: Tree<V>, key: int, value: V): Tree<V> {
    match t
    case Nil => Node(Nil, key, value, Nil)
    case Node(l, k, v, r) =>
      Rebalance(if key < k then Node(Inserted(l, key, value), k, v, r)
                else Node(l, k, v, Inserted(r, key, value)))
  }

  function Leftmost<V>(t: Tree<V>): (m: Tree<V>)
    requires t.Node?
    ensures m.Node?
  {
    if t.left == Nil then t else Leftmost(t.left)
  }

  function RemoveMin<V>(t: Tree<V>): Tree<V>
    requires t.Node?
  {
    if t.left == Nil then t.right
    else Rebalance(Node(RemoveMin(t.left), t.key, t.value, t.right))
  }

  /** A node with two children takes over its successor, which is unlinked below it. */
  function Removed<V>(t: Tree<V>, key: int): Tree<V> {
    match t
    case Nil => Nil
    case Node(l, k, v, r) =>
      if key < k then Rebalance(Node(Removed(l, key), k, v, r))
      else if key > k then Rebalance(Node(l, k, v, Removed(r, key)))
      else if l == Nil then r
      else if r == Nil then l
      else var s := Leftmost(r); Rebalance(Node(l, s.key, s.value, RemoveMin(r)))
  }

  // ----- Contents -----

  lemma {:induction false} ContentsKeys<V>(t: Tree<V>)
    ensures Contents(t).Keys == Keys(t)
  {
    if t.Node? {
      ContentsKeys(t.left);
      ContentsKeys(t.right);
    }
  }

  /** The two shapes related by a rotation hold the same entries in the same order. */
  lemma RotationKeeps<V>(l: Tree<V>, k: int, v: V, m: Tree<V>, k': int, v': V, r: Tree<V>)
    ensures var right := Node(l, k, v, Node(m, k', v', r));
            var left := Node(Node(l, k, v, m), k', v', r);
            && Keys(left) == Keys(right)
            && (Ordered(left) <==> Ordered(right))
            && (Ordered(left) ==> Contents(left) == Contents(right))
  {
    var right := Node(l, k, v, Node(m, k', v', r));
    var left := Node(Node(l, k, v, m), k', v', r);
    RotationOrder(l, k, v, m, k', v', r);
    if Ordered(left) {
      hide Keys;
      OrderedSides(left);
      OrderedSides(right);
      ContentsKeys(l);
      ContentsKeys(m);
      ContentsKeys(r);
      MapsCommute(Contents(l), Contents(m), Contents(r), k, v, k', v');
    }
  }

  lemma RotationOrder<V>(l: Tree<V>, k: int, v: V, m: Tree<V>, k': int, v': V, r: Tree<V>)
    ensures var right := Node(l, k, v, Node(m, k', v', r));
            var left := Node(Node(l, k, v, m), k', v', r);
            Keys(left) == Keys(right) && (Ordered(left) <==> Ordered(right))
  {
    var right := Node(l, k, v, Node(m, k', v', r));
    var left := Node(Node(l, k, v, m), k', v', r);
    assert k in Keys(left.left) && k' in Keys(right.right);
    if Ordered(left) {
      assert Ordered(left.left);
      assert Ordered(right.right);
    }
    if Ordered(right) {
      assert Ordered(right.right);
      assert Ordered(left.left);
    }
  }

  /** One unfolding of the order on both levels. */
  lemma OrderedSides<V>(t: Tree<V>)
    requires t.Node? && Ordered(t)
    ensures Below(Keys(t.left), t.key) && Above(Keys(t.right), t.key)
    ensures t.left.Node? ==> t.left.key < t.key && Below(Keys(t.left.left), t.left.key) && Above(Keys(t.left.right), t.left.key)
                             && Below(Keys(t.left.right), t.key)
    ensures t.right.Node? ==>
              && t.key < t.right.key && Below(Keys(t.right.left), t.right.key) && Above(Keys(t.right.right), t.right.key)
              && Above(Keys(t.right.left), t.key)
  {
    if t.left.Node? { assert t.left.key in Keys(t.left); }
    if t.right.Node? { assert t.right.key in Keys(t.right); }
  }

  lemma MapsCommute<V>(l: map<int, V>, m: map<int, V>, r: map<int, V>, k: int, v: V, k': int, v': V)
    requires Below(l.Keys, k) && Above(m.Keys, k) && Below(m.Keys, k') && Above(r.Keys, k') && k < k'
    ensures (l + m + map[k := v]) + r + map[k' := v'] == l + (m + r + map[k' := v']) + map[k := v]
  {
  }

  lemma RebalanceKeeps<V>(t: Tree<V>)
    requires t.Node? && Ordered(t)
    ensures Ordered(Rebalance(t)) && Keys(Rebalance(t)) == Keys(t) && Contents(Rebalance(t)) == Contents(t)
  {
    if Tilt(t) > 1 {
      var l := t.left;
      if Tilt(l) < 0 {
        var p := l.right;
        RotationKeeps(l.left, l.key, l.value, p.left, p.key, p.value, p.right);
        RotationKeeps(RotateLeft(l).left, p.key, p.value, p.right, t.key, t.value, t.right);
      } else {
        RotationKeeps(l.left, l.key, l.value, l.right, t.key, t.value, t.right);
      }
    } else if Tilt(t) < -1 {
      var r := t.right;
      if Tilt(r) > 0 {
        var p := r.left;
        RotationKeeps(p.left, p.key, p.value, p.right, r.key, r.value, r.right);
        RotationKeeps(t.left, t.key, t.value, p.left, p.key, p.value, RotateRight(r).right);
      } else {
        RotationKeeps(t.left, t.key, t.value, r.left, r.key, r.value, r.right);
      }
    }
  }

  // ----- Insertion -----

  lemma PutInNode<V>(l: map<int, V>, k: int, v: V, r: map<int, V>, key: int, value: V)
    requires key != k
    ensures key !in r ==> l[key := value] + r + map[k := v] == (l + r + map[k := v])[key := value]
    ensures l + r[key := value] + map[k := v] == (l + r + map[k := v])[key := value]
  {
  }

  lemma DropFromNode<V>(l: map<int, V>, k: int, v: V, r: map<int, V>, key: int)
    requires key != k
    ensures key !in r ==> (l - {key}) + r + map[k := v] == (l + r + map[k := v]) - {key}
    ensures key !in l ==> l + (r - {key}) + map[k := v] == (l + r + map[k := v]) - {key}
  {
  }

  lemma {:induction false} InsertContents<V>(t: Tree<V>, key: int, value: V)
    requires Ordered(t) && key !in Keys(t)
    ensures Ordered(Inserted(t, key, value)) && Keys(Inserted(t, key, value)) == Keys(t) + {key}
    ensures Contents(Inserted(t, key, value)) == Contents(t)[key := value]
  {
    hide Rebalance, Ordered, Keys, Contents;
    if t.Node? {
      if key < t.key {
        PutLeft(t, key, value);
        InsertContents(t.left, key, value);
        PutSide(t, key, value, Inserted(t.left, key, value));
        RebalanceKeeps(t.(left := Inserted(t.left, key, value)));
      } else {
        PutLeft(t, key, value);
        InsertContents(t.right, key, value);
        PutSide(t, key, value, Inserted(t.right, key, value));
        RebalanceKeeps(t.(right := Inserted(t.right, key, value)));
      }
    } else {
      SingleEntry(key, value);
    }
  }

  /** `t'` holds the entries of `t` and (`key`, `value`). */
  ghost predicate Put<V>(t: Tree<V>, key: int, value: V, t': Tree<V>) {
    Ordered(t') && Keys(t') == Keys(t) + {key} && Contents(t') == Contents(t)[key := value]
  }

  lemma SingleEntry<V>(key: int, value: V)
    ensures Put(Nil, key, value, Node(Nil, key, value, Nil))
  {
  }

  lemma PutLeft<V>(t: Tree<V>, key: int, value: V)
    requires t.Node? && Ordered(t) && key !in Keys(t)
    ensures key != t.key && Ordered(t.left) && Ordered(t.right) && key !in Keys(t.left) && key !in Keys(t.right)
  {
  }

  lemma PutSide<V>(t: Tree<V>, key: int, value: V, s: Tree<V>)
    requires t.Node? && Ordered(t) && key != t.key && key !in Keys(t.left) && key !in Keys(t.right)
    requires if key < t.key then Put(t.left, key, value, s) else Put(t.right, key, value, s)
    ensures Put(t, key, value, if key < t.key then t.(left := s) else t.(right := s))
  {
    ContentsKeys(t.left);
    ContentsKeys(t.right);
    PutInNode(Contents(t.left), t.key, t.value, Contents(t.right), key, value);
  }

  /** Effect of rebalancing on the heights, when one side has become taller or shorter by one. */
  ghost predicate Settled<V>(t: Tree<V>, t': Tree<V>)
    requires t.Node?
  {
    && Balanced(t')
    && Height(t) - 1 <= Height(t') <= Height(t)
    && (-1 <= Tilt(t) <= 1 ==> t' == t)
    && (Tilt(t) == 2 && Tilt(t.left) != 0 ==> Height(t') == Height(t) - 1)
    && (Tilt(t) == -2 && Tilt(t.right) != 0 ==> Height(t') == Height(t) - 1)
  }

  lemma RebalanceLeft<V>(t: Tree<V>)
    requires t.Node? && Balanced(t.left) && Balanced(t.right) && Tilt(t) == 2
    ensures Settled(t, Rebalance(t))
  {
    var l := t.left;
    if Tilt(l) < 0 {
      var m := l.right;
      var a, b := Node(l.left, l.key, l.value, m.left), Node(m.right, t.key, t.value, t.right);
      assert Balanced(m);
      assert Rebalance(t) == Node(a, m.key, m.value, b);
      assert Balanced(a) && Balanced(b);
    } else {
      var b := Node(l.right, t.key, t.value, t.right);
      assert Rebalance(t) == Node(l.left, l.key, l.value, b);
      assert Balanced(b);
    }
  }

  lemma RebalanceRight<V>(t: Tree<V>)
    requires t.Node? && Balanced(t.left) && Balanced(t.right) && Tilt(t) == -2
    ensures Settled(t, Rebalance(t))
  {
    var r := t.right;
    if Tilt(r) > 0 {
      var m := r.left;
      var a, b := Node(t.left, t.key, t.value, m.left), Node(m.right, r.key, r.value, r.right);
      assert Balanced(m);
      assert Rebalance(t) == Node(a, m.key, m.value, b);
      assert Balanced(a) && Balanced(b);
    } else {
      var a := Node(t.left, t.key, t.value, r.left);
      assert Rebalance(t) == Node(a, r.key, r.value, r.right);
      assert Balanced(a);
    }
  }

  lemma RebalanceBalances<V>(t: Tree<V>)
    requires t.Node? && Balanced(t.left) && Balanced(t.right) && -2 <= Tilt(t) <= 2
    ensures Settled(t, Rebalance(t))
  {
    if Tilt(t) == 2 {
      RebalanceLeft(t);
    } else if Tilt(t) == -2 {
      RebalanceRight(t);
    }
  }

  /** Insertion keeps balance; and if the height grows then the result is a single node or
      leans towards the inserted key without having been rotated. */
  lemma {:induction false} InsertBalanced<V>(t: Tree<V>, key: int, value: V)
    requires Balanced(t)
    ensures Balanced(Inserted(t, key, value))
    ensures Height(t) <= Height(Inserted(t, key, value)) <= Height(t) + 1
    ensures Height(Inserted(t, key, value)) > Height(t) && t.Node? ==>
              if key < t.key then Inserted(t, key, value) == t.(left := Inserted(t.left, key, value))
                  && Tilt(Inserted(t, key, value)) == 1
              else Inserted(t, key, value) == t.(right := Inserted(t.right, key, value)) && Tilt(Inserted(t, key, value)) == -1
  {
    hide Rebalance;
    if t.Node? {
      if key < t.key {
        InsertBalanced(t.left, key, value);
        RebalanceBalances(t.(left := Inserted(t.left, key, value)));
      } else {
        InsertBalanced(t.right, key, value);
        RebalanceBalances(t.(right := Inserted(t.right, key, value)));
      }
    }
  }

  // ----- Removal -----

  lemma {:induction false} LeftmostIsLeast<V>(t: Tree<V>)
    requires t.Node? && Ordered(t)
    ensures Leftmost(t).key in Keys(t)
    ensures Above(Keys(t) - {Leftmost(t).key}, Leftmost(t).key)
    ensures Leftmost(t).key in Contents(t) && Contents(t)[Leftmost(t).key] == Leftmost(t).value
  {
    ContentsKeys(t);
    ContentsKeys(t.left);
    ContentsKeys(t.right);
    if t.left != Nil {
      LeftmostIsLeast(t.left);
      var m := Leftmost(t.left).key;
      assert m < t.key;
      forall x | x in Keys(t) - {m} ensures m < x {
        if x in Keys(t.left) { assert x in Keys(t.left) - {m}; } else { assert t.key <= x; }
      }
    }
  }

  lemma {:induction false} RemoveMinContents<V>(t: Tree<V>)
    requires t.Node? && Ordered(t)
    ensures Ordered(RemoveMin(t)) && Keys(RemoveMin(t)) == Keys(t) - {Leftmost(t).key}
    ensures Contents(RemoveMin(t)) == Contents(t) - {Leftmost(t).key}
  {
    hide Rebalance;
    LeftmostIsLeast(t);
    ContentsKeys(t.left);
    ContentsKeys(t.right);
    if t.left != Nil {
      LeftmostIsLeast(t.left);
      RemoveMinContents(t.left);
      RebalanceKeeps(t.(left := RemoveMin(t.left)));
      DropFromNode(Contents(t.left), t.key, t.value, Contents(t.right), Leftmost(t).key);
    }
  }

  lemma SwapRoot<V>(l: map<int, V>, k: int, v: V, r: map<int, V>, k': int, v': V)
    requires k !in l && k !in r && k' !in l && k' in r && r[k'] == v'
    ensures l + (r - {k'}) + map[k' := v'] == (l + r + map[k := v]) - {k}
  {
  }

  /** Replacing the root entry by the least entry of the right side. */
  lemma SuccessorTakesOver<V>(l: Tree<V>, k: int, v: V, r: Tree<V>, s: Tree<V>)
    requires r.Node? && Ordered(Node(l, k, v, r))
    requires s == Node(l, Leftmost(r).key, Leftmost(r).value, RemoveMin(r))
    ensures Ordered(s) && Keys(s) == Keys(Node(l, k, v, r)) - {k}
    ensures Contents(s) == Contents(Node(l, k, v, r)) - {k}
  {
    hide RemoveMin, Leftmost;
    LeftmostIsLeast(r);
    RemoveMinContents(r);
    ContentsKeys(l);
    ContentsKeys(r);
    assert k < s.key;
    SwapRoot(Contents(l), k, v, Contents(r), s.key, s.value);
  }

  /** `t'` holds the entries of `t` except that of `key`. */
  ghost predicate Dropped<V>(t: Tree<V>, key: int, t': Tree<V>) {
    Ordered(t') && Keys(t') == Keys(t) - {key} && Contents(t') == Contents(t) - {key}
  }

  lemma OneSideRemains<V>(t: Tree<V>)
    requires t.Node? && Ordered(t)
    ensures t.left == Nil ==> Dropped(t, t.key, t.right)
    ensures t.right == Nil ==> Dropped(t, t.key, t.left)
  {
    hide Ordered, Contents, Keys;
    OrderedSides(t);
    ContentsKeys(t);
    ContentsKeys(t.left);
    ContentsKeys(t.right);
    OneUnfolding(t);
  }

  lemma OneUnfolding<V>(t: Tree<V>)
    requires t.Node?
    ensures Ordered(t) ==> Ordered(t.left) && Ordered(t.right)
    ensures Contents(t) == Contents(t.left) + Contents(t.right) + map[t.key := t.value]
    ensures Contents<V>(Nil) == map[]
  {
  }

  lemma RemoveRootContents<V>(t: Tree<V>)
    requires t.Node? && Ordered(t)
    ensures Dropped(t, t.key, Removed(t, t.key))
  {
    hide Rebalance, RemoveMin, Leftmost, Ordered, Contents, Keys;
    if t.left == Nil || t.right == Nil {
      OneSideRemains(t);
    } else {
      var s := Leftmost(t.right);
      var n := Node(t.left, s.key, s.value, RemoveMin(t.right));
      SuccessorTakesOver(t.left, t.key, t.value, t.right, n);
      RebalanceKeeps(n);
    }
  }

  lemma DroppedLeft<V>(t: Tree<V>, key: int, l: Tree<V>)
    requires t.Node? && Ordered(t) && key < t.key && Dropped(t.left, key, l)
    ensures Dropped(t, key, t.(left := l))
  {
    ContentsKeys(t.left);
    ContentsKeys(t.right);
    DropFromNode(Contents(t.left), t.key, t.value, Contents(t.right), key);
  }

  lemma DroppedRight<V>(t: Tree<V>, key: int, r: Tree<V>)
    requires t.Node? && Ordered(t) && key > t.key && Dropped(t.right, key, r)
    ensures Dropped(t, key, t.(right := r))
  {
    ContentsKeys(t.left);
    ContentsKeys(t.right);
    DropFromNode(Contents(t.left), t.key, t.value, Contents(t.right), key);
  }

  lemma {:induction false} RemoveContents<V>(t: Tree<V>, key: int)
    requires Ordered(t)
    ensures Ordered(Removed(t, key)) && Keys(Removed(t, key)) == Keys(t) - {key}
    ensures Contents(Removed(t, key)) == Contents(t) - {key}
  {
    hide Rebalance, RemoveMin, Leftmost;
    if t.Node? {
      if key < t.key {
        RemoveContents(t.left, key);
        DroppedLeft(t, key, Removed(t.left, key));
        RebalanceKeeps(t.(left := Removed(t.left, key)));
      } else if key > t.key {
        RemoveContents(t.right, key);
        DroppedRight(t, key, Removed(t.right, key));
        RebalanceKeeps(t.(right := Removed(t.right, key)));
      } else {
        RemoveRootContents(t);
      }
    }
  }

  lemma {:induction false} RemoveMinBalanced<V>(t: Tree<V>)
    requires t.Node? && Balanced(t)
    ensures Balanced(RemoveMin(t))
    ensures Height(t) - 1 <= Height(RemoveMin(t)) <= Height(t)
  {
    hide Rebalance;
    if t.left != Nil {
      RemoveMinBalanced(t.left);
      RebalanceBalances(t.(left := RemoveMin(t.left)));
    }
  }

  lemma {:induction false} RemoveBalanced<V>(t: Tree<V>, key: int)
    requires Balanced(t)
    ensures Balanced(Removed(t, key))
    ensures Height(t) - 1 <= Height(Removed(t, key)) <= Height(t)
  {
    hide Rebalance;
    if t.Node? {
      if key < t.key {
        RemoveBalanced(t.left, key);
        RebalanceBalances(t.(left := Removed(t.left, key)));
      } else if key > t.key {
        RemoveBalanced(t.right, key);
        RebalanceBalances(t.(right := Removed(t.right, key)));
      } else if t.left != Nil && t.right != Nil {
        RemoveMinBalanced(t.right);
        var s := Leftmost(t.right);
        RebalanceBalances(Node(t.left, s.key, s.value, RemoveMin(t.right)));
      }
    }
  }

  // ----- Removal before rebalancing -----

  function DropMin<V>(t: Tree<V>): Tree<V>
    requires t.Node?
  {
    if t.left == Nil then t.right else t.(left := DropMin(t.left))
  }

  lemma {:induction false} DropMinKeys<V>(t: Tree<V>)
    requires t.Node? && Ordered(t)
    ensures Ordered(DropMin(t)) && Keys(DropMin(t)) == Keys(t) - {Leftmost(t).key}
  {
    LeftmostIsLeast(t);
    if t.left != Nil {
      LeftmostIsLeast(t.left);
      DropMinKeys(t.left);
      assert Leftmost(t).key < t.key;
    }
  }

  lemma SuccessorKeepsOrder<V>(l: Tree<V>, k: int, v: V, r: Tree<V>)
    requires r.Node? && Ordered(Node(l, k, v, r))
    ensures Ordered(Node(l, Leftmost(r).key, Leftmost(r).value, DropMin(r)))
    ensures Keys(Node(l, Leftmost(r).key, Leftmost(r).value, DropMin(r))) == Keys(Node(l, k, v, r)) - {k}
  {
    hide DropMin, Leftmost;
    LeftmostIsLeast(r);
    DropMinKeys(r);
    assert k < Leftmost(r).key;
  }

  // ----- The height bound behind the access budget -----

  function Fib(n: nat): nat {
    if n < 2 then n else Fib(n - 1) + Fib(n - 2)
  }

  lemma {:induction false} FibMonotone(m: nat, n: nat)
    requires m <= n
    ensures Fib(m) <= Fib(n)
    decreases n
  {
    if m < n {
      FibMonotone(m, n - 1);
    }
  }

  /** A balanced tree of height h has at least Fib(h + 2) - 1 nodes. */
  lemma {:induction false} BalancedIsBushy<V>(t: Tree<V>)
    requires Balanced(t)
    ensures Size(t) >= Fib(Height(t) + 2) - 1
  {
    hide Fib;
    if t.Node? {
      BalancedIsBushy(t.left);
      BalancedIsBushy(t.right);
      FibSides(Height(t.left), Height(t.right));
    } else {
      assert Fib(2) == 1 by { FibTwo(); }
    }
  }

  lemma FibTwo()
    ensures Fib(2) == 1
  {
  }

  /** Two heights that differ by at most one. */
  lemma FibSides(a: nat, b: nat)
    requires -1 <= a - b <= 1
    ensures Fib(a + 2) + Fib(b + 2) >= Fib(Max(a, b) + 3)
  {
    FibMonotone(Max(a, b) + 1, a + 2);
    FibMonotone(Max(a, b) + 1, b + 2);
  }

  /** Fewer than Fib(h + 3) - 1 entries fit in height h. */
  lemma {:induction false} BalancedHeight<V>(t: Tree<V>, h: nat)
    requires Balanced(t) && Size(t) < Fib(h + 3) - 1
    ensures Height(t) <= h
  {
    BalancedIsBushy(t);
    if Height(t) > h {
      FibMonotone(h + 3, Height(t) + 2);
    }
  }

  lemma DisjointUnion(a: set<int>, k: int, b: set<int>)
    requires Below(a, k) && Above(b, k)
    ensures |a + {k} + b| == |a| + 1 + |b|
  {
    assert |a + {k}| == |a| + 1;
    assert forall x :: x in a + {k} ==> x !in b;
  }

  lemma {:induction false} OrderedSize<V>(t: Tree<V>)
    requires Ordered(t)
    ensures Size(t) == |Keys(t)|
  {
    if t.Node? {
      OrderedSize(t.left);
      OrderedSize(t.right);
      DisjointUnion(Keys(t.left), t.key, Keys(t.right));
    }
  }
}
