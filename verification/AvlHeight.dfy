/** The height limit that the AVL maps compute from their capacity (avl_omap): the least height of
    at least 1.44 * log2(capacity), which is enough for every capacity that fits an int. */
module AvlHeights {
  import opened AvlTrees

  function Power(b: nat, e: nat): nat {
    if e == 0 then 1 else b * Power(b, e - 1)
  }

  /** `h` >= 1.44 * log2(max(capacity, 2)), without logarithms: 1.44 is 36 / 25. */
  predicate LimitFor(capacity: nat, h: nat) {
    Power(2, 25 * h) >= Power(if capacity < 2 then 2 else capacity, 36)
  }

  lemma {:induction false} PowerMonotone(a: nat, b: nat, e: nat)
    requires a <= b
    ensures Power(a, e) <= Power(b, e)
  {
    if e > 0 {
      PowerMonotone(a, b, e - 1);
      Product(a, b, Power(a, e - 1), Power(b, e - 1));
    }
  }

  lemma Product(a: nat, b: nat, c: nat, d: nat)
    requires a <= b && c <= d
    ensures a * c <= b * d
  {
    assert a * c <= b * c <= b * d;
  }

  lemma {:induction false} PowerSum(b: nat, m: nat, n: nat)
    ensures Power(b, m + n) == Power(b, m) * Power(b, n)
  {
    if m > 0 {
      PowerSum(b, m - 1, n);
      Regroup(b, Power(b, m - 1), Power(b, n));
    }
  }

  lemma Regroup(a: nat, b: nat, c: nat)
    ensures a * (b * c) == a * b * c
  {
  }

  lemma {:induction false} PowerOfPower(b: nat, m: nat, n: nat)
    ensures Power(Power(b, m), n) == Power(b, m * n)
  {
    if n > 0 {
      PowerOfPower(b, m, n - 1);
      PowerSum(b, m, m * (n - 1));
    }
  }

  lemma {:induction false} PowerGrows(m: nat, n: nat)
    requires m < n
    ensures Power(2, m) < Power(2, n)
  {
    if n > m + 1 { PowerGrows(m, n - 1); }
    PowerPositive(n - 1);
  }

  lemma {:induction false} PowerPositive(n: nat)
    ensures Power(2, n) > 0
  {
    if n > 0 { PowerPositive(n - 1); }
  }

  /** The exponent that a height must be wide enough for, half the limit's and rounded up. */
  function Half(h: nat): nat {
    25 * h / 18 + 1
  }

  /** The `n` heights from some h on are wide enough: `a` and `b` are the numbers at h + 3 and
      h + 4, `p` is the power to reach, and `r` the rest of the division in its exponent. */
  predicate Wide(n: nat, a: nat, b: nat, p: nat, r: nat) {
    n == 0 || ((a - 1) * (a - 1) >= p && Wide(n - 1, b, a + b, if r >= 11 then 4 * p else 2 * p,
        if r >= 11 then r - 11 else r + 7))
  }

  lemma {:induction false} WideAt(n: nat, h: nat, k: nat)
    requires Wide(n, Fib(h + 3), Fib(h + 4), Power(2, Half(h)), 25 * h % 18) && h <= k < h + n
    ensures (Fib(k + 3) - 1) * (Fib(k + 3) - 1) >= Power(2, Half(k))
  {
    hide Power, Fib, Half;
    if k > h {
      HalfStep(h);
      NextNumbers(h);
      WideAt(n - 1, h + 1, k);
    }
  }

  lemma NextNumbers(h: nat)
    ensures Fib(h + 5) == Fib(h + 3) + Fib(h + 4)
    ensures Power(2, Half(h) + 1) == 2 * Power(2, Half(h)) && Power(2, Half(h) + 2) == 4 * Power(2, Half(h))
  {
    assert Power(2, Half(h) + 2) == 2 * Power(2, Half(h) + 1);
  }

  lemma HalfStep(h: nat)
    ensures var r := 25 * h % 18;
            if r >= 11 then Half(h + 1) == Half(h) + 2 && 25 * (h + 1) % 18 == r - 11
            else Half(h + 1) == Half(h) + 1 && 25 * (h + 1) % 18 == r + 7
  {
  }

  lemma WideUpTo44()
    ensures Wide(44, 3, 5, 4, 7)
  {
    assert Wide(2, 1836311903, 2971215073, 1152921504606846976, 13);
    assert Wide(4, 701408733, 1134903170, 144115188075855872, 17);
    assert Wide(6, 267914296, 433494437, 36028797018963968, 3);
    assert Wide(8, 102334155, 165580141, 4503599627370496, 7);
    assert Wide(10, 39088169, 63245986, 562949953421312, 11);
    assert Wide(12, 14930352, 24157817, 70368744177664, 15);
    assert Wide(14, 5702887, 9227465, 17592186044416, 1);
    assert Wide(16, 2178309, 3524578, 2199023255552, 5);
    assert Wide(18, 832040, 1346269, 274877906944, 9);
    assert Wide(20, 317811, 514229, 34359738368, 13);
    assert Wide(22, 121393, 196418, 4294967296, 17);
    assert Wide(24, 46368, 75025, 1073741824, 3);
    assert Wide(26, 17711, 28657, 134217728, 7);
    assert Wide(28, 6765, 10946, 16777216, 11);
    assert Wide(30, 2584, 4181, 2097152, 15);
    assert Wide(32, 987, 1597, 524288, 1);
    assert Wide(34, 377, 610, 65536, 5);
    assert Wide(36, 144, 233, 8192, 9);
    assert Wide(38, 55, 89, 1024, 13);
    assert Wide(40, 21, 34, 128, 17);
    assert Wide(42, 8, 13, 32, 3);
  }

  lemma LimitIsWide(c: nat, h: nat)
    requires 1 <= h <= 44 && Power(c, 36) <= Power(2, 25 * h)
    ensures c < Fib(h + 3) - 1
  {
    hide Power, Fib, Wide;
    WideFromOne();
    WideAt(44, 1, h);
    FibMonotone(4, h + 3);
    SmallFib();
    var f := Fib(h + 3) - 1;
    if c >= f {
      Product(f, c, f, c);
      assert c * c == Power(c, 2) by { Square(c); }
      PowerOfPower(c, 2, 18);
      PowerMonotone(Power(2, Half(h)), Power(c, 2), 18);
      PowerOfPower(2, Half(h), 18);
      PowerGrows(25 * h, Half(h) * 18);
      assert false;
    }
  }

  lemma SmallFib()
    ensures Fib(4) == 3 && Fib(5) == 5
  {
  }

  lemma WideFromOne()
    ensures Wide(44, Fib(4), Fib(5), Power(2, Half(1)), 25 * 1 % 18)
  {
    WideUpTo44();
    SmallFib();
    assert Half(1) == 2 && Power(2, 2) == 4;
  }

  lemma Square(c: nat)
    ensures Power(c, 2) == c * c
  {
    assert Power(c, 1) == c * Power(c, 0);
  }

  lemma TopHeight(h: nat)
    requires h >= 44
    ensures Fib(h + 3) - 1 >= 0x8000_0000
  {
    hide Fib, Wide, Power;
    WideFromOne();
    WideAt(44, 1, 44);
    assert Power(2, Half(44)) == 0x4000_0000_0000_0000 by { TopPower(); }
    FibMonotone(47, h + 3);
    FibMonotone(4, 47);
    SmallFib();
    var f := Fib(47) - 1;
    if f < 0x8000_0000 {
      Product(f, 0x7FFF_FFFF, f, 0x7FFF_FFFF);
      assert false;
    }
  }

  lemma TopPower()
    ensures Power(2, Half(44)) == 0x4000_0000_0000_0000
  {
    assert Power(2, 8) == 0x100 && Power(2, 7) == 0x80 && Half(44) == 62;
    hide Power;
    PowerSum(2, 8, 8);
    PowerSum(2, 8, 7);
    PowerSum(2, 16, 15);
    PowerSum(2, 31, 31);
  }

  /** A balanced tree of as many entries as the capacity is no higher than the limit. */
  lemma LimitSuffices(capacity: nat, h: nat)
    requires capacity < 0x8000_0000 && LimitFor(capacity, h)
    ensures capacity < Fib(h + 3) - 1
  {
    hide Power, Fib;
    var c := if capacity < 2 then 2 else capacity;
    if h == 0 {
      PowerMonotone(2, c, 36);
      PowerGrows(0, 36);
      assert false;
    } else if h <= 44 {
      LimitIsWide(c, h);
    } else {
      TopHeight(h);
    }
  }
}
