/** Branch-free selection on 32-bit words (tee/oblivious.h): what the mask arithmetic computes. */
module Oblivious {

  type Word = bv32

  const ONES: Word := 0xFFFF_FFFF

  /** All ones for true, zero for false. */
  function Mask(cond: bool): Word {
    0 - (if cond then 1 else 0)
  }

  lemma MaskIs(cond: bool)
    ensures Mask(cond) == if cond then ONES else 0
  {
  }

  /** The bits of `src` under the mask, those of `dst` elsewhere. */
  function Blend(mask: Word, dst: Word, src: Word): Word {
    (src & mask) | (dst & !mask)
  }

  lemma BlendOnes(dst: Word, src: Word)
    ensures Blend(ONES, dst, src) == src
  {
  }

  lemma BlendNone(dst: Word, src: Word)
    ensures Blend(0, dst, src) == dst
  {
  }

  function OMov(cond: bool, dst: Word, src: Word): (r: Word)
    ensures r == if cond then src else dst
  {
    hide Blend, Mask;
    MaskIs(cond);
    BlendOnes(dst, src);
    BlendNone(dst, src);
    Blend(Mask(cond), dst, src)
  }

  lemma AndOnes(x: Word)
    ensures x & ONES == x && x & 0 == 0
  {
  }

  function Masked(cond: bool, x: Word): (r: Word)
    ensures r == if cond then x else 0
  {
    hide Mask;
    MaskIs(cond);
    AndOnes(x);
    x & Mask(cond)
  }

  function Xor(a: Word, b: Word): Word {
    a ^ b
  }

  lemma XorCancels(a: Word, b: Word)
    ensures Xor(a, Xor(a, b)) == b
    ensures Xor(b, Xor(a, b)) == a
  {
  }

  lemma XorZero(a: Word)
    ensures Xor(a, 0) == a
  {
  }

  /** `diff` cancels one of the words and leaves the other. */
  method OSwap(cond: bool, a: Word, b: Word) returns (x: Word, y: Word)
    ensures x == if cond then b else a
    ensures y == if cond then a else b
  {
    hide Xor, Masked;
    XorCancels(a, b);
    XorZero(a);
    XorZero(b);
    var diff := Masked(cond, Xor(a, b));
    x := Xor(a, diff);
    y := Xor(b, diff);
  }

  function OSelect(cond: bool, a: Word, b: Word): (r: Word)
    ensures r == if cond then a else b
  {
    OMov(cond, b, a)
  }

  function OEqual(a: Word, b: Word): (r: Word)
    ensures r == if a == b then 1 else 0
  {
    var diff := a ^ b;
    1 - ((diff | (0 - diff)) >> 31)
  }

  // ----- Masked code at work: one bucket slot takes the first stashed block that fits -----

  const INVALID_WORD: Word := 0xFFFF_FFFF

  function Flag(b: bool): Word {
    if b then 1 else 0
  }

  lemma FlagAnd(a: bool, b: bool)
    ensures Flag(a) & Flag(b) == Flag(a && b)
  {
  }

  lemma FlagNot(a: bool)
    ensures 1 - Flag(a) == Flag(!a) && (Flag(a) == 1 <==> a)
  {
  }

  function Candidate(key: Word, fits: bool, filled: Word): Word {
    (1 - OEqual(key, INVALID_WORD)) & Flag(fits) & (1 - filled)
  }

  /** `at` is the first real key that fits, or there is none (`at` = |keys|). */
  ghost predicate FirstFit(keys: seq<Word>, fits: seq<bool>, at: nat)
    requires |fits| == |keys|
  {
    && at <= |keys|
    && (forall i :: 0 <= i < at ==> !(keys[i] != INVALID_WORD && fits[i]))
    && (at < |keys| ==> keys[at] != INVALID_WORD && fits[at])
  }

  /** The inner scan of an eviction in masked form, on key and leaf words: every entry is read and
      rewritten, and what comes out is what the branching code does. */
  method TakeFirstMasked(keys: seq<Word>, leaves: seq<Word>, fits: seq<bool>, slotKey: Word, slotLeaf: Word)
    returns (keys': seq<Word>, key: Word, leaf: Word, ghost at: nat)
    requires |leaves| == |fits| == |keys|
    ensures FirstFit(keys, fits, at)
    ensures at < |keys| ==> keys' == keys[at := INVALID_WORD] && key == keys[at] && leaf == leaves[at]
    ensures at == |keys| ==> keys' == keys && key == slotKey && leaf == slotLeaf
  {
    hide Flag, OMov, OEqual, OSelect, Candidate;
    keys', key, leaf, at := keys, slotKey, slotLeaf, |keys|;
    var filled := Flag(false);
    for i := 0 to |keys|
      invariant |keys'| == |keys| && filled == Flag(at < i)
      invariant at < i ==> FirstFit(keys, fits, at) && keys' == keys[at := INVALID_WORD] && key == keys[at] && leaf == leaves[at]
      invariant at >= i ==> at == |keys| && keys' == keys && key == slotKey && leaf == slotLeaf
                            && forall j :: 0 <= j < i ==> !(keys[j] != INVALID_WORD && fits[j])
    {
      var candidate := Candidate(keys'[i], fits[i], filled);
      CandidateIs(keys'[i], fits[i], at < i);
      key := OMov(candidate == 1, key, keys'[i]);
      leaf := OSelect(candidate == 1, leaves[i], leaf);
      keys' := keys'[i := OMov(candidate == 1, keys'[i], INVALID_WORD)];
      filled := OMov(candidate == 1, filled, Flag(true));
      if candidate == 1 { at := i; }
    }
  }

  lemma CandidateIs(key: Word, fits: bool, filled: bool)
    ensures Candidate(key, fits, Flag(filled)) == 1 <==> key != INVALID_WORD && fits && !filled
  {
    hide Flag, OEqual;
    RealFlag(key);
    FlagNot(filled);
    FlagAnd(key != INVALID_WORD, fits);
    FlagAnd(key != INVALID_WORD && fits, !filled);
    FlagNot(key != INVALID_WORD && fits && !filled);
  }

  lemma RealFlag(key: Word)
    ensures 1 - OEqual(key, INVALID_WORD) == Flag(key != INVALID_WORD)
  {
    hide OEqual;
  }

  // ----- Signed comparison -----

  const HALF: int := 0x8000_0000
  const FULL: int := 0x1_0000_0000

  /** A two's complement word, by its value. */
  newtype Int32 = x: int | -HALF <= x < HALF

  /** The sign bit of the 32-bit difference, which wraps around. */
  function OLess(a: Int32, b: Int32): (r: int)
    ensures r == 0 || r == 1
  {
    ((a as int - b as int) % FULL) / HALF
  }

  /** The branch-free comparison is right exactly when the difference fits a word. */
  lemma OLessExact(a: Int32, b: Int32)
    ensures (OLess(a, b) == 1 <==> a < b) <==> -HALF <= a as int - b as int < HALF
  {
    var d := a as int - b as int;
    if d >= 0 {
      assert d % FULL == d;
    } else {
      assert d % FULL == d + FULL;
    }
  }

  /** Keys and leaves are never below -1, so they compare correctly, but for the largest word
      against -1. */
  lemma KeysCompare(a: Int32, b: Int32)
    requires a >= -1 && b >= -1 && (b >= 0 || a < 0x7FFF_FFFF)
    ensures OLess(a, b) == 1 <==> a < b
  {
    OLessExact(a, b);
  }

  function OMax(a: Int32, b: Int32): (r: Int32)
    ensures r == a || r == b
    ensures -HALF <= a as int - b as int < HALF ==> r >= a && r >= b
  {
    OLessExact(a, b);
    if OLess(a, b) != 0 then b else a
  }

  function OMin(a: Int32, b: Int32): (r: Int32)
    ensures r == a || r == b
    ensures -HALF <= a as int - b as int < HALF ==> r <= a && r <= b
  {
    OLessExact(a, b);
    if OLess(a, b) != 0 then a else b
  }

  // ----- Bytes -----

  type Byte = bv8

  function ByteMask(cond: bool): Byte {
    0 - (if cond then 1 else 0)
  }

  lemma ByteSelected(cond: bool, d: Byte, s: Byte)
    ensures (s & ByteMask(cond)) | (d & !ByteMask(cond)) == if cond then s else d
  {
  }

  function SwapDiff(cond: bool, a: Byte, b: Byte): Byte {
    (a ^ b) & ByteMask(cond)
  }

  /** The byte `a` after the swap with `b`, and the other way round. */
  function Swapped(cond: bool, a: Byte, b: Byte): (r: Byte)
    ensures r == if cond then b else a
  {
    a ^ SwapDiff(cond, a, b)
  }

  /** Every byte is touched, whatever the condition. */
  method OMovBytes(cond: bool, dst: seq<Byte>, src: seq<Byte>) returns (r: seq<Byte>)
    requires |dst| == |src|
    ensures r == if cond then src else dst
  {
    var mask := ByteMask(cond);
    r := dst;
    for i := 0 to |src|
      invariant |r| == |dst|
      invariant forall j :: 0 <= j < |r| ==> r[j] == if j < i && cond then src[j] else dst[j]
    {
      ByteSelected(cond, r[i], src[i]);
      r := r[i := (src[i] & mask) | (r[i] & !mask)];
    }
  }

  method OSwapBytes(cond: bool, a: seq<Byte>, b: seq<Byte>) returns (x: seq<Byte>, y: seq<Byte>)
    requires |a| == |b|
    ensures x == if cond then b else a
    ensures y == if cond then a else b
  {
    hide SwapDiff, Swapped, ByteMask;
    x, y := a, b;
    for i := 0 to |a|
      invariant |x| == |y| == |a|
      invariant forall j :: 0 <= j < |a| ==> x[j] == (if j < i && cond then b[j] else a[j])
      invariant forall j :: 0 <= j < |a| ==> y[j] == (if j < i && cond then a[j] else b[j])
    {
      var p, q := Swapped(cond, x[i], y[i]), Swapped(cond, y[i], x[i]);
      x, y := x[i := p], y[i := q];
    }
  }
}
