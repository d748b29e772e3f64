/** Nodes of the B+ tree and their bytes (bplus_omap). */
module BPlusNodes {
  import opened Common

  type byte = x: int | 0 <= x < 256

  type Bytes = seq<byte>

  /** A leaf holds values, or block ids in index mode; an inner node has one child more than keys. */
  datatype BPlusNode =
    | Inner(keys: seq<int>, childIds: seq<int>, childLeaves: seq<int>)
    | Leaf(keys: seq<int>, values: seq<Bytes>)
    | IndexLeaf(keys: seq<int>, childIds: seq<int>)

  // ----- 32-bit words, low byte first -----

  predicate FitsInt(v: int) {
    -0x8000_0000 <= v < 0x8000_0000
  }

  function IntBytes(v: int): (b: Bytes)
    requires FitsInt(v)
    ensures |b| == 4
  {
    var u := if v < 0 then v + 0x1_0000_0000 else v;
    [u % 256, u / 0x100 % 256, u / 0x1_0000 % 256, u / 0x100_0000]
  }

  function Word(b: Bytes): int
    requires |b| == 4
  {
    b[0] as int + 0x100 * b[1] as int + 0x1_0000 * b[2] as int + 0x100_0000 * b[3] as int
  }

  function BytesInt(b: Bytes): (v: int)
    requires |b| == 4
    ensures FitsInt(v)
  {
    var u := Word(b);
    if u < 0x8000_0000 then u else u - 0x1_0000_0000
  }

  lemma Divide(q: int, r: int)
    requires 0 <= r < 0x100
    ensures (r + 0x100 * q) / 0x100 == q && (r + 0x100 * q) % 0x100 == r
  {
  }

  lemma DivideTwice(u: int)
    requires u >= 0
    ensures u / 0x1_0000 == u / 0x100 / 0x100 && u / 0x100_0000 == u / 0x100 / 0x100 / 0x100
  {
  }

  lemma IntRoundTrip(v: int)
    requires FitsInt(v)
    ensures BytesInt(IntBytes(v)) == v
  {
    var u := if v < 0 then v + 0x1_0000_0000 else v;
    DivideTwice(u);
  }

  lemma BytesRoundTrip(b: Bytes)
    requires |b| == 4
    ensures IntBytes(BytesInt(b)) == b
  {
    var q3 := b[3] as int;
    var q2 := b[2] as int + 0x100 * q3;
    var q1 := b[1] as int + 0x100 * q2;
    Divide(q1, b[0]);
    Divide(q2, b[1]);
    Divide(q3, b[2]);
    DivideTwice(b[0] as int + 0x100 * q1);
  }

  /** The word at the start of `b`; short strings count as zero. */
  function BytesToInt(b: Bytes): (v: int)
    ensures FitsInt(v)
  {
    if |b| >= 4 then BytesInt(b[..4]) else 0
  }

  // ----- Encoding -----

  function KindOf(n: BPlusNode): byte {
    match n
    case Inner(_, _, _) => 0
    case Leaf(_, _) => 1
    case IndexLeaf(_, _) => 2
  }

  ghost predicate AllFit(s: seq<int>) {
    forall i :: 0 <= i < |s| ==> FitsInt(s[i])
  }

  /** Every number has four bytes. */
  ghost predicate Encodable(n: BPlusNode) {
    && |n.keys| < 0x8000_0000 && AllFit(n.keys)
    && match n
       case Inner(_, ids, leaves) => |ids| == |leaves| && AllFit(ids) && AllFit(leaves)
       case Leaf(_, values) => forall i :: 0 <= i < |values| ==> |values[i]| < 0x8000_0000
       case IndexLeaf(_, ids) => AllFit(ids)
  }

  /** The parts of the node fit together. */
  ghost predicate Proper(n: BPlusNode) {
    match n
    case Inner(keys, ids, leaves) => |ids| == |keys| + 1 && |leaves| == |keys| + 1
    case Leaf(keys, values) => |values| == |keys|
    case IndexLeaf(keys, ids) => |ids| == |keys|
  }

  ghost function IntsBytes(s: seq<int>): (b: Bytes)
    requires forall i :: 0 <= i < |s| ==> FitsInt(s[i])
    ensures |b| == 4 * |s|
  {
    if s == [] then [] else IntsBytes(s[..|s| - 1]) + IntBytes(s[|s| - 1])
  }

  ghost function PairsBytes(s: seq<int>, t: seq<int>): (b: Bytes)
    requires |s| == |t| && forall i :: 0 <= i < |s| ==> FitsInt(s[i]) && FitsInt(t[i])
    ensures |b| == 8 * |s|
  {
    if s == [] then []
    else var n := |s| - 1; PairsBytes(s[..n], t[..n]) + (IntBytes(s[n]) + IntBytes(t[n]))
  }

  ghost function ValuesBytes(vs: seq<Bytes>): Bytes
    requires forall i :: 0 <= i < |vs| ==> |vs[i]| < 0x8000_0000
  {
    if vs == [] then []
    else var n := |vs| - 1; ValuesBytes(vs[..n]) + (IntBytes(|vs[n]|) + vs[n])
  }

  ghost function BodyBytes(n: BPlusNode): Bytes
    requires Encodable(n)
  {
    match n
    case Inner(_, ids, leaves) => PairsBytes(ids, leaves)
    case Leaf(_, values) => ValuesBytes(values)
    case IndexLeaf(_, ids) => IntsBytes(ids)
  }

  ghost function Encoded(n: BPlusNode): Bytes
    requires Encodable(n)
  {
    [KindOf(n)] + IntBytes(|n.keys|) + IntsBytes(n.keys) + BodyBytes(n)
  }

  method EncodeInts(buf: Bytes, s: seq<int>) returns (r: Bytes)
    requires forall i :: 0 <= i < |s| ==> FitsInt(s[i])
    ensures r == buf + IntsBytes(s)
  {
    r := buf;
    assert s[..0] == [];
    for i := 0 to |s|
      invariant r == buf + IntsBytes(s[..i])
    {
      assert s[..i + 1][..i] == s[..i];
      r := r + IntBytes(s[i]);
    }
    assert s[..|s|] == s;
  }

  method Encode(n: BPlusNode) returns (buf: Bytes)
    requires Encodable(n)
    ensures buf == Encoded(n)
  {
    hide IntBytes;
    buf := [KindOf(n)] + IntBytes(|n.keys|);
    buf := EncodeInts(buf, n.keys);
    ghost var head := buf;
    match n {
      case Inner(_, ids, leaves) =>
        assert ids[..0] == [] && leaves[..0] == [];
        for i := 0 to |ids|
          invariant buf == head + PairsBytes(ids[..i], leaves[..i])
        {
          assert ids[..i + 1][..i] == ids[..i] && leaves[..i + 1][..i] == leaves[..i];
          buf := buf + (IntBytes(ids[i]) + IntBytes(leaves[i]));
        }
        assert ids[..|ids|] == ids && leaves[..|leaves|] == leaves;
      case Leaf(_, values) =>
        assert values[..0] == [];
        for i := 0 to |values|
          invariant buf == head + ValuesBytes(values[..i])
        {
          assert values[..i + 1][..i] == values[..i];
          buf := buf + (IntBytes(|values[i]|) + values[i]);
        }
        assert values[..|values|] == values;
      case IndexLeaf(_, ids) =>
        buf := EncodeInts(buf, ids);
    }
  }

  // ----- Decoding -----

  function GetInt(raw: Bytes, pos: nat): (r: Option<int>)
    ensures (r.Some? <==> pos + 4 <= |raw|) && (r.Some? ==> FitsInt(r.value))
  {
    if pos + 4 <= |raw| then Some(BytesInt(raw[pos..pos + 4])) else None
  }

  /** The `n` words from `pos` on, or nothing if the bytes end before. */
  ghost function GetInts(raw: Bytes, pos: nat, n: nat): (r: Option<seq<int>>)
    ensures r.Some? ==> |r.value| == n && forall i :: 0 <= i < n ==> FitsInt(r.value[i])
    ensures r.Some? <==> n == 0 || pos + 4 * n <= |raw|
  {
    if n == 0 then Some([])
    else
      var (before, x) := (GetInts(raw, pos, n - 1), GetInt(raw, pos + 4 * (n - 1)));
      if before.Some? && x.Some? then Some(before.value + [x.value]) else None
  }

  ghost function GetPairs(raw: Bytes, pos: nat, n: nat): (r: Option<(seq<int>, seq<int>)>)
    ensures r.Some? ==> |r.value.0| == |r.value.1| == n
    ensures r.Some? ==> forall i :: 0 <= i < n ==> FitsInt(r.value.0[i]) && FitsInt(r.value.1[i])
    ensures r.Some? <==> n == 0 || pos + 8 * n <= |raw|
  {
    if n == 0 then Some(([], []))
    else
      var before := GetPairs(raw, pos, n - 1);
      var (x, y) := (GetInt(raw, pos + 8 * (n - 1)), GetInt(raw, pos + 8 * (n - 1) + 4));
      if before.Some? && x.Some? && y.Some? then Some((before.value.0 + [x.value], before.value.1 + [y.value])) else None
  }

  /** `n` values, each behind its length, and where they end. */
  ghost function GetValues(raw: Bytes, pos: nat, n: nat): (r: Option<(seq<Bytes>, nat)>)
    ensures r.Some? ==> |r.value.0| == n && (pos <= |raw| ==> r.value.1 <= |raw|) && pos <= r.value.1
    ensures r.Some? ==> forall i :: 0 <= i < n ==> |r.value.0[i]| < 0x8000_0000
  {
    if n == 0 then Some(([], pos))
    else
      var before := GetValues(raw, pos, n - 1);
      if before.None? then None
      else
        var v := GetValue(raw, before.value.1);
        if v.Some? then Some((before.value.0 + [v.value], before.value.1 + 4 + |v.value|)) else None
  }

  function GetValue(raw: Bytes, pos: nat): (r: Option<Bytes>)
    ensures r.Some? ==> |r.value| < 0x8000_0000 && pos + 4 + |r.value| <= |raw|
  {
    var size := GetInt(raw, pos);
    if size.Some? && size.value >= 0 && pos + 4 + size.value <= |raw| then Some(raw[pos + 4..pos + 4 + size.value]) else None
  }

  ghost function DecodedBody(raw: Bytes, kind: byte, keys: seq<int>): Option<BPlusNode> {
    var pos := 5 + 4 * |keys|;
    if kind == 0 then
      var r := GetPairs(raw, pos, |keys| + 1);
      if r.Some? then Some(Inner(keys, r.value.0, r.value.1)) else None
    else if kind == 2 then
      var r := GetInts(raw, pos, |keys|);
      if r.Some? then Some(IndexLeaf(keys, r.value)) else None
    else
      var r := GetValues(raw, pos, |keys|);
      if r.Some? then Some(Leaf(keys, r.value.0)) else None
  }

  /** The node in `raw`, an empty leaf if there are no bytes, and nothing where the program would
      read behind the end. */
  ghost function Decoded(raw: Bytes): Option<BPlusNode> {
    if raw == [] then Some(Leaf([], []))
    else
      var nk := GetInt(raw, 1);
      if nk.None? || nk.value < 0 then None
      else
        var keys := GetInts(raw, 5, nk.value);
        if keys.None? then None else DecodedBody(raw, raw[0], keys.value)
  }

  method DecodeInts(raw: Bytes, pos: nat, n: nat) returns (r: Option<seq<int>>)
    ensures r == GetInts(raw, pos, n)
  {
    hide BytesInt;
    var s := [];
    for i := 0 to n
      invariant GetInts(raw, pos, i) == Some(s)
    {
      var x := GetInt(raw, pos + 4 * i);
      if x.None? { return None; }
      s := s + [x.value];
    }
    r := Some(s);
  }

  method DecodePairs(raw: Bytes, pos: nat, n: nat) returns (r: Option<(seq<int>, seq<int>)>)
    ensures r == GetPairs(raw, pos, n)
  {
    hide BytesInt;
    var s, t := [], [];
    for i := 0 to n
      invariant GetPairs(raw, pos, i) == Some((s, t))
    {
      var x, y := GetInt(raw, pos + 8 * i), GetInt(raw, pos + 8 * i + 4);
      if x.None? || y.None? { return None; }
      s, t := s + [x.value], t + [y.value];
    }
    r := Some((s, t));
  }

  method DecodeValues(raw: Bytes, start: nat, n: nat) returns (r: Option<seq<Bytes>>)
    ensures r == var g := GetValues(raw, start, n); if g.Some? then Some(g.value.0) else None
  {
    hide GetValue;
    var s, pos := [], start;
    for i := 0 to n
      invariant GetValues(raw, start, i) == Some((s, pos))
    {
      var v := GetValue(raw, pos);
      if v.None? {
        ValuesEnd(raw, start, i + 1, n);
        return None;
      }
      s, pos := s + [v.value], pos + 4 + |v.value|;
    }
    r := Some(s);
  }

  lemma {:induction false} ValuesEnd(raw: Bytes, pos: nat, m: nat, n: nat)
    requires m <= n && GetValues(raw, pos, m).None?
    ensures GetValues(raw, pos, n).None?
  {
    if m < n { ValuesEnd(raw, pos, m, n - 1); }
  }

  method Decode(raw: Bytes) returns (r: Option<BPlusNode>)
    ensures r == Decoded(raw)
  {
    hide GetInts, GetPairs, GetValues, BytesInt;
    if raw == [] { return Some(Leaf([], [])); }
    var kind, nk := raw[0], GetInt(raw, 1);
    if nk.None? || nk.value < 0 { return None; }
    var keys := DecodeInts(raw, 5, nk.value);
    if keys.None? { return None; }
    var pos := 5 + 4 * nk.value;
    if kind == 0 {
      var children := DecodePairs(raw, pos, nk.value + 1);
      r := if children.Some? then Some(Inner(keys.value, children.value.0, children.value.1)) else None;
    } else if kind == 2 {
      var ids := DecodeInts(raw, pos, nk.value);
      r := if ids.Some? then Some(IndexLeaf(keys.value, ids.value)) else None;
    } else {
      var values := DecodeValues(raw, pos, nk.value);
      r := if values.Some? then Some(Leaf(keys.value, values.value)) else None;
    }
  }

  // ----- Round trips -----

  lemma IntThere(raw: Bytes, pos: nat, v: int)
    requires FitsInt(v) && pos + 4 <= |raw| && raw[pos..pos + 4] == IntBytes(v)
    ensures GetInt(raw, pos) == Some(v)
  {
    hide IntBytes, BytesInt;
    IntRoundTrip(v);
  }

  lemma {:induction false} IntsThere(a: Bytes, s: seq<int>, b: Bytes)
    requires forall i :: 0 <= i < |s| ==> FitsInt(s[i])
    ensures GetInts(a + IntsBytes(s) + b, |a|, |s|) == Some(s)
  {
    hide IntBytes, BytesInt, GetInt;
    if s != [] {
      var n := |s| - 1;
      var front, x := IntsBytes(s[..n]), IntBytes(s[n]);
      var raw := a + (front + x) + b;
      assert raw == a + front + (x + b);
      IntsThere(a, s[..n], x + b);
      assert raw[|a| + 4 * n..|a| + 4 * n + 4] == x;
      IntThere(raw, |a| + 4 * n, s[n]);
      assert s == s[..n] + [s[n]];
    }
  }

  lemma PairThere(a: Bytes, x: int, y: int, b: Bytes)
    requires FitsInt(x) && FitsInt(y)
    ensures var raw := a + (IntBytes(x) + IntBytes(y)) + b; GetInt(raw, |a|) == Some(x) && GetInt(raw, |a| + 4) == Some(y)
  {
    hide IntBytes, BytesInt, GetInt;
    var raw := a + (IntBytes(x) + IntBytes(y)) + b;
    assert raw[|a|..|a| + 4] == IntBytes(x) && raw[|a| + 4..|a| + 8] == IntBytes(y);
    IntThere(raw, |a|, x);
    IntThere(raw, |a| + 4, y);
  }

  lemma {:induction false} PairsThere(a: Bytes, s: seq<int>, t: seq<int>, b: Bytes)
    requires |s| == |t| && forall i :: 0 <= i < |s| ==> FitsInt(s[i]) && FitsInt(t[i])
    ensures GetPairs(a + PairsBytes(s, t) + b, |a|, |s|) == Some((s, t))
  {
    hide IntBytes, BytesInt, GetInt;
    if s != [] {
      var n := |s| - 1;
      var front, pair := PairsBytes(s[..n], t[..n]), IntBytes(s[n]) + IntBytes(t[n]);
      Reassociate(a, front, pair, b);
      PairsThere(a, s[..n], t[..n], pair + b);
      PairThere(a + front, s[n], t[n], b);
      assert s == s[..n] + [s[n]] && t == t[..n] + [t[n]];
    }
  }

  lemma Reassociate(a: Bytes, b: Bytes, c: Bytes, d: Bytes)
    ensures a + (b + c) + d == a + b + (c + d) == (a + b) + c + d
  {
  }

  lemma ValueThere(a: Bytes, v: Bytes, b: Bytes)
    requires |v| < 0x8000_0000
    ensures GetValue(a + (IntBytes(|v|) + v) + b, |a|) == Some(v)
  {
    hide IntBytes, BytesInt, GetInt;
    var raw := a + (IntBytes(|v|) + v) + b;
    assert raw[|a|..|a| + 4] == IntBytes(|v|);
    IntThere(raw, |a|, |v|);
    assert raw[|a| + 4..|a| + 4 + |v|] == v;
  }

  lemma {:induction false} ValuesThere(a: Bytes, vs: seq<Bytes>, b: Bytes)
    requires forall i :: 0 <= i < |vs| ==> |vs[i]| < 0x8000_0000
    ensures GetValues(a + ValuesBytes(vs) + b, |a|, |vs|) == Some((vs, |a| + |ValuesBytes(vs)|))
  {
    hide IntBytes, GetValue, BytesInt, GetInt;
    if vs != [] {
      var n := |vs| - 1;
      var front, x := ValuesBytes(vs[..n]), IntBytes(|vs[n]|) + vs[n];
      Reassociate(a, front, x, b);
      ValuesThere(a, vs[..n], x + b);
      ValueThere(a + front, vs[n], b);
      assert ValuesBytes(vs) == front + x && |a + front| == |a| + |front|;
      assert vs == vs[..n] + [vs[n]];
    }
  }

  /** A node whose parts fit together survives, whatever padding follows its bytes. */
  lemma Survives(n: BPlusNode, padding: Bytes)
    requires Encodable(n) && Proper(n)
    ensures Decoded(Encoded(n) + padding) == Some(n)
  {
    hide IntBytes, BytesInt, GetInt, GetInts, GetPairs, GetValues, IntsBytes, PairsBytes, ValuesBytes;
    var head, keys, body := [KindOf(n)] + IntBytes(|n.keys|), IntsBytes(n.keys), BodyBytes(n);
    var raw := Encoded(n) + padding;
    assert raw[1..5] == IntBytes(|n.keys|) && raw[0] == KindOf(n);
    IntThere(raw, 1, |n.keys|);
    assert raw == head + keys + (body + padding) == (head + keys) + body + padding;
    IntsThere(head, n.keys, body + padding);
    match n {
      case Inner(_, ids, leaves) => PairsThere(head + keys, ids, leaves, padding);
      case Leaf(_, values) => ValuesThere(head + keys, values, padding);
      case IndexLeaf(_, ids) => IntsThere(head + keys, ids, padding);
    }
  }

  /** A node comes back from its bytes exactly if its parts fit together. */
  lemma RoundTrip(n: BPlusNode)
    requires Encodable(n)
    ensures Decoded(Encoded(n)) == Some(n) <==> Proper(n)
  {
    hide IntBytes, BytesInt, GetInt, IntsBytes, PairsBytes, ValuesBytes, GetInts, GetPairs, GetValues;
    if Proper(n) {
      Survives(n, []);
      assert Encoded(n) + [] == Encoded(n);
    }
  }

  lemma {:induction false} IntsBack(raw: Bytes, pos: nat, n: nat)
    requires GetInts(raw, pos, n).Some? && pos <= |raw|
    ensures pos + 4 * n <= |raw| && raw[pos..pos + 4 * n] == IntsBytes(GetInts(raw, pos, n).value)
  {
    hide IntBytes, BytesInt;
    if n > 0 {
      IntsBack(raw, pos, n - 1);
      var at, s := pos + 4 * (n - 1), GetInts(raw, pos, n).value;
      BytesRoundTrip(raw[at..at + 4]);
      assert s[..n - 1] == GetInts(raw, pos, n - 1).value;
      assert raw[pos..pos + 4 * n] == raw[pos..at] + raw[at..at + 4];
    }
  }

  lemma {:induction false} PairsBack(raw: Bytes, pos: nat, n: nat)
    requires GetPairs(raw, pos, n).Some? && pos <= |raw|
    ensures pos + 8 * n <= |raw|
    ensures var (s, t) := GetPairs(raw, pos, n).value; raw[pos..pos + 8 * n] == PairsBytes(s, t)
  {
    hide IntBytes, BytesInt;
    if n > 0 {
      PairsBack(raw, pos, n - 1);
      var at := pos + 8 * (n - 1);
      var (s, t) := GetPairs(raw, pos, n).value;
      IntBack(raw, at);
      IntBack(raw, at + 4);
      hide GetInt;
      assert s[..n - 1] == GetPairs(raw, pos, n - 1).value.0 && t[..n - 1] == GetPairs(raw, pos, n - 1).value.1;
      Pieces(raw, pos, at, at + 4, at + 8);
    }
  }

  lemma IntBack(raw: Bytes, pos: nat)
    requires pos + 4 <= |raw|
    ensures GetInt(raw, pos).Some? && IntBytes(GetInt(raw, pos).value) == raw[pos..pos + 4]
  {
    hide IntBytes, BytesInt;
    BytesRoundTrip(raw[pos..pos + 4]);
  }

  lemma Pieces(raw: Bytes, a: nat, b: nat, c: nat, d: nat)
    requires a <= b <= c <= d <= |raw|
    ensures raw[a..d] == raw[a..b] + (raw[b..c] + raw[c..d])
  {
  }

  lemma ValueBack(raw: Bytes, pos: nat)
    requires GetValue(raw, pos).Some?
    ensures var v := GetValue(raw, pos).value;
            pos + 4 + |v| <= |raw| && IntBytes(|v|) + v == raw[pos..pos + 4] + raw[pos + 4..pos + 4 + |v|]
  {
    hide IntBytes, BytesInt;
    IntBack(raw, pos);
  }

  lemma {:induction false} ValuesBack(raw: Bytes, pos: nat, n: nat)
    requires GetValues(raw, pos, n).Some? && pos <= |raw|
    ensures var (vs, end) := GetValues(raw, pos, n).value; raw[pos..end] == ValuesBytes(vs)
  {
    hide IntBytes, BytesInt;
    if n > 0 {
      ValuesBack(raw, pos, n - 1);
      var (vs, end) := GetValues(raw, pos, n).value;
      var (front, at) := GetValues(raw, pos, n - 1).value;
      ValueBack(raw, at);
      hide GetValue;
      assert vs[..n - 1] == front;
      Pieces(raw, pos, at, at + 4, end);
    }
  }

  lemma BodyBack(raw: Bytes, kind: byte, keys: seq<int>)
    requires kind <= 2 && AllFit(keys) && |keys| < 0x8000_0000 && 5 + 4 * |keys| <= |raw|
    requires DecodedBody(raw, kind, keys).Some?
    ensures var n := DecodedBody(raw, kind, keys).value;
            && Proper(n) && Encodable(n) && n.keys == keys && KindOf(n) == kind
            && BodyBytes(n) <= raw[5 + 4 * |keys|..]
  {
    hide IntBytes, BytesInt, GetInts, GetPairs, GetValues, IntsBytes, PairsBytes, ValuesBytes;
    var pos, nk := 5 + 4 * |keys|, |keys|;
    if kind == 0 {
      PairsBack(raw, pos, nk + 1);
    } else if kind == 1 {
      ValuesBack(raw, pos, nk);
    } else {
      IntsBack(raw, pos, nk);
    }
  }

  /** And only the bytes of a node, with or without padding, decode to it. */
  lemma DecodedIsEncoded(raw: Bytes)
    requires Decoded(raw).Some? && raw != [] && raw[0] <= 2
    ensures var n := Decoded(raw).value; Proper(n) && Encodable(n) && Encoded(n) <= raw
  {
    hide IntBytes, BytesInt, GetInts, IntsBytes, DecodedBody, BodyBytes, Proper, Encodable, GetInt;
    var keys := GetInts(raw, 5, GetInt(raw, 1).value).value;
    var pos := 5 + 4 * |keys|;
    IntBack(raw, 1);
    IntsBack(raw, 5, |keys|);
    BodyBack(raw, raw[0], keys);
    var n := Decoded(raw).value;
    assert raw[..1] == [raw[0]];
    hide Decoded;
    Joins(raw, 1, 5, pos, BodyBytes(n));
  }

  lemma Joins(raw: Bytes, a: nat, b: nat, c: nat, body: Bytes)
    requires a <= b <= c <= |raw| && body <= raw[c..]
    ensures raw[..a] + raw[a..b] + raw[b..c] + body <= raw
  {
    assert raw == raw[..a] + raw[a..b] + raw[b..c] + raw[c..];
    assert raw[c..] == body + raw[c + |body|..];
  }
}
