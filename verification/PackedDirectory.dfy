/** The enclave's directory of hot keys (tee/packed_directory): a flat array, scanned as a whole by
    every operation, that holds each hot key's position. */
module PackedDirectories {
  import opened Common
  import Maintenance

  datatype DirEntry = DirEntry(key: int, pos: int, count: nat, epoch: int) {
    predicate Used() {
      key != INVALID_KEY
    }
  }

  const FREE: DirEntry := DirEntry(INVALID_KEY, INVALID_LEAF, 0, 0)

  /** No key occurs twice, and free entries have no position. */
  ghost predicate Clean(s: seq<DirEntry>) {
    && (forall i, j :: 0 <= i < j < |s| && s[i].Used() && s[j].Used() ==> s[i].key != s[j].key)
    && (forall i :: 0 <= i < |s| && !s[i].Used() ==> s[i].pos == INVALID_LEAF)
  }

  /** The positions that the entries record. */
  ghost function Positions(s: seq<DirEntry>): map<int, int>
    requires Clean(s)
  {
    map i | 0 <= i < |s| && s[i].Used() :: s[i].key := s[i].pos
  }

  function CountUsed(s: seq<DirEntry>): nat {
    if s == [] then 0 else CountUsed(s[..|s| - 1]) + (if s[|s| - 1].Used() then 1 else 0)
  }

  lemma {:induction false} UsedUpdate(s: seq<DirEntry>, at: nat, e: DirEntry)
    requires at < |s|
    ensures CountUsed(s[at := e]) == CountUsed(s) - (if s[at].Used() then 1 else 0) + (if e.Used() then 1 else 0)
  {
    var n := |s| - 1;
    if at == n {
      assert s[at := e][..n] == s[..n];
    } else {
      assert s[at := e][..n] == s[..n][at := e];
      UsedUpdate(s[..n], at, e);
    }
  }

  /** All entries are in use iff their number says so. */
  lemma {:induction false} AllUsed(s: seq<DirEntry>)
    ensures CountUsed(s) <= |s|
    ensures CountUsed(s) == |s| <==> forall i :: 0 <= i < |s| ==> s[i].Used()
  {
    if s != [] {
      var n := |s| - 1;
      AllUsed(s[..n]);
      assert forall i :: 0 <= i < n ==> s[..n][i] == s[i];
    }
  }

  lemma PositionAt(s: seq<DirEntry>, at: nat)
    requires Clean(s) && at < |s| && s[at].Used()
    ensures s[at].key in Positions(s) && Positions(s)[s[at].key] == s[at].pos
  {
  }

  lemma EntryOf(s: seq<DirEntry>, key: int) returns (at: nat)
    requires Clean(s) && key in Positions(s)
    ensures at < |s| && s[at].Used() && s[at].key == key
    ensures forall i :: 0 <= i < |s| && s[i].key == key ==> i == at
  {
    at :| 0 <= at < |s| && s[at].Used() && s[at].key == key;
  }

  /** The index of the key's entry, or the length if it has none. */
  lemma FindEntry(s: seq<DirEntry>, key: int) returns (at: nat)
    requires Clean(s)
    ensures at <= |s| && (at < |s| <==> key in Positions(s))
    ensures at < |s| ==> s[at].Used() && s[at].key == key && Positions(s)[key] == s[at].pos
    ensures forall i :: 0 <= i < |s| && s[i].Used() && s[i].key == key ==> i == at
  {
    at := |s|;
    if key in Positions(s) {
      at := EntryOf(s, key);
      PositionAt(s, at);
    }
    forall i | 0 <= i < |s| && s[i].Used() && s[i].key == key ensures i == at {
      PositionAt(s, i);
    }
  }

  /** The keys that have entries. */
  ghost function KeysOf(s: seq<DirEntry>): set<int>
    requires Clean(s)
  {
    Positions(s).Keys
  }

  lemma LastKey(s: seq<DirEntry>)
    requires Clean(s) && s != []
    ensures Clean(s[..|s| - 1])
    ensures var n := |s| - 1;
            && (forall k :: k in KeysOf(s) <==> k in KeysOf(s[..n]) || (s[n].Used() && k == s[n].key))
            && (s[n].Used() ==> s[n].key !in KeysOf(s[..n]))
  {
    hide Positions;
    var n := |s| - 1;
    forall k ensures k in KeysOf(s) <==> k in KeysOf(s[..n]) || (s[n].Used() && k == s[n].key) {
      var at := FindEntry(s, k);
      var before := FindEntry(s[..n], k);
      if before < n { assert s[before] == s[..n][before]; }
      if at < n { assert s[at] == s[..n][at]; }
    }
    var before := FindEntry(s[..n], s[n].key);
  }

  /** As many entries are in use as there are keys. */
  lemma {:induction false} UsedKeys(s: seq<DirEntry>)
    requires Clean(s)
    ensures CountUsed(s) == |KeysOf(s)|
  {
    if s == [] {
      assert KeysOf(s) == {};
    } else {
      var n := |s| - 1;
      LastKey(s);
      UsedKeys(s[..n]);
      hide KeysOf, Positions, Clean;
      GrownSet(KeysOf(s[..n]), KeysOf(s), s[n].key, s[n].Used());
    }
  }

  lemma GrownSet(before: set<int>, after: set<int>, key: int, grows: bool)
    requires forall k :: k in after <==> k in before || (grows && k == key)
    requires grows ==> key !in before
    ensures |after| == |before| + if grows then 1 else 0
  {
    if grows {
      forall k ensures k in after <==> k in before + {key} {
      }
      assert after == before + {key};
    } else {
      forall k ensures k in after <==> k in before {
      }
      assert after == before;
    }
  }

  /** One entry of a key gets another position. */
  lemma Repositioned(s: seq<DirEntry>, at: nat, pos: int)
    requires Clean(s) && at < |s| && s[at].Used()
    ensures Clean(s[at := s[at].(pos := pos)]) && CountUsed(s[at := s[at].(pos := pos)]) == CountUsed(s)
    ensures Positions(s[at := s[at].(pos := pos)]) == Positions(s)[s[at].key := pos]
  {
    var t := s[at := s[at].(pos := pos)];
    UsedUpdate(s, at, s[at].(pos := pos));
    SamePositions(s, t, at, Positions(s)[s[at].key := pos]);
  }

  /** A free entry is taken. */
  lemma Inserted(s: seq<DirEntry>, at: nat, e: DirEntry)
    requires Clean(s) && at < |s| && !s[at].Used() && e.Used() && e.key !in Positions(s)
    ensures Clean(s[at := e]) && CountUsed(s[at := e]) == CountUsed(s) + 1
    ensures Positions(s[at := e]) == Positions(s)[e.key := e.pos]
  {
    forall i | 0 <= i < |s| && s[i].Used() ensures s[i].key != e.key {
      PositionAt(s, i);
    }
    UsedUpdate(s, at, e);
    SamePositions(s, s[at := e], at, Positions(s)[e.key := e.pos]);
  }

  /** An entry is given up. */
  lemma Removed(s: seq<DirEntry>, at: nat)
    requires Clean(s) && at < |s| && s[at].Used()
    ensures Clean(s[at := FREE]) && CountUsed(s[at := FREE]) == CountUsed(s) - 1
    ensures Positions(s[at := FREE]) == Positions(s) - {s[at].key}
  {
    UsedUpdate(s, at, FREE);
    SamePositions(s, s[at := FREE], at, Positions(s) - {s[at].key});
  }

  /** `m` is right about the changed entry, and elsewhere as before. */
  lemma SamePositions(s: seq<DirEntry>, t: seq<DirEntry>, at: nat, m: map<int, int>)
    requires Clean(s) && Clean(t) && at < |s| == |t| && t == s[at := t[at]]
    requires t[at].Used() ==> t[at].key in m && m[t[at].key] == t[at].pos
    requires forall k :: (k in m) == if t[at].Used() && k == t[at].key then true
                                     else if s[at].Used() && k == s[at].key then false else k in Positions(s)
    requires forall k :: k in m && !(t[at].Used() && k == t[at].key) ==> m[k] == Positions(s)[k]
    ensures Positions(t) == m
  {
    hide Positions, Clean;
    forall k ensures k in Positions(t) <==> k in m {
      if k in Positions(t) {
        var i := EntryOf(t, k);
        if i != at {
          PositionAt(s, i);
          var j := EntryOf(s, k);
        }
      }
      if t[at].Used() && k == t[at].key {
        PositionAt(t, at);
      } else if k in m {
        var i := EntryOf(s, k);
        PositionAt(t, i);
      }
    }
    forall k | k in m ensures Positions(t)[k] == m[k] {
      var i := EntryOf(t, k);
      PositionAt(t, i);
      if i != at { PositionAt(s, i); }
    }
  }

  /** An entry that the demotion scan would take. */
  predicate Demotable(e: DirEntry, epoch: int, staleness: int, threshold: int) {
    e.Used() && (e.epoch < epoch - staleness + 1 || e.epoch == 0 || e.count < threshold)
  }

  class PackedDirectory {
    const capacity: nat
    const entries: array<DirEntry>
    var size: nat

    ghost predicate Valid()
      reads this, entries
    {
      entries.Length == capacity && Clean(entries[..]) && size == CountUsed(entries[..])
    }

    ghost function Table(): map<int, int>
      requires Valid()
      reads this, entries
    {
      Positions(entries[..])
    }

    constructor (capacity: nat)
      ensures Valid() && Table() == map[] && size == 0 && fresh(entries) && this.capacity == capacity
    {
      this.capacity := capacity;
      entries := new DirEntry[capacity](_ => FREE);
      size := 0;
      new;
      AllFree(entries[..]);
    }

    lemma SizeIsRight()
      requires Valid()
      ensures size == |Table()|
    {
      hide CountUsed, Positions;
      UsedKeys(entries[..]);
      assert |Table().Keys| == |Table()|;
    }

    /** The position of `key`, or the invalid leaf. */
    method Lookup(key: int) returns (pos: int)
      requires Valid()
      ensures pos == if key in Table() then Table()[key] else INVALID_LEAF
    {
      hide CountUsed;
      ghost var at := FindEntry(entries[..], key);
      pos := INVALID_LEAF;
      for i := 0 to capacity
        invariant pos == if at < i then entries[at].pos else INVALID_LEAF
      {
        assert entries[i] == entries[..][i];
        pos := if entries[i].key == key then entries[i].pos else pos;
      }
    }

    /** Records a new position for a key that has one. */
    method UpdatePos(key: int, newPos: int) returns (found: bool)
      requires Valid() && (key == INVALID_KEY ==> newPos == INVALID_LEAF)
      modifies entries
      ensures Valid() && size == old(size) && (key != INVALID_KEY ==> (found <==> key in old(Table())))
      ensures Table() == if key in old(Table()) then old(Table())[key := newPos] else old(Table())
    {
      hide CountUsed, Positions;
      ghost var s := entries[..];
      ghost var at := FindEntry(s, key);
      found := false;
      for i := 0 to capacity
        invariant entries[..] == if at < i then s[at := s[at].(pos := newPos)] else s
        invariant key != INVALID_KEY ==> (found <==> at < i)
      {
        assert entries[i] == s[i];
        entries[i] := if entries[i].key == key then entries[i].(pos := newPos) else entries[i];
        found := found || entries[i].key == key;
      }
      if at < capacity { Repositioned(s, at, newPos); }
    }

    /** Puts a key into the first free entry; the invalid key is a dummy. */
    method Insert(key: int, pos: int) returns (ok: bool)
      requires Valid() && key !in Table()
      modifies this, entries
      ensures Valid() && (ok <==> key != INVALID_KEY && old(size) < capacity)
      ensures Table() == if ok then old(Table())[key := pos] else old(Table())
      ensures size == old(size) + if ok then 1 else 0
    {
      hide CountUsed, Positions;
      ghost var s := entries[..];
      ghost var at: nat := capacity;
      ok := false;
      for i := 0 to capacity
        invariant size == old(size)
        invariant !ok ==> entries[..] == s && (key != INVALID_KEY ==> forall j :: 0 <= j < i ==> s[j].Used())
        invariant ok ==> at < i && key != INVALID_KEY && !s[at].Used()
                         && entries[..] == s[at := s[at].(key := key, pos := pos)]
      {
        var take := key != INVALID_KEY && !ok && entries[i].key == INVALID_KEY;
        entries[i] := if take then entries[i].(key := key, pos := pos) else entries[i];
        if take { at := i; }
        ok := ok || take;
      }
      AllUsed(s);
      if ok { Inserted(s, at, s[at].(key := key, pos := pos)); }
      size := size + if ok then 1 else 0;
    }

    /** Frees the entry of `key`; the invalid key is a dummy. */
    method Remove(key: int) returns (ok: bool)
      requires Valid()
      modifies this, entries
      ensures Valid() && (ok <==> key in old(Table())) && Table() == old(Table()) - {key}
      ensures size == old(size) - if ok then 1 else 0
    {
      hide CountUsed, Positions;
      ghost var s := entries[..];
      ghost var at := FindEntry(s, key);
      ok := false;
      for i := 0 to capacity
        invariant size == old(size) && entries[..] == if at < i then s[at := FREE] else s
        invariant ok <==> at < i
      {
        var match_ := key != INVALID_KEY && entries[i].key == key;
        assert entries[i] == s[i];
        entries[i] := if match_ then FREE else entries[i];
        ok := ok || match_;
      }
      if at < capacity { Removed(s, at); } else { assert Positions(s) - {key} == Positions(s); }
      size := size - if ok then 1 else 0;
    }

    /** The first demotable entry from the scan position on, around the whole array. */
    method FindDemoteCandidate(scanIdx: nat, epoch: int, staleness: int, threshold: int) returns (key: int)
      requires Valid()
      ensures key == INVALID_KEY <==> forall i :: 0 <= i < capacity ==> !Demotable(entries[i], epoch, staleness, threshold)
      ensures key != INVALID_KEY ==> exists d :: 0 <= d < capacity && FirstDemotable(scanIdx, d, epoch, staleness, threshold)
                                                && entries[(scanIdx + d) % capacity].key == key
    {
      key := INVALID_KEY;
      for i := 0 to capacity
        invariant key == INVALID_KEY ==>
                    forall e :: 0 <= e < i ==> !Demotable(entries[At(scanIdx, e)], epoch, staleness, threshold)
        invariant key != INVALID_KEY ==> exists d :: 0 <= d < i && FirstDemotable(scanIdx, d, epoch, staleness, threshold)
                                                     && entries[At(scanIdx, d)].key == key
      {
        var e := entries[At(scanIdx, i)];
        key := if Demotable(e, epoch, staleness, threshold) && key == INVALID_KEY then e.key else key;
      }
      if key == INVALID_KEY {
        forall i | 0 <= i < capacity ensures !Demotable(entries[i], epoch, staleness, threshold) {
          var d := Reaches(scanIdx, i);
        }
      }
    }

    function At(scanIdx: nat, d: nat): (i: nat)
      requires capacity > 0
      ensures i < capacity
    {
      (scanIdx + d) % capacity
    }

    /** `d` steps from the scan position is the first demotable entry. */
    predicate FirstDemotable(scanIdx: nat, d: nat, epoch: int, staleness: int, threshold: int)
      requires d < capacity == entries.Length
      reads this, entries
    {
      && Demotable(entries[At(scanIdx, d)], epoch, staleness, threshold)
      && forall e :: 0 <= e < d ==> !Demotable(entries[At(scanIdx, e)], epoch, staleness, threshold)
    }

    lemma Reaches(scanIdx: nat, i: nat) returns (d: nat)
      requires i < capacity
      ensures d < capacity && At(scanIdx, d) == i
    {
      var r, q := scanIdx % capacity, scanIdx / capacity;
      assert scanIdx == q * capacity + r;
      d := if i >= r then i - r else i + capacity - r;
      Wraps(q, r, d, capacity);
    }
  }

  lemma Wraps(q: nat, r: nat, d: nat, n: nat)
    requires r < n && d < n
    ensures (q * n + r + d) % n == if r + d < n then r + d else r + d - n
  {
    if r + d < n {
      Maintenance.ModIs(q, r + d, n);
    } else {
      Maintenance.MulNext(q, n);
      Maintenance.ModIs(q + 1, r + d - n, n);
    }
  }

  lemma {:induction false} AllFree(s: seq<DirEntry>)
    requires forall i :: 0 <= i < |s| ==> s[i] == FREE
    ensures Clean(s) && CountUsed(s) == 0 && Positions(s) == map[]
  {
    if s != [] { AllFree(s[..|s| - 1]); }
  }
}
