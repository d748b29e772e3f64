/** The data blocks of the tiered map: values with access counts, and how they are loaded
    (tiered_omap `init`, `access`). */
module TieredData {
  import opened Common
  import opened AvlInit
  import opened Maintenance
  import opened TieredParts

  /** A data block: the value and the access counts kept with it. */
  datatype Stored<+V> = Stored(value: V, meta: EpochMeta)

  function Touched<V>(was: Stored<V>, newValue: Option<V>, epoch: nat): Stored<V> {
    Stored(if newValue.Some? then newValue.value else was.value, UpdateMeta(was.meta, epoch))
  }

  /** The data blocks after an access to `key`. */
  function AfterAccess<V>(c: map<int, Stored<V>>, ids: Refs, key: int, newValue: Option<V>, epoch: nat): map<int, Stored<V>> {
    if key in ids && ids[key] in c then c[ids[key] := Touched(c[ids[key]], newValue, epoch)] else c
  }

  /** What an access returns: the value written, or else the current one, if any. */
  function Answer<V>(c: map<int, Stored<V>>, ids: Refs, key: int, newValue: Option<V>): Option<V> {
    if newValue.Some? then newValue
    else if key in ids && ids[key] in c then Some(c[ids[key]].value) else None
  }

  lemma AccessKeepsBlocks<V>(ids: Refs, c: map<int, Stored<V>>, key: int, newValue: Option<V>, epoch: nat)
    requires BlocksOk(ids, c)
    ensures BlocksOk(ids, AfterAccess(c, ids, key, newValue, epoch))
  {
  }

  /** A count can only be positive once an epoch is over. */
  lemma PositiveCount<V>(ids: Refs, c: map<int, Stored<V>>, log: seq<int>, window: nat, key: int, newValue: Option<V>)
    requires window > 0 && MetasExact(ids, c, log, window) && key in ids && ids[key] in c
    requires Touched(c[ids[key]], newValue, EpochOf(|log|, window)).meta.fp > 0
    ensures EpochOf(|log|, window) > 0
  {
    AccessedMetaExact(c[ids[key]].meta, log, key, window);
    EarlierEpoch(log + [key], key, EpochOf(|log|, window), window);
  }

  /** The user's view: each key's current value. */
  function View<V>(ids: Refs, c: map<int, Stored<V>>): map<int, V> {
    map k | k in ids && ids[k] in c :: c[ids[k]].value
  }

  /** Every key has its own block. */
  ghost predicate BlocksOk<V>(ids: Refs, c: map<int, Stored<V>>) {
    && (forall k :: k in ids ==> k >= 0 && ids[k] in c)
    && (forall k, j :: k in ids && j in ids && k != j ==> ids[k] != ids[j])
  }

  /** Every key's counts are what the history says. */
  ghost predicate MetasExact<V>(ids: Refs, c: map<int, Stored<V>>, log: seq<int>, window: nat)
    requires window > 0
  {
    forall k :: k in ids && ids[k] in c ==> MetaExact(c[ids[k]].meta, log, k, window)
  }

  lemma AccessKeepsMetas<V>(ids: Refs, c: map<int, Stored<V>>, log: seq<int>, window: nat, key: int, newValue: Option<V>)
    requires window > 0 && BlocksOk(ids, c) && MetasExact(ids, c, log, window)
    ensures MetasExact(ids, AfterAccess(c, ids, key, newValue, EpochOf(|log|, window)), log + [key], window)
    ensures BlocksOk(ids, AfterAccess(c, ids, key, newValue, EpochOf(|log|, window)))
  {
    hide MetaExact, UpdateMeta, EpochOf;
    var c' := AfterAccess(c, ids, key, newValue, EpochOf(|log|, window));
    forall k | k in ids && ids[k] in c' ensures MetaExact(c'[ids[k]].meta, log + [key], k, window) {
      if k == key {
        AccessedMetaExact(c[ids[k]].meta, log, k, window);
      } else {
        OtherMetaExact(c[ids[k]].meta, log, k, key, window);
      }
    }
  }

  lemma AccessView<V>(ids: Refs, c: map<int, Stored<V>>, key: int, newValue: Option<V>, epoch: nat)
    requires BlocksOk(ids, c)
    ensures View(ids, AfterAccess(c, ids, key, newValue, epoch))
         == if key in ids && newValue.Some? then View(ids, c)[key := newValue.value] else View(ids, c)
    ensures key in View(ids, c) <==> key in ids
  {
    var c' := AfterAccess(c, ids, key, newValue, epoch);
    var before, after := View(ids, c), View(ids, c');
    var expected := if key in ids && newValue.Some? then before[key := newValue.value] else before;
    forall k ensures k in after <==> k in expected {
    }
    forall k | k in after ensures after[k] == expected[k] {
    }
  }

  lemma AnswerIsView<V>(ids: Refs, c: map<int, Stored<V>>, key: int, newValue: Option<V>)
    requires BlocksOk(ids, c)
    ensures Answer(c, ids, key, newValue)
         == if newValue.Some? then newValue else if key in View(ids, c) then Some(View(ids, c)[key]) else None
  {
  }

  lemma BlockThere<V>(ids: Refs, c: map<int, Stored<V>>, key: int)
    requires BlocksOk(ids, c) && key in ids
    ensures ids[key] in c && key >= 0
  {
  }

  // ----- Numbering the data blocks -----

  /** Block ids by position: the key of entry i gets block i. */
  ghost function Numbered<V>(data: Entries<V>, n: nat): Refs
    requires Distinct(data) && n <= |data|
  {
    map i | 0 <= i < n :: data[i].0 := i
  }

  lemma NumberedStep<V>(data: Entries<V>, n: nat)
    requires Distinct(data) && n < |data|
    ensures data[n].0 !in Numbered(data, n)
    ensures Numbered(data, n + 1) == Numbered(data, n)[data[n].0 := n]
  {
  }

  lemma NumberedEntry<V>(data: Entries<V>, n: nat, k: int) returns (i: nat)
    requires Distinct(data) && n <= |data| && k in Numbered(data, n)
    ensures i < n && data[i].0 == k && Numbered(data, n)[k] == i && k in Assoc(data) && Assoc(data)[k] == data[i].1
  {
    i :| 0 <= i < n && data[i].0 == k;
  }

  /** `part` is `all` on the keys inside (or outside) `keys`. */
  ghost predicate Selects(part: Refs, all: Refs, keys: set<int>, inside: bool) {
    forall k :: k in part <==> k in all && (k in keys) == inside
  }

  /** Stores every value with fresh counts in a block of its own and splits the references into
      those of hot and of cold keys. */
  method Distribute<V>(data: Entries<V>, hot: set<int>)
    returns (blocks: map<int, Stored<V>>, hotRefs: Entries<int>, coldRefs: Entries<int>)
    requires Distinct(data)
    ensures forall j :: j in blocks <==> 0 <= j < |data|
    ensures forall j :: 0 <= j < |data| ==> blocks[j] == Stored(data[j].1, INITIAL_META)
    ensures Distinct(hotRefs) && Selects(Assoc(hotRefs), Numbered(data, |data|), hot, true)
    ensures Distinct(coldRefs) && Selects(Assoc(coldRefs), Numbered(data, |data|), hot, false)
    ensures Within(Assoc(hotRefs), Numbered(data, |data|)) && Within(Assoc(coldRefs), Numbered(data, |data|))
    ensures forall i :: 0 <= i < |hotRefs| ==> hotRefs[i].0 in Numbered(data, |data|)
    ensures forall i :: 0 <= i < |coldRefs| ==> coldRefs[i].0 in Numbered(data, |data|)
  {
    hide Assoc, Numbered, Distinct;
    blocks, hotRefs, coldRefs := map[], [], [];
    NothingNumbered(data);
    for i := 0 to |data|
      invariant forall j :: j in blocks <==> 0 <= j < i
      invariant forall j :: 0 <= j < i ==> blocks[j] == Stored(data[j].1, INITIAL_META)
      invariant Distinct(hotRefs) && Selects(Assoc(hotRefs), Numbered(data, i), hot, true)
      invariant Distinct(coldRefs) && Selects(Assoc(coldRefs), Numbered(data, i), hot, false)
      invariant Within(Assoc(hotRefs), Numbered(data, i)) && Within(Assoc(coldRefs), Numbered(data, i))
      invariant forall j :: 0 <= j < |hotRefs| ==> hotRefs[j].0 in Numbered(data, i)
      invariant forall j :: 0 <= j < |coldRefs| ==> coldRefs[j].0 in Numbered(data, i)
    {
      NumberedStep(data, i);
      blocks := blocks[i := Stored(data[i].1, INITIAL_META)];
      if data[i].0 in hot {
        AssocAppend(hotRefs, (data[i].0, i));
        hotRefs := hotRefs + [(data[i].0, i)];
      } else {
        AssocAppend(coldRefs, (data[i].0, i));
        coldRefs := coldRefs + [(data[i].0, i)];
      }
    }
  }

  lemma NothingNumbered<V>(data: Entries<V>)
    requires Distinct(data)
    ensures Distinct<int>([]) && Assoc<int>([]) == map[] && Numbered(data, 0) == map[]
  {
  }

  /** The freshly loaded blocks are distinct, have exact counts and show the data. */
  lemma LoadedData<V>(data: Entries<V>, blocks: map<int, Stored<V>>, window: nat)
    requires Distinct(data) && window > 0 && forall i :: 0 <= i < |data| ==> data[i].0 >= 0
    requires forall j :: 0 <= j < |data| ==> j in blocks && blocks[j] == Stored(data[j].1, INITIAL_META)
    ensures var ids := Numbered(data, |data|);
            BlocksOk(ids, blocks) && MetasExact(ids, blocks, [], window) && View(ids, blocks) == Assoc(data)
  {
    hide Assoc, Numbered;
    var ids := Numbered(data, |data|);
    forall k | k in ids
      ensures k >= 0 && ids[k] in blocks && blocks[ids[k]].meta == INITIAL_META
      ensures k in Assoc(data) && blocks[ids[k]].value == Assoc(data)[k]
      ensures 0 <= ids[k] < |data| && data[ids[k]].0 == k
    {
      var i := NumberedEntry(data, |data|, k);
    }
    forall k | k in ids ensures MetaExact(blocks[ids[k]].meta, [], k, window) {
      InitialMetaExact(k, window);
    }
    NumberedKeys(data);
    var v := View(ids, blocks);
    assert v.Keys == Assoc(data).Keys;
  }

  lemma NumberedKeys<V>(data: Entries<V>)
    requires Distinct(data)
    ensures forall k :: k in Assoc(data) <==> k in Numbered(data, |data|)
    ensures Assoc(data).Keys == Numbered(data, |data|).Keys && |Numbered(data, |data|)| == |data|
  {
    forall k ensures k in Assoc(data) <==> k in Numbered(data, |data|) {
      if k in Assoc(data) {
        var i :| 0 <= i < |data| && data[i].0 == k;
      }
    }
    assert Assoc(data).Keys == Numbered(data, |data|).Keys;
    AssocSize(data);
    assert |Assoc(data).Keys| == |Assoc(data)|;
  }

  // ----- The client's books when loading -----

  lemma SelectedKeys(part: Refs, all: Refs, keys: set<int>, inside: bool)
    requires Selects(part, all, keys, inside) && forall k :: k in keys ==> k in all
    ensures keys <= all.Keys
    ensures inside ==> part.Keys == keys
    ensures !inside ==> part.Keys == all.Keys - keys
  {
    forall k ensures k in part.Keys <==> k in all && (k in keys) == inside {
      assert k in part.Keys <==> k in part;
    }
    forall k | k in keys ensures k in all.Keys {
      assert k in all;
    }
    if inside {
      forall k ensures k in part.Keys <==> k in keys {
        assert k in part.Keys <==> k in part;
      }
    }
  }

  lemma StartConsistent(ids: Refs, hot: Refs, cold: Refs, hotKeys: set<int>, list: seq<int>)
    requires Selects(hot, ids, hotKeys, true) && Selects(cold, ids, hotKeys, false) && Within(hot, ids) && Within(cold, ids)
    requires (forall k :: k in ids ==> k >= 0) && (forall k :: k in hotKeys ==> k in ids) && Sorted(list, hotKeys)
    ensures Consistent(Client(hotKeys, hotKeys, list, {}, map[], INVALID_KEY, None, [], Idle), ids, hot, cold)
  {
    SelectedKeys(hot, ids, hotKeys, true);
    SelectedKeys(cold, ids, hotKeys, false);
  }

  lemma StartEmpty<V>()
    ensures Consistent(Client({}, {}, [], {}, map[], INVALID_KEY, None, [], Idle), map[], map[], map[])
    ensures BlocksOk<V>(map[], map[])
  {
  }

  lemma SortedTail(list: seq<int>, keys: set<int>)
    requires Sorted(list, keys) && list != []
    ensures list[0] in keys && Sorted(list[1..], keys - {list[0]})
  {
    var rest := list[1..];
    forall k ensures k in rest <==> k in keys - {list[0]} {
      if k in keys && k != list[0] {
        var i :| 0 <= i < |list| && list[i] == k;
        assert rest[i - 1] == k;
      }
      if k in rest {
        var i :| 0 <= i < |rest| && rest[i] == k;
        assert list[i + 1] == k && list[0] < list[i + 1];
      }
    }
    assert list[0] in list;
  }

  /** Room for the loaded references in the two indexes. */
  lemma LoadedSizes<V>(data: Entries<V>, hotSeq: seq<int>, hotRefs: Entries<int>, coldRefs: Entries<int>)
    requires Distinct(data) && Distinct(hotRefs) && Distinct(coldRefs)
    requires forall i, j :: 0 <= i < j < |hotSeq| ==> hotSeq[i] != hotSeq[j]
    requires forall k :: k in KeySet(hotSeq) ==> k in Assoc(data)
    requires Selects(Assoc(hotRefs), Numbered(data, |data|), KeySet(hotSeq), true)
    requires Selects(Assoc(coldRefs), Numbered(data, |data|), KeySet(hotSeq), false)
    ensures |hotRefs| == |hotSeq| == |KeySet(hotSeq)| && |coldRefs| == |data| - |hotSeq|
    ensures |Numbered(data, |data|)| == |data|
  {
    hide Assoc, Numbered, KeySet;
    var ids := Numbered(data, |data|);
    var keys := KeySet(hotSeq);
    NumberedKeys(data);
    KeySetSize(hotSeq);
    AssocSize(hotRefs);
    AssocSize(coldRefs);
    SelectedKeys(Assoc(hotRefs), ids, keys, true);
    SelectedKeys(Assoc(coldRefs), ids, keys, false);
    KeysSize(Assoc(hotRefs));
    KeysSize(Assoc(coldRefs));
    KeysSize(ids);
    PartSizes(ids.Keys, keys);
  }

  lemma PartSizes(all: set<int>, part: set<int>)
    requires part <= all
    ensures |all - part| == |all| - |part|
  {
    assert all == part + (all - part);
  }

  lemma {:induction false} KeySetSize(keys: seq<int>)
    requires forall i, j :: 0 <= i < j < |keys| ==> keys[i] != keys[j]
    ensures |KeySet(keys)| == |keys|
  {
    if keys == [] {
      assert KeySet(keys) == {};
    } else {
      var n := |keys| - 1;
      KeySetSize(keys[..n]);
      assert keys[n] !in keys[..n];
      assert KeySet(keys) == KeySet(keys[..n]) + {keys[n]} by {
        assert keys == keys[..n] + [keys[n]];
      }
    }
  }

  /** All loaded references belong to real keys. */
  lemma LoadedKeys<V>(data: Entries<V>, hotRefs: Entries<int>, coldRefs: Entries<int>, hotKeys: set<int>)
    requires Distinct(data) && (forall i :: 0 <= i < |data| ==> data[i].0 >= 0)
    requires forall i :: 0 <= i < |hotRefs| ==> hotRefs[i].0 in Numbered(data, |data|)
    requires forall i :: 0 <= i < |coldRefs| ==> coldRefs[i].0 in Numbered(data, |data|)
    requires forall k :: k in hotKeys ==> k in Assoc(data)
    ensures forall i :: 0 <= i < |hotRefs| ==> hotRefs[i].0 >= 0
    ensures forall i :: 0 <= i < |coldRefs| ==> coldRefs[i].0 >= 0
    ensures forall k :: k in Numbered(data, |data|) ==> k >= 0
    ensures forall k :: k in hotKeys ==> k in Numbered(data, |data|)
  {
    hide Assoc, Numbered;
    NumberedKeys(data);
    forall k | k in Numbered(data, |data|) ensures k >= 0 {
      var i := NumberedEntry(data, |data|, k);
    }
  }
}
