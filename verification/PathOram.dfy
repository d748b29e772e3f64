/** Position-mapped Path ORAM (path_oram): a map whose blocks move on every access. */
module PathOrams {
  import opened Common
  import opened Geometry
  import opened StashTrees

  class PathOram<V> {
    const store: StashTree<V>
    var posMap: map<int, nat>

    ghost predicate Valid()
      reads this, store
    {
      && store.Quiet()
      && (forall k :: k in posMap ==> posMap[k] < store.Range())
      && (forall k :: k in store.content ==> k in posMap && posMap[k] == store.content[k].leaf)
    }

    ghost function Contents(): map<int, V>
      reads this, store
    {
      map k | k in store.content :: store.content[k].value
    }

    constructor (numData: int, bucketSize: nat, stashScale: nat)
      ensures Valid() && Contents() == map[] && fresh(store)
    {
      store := new StashTree<V>.Empty(numData, bucketSize, stashScale);
      posMap := map[];
    }

    /** Gives a random position to each key that has none. */
    method AssignLeaves(keys: set<int>)
      requires Valid()
      modifies `posMap
      ensures Valid() && keys <= posMap.Keys
      ensures forall k :: k in old(posMap) ==> k in posMap && posMap[k] == old(posMap)[k]
    {
      hide Holds, Placed, Pow2;
      var todo := keys;
      while todo != {}
        invariant todo <= keys <= todo + posMap.Keys
        invariant Valid()
        invariant forall k :: k in old(posMap) ==> k in posMap && posMap[k] == old(posMap)[k]
        decreases todo
      {
        var k := Pick(todo);
        if k !in posMap {
          var leaf := store.RandomLeaf();
          posMap := posMap[k := leaf];
        }
        todo := todo - {k};
      }
    }

    /** Replaces the contents by `data`; a key that already has a position keeps it. */
    method Init(data: map<int, V>)
      requires Valid()
      modifies this, store
      ensures Valid() && Contents() == data
      ensures forall k :: k in old(posMap) ==> k in posMap && posMap[k] == old(posMap)[k]
    {
      hide Holds, Placed, Pow2;
      AssignLeaves(data.Keys);
      var blocks := MakeBlocks(data, posMap);
      store.LoadBlocks(blocks);
      forall k | k in data ensures k in store.content {
        var j :| 0 <= j < |blocks| && blocks[j].key == k;
      }
      forall k | k in store.content ensures k in data && store.content[k].value == data[k] {
        var j :| 0 <= j < |blocks| && blocks[j] == store.content[k];
      }
    }

    /** Reads the block of `key`, optionally overwrites it, and moves it to a fresh path. */
    method Access(key: int, newValue: Option<V>) returns (r: Result<V>)
      requires Valid()
      modifies this, store
      ensures key !in old(Contents()) <==> r == Err(KeyNotFound)
      ensures r.Ok? ==> Valid() && r.value == old(Contents())[key]
      ensures r.Ok? ==> Contents() == old(Contents())[key := if newValue.Some? then newValue.value else r.value]
      ensures r.Ok? ==> posMap.Keys == old(posMap).Keys && forall k :: k in posMap && k != key ==> posMap[k] == old(posMap)[k]
      ensures key !in old(posMap) ==> Valid() && posMap == old(posMap) && store.content == old(store.content)
      ensures key in old(posMap) ==> store.fetches == old(store.fetches) + 1
      ensures r == Err(StashOverflow) ==> store.Overfull()
    {
      hide Holds, Placed, Pow2, PathNodes, PathSum, Maximal, SameOutside, Restrict, Keyed, TreeSum;
      if key !in posMap {
        return Err(KeyNotFound);
      }
      var oldLeaf := posMap[key];
      var newLeaf := store.RandomLeaf();
      posMap := posMap[key := newLeaf];
      store.ReadPaths([oldLeaf]);
      var at := store.FindInStash(key);
      if at < 0 {
        return Err(KeyNotFound);
      }
      var result := store.stash[at].value;
      store.UpdateInStash(at, newLeaf, if newValue.Some? then newValue.value else result);
      var ok := store.EvictStash([oldLeaf]);
      if !ok {
        return Err(StashOverflow);
      }
      r := Ok(result);
    }

    /** One fetch and eviction of a random path; no logical effect. */
    method DummyAccess() returns (r: Result<()>)
      requires Valid()
      modifies store
      ensures r.Err? ==> r.error == StashOverflow && store.Overfull()
      ensures r.Ok? ==> Valid() && store.content == old(store.content) && Contents() == old(Contents())
      ensures store.fetches == old(store.fetches) + 1
    {
      hide Holds, Placed, Pow2, PathNodes, PathSum, Maximal, SameOutside;
      var leaf := store.RandomLeaf();
      store.ReadPaths([leaf]);
      var ok := store.EvictStash([leaf]);
      r := if ok then Ok(()) else Err(StashOverflow);
    }

    // ----- An access in steps -----

    /** The position map already names the next path of `key`, whose block is still on the last one. */
    ghost predicate Leaving(key: int, newLeaf: nat)
      reads this, store
    {
      && store.Valid() && key in store.content && newLeaf < store.Range()
      && (forall k :: k in posMap ==> posMap[k] < store.Range())
      && (forall k :: k in store.content ==> k in posMap && posMap[k] == if k == key then newLeaf else store.content[k].leaf)
    }

    /** The positions are right while a path is being worked on. */
    ghost predicate Settled()
      reads this, store
    {
      && store.Valid()
      && (forall k :: k in posMap ==> posMap[k] < store.Range())
      && (forall k :: k in store.content ==> k in posMap && posMap[k] == store.content[k].leaf)
    }

    /** Draws the next position of `key` and returns the last one too. */
    method Depart(key: int) returns (oldLeaf: nat, newLeaf: nat)
      requires Valid() && key in Contents()
      modifies `posMap
      ensures Leaving(key, newLeaf) && store.Quiet() && oldLeaf == store.content[key].leaf && Contents() == old(Contents())
    {
      hide Holds, Placed, Keyed, Pow2;
      oldLeaf := posMap[key];
      newLeaf := store.RandomLeaf();
      posMap := posMap[key := newLeaf];
    }

    /** Takes the fetched block of `key` out, optionally overwrites it, and puts it back for its next path. */
    method Rewrite(key: int, newLeaf: nat, newValue: Option<V>) returns (value: V)
      requires Leaving(key, newLeaf) && store.content[key] in store.stash
      modifies store
      ensures Settled() && store.pending == old(store.pending) && store.fetches == old(store.fetches)
      ensures key in old(Contents()) && value == if newValue.Some? then newValue.value else old(Contents())[key]
      ensures Contents() == old(Contents())[key := value]
    {
      hide StashTree.Valid, Pow2;
      var block := store.ExtractFromStash(key);
      value := if newValue.Some? then newValue.value else block.value.value;
      store.AddToStash(Block(key, newLeaf, value));
    }

    /** Writes the fetched path back. */
    method WriteBack(leaf: nat) returns (ok: bool)
      requires Settled() && store.pending == PathNodes(store.Range(), [leaf])
      modifies store
      ensures !ok ==> store.Overfull()
      ensures ok ==> Valid() && Contents() == old(Contents())
      ensures store.fetches == old(store.fetches)
    {
      hide StashTree.Valid, PathNodes, SameOutside, Maximal, Pow2;
      ok := store.EvictStash([leaf]);
    }
  }

  /** `blocks` holds one block per key of `keys`, with its value in `data` and its position. */
  ghost predicate BlocksOf<V>(blocks: seq<Block<V>>, data: map<int, V>, keys: set<int>, posMap: map<int, nat>)
    requires keys <= data.Keys && keys <= posMap.Keys
  {
    && (forall i :: 0 <= i < |blocks| ==>
          && blocks[i].key in keys
          && blocks[i] == Block(blocks[i].key, posMap[blocks[i].key], data[blocks[i].key]))
    && (forall i, j :: 0 <= i < j < |blocks| ==> blocks[i].key != blocks[j].key)
    && (forall k :: k in keys ==> exists i :: 0 <= i < |blocks| && blocks[i].key == k)
  }

  /** One block per entry of `data`, in an arbitrary order. */
  method MakeBlocks<V>(data: map<int, V>, posMap: map<int, nat>) returns (blocks: seq<Block<V>>)
    requires data.Keys <= posMap.Keys
    ensures BlocksOf(blocks, data, data.Keys, posMap)
  {
    blocks := [];
    var todo := data.Keys;
    while todo != {}
      invariant todo <= data.Keys
      invariant BlocksOf(blocks, data, data.Keys - todo, posMap)
      decreases todo
    {
      var k := Pick(todo);
      ghost var keys := data.Keys - todo;
      ghost var was := blocks;
      blocks := blocks + [Block(k, posMap[k], data[k])];
      todo := todo - {k};
      forall x | x in keys + {k} ensures exists i :: 0 <= i < |blocks| && blocks[i].key == x {
        if x == k { assert blocks[|was|].key == x; }
        else { var i :| 0 <= i < |was| && was[i].key == x; assert blocks[i].key == x; }
      }
      assert data.Keys - todo == keys + {k};
    }
    assert data.Keys - todo == data.Keys;
  }
}
