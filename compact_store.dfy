/** `CompactKeyValueStore`: the dense-index store as an object whose key map and index are
    updated in place, over a shard manager it owns. Each method is proved to take the store
    from `State()` to what CompactSpec says. */
module CompactStore {
  import opened Common
  import ShardSpec
  import CompactSpec
  import opened ShardFiles

  class CompactKeyValueStore {
    const shards: ShardManager
    var keyMap: Option<map<Key, nat>>
    var index: seq<Triplet>

    /** The store as one value, for the specification in CompactSpec. */
    function State(): CompactSpec.DenseStore
      reads this, shards
    {
      CompactSpec.DenseStore(shards.State(), keyMap, index)
    }

    predicate Valid()
      reads this, shards
    {
      CompactSpec.Valid(State())
    }

    /** `__init__`: `initialize_file_index` then `initialize_offset_index`, which starts an
        empty key map and an empty index; `disk` is what the store directory already holds. The
        source's default `shard_size=2**30` is not modelled: the caller passes the size. */
    constructor (shardSize: nat, disk: map<nat, seq<byte>>)
      ensures Valid() && State() == CompactSpec.Fresh(shardSize, disk)
      ensures fresh(shards)
    {
      shards := new ShardManager(shardSize, disk);
      keyMap := Some(map[]);
      index := [];
    }

    /** The id `__setitem__` resolves the key to: with a key map, an unseen key is given the
        next id in an extended map; without one, an integer key is its own id and any other
        key raises ValueError. */
    method ResolveId(key: Key) returns (r: Result<(Option<map<Key, nat>>, int)>)
      ensures r == CompactSpec.SetId(keyMap, |index|, key)
    {
      var km := keyMap;
      if km.Some? {
        if key !in km.value {
          km := Some(km.value[key := |index|]);
        }
        return Ok((km, km.value[key]));
      }
      if !key.Int? {
        return Err(ValueError);
      }
      r := Ok((None, key.i));
    }

    /** `__setitem__` with `serialized` the pickled value: resolve the id (a new key gets the
        next id), overwrite in place when a record of the same length exists, otherwise append
        a new record. */
    method SetItem(key: Key, serialized: seq<byte>) returns (r: Outcome)
      requires Valid()
      modifies this, shards
      ensures (State(), r) == CompactSpec.SetItem(old(State()), key, serialized) && Valid()
    {
      ghost var before := State();
      var resolved := ResolveId(key);
      if resolved.Err? {
        return Fail(resolved.error);
      }
      var (km, id) := resolved.value;
      if 0 <= id < |index| && index[id].length == |serialized| {
        assert CompactSpec.OverwriteCase(before, key, serialized);
        r := OverwriteRecord(index[id], serialized);
      } else {
        assert !CompactSpec.OverwriteCase(before, key, serialized);
        AppendRecord(km, serialized);
        r := Pass;
      }
    }

    /** `__setitem__` corrected so that the key's id is reserved only once `pickle.dumps`,
        whose result is `pickled`, has succeeded. */
    method SetValue(key: Key, pickled: Result<seq<byte>>) returns (r: Outcome)
      requires Valid()
      modifies this, shards
      ensures (State(), r) == CompactSpec.SetValue(old(State()), key, pickled) && Valid()
    {
      var resolved := ResolveId(key);
      if resolved.Err? {
        return Fail(resolved.error);
      }
      if pickled.Err? {
        return Fail(pickled.error);
      }
      r := SetItem(key, pickled.value);
    }

    /** The in-place path of `__setitem__`: `mm[pos:pos+len] = serialized` on the record's shard. */
    method OverwriteRecord(t: Triplet, serialized: seq<byte>) returns (r: Outcome)
      requires Valid()
      modifies shards
      ensures Valid() && (State(), r) == CompactSpec.OverwritePath(old(State()), t, serialized)
    {
      var err := shards.ReadingMode(t.shard);
      if err.Some? {
        return Fail(err.value);
      }
      err := shards.OverwriteMapped(t.shard, t.offset, serialized);
      r := if err.Some? then Fail(err.value) else Pass;
    }

    /** The append path of `__setitem__`: write at the end of the write shard, append the
        location (`shard_for_write`, `f.tell()`, bytes written) and count the bytes; `km` is
        the key map with the key's id in it. */
    method AppendRecord(km: Option<map<Key, nat>>, serialized: seq<byte>)
      requires Valid() && CompactSpec.KeysAddress(km, |index| + 1)
      modifies this, shards
      ensures State() == CompactSpec.AppendPath(old(State()), km, serialized) && Valid()
    {
      ghost var before := State();
      ghost var appended := ShardSpec.AppendRecord(before.shards, serialized);
      var shard := shards.shardForWrite;
      shards.WritingMode(shard);
      var position, written := shards.Append(serialized);
      assert Triplet(shard, position, written) == appended.1;
      keyMap := km;
      index := index + [Triplet(shard, position, written)];
      shards.IncrementByteCount(written);
      assert shards.State() == appended.0;
      assert State() == CompactSpec.AppendPath(before, km, serialized);
    }

    /** `__setitem__` corrected: a rewrite that cannot be done in place makes the key refer to
        the new record, by moving the key to the new id or, without a key map, by replacing
        the record at the key's id. */
    method SetItemRepointed(key: Key, serialized: seq<byte>) returns (r: Outcome)
      requires Valid()
      modifies this, shards
      ensures (State(), r) == CompactSpec.SetItemRepointed(old(State()), key, serialized) && Valid()
    {
      ghost var before := State();
      var resolved := ResolveId(key);
      if resolved.Err? {
        return Fail(resolved.error);
      }
      var (km, id) := resolved.value;
      if 0 <= id < |index| && index[id].length == |serialized| {
        assert CompactSpec.OverwriteCase(before, key, serialized);
        r := OverwriteRecord(index[id], serialized);
      } else {
        assert !CompactSpec.OverwriteCase(before, key, serialized);
        if km.Some? {
          AppendRecord(Some(km.value[key := |index|]), serialized);
        } else if 0 <= id < |index| {
          ReplaceRecord(id, serialized);
        } else {
          AppendRecord(None, serialized);
        }
        r := Pass;
      }
    }

    /** The corrected path without a key map: append the payload, then store its location
        at `id` in place of the old one. */
    method ReplaceRecord(id: nat, serialized: seq<byte>)
      requires Valid() && id < |index|
      modifies this, shards
      ensures State() == CompactSpec.ReplacePath(old(State()), id, serialized) && Valid()
    {
      ghost var before := State();
      ghost var appended := ShardSpec.AppendRecord(before.shards, serialized);
      var shard := shards.shardForWrite;
      shards.WritingMode(shard);
      var position, written := shards.Append(serialized);
      assert Triplet(shard, position, written) == appended.1;
      index := index[id := Triplet(shard, position, written)];
      shards.IncrementByteCount(written);
      assert shards.State() == appended.0;
      assert State() == CompactSpec.ReplacePath(before, id, serialized);
    }

    /** `get_with_id`: the record at `docId`, read through the shard's memory map. */
    method GetWithId(docId: int) returns (r: Result<seq<byte>>)
      requires Valid()
      modifies shards
      ensures Valid() && (State(), r) == CompactSpec.GetWithId(old(State()), docId)
    {
      if !(0 <= docId < |index|) {
        return Err(IndexError);
      }
      r := shards.ReadRecord(index[docId]);
    }

    /** `__getitem__`: resolve the key to an id, then `get_with_id`, with its ValueError raised
        again as KeyError. */
    method GetItem(key: Key) returns (r: Result<seq<byte>>)
      requires Valid()
      modifies shards
      ensures Valid() && (State(), r) == CompactSpec.GetItem(old(State()), key)
    {
      var id: int;
      if keyMap.Some? {
        if key !in keyMap.value {
          return Err(KeyError);
        }
        id := keyMap.value[key];
      } else {
        if key.Str? {
          return Err(TypeError);
        }
        id := key.i;
        if id >= |index| {
          return Err(KeyError);
        }
      }
      r := GetWithId(id);
      if r == Err(ValueError) {
        r := Err(KeyError);
      }
    }
  }
}
