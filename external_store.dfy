/** `KVStore`: the store whose index is an external string-keyed table, as an object over a
    shard manager it owns. Each method is proved to take the store from `State()` to what
    ExternalSpec says. */
module ExternalStore {
  import opened Common
  import ShardSpec
  import ExternalSpec
  import opened ShardFiles

  class KVStore {
    const path: string
    const indexPath: string          // the file the index backend was opened on
    const shards: ShardManager
    var index: map<string, Triplet>  // the contents of that backend

    /** The store as one value, for the specification in ExternalSpec. */
    function State(): ExternalSpec.OffsetStore
      reads this, shards
    {
      ExternalSpec.OffsetStore(shards.State(), index)
    }

    predicate Valid()
      reads this, shards
    {
      ExternalSpec.Valid(State())
    }

    /** `__init__`: whatever backend the caller names, "sqlite" is passed on, so the index is
        opened on the sqlite file; `disk` is what the store directory already holds and
        `stored` the records that file already holds (none for a new store). The source's
        default `shard_size=2**30` is not modelled: the caller passes the size. */
    constructor (path: string, shardSize: nat, indexBackend: Option<string>,
                 disk: map<nat, seq<byte>>, stored: map<string, Triplet>)
      requires ExternalSpec.IndexInBounds(disk, stored)
      ensures Valid() && State() == ExternalSpec.Open(shardSize, disk, stored)
      ensures this.path == path
      ensures ExternalSpec.IndexPath(path, Some("sqlite"), {}) == Ok(indexPath)
      ensures fresh(shards)
    {
      this.path := path;
      indexPath := ExternalSpec.Join(path, ExternalSpec.SqliteIndex);
      shards := new ShardManager(shardSize, disk);
      index := stored;
    }

    /** `__setitem__` with `serialized` the pickled value: append to the write shard and point
        the key at the new record, whether or not it was present. */
    method SetItem(key: string, serialized: seq<byte>)
      requires Valid()
      modifies this, shards
      ensures State() == ExternalSpec.SetItem(old(State()), key, serialized) && Valid()
    {
      ghost var before := State();
      ghost var appended := ShardSpec.AppendRecord(before.shards, serialized);
      var shard := shards.shardForWrite;
      shards.WritingMode(shard);
      var position, written := shards.Append(serialized);
      assert Triplet(shard, position, written) == appended.1;
      index := index[key := Triplet(shard, position, written)];
      shards.IncrementByteCount(written);
      assert shards.State() == appended.0;
      assert State() == ExternalSpec.SetItem(before, key, serialized);
    }

    /** `__getitem__`: `get_with_id` on the key itself. */
    method GetItem(key: string) returns (r: Result<seq<byte>>)
      requires Valid()
      modifies shards
      ensures Valid() && (State(), r) == ExternalSpec.GetItem(old(State()), key)
    {
      if key !in index {
        return Err(KeyError);
      }
      r := shards.ReadRecord(index[key]);
    }

    /** `commit`: the shard half flushes every memory-mapped shard; `flushed` lists them. */
    method Commit() returns (flushed: seq<nat>)
      ensures ShardSpec.Distinct(flushed)
      ensures forall id :: id in flushed <==> id in ShardSpec.MappedShards(shards.openShards)
    {
      flushed := shards.Commit();
    }
  }
}
