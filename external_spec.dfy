/** `KVStore`, the variant whose index lives in an external key-value backend, as a value: the
    shard state and the backend's map from string keys to record locations. Also the two
    selectors that choose the backend's file. */
module ExternalSpec {
  import opened Common
  import ShardSpec

  datatype OffsetStore = OffsetStore(
    shards: ShardSpec.ShardState,
    index: map<string, Triplet>)   // the DbOffsetStorage (or shelve) index: key to location

  /** Every record an index names lies inside its shard file. */
  predicate IndexInBounds(files: map<nat, seq<byte>>, index: map<string, Triplet>)
  {
    forall k :: k in index ==> ShardSpec.InBounds(files, index[k])
  }

  /** A store over the files already on disk and the records the backend file already holds
      (none for a new store): the backend is persistent, so reopening sees earlier keys. */
  function Open(shardSize: nat, disk: map<nat, seq<byte>>, stored: map<string, Triplet>): (d: OffsetStore)
    requires IndexInBounds(disk, stored)
    ensures Valid(d) && d.index == stored && d.shards.files == disk
  {
    OffsetStore(ShardSpec.Fresh(shardSize, disk), stored)
  }

  /** Every record the index names lies inside its shard. */
  predicate Valid(d: OffsetStore)
  {
    && ShardSpec.Valid(d.shards)
    && IndexInBounds(d.shards.files, d.index)
  }

  /** `__setitem__`: always the append path, even for a key already present; the key then
      names the new record. */
  function SetItem(d: OffsetStore, key: string, serialized: seq<byte>): (r: OffsetStore)
    requires Valid(d)
    ensures Valid(r)
  {
    var (s1, t) := ShardSpec.AppendRecord(d.shards, serialized);
    assert IndexInBounds(s1.files, d.index) by {
      forall k | k in d.index
        ensures ShardSpec.InBounds(s1.files, d.index[k])
      {
        ShardSpec.ExtendsKeepsRecord(d.shards.files, s1.files, d.index[k]);
      }
    }
    OffsetStore(s1, d.index[key := t])
  }

  /** `__getitem__`, which is `get_with_id` on the key: a missing key raises KeyError, and a
      zero-length record's ValueError is not converted. */
  function GetItem(d: OffsetStore, key: string): (r: (OffsetStore, Result<seq<byte>>))
    requires Valid(d)
    ensures Valid(r.0) && r.0.index == d.index
    ensures r.0.shards == d.shards.(fileIndex := r.0.shards.fileIndex, openShards := r.0.shards.openShards)
  {
    if key !in d.index then (d, Err(KeyError))
    else
      var (s1, res) := ShardSpec.ReadTriplet(d.shards, d.index[key]);
      (d.(shards := s1), res)
  }

  // ---------------------------------------------------------------------------------------
  // Choosing the index file

  const ShelveIndex: string := "store_index.shelve"
  const ShelveMarker: string := "store_index.shelve.db"
  const SqliteIndex: string := "store_index.s3db"

  /** `path.joinpath(name)`. */
  function Join(path: string, name: string): string
  {
    path + "/" + name
  }

  /** `get_index_path`: the index file of a backend named "shelve" or "sqlite"; any other name
      raises ValueError. */
  function GetIndexPath(path: string, backend: string): Result<string>
  {
    if backend == "shelve" then Ok(Join(path, ShelveIndex))
    else if backend == "sqlite" then Ok(Join(path, SqliteIndex))
    else Err(ValueError)
  }

  /** `infer_backend`: the shelve marker is probed before the sqlite file; `isFile` holds the
      paths that exist as regular files. */
  function InferBackend(path: string, isFile: set<string>): Result<string>
  {
    if Join(path, ShelveMarker) in isFile then Ok("shelve")
    else if Join(path, SqliteIndex) in isFile then Ok("sqlite")
    else Err(FileNotFoundError)
  }

  /** `initialize_offset_index` up to `create_index`: the index file it opens. Without a
      backend name the backend is inferred from the files present. */
  function IndexPath(path: string, backend: Option<string>, isFile: set<string>): Result<string>
  {
    match backend
    case Some(b) => GetIndexPath(path, b)
    case None =>
      match InferBackend(path, isFile)
      case Err(e) => Err(e)
      case Ok(b) => GetIndexPath(path, b)
  }

  // ---------------------------------------------------------------------------------------
  // Properties of set and get

  /** Always append: the key names a new record at the end of the write shard, whatever it
      named before; that shard grows by exactly the payload and no other shard changes. */
  lemma SetItemAppends(d: OffsetStore, key: string, serialized: seq<byte>)
    requires Valid(d)
    ensures var r := SetItem(d, key, serialized);
      var s := d.shards;
      var before := if s.shardForWrite in s.files then s.files[s.shardForWrite] else [];
      && r.index == d.index[key := Triplet(s.shardForWrite, |before|, |serialized|)]
      && r.shards.files == s.files[s.shardForWrite := before + serialized]
      && r.shards.openShards == s.openShards[s.shardForWrite := Write]
      && (s.written + |serialized| >= s.shardSize ==>
            r.shards.shardForWrite == s.shardForWrite + 1 && r.shards.written == 0)
      && (s.written + |serialized| < s.shardSize ==>
            r.shards.shardForWrite == s.shardForWrite && r.shards.written == s.written + |serialized|)
  {
    ShardSpec.AppendRecordFacts(d.shards, serialized);
    ShardSpec.AppendRecordCounters(d.shards, serialized);
  }

  /** Nothing is rewritten in place: even a same-length value for a present key leaves the old
      record's bytes where they were and makes the write shard longer. */
  lemma SetItemNeverOverwrites(d: OffsetStore, key: string, serialized: seq<byte>)
    requires Valid(d) && key in d.index && d.index[key].length == |serialized| > 0
    ensures var r := SetItem(d, key, serialized);
      var t := d.index[key];
      && r.index[key] != t
      && r.shards.files[t.shard][t.offset..t.offset + t.length] == d.shards.files[t.shard][t.offset..t.offset + t.length]
  {
    var t := d.index[key];
    var (s1, t1) := ShardSpec.AppendRecord(d.shards, serialized);
    assert SetItem(d, key, serialized) == OffsetStore(s1, d.index[key := t1]);
    ShardSpec.AppendRecordFacts(d.shards, serialized);
    ShardSpec.ExtendsKeepsRecord(d.shards.files, s1.files, t);
  }

  /** What `get` returns on a valid store: KeyError for a missing key, ValueError for a
      zero-length record, or else exactly the record's bytes. */
  lemma GetItemOutcome(d: OffsetStore, key: string)
    requires Valid(d)
    ensures var r := GetItem(d, key).1;
      && (r == Err(KeyError) <==> key !in d.index)
      && (r == Err(ValueError) <==> key in d.index && d.index[key].length == 0)
      && (key in d.index && d.index[key].length > 0 ==>
            var t := d.index[key]; r == Ok(d.shards.files[t.shard][t.offset..t.offset + t.length]))
  {
    if key in d.index {
      ShardSpec.ReadTripletFacts(d.shards, d.index[key]);
    }
  }

  /** `get` of a key with a non-empty record returns that record's bytes. */
  lemma GetItemIs(d: OffsetStore, key: string, v: seq<byte>)
    requires Valid(d) && key in d.index
    requires var t := d.index[key]; t.length > 0 && d.shards.files[t.shard][t.offset..t.offset + t.length] == v
    ensures GetItem(d, key).1 == Ok(v)
  {
    ShardSpec.ReadTripletFacts(d.shards, d.index[key]);
  }

  /** Round trip: after `set(key, v)` with a non-empty payload, `get(key)` returns it. */
  lemma SetGetRoundTrip(d: OffsetStore, key: string, serialized: seq<byte>)
    requires Valid(d) && |serialized| > 0
    ensures GetItem(SetItem(d, key, serialized), key).1 == Ok(serialized)
  {
    ShardSpec.AppendRecordFacts(d.shards, serialized);
    GetItemIs(SetItem(d, key, serialized), key, serialized);
  }

  /** Two stores that hold the same record for `key` (or both lack it) answer `get(key)` alike. */
  lemma GetItemSameRecord(d1: OffsetStore, d2: OffsetStore, key: string)
    requires Valid(d1) && Valid(d2)
    requires key in d1.index <==> key in d2.index
    requires key in d1.index ==> var t := d1.index[key];
      && d2.index[key] == t
      && d2.shards.files[t.shard][t.offset..t.offset + t.length] == d1.shards.files[t.shard][t.offset..t.offset + t.length]
    ensures GetItem(d1, key).1 == GetItem(d2, key).1
  {
    if key in d1.index {
      var t := d1.index[key];
      assert GetItem(d1, key).1 == ShardSpec.ReadTriplet(d1.shards, t).1;
      assert GetItem(d2, key).1 == ShardSpec.ReadTriplet(d2.shards, t).1;
      ShardSpec.ReadTripletSame(d1.shards, d2.shards, t);
    }
  }

  /** `set(key, v)` changes what no other key reads. */
  lemma SetItemKeepsOthers(d: OffsetStore, key: string, other: string, serialized: seq<byte>)
    requires Valid(d) && other != key
    ensures GetItem(SetItem(d, key, serialized), other).1 == GetItem(d, other).1
  {
    var (s1, t) := ShardSpec.AppendRecord(d.shards, serialized);
    var r := SetItem(d, key, serialized);
    assert r == OffsetStore(s1, d.index[key := t]);
    if other in d.index {
      ShardSpec.ExtendsKeepsRecord(d.shards.files, s1.files, d.index[other]);
    }
    GetItemSameRecord(d, r, other);
  }

  /** Reopening the store over its shard files and its backend's records answers every `get`
      as the open store does: the index needs no saving of its own. */
  lemma ReopenKeepsReads(d: OffsetStore, shardSize: nat, key: string)
    requires Valid(d)
    ensures GetItem(Open(shardSize, d.shards.files, d.index), key).1 == GetItem(d, key).1
  {
    GetItemSameRecord(d, Open(shardSize, d.shards.files, d.index), key);
  }

  // ---------------------------------------------------------------------------------------
  // Properties of the index-file selectors

  /** `get_index_path` accepts exactly the two backend names, and raises ValueError otherwise. */
  lemma GetIndexPathChoices(path: string, backend: string)
    ensures GetIndexPath(path, backend).Ok? <==> backend == "shelve" || backend == "sqlite"
    ensures GetIndexPath(path, backend).Err? ==> GetIndexPath(path, backend).error == ValueError
    ensures backend == "shelve" ==> GetIndexPath(path, backend) == Ok(Join(path, "store_index.shelve"))
    ensures backend == "sqlite" ==> GetIndexPath(path, backend) == Ok(Join(path, "store_index.s3db"))
  {
  }

  /** `infer_backend` prefers shelve when both markers exist, and fails only when neither does;
      whatever it infers, `get_index_path` accepts. */
  lemma InferBackendChoices(path: string, isFile: set<string>)
    ensures var r := InferBackend(path, isFile);
      var shelve := Join(path, "store_index.shelve.db");
      var sqlite := Join(path, "store_index.s3db");
      && (r == Ok("shelve") <==> shelve in isFile)
      && (r == Ok("sqlite") <==> shelve !in isFile && sqlite in isFile)
      && (r == Err(FileNotFoundError) <==> shelve !in isFile && sqlite !in isFile)
      && (r.Ok? ==> GetIndexPath(path, r.value).Ok?)
  {
  }

  /** What `KVStore.__init__` does: it always hands "sqlite" on, so the index file is the
      sqlite one whatever files exist, and `infer_backend` is never consulted. */
  lemma ConstructorUsesSqlite(path: string, isFile: set<string>)
    ensures IndexPath(path, Some("sqlite"), isFile) == Ok(Join(path, "store_index.s3db"))
  {
  }

  /** With no backend named, the index file follows the marker files: the shelve one when its
      marker exists, else the sqlite one when it exists, else FileNotFoundError. */
  lemma InferredIndexPath(path: string, isFile: set<string>)
    ensures Join(path, "store_index.shelve.db") in isFile ==>
      IndexPath(path, None, isFile) == Ok(Join(path, "store_index.shelve"))
    ensures Join(path, "store_index.shelve.db") !in isFile && Join(path, "store_index.s3db") in isFile ==>
      IndexPath(path, None, isFile) == Ok(Join(path, "store_index.s3db"))
    ensures Join(path, "store_index.shelve.db") !in isFile && Join(path, "store_index.s3db") !in isFile ==>
      IndexPath(path, None, isFile) == Err(FileNotFoundError)
  {
  }
}
