/** The shard file manager both stores are built on: it owns the shard files, the file-name
    table, the open handles and the rotation counters, and updates them in place. */
module ShardFiles {
  import opened Common
  import ShardNames
  import ShardSpec

  class ShardManager {
    var files: map<nat, seq<byte>>
    var fileIndex: map<nat, string>
    var openShards: map<nat, Mode>
    var shardForWrite: nat
    var written: nat
    var shardSize: nat

    /** The fields as one value, for the specification in ShardSpec. */
    function State(): ShardSpec.ShardState
      reads this
    {
      ShardSpec.ShardState(files, fileIndex, openShards, shardForWrite, written, shardSize)
    }

    predicate Valid()
      reads this
    {
      ShardSpec.Valid(State())
    }

    /** `initialize_file_index`; `disk` is what the store directory already holds. */
    constructor (shardSize: nat, disk: map<nat, seq<byte>>)
      ensures Valid() && State() == ShardSpec.Fresh(shardSize, disk)
    {
      files := disk;
      fileIndex := map[];
      openShards := map[];
      shardForWrite := 0;
      written := 0;
      this.shardSize := shardSize;
    }

    /** `increment_byte_count`. */
    method IncrementByteCount(w: nat)
      modifies this
      ensures State() == ShardSpec.IncrementByteCount(old(State()), w)
      ensures old(written) + w >= shardSize ==> shardForWrite == old(shardForWrite) + 1 && written == 0
      ensures old(written) + w < shardSize ==> shardForWrite == old(shardForWrite) && written == old(written) + w
      ensures old(Valid()) ==> Valid()
    {
      written := written + w;
      if written >= shardSize {
        shardForWrite := shardForWrite + 1;
        written := 0;
      }
    }

    /** `open_for_write`: append mode creates a missing file; the handle is recorded. */
    method OpenForWrite(id: nat)
      modifies this
      ensures files == if id in old(files) then old(files) else old(files)[id := []]
      ensures openShards == old(openShards)[id := Write]
      ensures fileIndex == old(fileIndex) && shardForWrite == old(shardForWrite)
      ensures written == old(written) && shardSize == old(shardSize)
    {
      if id !in files {
        files := files[id := []];
      }
      openShards := openShards[id := Write];
    }

    /** `open_for_read`: a missing file or an empty one (which cannot be memory-mapped) raises;
        otherwise the mapped handle is recorded. */
    method OpenForRead(id: nat) returns (err: Option<Error>)
      modifies this
      ensures err == ShardSpec.ReadError(old(State()), id)
      ensures openShards == if err.None? then old(openShards)[id := Read] else old(openShards)
      ensures files == old(files) && fileIndex == old(fileIndex) && shardForWrite == old(shardForWrite)
      ensures written == old(written) && shardSize == old(shardSize)
    {
      if id !in files {
        err := Some(FileNotFoundError);
      } else if |files[id]| == 0 {
        err := Some(ValueError);
      } else {
        openShards := openShards[id := Read];
        err := None;
      }
    }

    /** `writing_mode`. */
    method WritingMode(id: nat)
      requires Valid()
      modifies this
      ensures State() == ShardSpec.WritingMode(old(State()), id) && Valid()
      ensures ShardSpec.IsOpen(State(), id, Write)
      ensures openShards == old(openShards)[id := Write]
      ensures id in old(fileIndex) ==> fileIndex == old(fileIndex)
    {
      ghost var before := State();
      if id !in openShards {
        if id !in fileIndex {
          fileIndex := fileIndex[id := ShardNames.NameFormat(id)];
        }
        OpenForWrite(id);
      } else if openShards[id] == Read {
        // the map is closed, then its file, then the shard is reopened for appending
        OpenForWrite(id);
      }
      assert State() == ShardSpec.WritingMode(before, id);
    }

    /** `reading_mode`; `err` is the exception opening the shard raised, if any. */
    method ReadingMode(id: nat) returns (err: Option<Error>)
      requires Valid()
      modifies this
      ensures (State(), err) == ShardSpec.ReadingMode(old(State()), id) && Valid()
      ensures err.None? ==> openShards == old(openShards)[id := Read]
      ensures id in old(fileIndex) ==> fileIndex == old(fileIndex)
    {
      ghost var before := State();
      if id !in openShards {
        if id !in fileIndex {
          fileIndex := fileIndex[id := ShardNames.NameFormat(id)];
        }
        err := OpenForRead(id);
      } else if openShards[id] == Write {
        // the append-mode file is closed before the shard is mapped
        err := OpenForRead(id);
      } else {
        err := None;
      }
      assert (State(), err) == ShardSpec.ReadingMode(before, id);
    }

    /** `f.tell()` then `f.write(bytes)` on the append-mode handle of the write shard. */
    method Append(bytes: seq<byte>) returns (position: nat, count: nat)
      requires Valid() && ShardSpec.IsOpen(State(), shardForWrite, Write)
      modifies this
      ensures Valid() && State() == ShardSpec.AppendBytes(old(State()), old(shardForWrite), bytes)
      ensures position == |old(files)[shardForWrite]| && count == |bytes|
      ensures files[shardForWrite] == old(files)[shardForWrite] + bytes
    {
      position := |files[shardForWrite]|;
      files := files[shardForWrite := files[shardForWrite] + bytes];
      count := |bytes|;
    }

    /** `mm[pos:pos+len(bytes)] = bytes` on the memory map of shard `id`. */
    method OverwriteMapped(id: nat, pos: nat, bytes: seq<byte>) returns (err: Option<Error>)
      requires Valid() && ShardSpec.IsOpen(State(), id, Read)
      modifies this
      ensures Valid() && (State(), err) == ShardSpec.Overwrite(old(State()), id, pos, bytes)
    {
      var f := files[id];
      if |bytes| == 0 {
        err := None;
      } else if pos + |bytes| > |f| {
        err := Some(IndexError);
      } else {
        files := files[id := f[..pos] + bytes + f[pos + |bytes|..]];
        err := None;
      }
    }

    /** The read half of `get_with_id`, shared by both stores. */
    method ReadRecord(t: Triplet) returns (r: Result<seq<byte>>)
      requires Valid()
      modifies this
      ensures Valid() && (State(), r) == ShardSpec.ReadTriplet(old(State()), t)
    {
      if t.length == 0 {
        return Err(ValueError);
      }
      var err := ReadingMode(t.shard);
      if err.Some? {
        return Err(err.value);
      }
      r := Ok(Slice(files[t.shard], t.offset, t.offset + t.length));
    }

    /** `close_all_shards` (and `close`): visits every open shard once, closing a memory map
        before its file. `order` is the order the shards were visited in. The handle table is
        left as it was. */
    method CloseAllShards() returns (order: seq<nat>, trace: seq<ShardSpec.CloseEvent>)
      ensures ShardSpec.Distinct(order)
      ensures forall id :: id in order <==> id in openShards
      ensures trace == ShardSpec.CloseTrace(openShards, order)
      ensures forall j :: 0 <= j < |trace| && trace[j].CloseMap? ==>
                j + 1 < |trace| && trace[j + 1] == ShardSpec.CloseFile(trace[j].shard)
      ensures forall id :: ShardSpec.CloseMap(id) in trace <==> id in openShards && openShards[id] == Read
    {
      var remaining := openShards.Keys;
      order, trace := [], [];
      while remaining != {}
        invariant remaining <= openShards.Keys
        invariant forall i :: 0 <= i < |order| ==> order[i] in openShards && order[i] !in remaining
        invariant forall id :: id in openShards ==> id in remaining || id in order
        invariant ShardSpec.Distinct(order)
        invariant trace == ShardSpec.CloseTrace(openShards, order)
        decreases remaining
      {
        var id :| id in remaining;
        trace := trace + ShardSpec.CloseEvents(id, openShards[id]);
        order := order + [id];
        remaining := remaining - {id};
      }
      ShardSpec.CloseTraceFacts(openShards, order);
    }

    /** `commit` of the dense store: flushes every shard that holds a memory map, and so
        none of the append-mode handles. `flushed` lists them in the order visited. */
    method Commit() returns (flushed: seq<nat>)
      ensures ShardSpec.Distinct(flushed)
      ensures forall id :: id in flushed <==> id in ShardSpec.MappedShards(openShards)
    {
      var remaining := openShards.Keys;
      flushed := [];
      while remaining != {}
        invariant remaining <= openShards.Keys
        invariant forall i :: 0 <= i < |flushed| ==> flushed[i] in openShards && flushed[i] !in remaining
        invariant forall id :: id in flushed ==> openShards[id] == Read
        invariant forall id :: id in openShards && openShards[id] == Read ==> id in remaining || id in flushed
        invariant ShardSpec.Distinct(flushed)
        decreases remaining
      {
        var id :| id in remaining;
        if openShards[id] == Read {
          flushed := flushed + [id];
        }
        remaining := remaining - {id};
      }
    }
  }
}
