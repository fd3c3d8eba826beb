# no_hassle_kv storage engine, modelled in Dafny

This project models the storage engine of `no_hassle_kv/KVStore.py`: a disk-backed key-value
store that keeps serialized values in append-only shard files and an index from each key to a
`(shard, offset, length)` triplet. Two stores share the same shard machinery.

- **Shard manager** (`ShardSpec`, `ShardFiles.ShardManager`). This covers:
  - the shard files, each a byte sequence keyed by shard id;
  - the file-name table `file_index`;
  - the handle table `opened_shards`, where each handle is `Write` (an append-mode file) or `Read` (a file with a memory map);
  - the rotation counters `shard_for_write` and `written_in_current_shard`, and `shard_size`.

  It also holds the read/write mode machine (`writing_mode`, `reading_mode`), the shared append path (`tell`, `write`, `increment_byte_count`), the in-place overwrite of a mapped byte range, the read of a triplet, `close_all_shards` (as a trace of closes) and the shard half of `commit`.
- **`CompactKeyValueStore`** (`CompactSpec`, `CompactStore.CompactKeyValueStore`): a dense index, which is a sequence of triplets addressed by id, plus an optional `key_map` from keys to dense ids. `set` overwrites in place when a record of the same length exists and appends otherwise. `get` resolves the key and reads the record.
- **`KVStore`** (`ExternalSpec`, `ExternalStore.KVStore`): a string-keyed external index. Its `set` always appends; its `get` looks the key up directly. It also has the two selectors of the index file, `get_index_path` and `infer_backend`.

Every module whose source changes state in place has two parts:
- a pure specification over datatypes (`ShardSpec`, `CompactSpec`, `ExternalSpec`), which carries the lemmas;
- a class (`ShardManager`, `CompactKeyValueStore`, `KVStore`) whose methods are proved to follow that specification: `ensures (State(), r) == Spec.F(old(State()), …)`.

In the source the shard machinery is made of `CompactKeyValueStore`'s own methods (no_hassle_kv/KVStore.py:87-205), and `KVStore` inherits them from it. Here that machinery is a class of its own, and each store owns one (`const shards: ShardManager`).

Values enter as their serialized bytes (`seq<byte>`). Files, handles and memory maps are in-memory values. `disk` (the shard files already in the store directory) and `isFile` (the paths that exist as regular files) are parameters.

## Model

| member | source | states |
|---|---|---|
| Common.Slice | no_hassle_kv/KVStore.py:115 | Python's `mm[pos:pos+len]`: the exact slice when in range, clamped at the end otherwise |
| ShardNames.NameFormat | no_hassle_kv/KVStore.py:117-118 | a shard name is `store_shard_` followed only by digits, at least four of them |
| ShardNames.NameFormatParses | no_hassle_kv/KVStore.py:117-118 | the digits of a shard name read back as the shard id |
| ShardNames.NameFormatInjective | no_hassle_kv/KVStore.py:117-118 | two shards never get the same file name |
| ShardNames.NameFormatPadded | no_hassle_kv/KVStore.py:117-118 | ids 0 and 42 format as `store_shard_0000` and `store_shard_0042` |
| ShardNames.NameFormatWide | no_hassle_kv/KVStore.py:117-118 | id 12345 keeps all five digits: `{0:04d}` is a minimum width |
| ShardSpec.Fresh | no_hassle_kv/KVStore.py:29-34 | empty tables and zero counters satisfy the handle-table invariant |
| ShardSpec.WritingMode | no_hassle_kv/KVStore.py:136-145 | keeps the invariant; the shard's file exists afterwards and no file loses bytes |
| ShardSpec.ReadingMode | no_hassle_kv/KVStore.py:147-155 | keeps the invariant; only the handle and file-name tables change; on success the shard is mapped and its file is non-empty |
| ShardSpec.ReadError | no_hassle_kv/KVStore.py:120-124 | the definition of why `open_for_read` fails: FileNotFoundError from `open` for a missing file, ValueError from `mmap` for an empty one. `ShardSpec.ReadingModeFacts` states that `reading_mode` raises exactly these |
| ShardSpec.IncrementByteCount | no_hassle_kv/KVStore.py:87-91 | only the counters change |
| ShardSpec.AppendBytes | no_hassle_kv/KVStore.py:69 | the shard becomes old bytes ++ payload; no file loses bytes; the invariant is kept |
| ShardSpec.AppendRecord | no_hassle_kv/KVStore.py:66-71 | the new location lies inside its shard; no file loses bytes; the invariant is kept |
| ShardSpec.Overwrite | no_hassle_kv/KVStore.py:63 | every file keeps its length; the invariant is kept |
| ShardSpec.ReadTriplet | no_hassle_kv/KVStore.py:111-115 | a read changes only the handle and file-name tables, never a file or a counter, and keeps the invariant |
| ShardSpec.IncrementByteCountFacts | no_hassle_kv/KVStore.py:87-91 | at or past the threshold, the write shard advances by exactly 1 and the counter resets to 0; otherwise the counter grows by `w`. The write shard never decreases, and the counter stays below a positive threshold |
| ShardSpec.WritingModeFacts | no_hassle_kv/KVStore.py:136-145 | afterwards the shard is in Write mode and other handles are unchanged. The name is set only if absent. A missing file is created empty. The call is a no-op if the shard is already in Write mode, and idempotent |
| ShardSpec.ReadingModeFacts | no_hassle_kv/KVStore.py:147-155 | succeeds iff the shard is already mapped or its file exists and is non-empty. On success only that handle becomes Read; on failure the handles are unchanged and the error is FileNotFoundError or ValueError. The name is set only if absent. Already mapped means no-op; the call is idempotent |
| ShardSpec.AppendRecordFacts | no_hassle_kv/KVStore.py:66-70 | the new triplet is (write shard, shard length before, payload length); that shard becomes before ++ payload and no other shard changes; the record's slice is the payload |
| ShardSpec.WritingModeFiles | no_hassle_kv/KVStore.py:126-130 | write mode creates only the missing file of that shard |
| ShardSpec.AppendRecordShape | no_hassle_kv/KVStore.py:67-70 | the append writes at the end of the file as write mode left it |
| ShardSpec.AppendRecordCounters | no_hassle_kv/KVStore.py:66-71 | after an append the write shard is in Write mode and named, and the counters rotate as `increment_byte_count` says |
| ShardSpec.ExtendsKeepsRecord | no_hassle_kv/KVStore.py:69 | files that only grow keep a location in bounds and its bytes unchanged |
| ShardSpec.ExtendsKeepsBounds | no_hassle_kv/KVStore.py:69-70 | the same for every location of an index |
| ShardSpec.SameLengthsKeepBounds | no_hassle_kv/KVStore.py:63 | an in-place overwrite keeps every location of an index in bounds |
| ShardSpec.OverwriteFacts | no_hassle_kv/KVStore.py:63 | succeeds iff the range fits (otherwise IndexError and nothing changes). On success exactly bytes `[pos, pos+len)` become the payload; the shard keeps its length; every other byte, shard, table and counter is unchanged |
| ShardSpec.ReadTripletFacts | no_hassle_kv/KVStore.py:111-115 | an in-bounds record of length 0 raises ValueError and changes nothing; one of positive length yields exactly its bytes and leaves its shard mapped |
| ShardSpec.CloseTraceFacts | no_hassle_kv/KVStore.py:193-197 | every visited shard's file is closed, its map is closed iff it is in Read mode, and a map is closed immediately before its file |
| ShardSpec.CloseEvents | no_hassle_kv/KVStore.py:195-197 | the definition of closing one handle, `for s in shard[::-1]: if s: s.close()`: the memory map first when there is one, then the file. Its properties are in `ShardSpec.CloseTraceFacts` |
| ShardSpec.CloseTrace | no_hassle_kv/KVStore.py:193-197 | the definition of the closes `close_all_shards` performs for a visiting order. `ShardSpec.CloseTraceFacts` states its properties and `ShardFiles.ShardManager.CloseAllShards` produces it |
| ShardSpec.MappedShards | no_hassle_kv/KVStore.py:202-205 | the definition of the shards `commit` flushes: those whose handle holds a memory map. `ShardFiles.ShardManager.Commit` flushes exactly these |
| ShardFiles.ShardManager.constructor | no_hassle_kv/KVStore.py:29-34 | the fields become the fresh shard state over `disk` |
| ShardFiles.ShardManager.IncrementByteCount | no_hassle_kv/KVStore.py:87-91 | the new state is `ShardSpec.IncrementByteCount`: rotation at the threshold, otherwise the counter grows |
| ShardFiles.ShardManager.OpenForWrite | no_hassle_kv/KVStore.py:126-130 | append mode creates a missing file, and the handle is recorded as Write |
| ShardFiles.ShardManager.OpenForRead | no_hassle_kv/KVStore.py:120-124 | a missing file raises FileNotFoundError and an empty one ValueError; otherwise the handle is Read |
| ShardFiles.ShardManager.WritingMode | no_hassle_kv/KVStore.py:136-145 | follows `ShardSpec.WritingMode` and keeps the invariant; the shard ends in Write mode and an existing name is kept |
| ShardFiles.ShardManager.ReadingMode | no_hassle_kv/KVStore.py:147-155 | follows `ShardSpec.ReadingMode` and keeps the invariant; on success the shard ends in Read mode |
| ShardFiles.ShardManager.Append | no_hassle_kv/KVStore.py:68-69 | returns the old end of the write shard and the payload length; the shard becomes old ++ payload |
| ShardFiles.ShardManager.OverwriteMapped | no_hassle_kv/KVStore.py:63 | follows `ShardSpec.Overwrite` and keeps the invariant |
| ShardFiles.ShardManager.ReadRecord | no_hassle_kv/KVStore.py:111-115 | follows `ShardSpec.ReadTriplet` and keeps the invariant |
| ShardFiles.ShardManager.CloseAllShards | no_hassle_kv/KVStore.py:193-197 | visits each open shard exactly once. The closes are the trace `CloseTrace`: each shard's map is closed iff it is mapped, and always directly before its file |
| ShardFiles.ShardManager.Commit | no_hassle_kv/KVStore.py:202-205 | flushes each shard once, exactly those holding a memory map and none of the append-mode handles |
| CompactSpec.Fresh | no_hassle_kv/KVStore.py:23-38 | an empty key map and an empty index over `disk` form a valid store |
| CompactSpec.SetId | no_hassle_kv/KVStore.py:44-51 | the id resolution of `set`: if every id was below the index length, every id stays below the index length + 1, and an id that addresses an existing record leaves the key map unchanged. That a new key gets exactly `len(index)` is `CompactSpec.SetItemDenseIds` |
| CompactSpec.OverwritePath | no_hassle_kv/KVStore.py:60-64 | the in-place path keeps the store valid and leaves the index and key map untouched |
| CompactSpec.AppendPath | no_hassle_kv/KVStore.py:66-71 | the append path keeps the store valid and installs the key map of the resolved id |
| CompactSpec.SetItem | no_hassle_kv/KVStore.py:43-71 | `set` keeps the store valid: every location is in bounds and every key's id addresses a record |
| CompactSpec.GetId | no_hassle_kv/KVStore.py:94-101 | the definition of the id `get` resolves a key to. `CompactSpec.GetItemKeyError` and `CompactSpec.GetItemOtherErrors` state which keys raise and what |
| CompactSpec.GetWithId | no_hassle_kv/KVStore.py:107-115 | `get_with_id` changes only the handle and file-name tables; the state stays valid |
| CompactSpec.GetItem | no_hassle_kv/KVStore.py:93-105 | `get` changes only the handle and file-name tables; the state stays valid |
| CompactSpec.SetItemOutcome | no_hassle_kv/KVStore.py:43-64 | `set` of a non-empty payload raises exactly when there is no key map and the key is not an integer (ValueError), and then changes nothing |
| CompactSpec.SetItemDenseIds | no_hassle_kv/KVStore.py:44-47 | a new key gets id `len(index)` and the index grows by one. An existing key keeps its id. Afterwards every id is `< len(index)` |
| CompactSpec.SetItemAppendPath | no_hassle_kv/KVStore.py:66-71 | off the in-place path, one triplet (write shard, shard length before, payload length) is appended. The write shard becomes before ++ payload and no other shard changes. It is left in Write mode, and the counters rotate |
| CompactSpec.SetItemOverwritePath | no_hassle_kv/KVStore.py:55-64 | on a same-length rewrite the index, counters, file set and shard length are unchanged. Exactly `[offset, offset+length)` becomes the payload and every other byte and shard stays. The shard is left mapped |
| CompactSpec.GetItemRecord | no_hassle_kv/KVStore.py:93-115 | `get` of a key whose id addresses a non-empty record returns exactly that record's bytes |
| CompactSpec.AppendPathRecord | no_hassle_kv/KVStore.py:66-71 | the append path adds one location whose length and bytes are the payload's |
| CompactSpec.GetItemIs | no_hassle_kv/KVStore.py:93-115 | as GetItemRecord, for given expected bytes |
| CompactSpec.AppendPathGet | no_hassle_kv/KVStore.py:66-71 | after the append path, a key resolving to the new last id reads the payload back |
| CompactSpec.OverwriteRoundTrip | no_hassle_kv/KVStore.py:55-64 | `get(k)` after a same-length `set(k, v)` returns `v` |
| CompactSpec.NewKeyRoundTrip | no_hassle_kv/KVStore.py:44-71 | `get(k)` after `set(k, v)` on a key not seen before returns `v` |
| CompactSpec.SetGetRoundTrip | no_hassle_kv/KVStore.py:43-71 | the round trip on both paths: new key, or same-length rewrite |
| CompactSpec.GetItemOutcome | no_hassle_kv/KVStore.py:93-115 | `get`'s result on a valid store. It fails with the error of resolving the key, or IndexError for an id outside the index, or KeyError for a zero-length record (the ValueError converted). Otherwise it returns exactly the record's bytes |
| CompactSpec.GetItemKeyError | no_hassle_kv/KVStore.py:93-113 | `get` raises KeyError iff one of three holds: the key is absent from the key map; without a key map, the integer key is `>= len(index)`; or the record has length 0 |
| CompactSpec.GetItemOtherErrors | no_hassle_kv/KVStore.py:98-108 | TypeError iff there is no key map and the key is a string; IndexError iff there is no key map and the key is negative; no other errors |
| CompactSpec.GetItemSameRecord | no_hassle_kv/KVStore.py:93-115 | stores in which a key resolves to the same id, with the same record and bytes, answer `get` alike |
| CompactSpec.AppendPathKeepsOthers | no_hassle_kv/KVStore.py:66-71 | an append that leaves another key's id as it was leaves what that key reads unchanged |
| CompactSpec.SetItemAppendKeepsOthers | no_hassle_kv/KVStore.py:43-71 | with a key map, a `set` that appends does not change what `get` returns for any other key |
| CompactSpec.AppendPathKeepsRecord | no_hassle_kv/KVStore.py:66-70 | the append path keeps every earlier location and its bytes |
| CompactSpec.StaleReadAfterResize | no_hassle_kv/KVStore.py:44-71 | as written: rewriting an existing key with a payload of another length leaves `get` returning the old bytes, not the new ones |
| CompactSpec.StaleReadOneByte | no_hassle_kv/KVStore.py:44-71 | as written: a one-byte record rewritten with two bytes reads back as the one byte |
| CompactSpec.StaleReadExample | no_hassle_kv/KVStore.py:43-71 | as written, from a fresh store: `set(k, [x])`, `set(k, [x, y])`, `get(k)` returns `[x]` |
| CompactSpec.ReplacePath | no_hassle_kv/KVStore.py:66-71 | corrected path without a key map: the store stays valid, and the index length and key map are unchanged |
| CompactSpec.SetItemRepointed | no_hassle_kv/KVStore.py:43-71 | corrected `set` keeps the store valid |
| CompactSpec.ReplacePathGet | no_hassle_kv/KVStore.py:66-71 | after the replacing path, the key reads the payload |
| CompactSpec.RepointedKeyMapRoundTrip | no_hassle_kv/KVStore.py:43-71 | corrected, with a key map: any rewrite off the in-place path then `get` returns the payload |
| CompactSpec.RepointedDenseRoundTrip | no_hassle_kv/KVStore.py:43-71 | corrected, without a key map, for an existing or next id: `get` returns the payload |
| CompactSpec.RepointedRoundTrip | no_hassle_kv/KVStore.py:43-71 | corrected `set(k, v)` then `get(k)` returns `v` whatever the old record's length |
| CompactSpec.UnmappedKeyAppendsAtEnd | no_hassle_kv/KVStore.py:48-71 | without a key map, an integer key that addresses no record still has its record appended at `len(index)`. `get` of that key then raises KeyError, or IndexError if the key is negative |
| CompactSpec.SetItemPickleFails | no_hassle_kv/KVStore.py:44-53 | when `pickle.dumps` raises, `set` raises and the shards and index are unchanged, but a new key's id stays reserved in the key map |
| CompactSpec.ReservedIdShared | no_hassle_kv/KVStore.py:44-71 | after that raise the store is no longer valid. The reserved id addresses no record, so `get` of the key raises IndexError. The next new key is given the same id, and after its append both keys read its value |
| CompactSpec.SharedIdReadsBoth | no_hassle_kv/KVStore.py:46-70 | two keys in the key map under the next id both read the record the append places at that id |
| CompactSpec.SetValue | no_hassle_kv/KVStore.py:43-71 | the corrected `set`, which reserves the id only after pickling succeeds: it keeps the store valid, and a pickling error leaves the store exactly as it was |
| CompactSpec.PickleFailureLeavesIdFree | no_hassle_kv/KVStore.py:44-71 | under the corrected order, after a failed pickle the next new key reads its own value back and the first key is still absent (KeyError) |
| CompactSpec.NewKeyAppend | no_hassle_kv/KVStore.py:44-58 | a key absent from the key map takes the append path under id `len(index)` |
| CompactSpec.AppendPathCounters | no_hassle_kv/KVStore.py:66-91 | where the append path puts the record, and how the counters rotate |
| CompactSpec.NewKeySet | no_hassle_kv/KVStore.py:44-71 | `set` of a new key: the location, the shard growth and the rotation |
| CompactSpec.RotationFirst | no_hassle_kv/KVStore.py:66-91 | threshold 100: 80 bytes go to shard 0 at offset 0, and the counter becomes 80 |
| CompactSpec.RotationSecond | no_hassle_kv/KVStore.py:66-91 | 30 more bytes go to shard 0 at offset 80; the counter reaches 110, so the write shard becomes 1 and the counter 0 |
| CompactSpec.RotationThird | no_hassle_kv/KVStore.py:66-91 | then 10 bytes go to shard 1 at offset 0 |
| CompactSpec.RotationScenario | no_hassle_kv/KVStore.py:66-91 | the three writes from a fresh store give the index `[(0,0,80), (0,80,30), (1,0,10)]`, write shard 1 and counter 10 |
| CompactStore.CompactKeyValueStore.constructor | no_hassle_kv/KVStore.py:23-38 | the store starts valid and fresh: empty key map and index over `disk` |
| CompactStore.CompactKeyValueStore.SetItem | no_hassle_kv/KVStore.py:43-71 | follows `CompactSpec.SetItem` and keeps the store valid |
| CompactStore.CompactKeyValueStore.ResolveId | no_hassle_kv/KVStore.py:44-51 | the id `set` resolves the key to is `CompactSpec.SetId`: an unseen key gets the next id in an extended key map; without a key map a non-integer key raises ValueError |
| CompactStore.CompactKeyValueStore.SetValue | no_hassle_kv/KVStore.py:43-71 | the corrected `set`; follows `CompactSpec.SetValue` and keeps the store valid |
| CompactStore.CompactKeyValueStore.OverwriteRecord | no_hassle_kv/KVStore.py:62-63 | follows `CompactSpec.OverwritePath` |
| CompactStore.CompactKeyValueStore.AppendRecord | no_hassle_kv/KVStore.py:66-71 | follows `CompactSpec.AppendPath` |
| CompactStore.CompactKeyValueStore.SetItemRepointed | no_hassle_kv/KVStore.py:43-71 | the corrected `set`; follows `CompactSpec.SetItemRepointed` |
| CompactStore.CompactKeyValueStore.ReplaceRecord | no_hassle_kv/KVStore.py:66-71 | follows `CompactSpec.ReplacePath` |
| CompactStore.CompactKeyValueStore.GetWithId | no_hassle_kv/KVStore.py:107-115 | follows `CompactSpec.GetWithId` |
| CompactStore.CompactKeyValueStore.GetItem | no_hassle_kv/KVStore.py:93-105 | follows `CompactSpec.GetItem` |
| ExternalSpec.Open | no_hassle_kv/KVStore.py:209-225 | the store opened over `disk` and the records the backend file holds is valid, with exactly those records as its index |
| ExternalSpec.SetItem | no_hassle_kv/KVStore.py:256-281 | `set` keeps every indexed location in bounds |
| ExternalSpec.GetItem | no_hassle_kv/KVStore.py:283-289 | `get` changes only the handle and file-name tables, never the index, a file or a counter, and keeps the store valid |
| ExternalSpec.SetItemAppends | no_hassle_kv/KVStore.py:275-281 | `set` always appends. The key maps to (write shard, shard length before, payload length). Only that shard changes, growing by exactly the payload; it is left in Write mode, and the counters rotate |
| ExternalSpec.SetItemNeverOverwrites | no_hassle_kv/KVStore.py:264-281 | even a same-length rewrite of a present key moves the key to a new location and leaves the old bytes where they were |
| ExternalSpec.GetItemOutcome | no_hassle_kv/KVStore.py:283-289 | KeyError iff the key is absent, and ValueError iff its record has length 0 (not converted). Otherwise `get` returns exactly the record's bytes |
| ExternalSpec.GetItemIs | no_hassle_kv/KVStore.py:283-289 | a key with a non-empty record reads exactly its bytes |
| ExternalSpec.SetGetRoundTrip | no_hassle_kv/KVStore.py:256-289 | `get(k)` after `set(k, v)` with `v` non-empty returns `v` |
| ExternalSpec.GetItemSameRecord | no_hassle_kv/KVStore.py:283-289 | stores holding the same record for a key answer `get` alike |
| ExternalSpec.SetItemKeepsOthers | no_hassle_kv/KVStore.py:256-289 | `set(k, v)` does not change what `get` returns for any other key |
| ExternalSpec.ReopenKeepsReads | no_hassle_kv/KVStore.py:306-310 | reopening over the shard files and the backend's records answers every `get` as the open store did |
| ExternalSpec.GetIndexPathChoices | no_hassle_kv/KVStore.py:235-242 | accepts exactly "shelve" and "sqlite", giving `store_index.shelve` or `store_index.s3db`; anything else raises ValueError |
| ExternalSpec.GetIndexPath | no_hassle_kv/KVStore.py:235-242 | the definition of `get_index_path`. `ExternalSpec.GetIndexPathChoices` states which names it accepts and the paths it gives |
| ExternalSpec.InferBackend | no_hassle_kv/KVStore.py:227-233 | the definition of `infer_backend`, the shelve marker probed before the sqlite file. `ExternalSpec.InferBackendChoices` states its outcomes |
| ExternalSpec.IndexPath | no_hassle_kv/KVStore.py:222-225 | the definition of the index file `initialize_offset_index` opens: the named backend's, or the inferred one's without a name. `ExternalSpec.ConstructorUsesSqlite` and `ExternalSpec.InferredIndexPath` state what it selects |
| ExternalSpec.InferBackendChoices | no_hassle_kv/KVStore.py:227-233 | shelve iff its `.db` marker exists; sqlite iff only the sqlite file exists; otherwise FileNotFoundError. Whatever it infers, `get_index_path` accepts |
| ExternalSpec.ConstructorUsesSqlite | no_hassle_kv/KVStore.py:219-225 | with the backend `__init__` passes, the index file is `store_index.s3db` whatever files exist |
| ExternalSpec.InferredIndexPath | no_hassle_kv/KVStore.py:222-242 | with no backend named, the index file follows the markers: shelve first, then sqlite, else FileNotFoundError |
| ExternalStore.KVStore.constructor | no_hassle_kv/KVStore.py:209-225 | whatever backend is requested, the index is opened on `path/store_index.s3db`; the store is `ExternalSpec.Open` over `disk` and the records that file holds |
| ExternalStore.KVStore.SetItem | no_hassle_kv/KVStore.py:256-281 | follows `ExternalSpec.SetItem` and keeps the store valid |
| ExternalStore.KVStore.GetItem | no_hassle_kv/KVStore.py:283-289 | follows `ExternalSpec.GetItem` and keeps the store valid |
| ExternalStore.KVStore.Commit | no_hassle_kv/KVStore.py:299-304 | the shard half flushes each memory-mapped shard once, and no other |

## Left out

- Pickle (`dumps`/`loads`): values are given and returned as their serialized bytes, so the codec is not part of this model.
- Real files, memory maps, `tell`, `write`, `close`, `flush`: shards are byte sequences and handles are mode tags. `close_all_shards` and `commit` are modelled as the order of closes and flushes, not their I/O.
- `close_all_shards` does not clear `opened_shards`, so a later call would find closed handles. The model's handle table is left as it was, and the failure of using a closed handle is not modelled.
- A reopen that fails inside `writing_mode`/`reading_mode` after the old handle was closed: the model keeps the old entry in the handle table, as the source does, but does not mark it as closed.
- `check_dir_exists` (the `mkdir` in `open_for_write` and in `KVStore.__init__`), and the directory and backend construction in `create_index`: file-system plumbing.
- `save`, `save_param`, `load_param`, `save_index`, `load_index`, `load`, `close` and `init_storage`: persistence through pickle and setup of the array's capacity.
- `CompactStorage`, `DbOffsetStorage`, `shelve` and `DbDict`: their source is not part of this model. `CompactStorage` is taken to be a growable sequence whose index raises IndexError out of range, including for a negative index. `DbOffsetStorage` is taken to be a string-keyed map that raises KeyError for a missing key.
- The backend half of `KVStore.commit` (`index.commit()` or `index.sync()`).
- `KVStore` keys are strings; non-string keys given to `DbOffsetStorage` are not modelled.
- `CompactKeyValueStore` keys are folded into Python integers and strings (`Key`). Other hashable keys a key map accepts are not modelled. Neither is `bool`, which `isinstance(key, int)` also accepts.
- ExternalStore.KVStore.constructor: the records the backend file already holds are a parameter, taken to lie inside the shard files on disk, as every record this code writes does. A corrupt backend whose records point past the files is not modelled.
- CompactSpec.SetItemAppendKeepsOthers: covers only the append path with a key map. `CompactSpec.Valid` does not exclude two ids with overlapping records, so an in-place overwrite could change another key's bytes; that the code never creates such overlaps is not proved.
- The `DbDict` key-type checks in `KVStore.__setitem__`/`__getitem__` are dead code, since `create_index` never builds a `DbDict`, so they are left out. The `type(triplet) is None` check in `get_with_id` never holds, so it is left out too.
- The order in which `close_all_shards` and `commit` visit the handle table (Python's dict order): the model proves its facts for any visiting order.
- `add_posting`: commented-out code.
- `key_map` is `None` only when a caller assigns it, since the constructor always creates a dict. The model covers that path, but `CompactKeyValueStore.constructor` always starts with a key map.
- `load` passes `index_backend=None`, but `KVStore.__init__` replaces it with "sqlite", so `infer_backend` is never reached from `load`. `ExternalSpec.ConstructorUsesSqlite` states what happens. `ExternalSpec.InferredIndexPath` states what `None` would have selected.
- CompactSpec.SetItem: an I/O error raised by `open` (no_hassle_kv/KVStore.py:129) or `f.write` (no_hassle_kv/KVStore.py:69) after the id is reserved at no_hassle_kv/KVStore.py:46 is not modelled, because writes are taken never to fail. `KeysAddress` is an invariant of `set` only under that assumption. The same holds for `CompactStore.CompactKeyValueStore.SetItem`. The pickling error is covered under Findings.
- CompactStore.CompactKeyValueStore.SetItem: takes the value already pickled, so a raise from `pickle.dumps` is modelled only by `CompactSpec.SetItemPickleFails` and the corrected `SetValue`.
- The `shard_size=2**30` default of both constructors (no_hassle_kv/KVStore.py:23, no_hassle_kv/KVStore.py:209): every constructor here takes the size as a parameter.
- Integer widths: ids, offsets and lengths are unbounded naturals, so the `dtype="L"` width of `CompactStorage` is not modelled.

Two places where what the code does differs from what its comments suggest:
- The comment on the append path of `CompactKeyValueStore.__setitem__` (no_hassle_kv/KVStore.py:66, "no old data or the key is new") says only new keys get there. A rewrite of an existing key with a value of a different length also reaches it, and `key_map[key]` keeps the old id (see Findings). The model follows the code.
- `KVStore.__setitem__` never overwrites in place, because that code is commented out (no_hassle_kv/KVStore.py:264-273). `ExternalSpec.SetItemNeverOverwrites` states this.

## Findings

| source | as written | input that shows it | evidently intended | confidence | as-written member | corrected member |
|---|---|---|---|---|---|---|
| no_hassle_kv/KVStore.py:44-71 | when a key already in `key_map` is rewritten with a value whose serialized length differs, the new triplet is appended at `len(index)`, but `key_map[key]` keeps the old id | a fresh store: `set(k, x)` with one serialized byte, then `set(k, y)` with two; `get(k)` returns the one byte of `x` | `get(k)` returns the latest value: the key is moved to the new id (without a key map, the record at the id is replaced) | not executed | CompactSpec.StaleReadExample | CompactSpec.RepointedRoundTrip |
| no_hassle_kv/KVStore.py:44-53 | a new key's id `len(index)` is put into `key_map` before `pickle.dumps` runs, so when pickling raises the key is left with an id that addresses no record | a store with a key map: `set(k, v)` with a `v` that cannot be pickled (a lambda), then `set(k2, w)` with another new key: both `get(k)` and `get(k2)` return `w`; between the two, `get(k)` raises IndexError | a `set` that raises leaves the store as it was: the id is reserved only once the value is pickled | not executed | CompactSpec.ReservedIdShared | CompactSpec.PickleFailureLeavesIdFree |
