# kv-go bitcask engine in Dafny

This project models the core of kv-go, a bitcask-style key/value store written in Go. Writes are appended to numbered data files as encoded log records, and an in-memory ordered index maps each live key to the position of its latest record. The model covers:

- **Log record codec** (`data/log_record.go`, modules `Data`, `Binary`, `Bytes`, `Crc32`, `Keys`). Records are laid out as `crc | type | varint key size | varint value size | key | value`, with a CRC-32/IEEE over everything after the crc field. The module proves the decoder reads back what the encoder wrote. It keeps the decoder's quirks: no header for a buffer of at most 4 bytes, varint byte counts added unchecked, and a slice panic when a varint overflows.
- **Data files** (module `DataFiles`). A file is a value holding an id, a write offset and its bytes. `ReadLogRecord` reads a 15-byte header window, then the key and value, then checks the crc.
- **Index** (`index/index.go`, module `Index`). This covers `NewIndexer`, the byte-wise key order of `Item.Less`, and a class `BTree` with `Put`, `Get`, `Delete`, `Size` and `Iterator`. `IndexIterator` supplies `Rewind`, `Seek`, `Next`, `Valid`, `Key`, `Value` and `Close`.
- **Engine** (`db.go`, modules `Store`, `Replay`, `Engine`, `Recovery`). The class `Engine.DB` holds the options, the file ids, the active and older files, the index, the sequence number and the merge flag. Its methods cover:
  - `Open`, `Put`, `Delete` and `Get`;
  - `appendLogRecord`, which rotates to a new file past the size threshold;
  - `getValueByPosition`, `loadDataFiles` and `loadIndexFromDataFiles`, the replay with batch buffering;
  - `ListKeys` and `Fold`.

  Each method is proved against a function on values in `Store` or `Replay`. On a *sound* state, where every index entry points at an intact record for that key, the engine behaves as a map from keys to values. Replaying the files written by any sequence of `Put` and `Delete` calls rebuilds exactly the index those calls kept in memory.
- **Merge** (`merge.go`, modules `Merging`, `Paths`). `Merge` seals the active file and rewrites every record the index still points at into a fresh instance in the merge directory. It writes one hint per rewritten record and finishes with a `merge.finished` record. The module proves:
  - each hint names a live key;
  - each hint points at a record holding that key's value;
  - looking up a key through its hint gives the same result as `Get` before the merge.
- **Prefix iterator** (`iterator.go`, module `Iteration`). `Rewind`, `Seek` and `Next` delegate to the index iterator and then skip keys without the prefix. The keys it yields are exactly the index keys that have the prefix, in ascending or, when reversed, descending order.

I/O failures are parameters (`IoFault`, `MergeFault`, `LoadFault`) naming the step that fails. The directory listing and file contents are parameters of `Open`.

## Model

| member | source | states |
|---|---|---|
| Data.EncodeLogRecord | data/log_record.go:54-82 | The returned array is exactly the record's encoding `Encoding(r)`: crc, type, both size varints, key and value. Its length is the returned size. |
| Data.PutHeaderFields | data/log_record.go:56-63 | After the type byte and the two varints are written into the 15-byte header buffer, the index equals the header length. `header[4..index]` holds the type and the two size varints. |
| Data.EncodingLength | data/log_record.go:65 | The encoded length is the header length plus the key and value lengths. |
| Data.EncodingLayout | data/log_record.go:66-77 | The encoding is laid out in this order: the little-endian crc of everything after byte 4, the header fields, the key, then the value. |
| Data.EncodingCrc | data/log_record.go:76-77 | The first four bytes, read little-endian, equal the CRC-32/IEEE of the rest of the encoding. |
| Data.HeaderBound | data/log_record.go:16-19 | When key and value sizes fit in 32 bits, the header is at most 15 bytes, the buffer `EncodeLogRecord` writes into. |
| Data.DecodeLogRecordHeader | data/log_record.go:85-107 | Returns no header exactly when the buffer has at most 4 bytes. A decoded header carries the little-endian crc and the type byte of the buffer. The header length never exceeds the buffer. |
| Data.DecodeEncodedHeader | data/log_record.go:85-107 | Decoding any buffer that starts with an encoded header returns that header's crc, type, key size and value size, with the header length. This is the decode/encode round trip. |
| Data.DecodeFiveBytes | data/log_record.go:95-106 | For a 5-byte buffer, both varints read nothing, so the sizes are 0 and the header length is 5. The unchecked varint counts are kept. |
| Data.DecodeSampleHeader | data/log_record_test.go:41-48 | The sample header of the Go test decodes to crc 2532332136, type Normal, key size 4, value size 10 and length 7. |
| Data.DecodeEmptyValueHeader | data/log_record_test.go:50-57 | The test's header of a record with an empty value decodes to crc 240712713, type Normal, key size 4, value size 0 and length 7. |
| Data.DecodeDeletedHeader | data/log_record_test.go:59-64 | The test's tombstone header decodes to crc 290887979, type Deleted and length 7, with key size 4 and value size 10. |
| Data.CrcRecheck | data/log_record.go:109-118 | `getLogRecordCRC` over an encoded header's fields, key and value gives back the crc stored in the record's first four bytes. |
| Data.CrcOfNilRecord | data/log_record.go:110-112 | A nil record has crc 0. |
| Binary.PutVarint | data/log_record.go:62-63 | Writes the zig-zag varint of `x` at `at`, returns its length, and leaves every other byte unchanged. |
| Binary.VarintRoundTrip | data/log_record.go:97-104 | `binary.Varint` reads back the value and length that `PutVarint` wrote, whatever follows. |
| Binary.VarintLengthOfSize | data/log_record.go:19 | A size below 2^32 takes between 1 and `MaxVarintLen32` (5) bytes. |
| Binary.UvarintFrom | data/log_record.go:97 | `binary.Uvarint`'s scan never reports more bytes than remain. A non-positive count gives value 0. An overflow is reported only after the maximum varint length. |
| Binary.UvarintBytesShape | data/log_record.go:62 | Every byte of an unsigned varint but the last has its continuation bit set, and the last does not. |
| Bytes.PutUint32 | data/log_record.go:77 | The first four bytes become the little-endian crc, and the rest are unchanged. |
| Bytes.Uint32LERoundTrip | data/log_record.go:91 | `LittleEndian.Uint32` reads back what `PutUint32` wrote. |
| Bytes.ToUint32 | data/log_record.go:98 | A conversion to `uint32` keeps values in range and otherwise wraps modulo 2^32. |
| Bytes.Atoi | db.go:317 | A parsed number fits in 64 signed bits and comes from a non-empty string. |
| Bytes.Itoa | merge.go:136 | The decimal text is non-empty, all digits, and has no leading zero. |
| Bytes.AtoiItoa | merge.go:136 | `Atoi` reads back the decimal text `Itoa` wrote for any id. |
| Bytes.AsciiRoundTrip | merge.go:135 | Converting an ASCII key to bytes and back returns it unchanged. |
| Crc32.ChecksumAppend | data/log_record.go:113-115 | Continuing a checksum with `crc32.Update` over more bytes equals the checksum of the concatenation. |
| Crc32.UpdateAppend | data/log_record.go:114-115 | Two successive updates equal one update over the concatenated bytes. |
| Keys.LogRecordKeyWithSeq | db.go:103 | The stored key is the sequence number's uvarint followed by the user key. |
| Keys.ParseLogRecordKey | db.go:393 | The parsed user key is a suffix of the stored key. |
| Keys.ParseKeyWithSeq | db.go:393 | Parsing a key built with a sequence number gives back the key and the number. |
| Keys.NonTransactionalKey | db.go:103 | A non-transactional key is a 0 byte followed by the key and parses back with sequence number 0. |
| DataFiles.OpenDataFile | db.go:297 | A newly opened file has the given id, write offset 0 and the bytes already on disk. |
| DataFiles.Write | db.go:269 | Writing appends the bytes to the file and advances the write offset by their length. |
| DataFiles.ReadLogRecord | db.go:381-387 | A successful read lies wholly inside the file and has a positive size. |
| DataFiles.ReadEncoded | db.go:219 | Reading at an offset where a record's encoding is stored returns that record and its encoded length. |
| DataFiles.ReadEncodedAfterWrite | db.go:268-271 | Appending to a file does not change what is read at an earlier record's offset. |
| DataFiles.HeaderCrcChecks | data/log_record.go:109-118 | The crc recomputed from an encoded header window, key and value equals the checksum of the payload. |
| Index.Compare | index/index.go:55 | `bytes.Compare` returns -1, 0 or 1. |
| Index.CompareZero | index/index.go:55 | `bytes.Compare` is 0 exactly for equal keys. |
| Index.LessIsStrictTotalOrder | index/index.go:54-56 | `Item.Less` is irreflexive, asymmetric, transitive and total on distinct keys. |
| Index.NewIndexer | index/index.go:38-47 | Type 1 gives a B-tree and type 2 (ART) a nil index. Any other type is the unsupported-type panic. |
| Index.Insert | index/index.go:12 | Inserting into an ascending key list keeps it ascending, and its members are the old keys plus the new one. |
| Index.Remove | index/index.go:18 | Removing keeps the list ascending, and its members are the old keys minus the removed one. |
| Index.ReverseDescending | index/index.go:24 | Reversing an ascending key list gives a descending one. |
| Index.AscendingCard | index/index.go:21 | An ascending key list has no duplicates: its length is its number of distinct keys. |
| Index.BTree.constructor | index/index.go:41 | A new B-tree is empty. |
| Index.BTree.Get | index/index.go:15 | Finds a position exactly for an indexed key, and it is that key's position. |
| Index.BTree.Size | index/index.go:21 | Returns the number of indexed keys. |
| Index.BTree.Put | index/index.go:12 | Always reports success. The entries become the old ones with the key mapped to the new position, and the key list stays sorted. |
| Index.BTree.Delete | index/index.go:18 | Reports success exactly when the key was indexed. The entries lose exactly that key. |
| Index.BTree.Iterator | index/index.go:24 | The iterator starts at 0 over the keys in ascending order, or descending order when `reverse` is set. Each key comes with its indexed position. |
| Index.IndexIterator.Rewind | index/index.go:60 | Returns to the first key, and the keys are unchanged. |
| Index.IndexIterator.Seek | index/index.go:61 | Stops at the first key at or after the target (at or before it when reversed). Every key passed over is before the target. |
| Index.IndexIterator.Next | index/index.go:62 | Advances by one key. |
| Index.IndexIterator.Valid | index/index.go:63 | True exactly while keys remain. |
| Index.IndexIterator.Key | index/index.go:64 | Returns the key of the current entry of the snapshot, which is an indexed key. |
| Index.IndexIterator.Value | index/index.go:65 | Returns the position of the current entry of the snapshot. |
| Index.IndexIterator.Close | index/index.go:66 | The closed iterator holds nothing and is not valid. |
| Index.SeekMonotone | index/index.go:61 | In key order, once a key is at or after the seek target, every later key is too, so `Seek`'s stopping point is well defined. |
| Iteration.NextMatch | iterator.go:66-77 | `skipToNext` stops at the first key from the current position that has the prefix, or at the end. Every key it skips lacks the prefix. |
| Iteration.EmptyPrefixYieldsAll | iterator.go:67-70 | With an empty prefix nothing is skipped, and all remaining keys are yielded. |
| Iteration.YieldFilters | iterator.go:38-41 | Repeating `Next` from a prefix match yields exactly the remaining keys filtered by the prefix. |
| Iteration.FilterMembers | iterator.go:73 | A key is yielded exactly when it is one of the remaining keys and has the prefix. |
| Iteration.FilterKeepsOrder | iterator.go:38-41 | Filtering keeps the keys in ascending order, or descending when reversed. |
| Iteration.IteratorYields | iterator.go:16-41 | A prefix iterator yields exactly the index keys that have the prefix, in ascending order (descending when reversed). |
| Iteration.ValueAtEntry | iterator.go:54-59 | On a sound state, the value at an indexed position is that key's current value. |
| Iteration.NewIterator | iterator.go:16-23 | The iterator wraps an index iterator over the database's keys, ascending or reversed. Each key carries its indexed position. |
| Iteration.Iterator.constructor | iterator.go:18-22 | Stores the database, the index iterator and the options. |
| Iteration.Iterator.SkipToNext | iterator.go:66-77 | Leaves the cursor at `NextMatch` of where it was, and the keys are unchanged. |
| Iteration.Iterator.Rewind | iterator.go:26-29 | The cursor is at the first key with the prefix, and a valid iterator's key has the prefix. |
| Iteration.Iterator.Seek | iterator.go:32-35 | The cursor is at the first key at or after the target that has the prefix. No key passed over is both at or after the target and prefixed. |
| Iteration.Iterator.Next | iterator.go:38-41 | The cursor moves to the next key with the prefix. |
| Iteration.Iterator.Valid | iterator.go:44-46 | True exactly while the index iterator has keys left. |
| Iteration.Iterator.Key | iterator.go:49-51 | The index iterator's current key. |
| Iteration.Iterator.Value | iterator.go:54-59 | Resolves the current position through `getValueByPosition` on the database's files. |
| Iteration.Iterator.Close | iterator.go:62-64 | The iterator is no longer valid. |
| Store.CheckOptions | db.go:434-442 | Options pass exactly when the directory is named and the threshold is positive. An empty directory is reported first. |
| Store.FileAt | db.go:208-212 | Finds a file exactly when the id is the active file's or an older file's. |
| Store.NextFileId | db.go:292-295 | The next id is 0 without an active file. Otherwise it is the active id plus 1, wrapping at 2^32 as the `uint32` addition does. |
| Store.SetActiveDataFile | db.go:291-303 | Fails exactly on an open fault. Otherwise it opens an empty file with the next id as the active file and keeps the older files. |
| Store.ValueByPosition | db.go:204-230 | Reports file-not-found exactly when there is an active file but no file with the id. A value comes from a record read at the position that is not a tombstone. Reading a tombstone gives key-not-found. |
| Store.GetResult | db.go:151-170 | An empty key gives `ErrKeyIsEmpty`, and an unindexed key gives `ErrKeyNotFound`. |
| Store.DeleteOutcome | db.go:122-148 | An empty key is rejected. An unindexed key is a no-op. Delete reports no other error, even when the append fails. |
| Store.AppendFacts | db.go:240-287 | On a well-formed store, the append leaves every earlier record readable. The returned position reads back the record, rotating first when the threshold would be passed. Without a fault it always succeeds. |
| Store.AppendActiveId | db.go:253-266 | An append moves the active file id forward by at most one. |
| Store.RotateExtends | db.go:253-266 | Sealing the active file into the older files and opening the next one keeps every record readable. |
| Store.PutSound | db.go:95-120 | A `Put` of a non-empty key keeps the store sound, with the key now holding the new value. It succeeds without a fault and leaves the store sound after a failure. |
| Store.DeleteSound | db.go:122-148 | A `Delete` of an indexed key keeps the store sound, without the key once the tombstone is written. When the write fails, it reports no error and keeps the key. |
| Store.GetContents | db.go:151-170 | On a sound store, `Get` returns the key's current value, or not-found for a key without one. |
| Store.PutThenGet | db.go:95-120 | After a `Put`, `Get` of that key returns the value, and `Get` of any other key is unchanged. |
| Store.DeleteThenGet | db.go:122-148 | After a `Delete`, `Get` of that key is not-found, and `Get` of any other key is unchanged. |
| Store.RecordsDetermined | db.go:204-230 | The files and the index determine the records they describe: two soundness witnesses agree. |
| Replay.UpdateIndex | db.go:352-362 | A delete succeeds exactly when the key is indexed and removes it. A put maps the key to the position. Every other key is unchanged. |
| Replay.ReplayFrom | db.go:369-426 | A successful replay of some files implies there is an active file. |
| Replay.ScanStops | db.go:382-385 | Reading stops at the first offset where no record can be read, and nothing past it is replayed. |
| Replay.UnfinishedBatchInvisible | db.go:404-410 | Records of a batch that never reaches its finish record leave the index, the other batches and the errors exactly as if they were absent. |
| Replay.BatchBuffered | db.go:404-410 | Records of a batch are buffered in order and leave the index untouched. |
| Replay.ApplyBatchUntagged | db.go:400-402 | Applying a buffered batch equals replaying its records as non-transactional records in buffered order, including the start-up panic when an update fails. |
| Replay.FinishedBatchApplied | db.go:399-403 | When the finish record is read, the batch's records are applied in buffered order and its buffer is dropped. |
| Replay.SeqNoIsMax | db.go:413-416 | After replay, the sequence number is the maximum of the starting one and every record's sequence number, finished or not. |
| Replay.ReplayRecordSeqNo | db.go:413-416 | One record raises the sequence number to at least its own. |
| Replay.MaxSeqNo | db.go:413-416 | The maximum is at least every record's sequence number and is one of them, or the start value. |
| Engine.DB.constructor | db.go:43-48 | A new database has the options, no files, an empty index, sequence number 0 and no merge running. |
| Engine.DB.SetActiveDataFile | db.go:291-303 | The files become `Store.SetActiveDataFile` of the old files, or are unchanged on error. |
| Engine.DB.AppendLogRecord | db.go:240-287 | The new files and the returned position are those of `Store.AppendLogRecord` on the old files. |
| Engine.DB.Put | db.go:95-120 | The new files, index and error are those of `Store.PutOutcome`, and the class invariant holds. |
| Engine.DB.Delete | db.go:122-148 | The new files, index and error are those of `Store.DeleteOutcome`. |
| Engine.DB.Get | db.go:151-170 | Returns `Store.GetResult` of the files and index. |
| Engine.DB.GetValueByPosition | db.go:204-230 | Returns `Store.ValueByPosition` of the files. |
| Engine.DB.LoadDataFiles | db.go:306-343 | A failing directory listing leaves everything unchanged and reports an I/O error, and so does a bad data file name, reporting the corrupted directory. Otherwise the sorted ids are recorded. If opening one of them fails, the files before it stay open and an I/O error is reported. Otherwise the newest file becomes active and the rest become older files. |
| Engine.DB.OpenDataFiles | db.go:330-342 | Opens the files of the ids in order, the last as the active file. When the open of the `k`-th fails it reports an I/O error with exactly the first `k` opened. |
| Engine.DB.UpdateIndex | db.go:352-362 | Succeeds exactly when `Replay.UpdateIndex` does, and the index becomes its result. |
| Engine.DB.ReplayLogRecord | db.go:389-416 | The index, batch buffers, sequence number and error become those of `Replay.ReplayRecord`. |
| Engine.DB.ReplayDataFile | db.go:378-420 | The state after replaying one file, and the end offset, are those of `Replay.ReplayFile`. |
| Engine.DB.ApplyNext | db.go:381-419 | Replays one more record of a file, or reports the error the whole file's replay ends in. |
| Engine.DB.LoadDataFile | db.go:369-425 | One step of the file loop: the replay of the remaining files from here equals their replay from the next file. |
| Engine.DB.LoadIndexFromDataFiles | db.go:347-432 | Without files it does nothing. Otherwise it replays every file in id order from an empty batch buffer. The active file's write offset becomes the end of its last record, and the sequence number becomes the replay's. |
| Engine.DB.ListKeys | db.go:173-182 | Returns the indexed keys in ascending order, each once, as many as the index holds. |
| Engine.DB.Fold | db.go:185-201 | Visits the keys in order, resolves each value and stops when the visitor says so. It reports the first read error. |
| Engine.FoldOnSound | db.go:185-201 | On a sound store, `Fold` never reports an error. |
| Engine.ReadRecords | db.go:379-420 | Reads the records of a file from offset 0 until the first failed read, with the error that stopped it and the end offset. |
| Engine.NameIds | db.go:314-324 | Parses the ids of the `.data` names. An unparsable one reports a corrupted directory. |
| Engine.FileIdsOf | db.go:312-324 | The listing loop computes `NameIds`. |
| Engine.NameIdsPrefixErr | db.go:319-321 | A bad name anywhere in the listing makes the whole listing fail. |
| Engine.BeforeFirstDot | db.go:316 | `strings.Split(name, ".")[0]` is the longest dot-free prefix of the name. |
| Engine.DataFileNameRoundTrip | db.go:315-317 | The name `<n>.data` parses to id n, and names without the suffix are ignored. |
| Engine.SortInts | db.go:327 | `sort.Ints` gives a sorted permutation of the ids. |
| Engine.InsertInt | db.go:327 | Inserting into a sorted list keeps it sorted and adds exactly that element. |
| Engine.OpenEmpty | db.go:28-61 | Opening an empty directory fails exactly on bad options, a failure to create or list the directory, or an index type other than the B-tree. Otherwise it holds no files and an empty index. |
| Engine.OpenEmptyIsOpen | db.go:347-350 | `Open` of an empty listing is `OpenEmpty`, because replay returns at once without files. |
| Engine.Recover | db.go:347-432 | A successful recovery keeps the active file's id and the older files, and records the ids it loaded. |
| Engine.Open | db.go:28-61 | Opening yields a database whose files, index, sequence number and ids are those of `OpenResult`, or that result's error. The error is an I/O error when creating the directory, listing it or opening one of its data files fails. |
| Engine.OpenNewestActive | db.go:331-341 | After opening, the active file is the one with the largest id. The older files are exactly the other listed ids, and there is no active file exactly when nothing was listed. |
| Engine.OpenedAsLoaded | db.go:306-343 | A successful open loaded the sorted ids of the listing, and its older files are those `loadDataFiles` opened. |
| Engine.LoadedNewestActive | db.go:331-341 | Loading sorted ids makes the last one active and files every other one under its own id. |
| Recovery.ScanEncoded | db.go:379-420 | Reading a file that holds a sequence of encoded records returns exactly those records at their offsets, and ends at the file's end without error. |
| Recovery.ReplayFromLogs | db.go:369-426 | Replaying files `0..n-1` equals replaying, in order, the records each file was written with. |
| Recovery.ReplayLogsExtend | db.go:389-419 | Appending a record to the last file extends the replay by that one record at its position. |
| Recovery.LoggedRotate | db.go:253-266 | Rotating the active file starts a new, empty log. |
| Recovery.LoggedWrite | db.go:268-271 | Writing a record to the active file appends it to the last log. |
| Recovery.AppendLogged | db.go:240-287 | After any append, replaying the files equals the earlier replay followed by the appended record at the position the append returned. |
| Recovery.ReplayOwnRecord | db.go:394-396 | Replaying a Put or Delete record updates the index as the call did. |
| Recovery.RunLogged | db.go:95-148 | After any sequence of `Put` and `Delete` calls from an empty directory, replaying the files rebuilds exactly the calls' in-memory index. |
| Recovery.ReplayFromSeqNo | db.go:366-429 | A successful replay of the files of the ids from the `i`-th on ends with the largest sequence number among the one it started from and those of every record of every file it read. |
| Recovery.OpenSeqNo | db.go:50-58 | A successful `Open` leaves the database with the largest sequence number of any record in the files it loaded, or 0 when there are none. |
| Recovery.RecoveryRebuildsIndex | db.go:347-432 | Reopening after any sequence of `Put` and `Delete` calls recovers exactly the index those calls left, with sequence number 0. |
| Merging.SortedIds | merge.go:51-60 | The older files' ids listed once each in ascending order. |
| Merging.InsertId | merge.go:58-60 | Inserting keeps the ids strictly increasing and adds exactly the new id. |
| Merging.ListsIdsUnique | merge.go:58-60 | The sorted order of a set of ids is unique. |
| Merging.Cleaned | merge.go:105 | A rewritten record keeps its value and type, and its key parses to the user key with sequence number 0. |
| Merging.MergeOptions | merge.go:74-76 | The merge instance keeps the threshold and index type, turns syncing off, and has a non-empty directory. |
| Merging.FinishedRecord | merge.go:134-138 | The finished record's header fits the encoder's buffer. |
| Merging.FinishedReadBack | merge.go:134-141 | The finished record reads back from its file, with key `merge.finished`. Its value parses back to the first id not merged. |
| Merging.CompactFinished | merge.go:128-144 | A successful compaction writes the finished record naming the id it was given. |
| Merging.Compacted | merge.go:62-146 | The engine keeps its sealed files, and the merge fails exactly when the compaction does. |
| Merging.MergeSplitsAtNewActive | merge.go:40-48 | Sealing moves the active file to the older files and opens the next id, which is above every older id. |
| Merging.MergeFinishedNamesNewActive | merge.go:48 | A successful merge's finished record names the id of the new active file, the first one not merged. |
| Merging.MergeHintKeys | merge.go:99-114 | The hints name exactly the live records' keys, in file then offset order. |
| Merging.RewriteRecordsKeys | merge.go:91-117 | Rewriting one file adds hints for exactly its live records, in offset order. |
| Replay.ScanReadsBack | merge.go:91-98 | Every record the merge reads from a file lies at the offset it was read from. |
| Merging.FileLiveAgree | merge.go:103 | On a sound store, a record the index points at is the key's current record. |
| Merging.CompactHintsHold | merge.go:103-113 | Every hint points, in the merge instance's files, at the cleaned current record of its key. |
| Merging.MergeHintsPoint | merge.go:103-113 | After a successful merge, every hint points at the cleaned current record of its key in the merge instance's files. |
| Merging.MergeKeepsValues | merge.go:103-113 | After a successful merge, every hint's key was live. The value through the hint equals the key's value, and equals what `Get` returned before the merge. |
| Merging.RewriteFileRecords | merge.go:90-117 | The record loop's merge-instance files, hints and error are those of `RewriteRecords`. |
| Merging.MergeFile | merge.go:89-118 | Merging one file computes `RewriteScan` of its read-back records. |
| Merging.MergeFiles | merge.go:89-118 | Merging the files in id order computes `RewriteScans`. |
| Merging.Compact | merge.go:62-146 | Everything after sealing computes `CompactResult`, a value stated and proved on above. |
| Merging.RewriteInto | merge.go:88-146 | The rewrite, syncs and finished record compute `RewriteAndFinish`. |
| Merging.Merge | merge.go:19-147 | The engine's files, error and merge output are those of `MergeResult`. The index, ids, sequence number and merge flag are kept. |
| Merging.SealAndCompact | merge.go:35-146 | The sealing and compaction of a merge with an active file compute `MergeResult`. |
| Paths.Clean | merge.go:150 | `path.Clean` never returns an empty path. |
| Paths.JoinPath | merge.go:152 | `filepath.Join` is empty exactly when both parts are. |
| Paths.GetMergePath | merge.go:149-153 | The merge path as written: the directory of the cleaned path joined with the base of the uncleaned path plus `merge`. It is never empty. |
| Paths.MergePath | merge.go:149-153 | The merge path of the cleaned directory: its parent joined with its base plus `merge`. It is never empty. |
| Paths.MergePathIsSibling | merge.go:149-153 | For any directory that names a real directory, the corrected merge path is its sibling `<parent>/<base>merge`. |
| Paths.GetMergePathOfName | merge.go:149-153 | When the data directory as given ends in a name, its base is that name before and after cleaning, so the as-written and the corrected merge paths agree. |
| Paths.MergePathOfCleanDir | merge.go:149-153 | For a clean path `/a/b`, both the as-written and the corrected merge paths are `/a/bmerge`. |
| Paths.GetMergePathParentDir | merge.go:149-153 | For `/a/b/..`, which is `/a`, the as-written merge path is `/..merge` while the corrected one is `/amerge`. |
| Paths.MergePathUp | merge.go:150 | The corrected merge path of `/a/b/..` is `/amerge`. |

## Left out

- `data/data_file.go` and `fio/` are not part of this model. A data file is a value: an id, a write offset and its bytes. `Write` appends at the end, and `ReadLogRecord` reads a header window of at most 15 bytes, then the key and value. The read errors `io.EOF` and crc mismatch are modelled.
- `index/btree.go` is not part of this model. `Index.BTree` is a map plus its strictly sorted key list. Its iterator takes a snapshot of keys and positions, and `Put` always reports success.
- `batch.go` is not part of this model. `Keys` follows the stored-key layout its callers at db.go:103 and db.go:393 rely on: a uvarint sequence number, then the user key. WriteBatch itself is not modelled. Only replay's treatment of batch records is.
- The hint file and merge-finished file formats (`data.OpenHintFile`, `WriteHintRecord`, `OpenMergeFinishedFile`) are not part of this model. Hints are returned as a list of key/position pairs, and the finished file as its encoded record.
- The CRC is defined bit by bit (reflected polynomial 0xEDB88320). It is not the table algorithm of `hash/crc32`.
- The file system is not modelled. `os.Stat`, `os.MkdirAll`, `os.RemoveAll` and `os.ReadDir` become parameters: a file-name listing and a map from id to file bytes. Each I/O failure is a fault parameter naming the step that fails, with the one exception under `Store.AppendLogRecord` below.
- Locking (`sync.RWMutex`) and concurrency are left out. `Merge` running unlocked against a changing index is not modelled either: the model's merge reads one fixed index. Go's deferred reset of `isMerging` is shown as the flag being unchanged by `Merge`.
- `Close` and `Sync` (db.go:63-92) only release or flush file handles, which the value model of files does not have. A failing sync is an `IoFault`.
- `Data.EncodeLogRecord`: requires `HeaderFits`. For a key or value whose varint does not fit the 15-byte header buffer, Go panics slicing past it. The model does not describe that panic.
- `Engine.Open`: with the ART index type, Go builds the engine with a nil index. It still reports `ErrDataDirectoryCorrupted` from `loadDataFiles` first. It succeeds when replay never updates the index (no files, only empty files, only unfinished batches), and panics at the first index update. The model reports the nil-dereference panic as soon as the listing parses and its files open.
- `Engine.OpenEmpty`: with the ART index type Go's open of an empty directory succeeds with a nil index. The model reports the nil-dereference panic, as for `Engine.Open`.
- `Store.AppendLogRecord`: one fault value names one failing step. With no active file and a record larger than the size threshold, Go opens two files, and the model cannot let the first open succeed and the rotation's open fail: `OpenFault` always fails the first.
- `Engine.DB.Fold`: the visitor is a pure function of key and value. Side effects of Go's callback are not modelled.
- `Recovery.RecoveryRebuildsIndex`: proved for `Put` and `Delete` calls without I/O faults or batches, fewer than 2^32 - 3 calls, and records whose sizes fit the header. The files' contents are taken as written by those calls.
- `Merging.MergeKeepsValues`: stated for a merge that succeeds and opens its hint file. When the hint file cannot be opened, Go's `Merge` returns nil without rewriting anything. The model reproduces that, and the lemma has nothing to say about it.
- Offsets and write offsets are unbounded integers. The `int64` overflow of `WriteOff + size` is not modelled. File ids are `uint32` and wrap as Go's addition does.
- Where the design description and the code differ, the model follows the code:
  - `Delete` returns nil when appending the tombstone fails (db.go:137-140).
  - `Merge` returns nil when the hint file cannot be opened (merge.go:83-86).
  - A record larger than the size threshold is still written to a fresh file after rotation (db.go:253-266).

## Findings

| source | as written | input that shows it | evidently intended | confidence | as-written member | corrected member |
|---|---|---|---|---|---|---|
| merge.go:149-153 | `getMergePath` takes the directory of the cleaned path but the base of the uncleaned path | the data directory `/a/b/..`, which is `/a`, gives `/..merge` | the sibling `<parent>/<base>merge` of the cleaned directory, here `/amerge` | not executed | Paths.GetMergePath | Paths.MergePath |

`Paths.GetMergePathParentDir` exhibits the discrepancy. `Paths.MergePathIsSibling` proves the intended property for the corrected definition. `Paths.GetMergePathOfName` shows that the two agree whenever the data directory as given ends in a name, so they can differ only on a data directory that does not end in a name, such as one ending in `..`. The merge model (`Merging.MergeOptions`, `Merging.Compact`) uses that corrected path.
