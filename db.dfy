/** The engine of db.go: a `DB` holds the active data file, the older
    read-only files by id, the in-memory index and the batch sequence
    number, and its methods change them in place. Each method is proved
    against the function of module Store or Replay that states what it
    computes; what those functions guarantee is proved there. Files are
    byte sequences (`DataFile` values); the directory listing and the bytes
    of the files on disk are inputs, and a failing I/O step is named by an
    `IoFault` parameter. */
module Engine {
  import opened Wrappers
  import opened Bytes
  import opened Data
  import opened DataFiles
  import opened Keys
  import opened Store
  import opened Replay
  import Index

  class DB {
    const options: Options
    /** The ids of the data files found at open, in ascending order. */
    var fileIds: seq<int>
    var activeFile: Option<DataFile>
    var olderFiles: map<uint32, DataFile>
    const index: Index.BTree
    /** The largest batch sequence number seen. */
    var seqNo: nat
    var isMerging: bool

    /** The engine's files as a value. */
    function FileSet(): Files
      reads this
    {
      Files(activeFile, olderFiles)
    }

    ghost predicate Invariant()
      reads this, index
    {
      index.Invariant()
    }

    /** A DB with no files and an empty B-tree index, as `Open` builds it
        before loading the directory. */
    constructor (options: Options)
      ensures Invariant() && fresh(index)
      ensures this.options == options && fileIds == [] && activeFile == None && olderFiles == map[]
      ensures index.entries == map[] && seqNo == 0 && !isMerging
    {
      this.options := options;
      fileIds := [];
      activeFile := None;
      olderFiles := map[];
      index := new Index.BTree();
      seqNo := 0;
      isMerging := false;
    }

    /** `setActiveDataFile`: opens the next data file (id 0 without an
        active file, else the active id plus one) as the active file. */
    method SetActiveDataFile(fault: IoFault) returns (err: Option<Error>)
      modifies this
      ensures match Store.SetActiveDataFile(old(FileSet()), fault)
        case Err(e) => err == Some(e) && FileSet() == old(FileSet())
        case Ok(fs) => err == None && FileSet() == fs
      ensures fileIds == old(fileIds) && seqNo == old(seqNo) && isMerging == old(isMerging)
    {
      var initialFileId: uint32 := 0;
      if activeFile.Some? {
        initialFileId := ToUint32(activeFile.value.fileId + 1);
      }
      if fault == OpenFault {
        return Some(ErrIO);
      }
      activeFile := Some(OpenDataFile(initialFileId, []));
      return None;
    }

    /** `appendLogRecord`: encodes the record, rotates to a new active file
        when the write would pass the threshold, writes, and reports where
        the record starts. */
    method AppendLogRecord(logRecord: LogRecord, fault: IoFault) returns (pos: Result<LogRecordPos, Error>)
      requires HeaderFits(logRecord)
      modifies this
      ensures Appended(FileSet(), pos) == Store.AppendLogRecord(old(FileSet()), options, logRecord, fault)
      ensures fileIds == old(fileIds) && seqNo == old(seqNo) && isMerging == old(isMerging)
    {
      if activeFile.None? {
        var err := SetActiveDataFile(fault);
        if err.Some? {
          return Err(err.value);
        }
      }
      var encRecord, size := EncodeLogRecord(logRecord);
      if activeFile.value.writeOff + size > options.dataFileSize {
        if fault == RotateSyncFault {
          return Err(ErrIO);
        }
        olderFiles := olderFiles[activeFile.value.fileId := activeFile.value];
        var err := SetActiveDataFile(fault);
        if err.Some? {
          return Err(err.value);
        }
      }
      var writeOff := activeFile.value.writeOff;
      if fault == WriteFault {
        return Err(ErrIO);
      }
      activeFile := Some(Write(activeFile.value, encRecord[..]));
      if options.syncWrites && fault == WriteSyncFault {
        return Err(ErrIO);
      }
      return Ok(LogRecordPos(activeFile.value.fileId, writeOff));
    }

    /** `Put`: refuses an empty key, appends a Normal record under the
        non-transactional key and points the index at it. */
    method Put(key: seq<byte>, value: seq<byte>, fault: IoFault) returns (err: Option<Error>)
      requires Invariant() && HeaderFits(PutRecord(key, value))
      modifies this, index
      ensures Invariant()
      ensures Outcome(FileSet(), index.entries, err)
           == PutOutcome(old(FileSet()), old(index.entries), options, key, value, fault)
      ensures fileIds == old(fileIds) && seqNo == old(seqNo) && isMerging == old(isMerging)
    {
      if |key| == 0 {
        return Some(ErrKeyIsEmpty);
      }
      var logRecord := LogRecord(LogRecordKeyWithSeq(key, NonTransactionSeqNo), value, LogRecordNormal);
      var pos := AppendLogRecord(logRecord, fault);
      if pos.Err? {
        return Some(pos.error);
      }
      var ok := index.Put(key, pos.value);
      if !ok {
        return Some(ErrIndexUpdateFailed);
      }
      return None;
    }

    /** `Delete`: refuses an empty key, does nothing for a key the index does
        not hold, otherwise appends a tombstone and removes the key from the
        index. A failed append is reported as success. */
    method Delete(key: seq<byte>, fault: IoFault) returns (err: Option<Error>)
      requires Invariant() && HeaderFits(DeleteRecord(key))
      modifies this, index
      ensures Invariant()
      ensures Outcome(FileSet(), index.entries, err)
           == DeleteOutcome(old(FileSet()), old(index.entries), options, key, fault)
      ensures fileIds == old(fileIds) && seqNo == old(seqNo) && isMerging == old(isMerging)
    {
      if |key| == 0 {
        return Some(ErrKeyIsEmpty);
      }
      if index.Get(key).None? {
        return None;
      }
      var logRecord := LogRecord(LogRecordKeyWithSeq(key, NonTransactionSeqNo), [], LogRecordDeleted);
      var pos := AppendLogRecord(logRecord, fault);
      if pos.Err? {
        return None;
      }
      var ok := index.Delete(key);
      if !ok {
        return Some(ErrIndexUpdateFailed);
      }
      return None;
    }

    /** `Get`: refuses an empty key, reports a key the index does not hold as
        not found, otherwise reads the value at the indexed position. */
    method Get(key: seq<byte>) returns (r: Result<seq<byte>, Error>)
      requires Invariant()
      ensures r == GetResult(FileSet(), index.entries, key)
    {
      if |key| == 0 {
        return Err(ErrKeyIsEmpty);
      }
      var logRecordPos := index.Get(key);
      if logRecordPos.None? {
        return Err(ErrKeyNotFound);
      }
      r := GetValueByPosition(logRecordPos.value);
    }

    /** `getValueByPosition`: the value of the record at a position. */
    method GetValueByPosition(logRecordPos: LogRecordPos) returns (r: Result<seq<byte>, Error>)
      ensures r == ValueByPosition(FileSet(), logRecordPos)
    {
      if activeFile.None? {
        return Err(NilDereference);
      }
      var dataFile: Option<DataFile>;
      if activeFile.value.fileId == logRecordPos.fid {
        dataFile := activeFile;
      } else if logRecordPos.fid in olderFiles {
        dataFile := Some(olderFiles[logRecordPos.fid]);
      } else {
        dataFile := None;
      }
      if dataFile.None? {
        return Err(ErrDataFileNotFound);
      }
      match ReadLogRecord(dataFile.value, logRecordPos.offset)
      case Read(logRecord, _) =>
        if logRecord.recordType == LogRecordDeleted {
          return Err(ErrKeyNotFound);
        }
        return Ok(logRecord.value);
      case Eof => return Err(ErrEOF);
      case InvalidCrc => return Err(ErrInvalidCRC);
      case ReadPanic => return Err(SliceOutOfRange);
    }

    /** `loadDataFiles`: lists the directory, collects the ids of the
        `.data` files of the listing (a name whose text before the first dot
        is no integer makes the directory corrupt), sorts them, and opens
        each: the last, largest id as the active file, the others as older
        files. A failing listing changes nothing; a failing open leaves the
        ids recorded and the files before it opened. */
    method LoadDataFiles(names: seq<string>, disk: map<uint32, seq<byte>>, fault: LoadFault) returns (err: Option<Error>)
      modifies this
      ensures fault == ReadDirFault ==> err == Some(ErrIO) && FileSet() == old(FileSet()) && fileIds == old(fileIds)
      ensures var r := NameIds(names);
        && (fault != ReadDirFault && r.Err? ==> err == Some(r.error) && FileSet() == old(FileSet()) && fileIds == old(fileIds))
        && (fault != ReadDirFault && r.Ok? ==>
              var ids := SortInts(r.value);
              && fileIds == ids
              && (FailsAt(fault, ids) ==> err == Some(ErrIO) && LoadedUpTo(old(FileSet()), ids, fault.at, disk, FileSet()))
              && (!FailsAt(fault, ids) ==> err == None && FileSet() == LoadedFiles(old(FileSet()), ids, disk)))
      ensures seqNo == old(seqNo) && isMerging == old(isMerging)
    {
      if fault == ReadDirFault {
        return Some(ErrIO);
      }
      var found := FileIdsOf(names);
      if found.Err? {
        return Some(found.error);
      }
      var ids := SortInts(found.value);
      fileIds := ids;
      err := OpenDataFiles(ids, disk, fault);
    }

    /** The second loop of `loadDataFiles`: opens the data file of each of
        `ids` in turn, the last as the active file and the others as older
        files, until an open fails. */
    method OpenDataFiles(ids: seq<int>, disk: map<uint32, seq<byte>>, fault: LoadFault) returns (err: Option<Error>)
      modifies this
      ensures FailsAt(fault, ids) ==> err == Some(ErrIO) && LoadedUpTo(old(FileSet()), ids, fault.at, disk, FileSet())
      ensures !FailsAt(fault, ids) ==> err == None && FileSet() == LoadedFiles(old(FileSet()), ids, disk)
      ensures fileIds == old(fileIds) && seqNo == old(seqNo) && isMerging == old(isMerging)
    {
      LoadedNone(old(FileSet()), disk);
      for i := 0 to |ids|
        invariant LoadedUpTo(old(FileSet()), ids, i, disk, FileSet())
        invariant fileIds == old(fileIds) && seqNo == old(seqNo) && isMerging == old(isMerging)
        invariant FailsAt(fault, ids) ==> i <= fault.at
      {
        if fault == OpenFileFault(i) {
          return Some(ErrIO);
        }
        LoadStep(old(FileSet()), ids, i, disk);
        var dataFile := OpenedFile(disk, ids[i]);
        if i == |ids| - 1 {
          activeFile := Some(dataFile);
        } else {
          olderFiles := olderFiles[ToUint32(ids[i]) := dataFile];
        }
      }
      return None;
    }

    /** The index update of replay (`updateIndex`): a tombstone deletes the
        key, any other record puts it; false where Go panics. */
    method UpdateIndex(key: seq<byte>, typ: LogRecordType, pos: LogRecordPos) returns (ok: bool)
      requires Invariant()
      modifies index
      ensures Invariant()
      ensures var u := Replay.UpdateIndex(old(index.entries), key, typ, pos);
        ok == u.Some? && (ok ==> index.entries == u.value)
    {
      if typ == LogRecordDeleted {
        ok := index.Delete(key);
      } else {
        ok := index.Put(key, pos);
      }
    }

    /** One record read during replay: outside a batch it updates the index
        at once; a batch's records are buffered until its TxnFinished record
        applies them in order and drops the buffer. */
    method ReplayLogRecord(logRecord: LogRecord, pos: LogRecordPos, txn: map<nat, seq<TransactionRecord>>,
                           currentSeqNo: nat)
      returns (txn2: map<nat, seq<TransactionRecord>>, seqNo2: nat, err: Option<Error>)
      requires Invariant()
      modifies index
      ensures Invariant()
      ensures var r := ReplayRecord(ReplayState(old(index.entries), txn, currentSeqNo), logRecord, pos);
        && (r.Err? ==> err == Some(r.error))
        && (r.Ok? ==> err == None && r.value == ReplayState(index.entries, txn2, seqNo2))
    {
      var (realKey, s) := ParseLogRecordKey(logRecord.key);
      txn2 := txn;
      if s == NonTransactionSeqNo {
        var ok := UpdateIndex(realKey, logRecord.recordType, pos);
        if !ok {
          return txn, currentSeqNo, Some(StartupIndexFailure);
        }
      } else if logRecord.recordType == LogRecordTxnFinished {
        var batch := Buffered(txn, s);
        for j := 0 to |batch|
          invariant Invariant()
          invariant ApplyBatch(old(index.entries), batch) == ApplyBatch(index.entries, batch[j..])
        {
          assert batch[j..][1..] == batch[j + 1..];
          var ok := UpdateIndex(batch[j].record.key, batch[j].record.recordType, batch[j].pos);
          if !ok {
            return txn, currentSeqNo, Some(StartupIndexFailure);
          }
        }
        txn2 := txn - {s};
      } else {
        txn2 := txn[s := Buffered(txn, s) + [TransactionRecord(logRecord.(key := realKey), pos)]];
      }
      seqNo2 := if s > currentSeqNo then s else currentSeqNo;
      err := None;
    }

    /** The inner loop of `loadIndexFromDataFiles`: reads one file from
        offset 0, advancing by each record's size, until EOF, and replays
        every record; any other read error ends the replay. The records are
        read first and then applied in the order read (see `ReadRecords`). */
    method ReplayDataFile(dataFile: DataFile, fileId: uint32, txn: map<nat, seq<TransactionRecord>>,
                          currentSeqNo: nat)
      returns (txn2: map<nat, seq<TransactionRecord>>, seqNo2: nat, offset: int, err: Option<Error>)
      requires Invariant()
      modifies index
      ensures Invariant()
      ensures var r := ReplayFile(ReplayState(old(index.entries), txn, currentSeqNo), dataFile, fileId, 0);
        && (r.Err? ==> err == Some(r.error))
        && (r.Ok? ==> err == None && r.value == (ReplayState(index.entries, txn2, seqNo2), offset))
    {
      var records, stop, end := ReadRecords(dataFile);
      ghost var st0 := ReplayState(index.entries, txn, currentSeqNo);
      txn2, seqNo2, offset := txn, currentSeqNo, end;
      for j := 0 to |records|
        invariant Invariant()
        invariant ReplayedUpTo(st0, fileId, records[..j], ReplayState(index.entries, txn2, seqNo2))
      {
        txn2, seqNo2, err := ApplyNext(fileId, st0, records, j, txn2, seqNo2);
        if err.Some? {
          return;
        }
      }
      assert records[..|records|] == records;
      err := stop;
    }

    /** One turn of `ReplayDataFile`'s loop: the `j`-th record read is
        replayed. Either the replay of the records so far goes on with it, or
        it fails and so does the replay of all of them. */
    method ApplyNext(fileId: uint32, ghost st0: ReplayState, records: seq<(LogRecord, int)>, j: nat,
                     txn: map<nat, seq<TransactionRecord>>, seqNo: nat)
      returns (txn2: map<nat, seq<TransactionRecord>>, seqNo2: nat, err: Option<Error>)
      requires Invariant()
      requires j < |records|
      requires ReplayedUpTo(st0, fileId, records[..j], ReplayState(index.entries, txn, seqNo))
      modifies index
      ensures Invariant()
      ensures err.None? ==> ReplayedUpTo(st0, fileId, records[..j + 1], ReplayState(index.entries, txn2, seqNo2))
      ensures err.Some? ==> ReplayRecords(st0, fileId, records) == Err(err.value)
    {
      ghost var st := ReplayState(index.entries, txn, seqNo);
      var (record, at) := records[j];
      txn2, seqNo2, err := ReplayLogRecord(record, LogRecordPos(fileId, at), txn, seqNo);
      if err.Some? {
        ReplayRecordsFailure(st0, fileId, records[..j], records[j], records[j + 1..], st);
        assert records[..j] + [records[j]] + records[j + 1..] == records;
      } else {
        ReplayedUpToStep(st0, fileId, records[..j], st, records[j], ReplayState(index.entries, txn2, seqNo2));
        assert records[..j + 1] == records[..j] + [records[j]];
      }
    }

    /** `loadIndexFromDataFiles`: reads every file in id order from offset 0
        until EOF, replaying each record into the index; the active file's
        write offset becomes where the last file ended, and the sequence
        number the largest one seen. */
    method LoadIndexFromDataFiles() returns (err: Option<Error>)
      requires Invariant()
      modifies this, index
      ensures Invariant()
      ensures fileIds == old(fileIds) && olderFiles == old(olderFiles) && isMerging == old(isMerging)
      ensures |fileIds| == 0 ==>
        err == None && FileSet() == old(FileSet()) && index.entries == old(index.entries) && seqNo == old(seqNo)
      ensures |fileIds| > 0 ==>
        var r := ReplayFrom(old(FileSet()), fileIds, 0, ReplayState(old(index.entries), map[], NonTransactionSeqNo), 0);
        && (r.Err? ==> err == Some(r.error))
        && (r.Ok? ==> err == None && old(activeFile).Some?
                      && activeFile == Some(old(activeFile).value.(writeOff := r.value.1))
                      && index.entries == r.value.0.entries && seqNo == r.value.0.seqNo)
    {
      if |fileIds| == 0 {
        return None;
      }
      ghost var fs := FileSet();
      ghost var st0 := ReplayState(index.entries, map[], NonTransactionSeqNo);
      var transactionRecords: map<nat, seq<TransactionRecord>> := map[];
      var currentSeqNo: nat := NonTransactionSeqNo;
      ghost var lastEnd := 0;
      var i := 0;
      while i < |fileIds|
        invariant 0 <= i <= |fileIds| && Invariant()
        invariant fileIds == old(fileIds) && olderFiles == fs.older && isMerging == old(isMerging)
        invariant i < |fileIds| ==> activeFile == fs.active
        invariant i == |fileIds| ==> fs.active.Some? && activeFile == Some(fs.active.value.(writeOff := lastEnd))
        invariant ReplayFrom(fs, fileIds, 0, st0, 0)
               == ReplayFrom(fs, fileIds, i, ReplayState(index.entries, transactionRecords, currentSeqNo), lastEnd)
        decreases |fileIds| - i
      {
        var txn2, seqNo2, offset, e := LoadDataFile(i, transactionRecords, currentSeqNo, lastEnd);
        if e.Some? {
          return e;
        }
        transactionRecords, currentSeqNo := txn2, seqNo2;
        if i == |fileIds| - 1 {
          activeFile := Some(activeFile.value.(writeOff := offset));
        }
        lastEnd := offset;
        i := i + 1;
      }
      seqNo := currentSeqNo;
      return None;
    }

    /** One turn of `loadIndexFromDataFiles`' loop: the `i`-th file, looked
        up as the active file or an older one, is replayed into the index. */
    method LoadDataFile(i: nat, txn: map<nat, seq<TransactionRecord>>, currentSeqNo: nat, ghost lastEnd: int)
      returns (txn2: map<nat, seq<TransactionRecord>>, seqNo2: nat, offset: int, err: Option<Error>)
      requires Invariant() && i < |fileIds|
      modifies index
      ensures Invariant()
      ensures var r := ReplayFrom(FileSet(), fileIds, i, ReplayState(old(index.entries), txn, currentSeqNo), lastEnd);
        && (err.Some? ==> r == Err(err.value))
        && (err.None? ==> activeFile.Some? && r == ReplayFrom(FileSet(), fileIds, i + 1,
                                                   ReplayState(index.entries, txn2, seqNo2), offset))
    {
      var fileId := ToUint32(fileIds[i]);
      if activeFile.None? {
        return map[], 0, 0, Some(NilDereference);
      }
      var dataFile: DataFile;
      if fileId == activeFile.value.fileId {
        dataFile := activeFile.value;
      } else if fileId in olderFiles {
        dataFile := olderFiles[fileId];
      } else {
        return map[], 0, 0, Some(NilDereference);
      }
      assert FileAt(FileSet(), fileId) == Some(dataFile);
      txn2, seqNo2, offset, err := ReplayDataFile(dataFile, fileId, txn, currentSeqNo);
    }

    /** `ListKeys`: every key of the index, once each, in ascending order,
        in an array of exactly the index's size. */
    method ListKeys() returns (keys: array<seq<byte>>)
      requires Invariant()
      ensures keys[..] == index.keys
      ensures Index.Ascending(keys[..])
      ensures forall k :: k in keys[..] <==> k in index.entries
      ensures keys.Length == |index.entries|
    {
      var it := index.Iterator(false);
      keys := new seq<byte>[index.Size()];
      var idx := 0;
      it.Rewind();
      while it.Valid()
        invariant it.keys == index.keys && it.cur == idx
        invariant idx <= keys.Length == |index.keys|
        invariant keys[..idx] == index.keys[..idx]
        decreases keys.Length - idx
      {
        keys[idx] := it.Key();
        idx := idx + 1;
        it.Next();
      }
      assert keys[..] == keys[..idx];
    }

    /** `Fold`: calls `fn` on each key of the index in ascending order with
        its value, stopping when `fn` returns false; the first read error
        ends the walk and is returned. */
    method Fold(fn: (seq<byte>, seq<byte>) -> bool) returns (err: Option<Error>)
      requires Invariant()
      ensures err == FoldFrom(FileSet(), index.entries, index.keys, fn, 0)
    {
      var it := index.Iterator(false);
      it.Rewind();
      while it.Valid()
        invariant it.Invariant() && it.keys == index.keys
        invariant forall i :: 0 <= i < |it.keys| ==> it.values[i] == index.entries[it.keys[i]]
        invariant FoldFrom(FileSet(), index.entries, index.keys, fn, 0)
               == FoldFrom(FileSet(), index.entries, index.keys, fn, it.cur)
        decreases |it.keys| - it.cur
      {
        var key := it.Key();
        var value := GetValueByPosition(it.Value());
        if value.Err? {
          return Some(value.error);
        }
        if !fn(key, value.value) {
          break;
        }
        it.Next();
      }
      return None;
    }
  }

  // ---------------------------------------------------------------------
  // Open.

  /** What a successful `Open` holds: its files, index entries, batch
      sequence number and the ids it loaded. */
  datatype Opened = Opened(files: Files, entries: map<seq<byte>, LogRecordPos>, seqNo: nat, fileIds: seq<int>)

  /** Which I/O step of `Open` fails, if one does: creating the missing
      data directory (`os.MkdirAll`), listing it (`os.ReadDir`), or opening
      the data file of the `at`-th id in sorted order (`data.OpenDataFile`). */
  datatype LoadFault = NoLoadFault | MkdirFault | ReadDirFault | OpenFileFault(at: nat)

  /** The fault makes the open of one of the sorted `ids` fail. */
  predicate FailsAt(fault: LoadFault, ids: seq<int>)
  {
    fault.OpenFileFault? && fault.at < |ids|
  }

  /** `Open` as a value: the options checked, the directory created, the
      index type resolved, the listing's data files loaded in id order and
      replayed into an empty index from sequence number 0. The ART type
      gives a nil index: the listing is still read and its files opened
      first, and the open is then taken to fail on the nil index. */
  function OpenResult(options: Options, names: seq<string>, disk: map<uint32, seq<byte>>,
                      fault: LoadFault): (r: Result<Opened, Error>)
  {
    if CheckOptions(options).Some? then Err(CheckOptions(options).value)
    else if fault == MkdirFault then Err(ErrIO)
    else if Index.NewIndexer(options.indexType) == Index.UnsupportedIndexType then Err(UnsupportedIndexPanic)
    else if fault == ReadDirFault then Err(ErrIO)
    else
      match NameIds(names)
      case Err(e) => Err(e)
      case Ok(found) =>
        if FailsAt(fault, SortInts(found)) then Err(ErrIO)
        else if Index.NewIndexer(options.indexType) == Index.NilIndexer then Err(NilDereference)
        else
          var ids := SortInts(found);
          var fs := LoadedFiles(Files(None, map[]), ids, disk);
          if |ids| == 0 then Ok(Opened(fs, map[], 0, ids)) else Recover(fs, ids)
  }

  /** `Open` of an empty directory: only the options, creating or listing
      the directory, and the index type can make it fail; it holds no files
      and an empty index. */
  function OpenEmpty(options: Options, fault: LoadFault): (r: Result<Opened, Error>)
    ensures r.Err? <==> || CheckOptions(options).Some? || Index.NewIndexer(options.indexType) != Index.BTreeIndexer
                        || fault == MkdirFault || fault == ReadDirFault
    ensures r.Ok? ==> r.value.files == Files(None, map[]) && r.value.entries == map[]
  {
    if CheckOptions(options).Some? then Err(CheckOptions(options).value)
    else if fault == MkdirFault then Err(ErrIO)
    else if Index.NewIndexer(options.indexType) == Index.UnsupportedIndexType then Err(UnsupportedIndexPanic)
    else if fault == ReadDirFault then Err(ErrIO)
    else if Index.NewIndexer(options.indexType) == Index.NilIndexer then Err(NilDereference)
    else Ok(Opened(Files(None, map[]), map[], 0, []))
  }

  /** Opening an empty listing is `OpenEmpty`. */
  lemma OpenEmptyIsOpen(options: Options, fault: LoadFault)
    ensures OpenResult(options, [], map[], fault) == OpenEmpty(options, fault)
  {
    assert NameIds([]) == Ok([]);
    assert SortInts([]) == [];
  }

  /** The index rebuilt from the loaded files `fs` of `ids`: the replay from
      an empty index; the active file goes on being written where the last
      file ended. The files themselves stay as loaded. */
  function Recover(fs: Files, ids: seq<int>): (r: Result<Opened, Error>)
    requires |ids| > 0
    ensures r.Ok? ==> && fs.active.Some? && r.value.files.active.Some? && r.value.files.older == fs.older
                      && r.value.files.active.value.fileId == fs.active.value.fileId
                      && r.value.fileIds == ids
  {
    match ReplayFrom(fs, ids, 0, ReplayState(map[], map[], NonTransactionSeqNo), 0)
    case Err(e) => Err(e)
    case Ok((st, end)) =>
      Ok(Opened(Files(Some(fs.active.value.(writeOff := end)), fs.older), st.entries, st.seqNo, ids))
  }

  /** `Open`: checks the options, creates the directory when it is missing,
      creates the index `NewIndexer` names, loads the data files of the
      directory listing `names`, whose bytes are `disk` by file id, and
      rebuilds the index from them; `fault` names the I/O step that fails. */
  method Open(options: Options, names: seq<string>, disk: map<uint32, seq<byte>>, fault: LoadFault)
    returns (r: Result<DB, Error>)
    ensures match OpenResult(options, names, disk, fault)
      case Err(e) => r == Err(e)
      case Ok(o) =>
        && r.Ok? && fresh(r.value) && fresh(r.value.index) && r.value.Invariant()
        && r.value.options == options && !r.value.isMerging
        && r.value.FileSet() == o.files && r.value.index.entries == o.entries
        && r.value.seqNo == o.seqNo && r.value.fileIds == o.fileIds
  {
    var check := CheckOptions(options);
    if check.Some? {
      return Err(check.value);
    }
    if fault == MkdirFault {
      return Err(ErrIO);
    }
    match Index.NewIndexer(options.indexType)
    case UnsupportedIndexType => return Err(UnsupportedIndexPanic);
    case NilIndexer =>
      if fault == ReadDirFault {
        return Err(ErrIO);
      }
      var found := FileIdsOf(names);
      if found.Err? {
        return Err(found.error);
      }
      if FailsAt(fault, SortInts(found.value)) {
        return Err(ErrIO);
      }
      return Err(NilDereference);
    case BTreeIndexer =>
    var db := new DB(options);
    var err := db.LoadDataFiles(names, disk, fault);
    if err.Some? {
      return Err(err.value);
    }
    err := db.LoadIndexFromDataFiles();
    if err.Some? {
      return Err(err.value);
    }
    return Ok(db);
  }

  /** After a successful `Open` of a listing whose data file ids are valid
      uint32 values, the file with the largest id is the active one and every
      other id names an older file of that id, so new records go to a file
      whose id is above all the others. */
  lemma OpenNewestActive(options: Options, names: seq<string>, disk: map<uint32, seq<byte>>, fault: LoadFault)
    requires OpenResult(options, names, disk, fault).Ok? && NameIds(names).Ok?
    requires forall i :: 0 <= i < |NameIds(names).value| ==> 0 <= NameIds(names).value[i] < Uint32Modulus
    ensures var o := OpenResult(options, names, disk, fault).value;
      && (|o.fileIds| == 0 <==> o.files.active.None?)
      && (|o.fileIds| > 0 ==>
           && o.files.active.value.fileId == o.fileIds[|o.fileIds| - 1]
           && (forall i :: 0 <= i < |o.fileIds| ==> o.fileIds[i] <= o.files.active.value.fileId)
           && (forall id :: id in o.files.older <==> exists i :: 0 <= i < |o.fileIds| - 1 && o.fileIds[i] == id))
  {
    OpenedAsLoaded(options, names, disk, fault);
    var ids := SortInts(NameIds(names).value);
    SortedInRange(NameIds(names).value, ids);
    if |ids| > 0 {
      LoadedNewestActive(ids, disk);
    }
  }

  /** A successful `Open` keeps the files as `loadDataFiles` opened them,
      except for the active file's write offset. */
  lemma OpenedAsLoaded(options: Options, names: seq<string>, disk: map<uint32, seq<byte>>, fault: LoadFault)
    requires OpenResult(options, names, disk, fault).Ok?
    ensures NameIds(names).Ok?
    ensures var o := OpenResult(options, names, disk, fault).value;
      var ids := SortInts(NameIds(names).value);
      var fs := LoadedFiles(Files(None, map[]), ids, disk);
      && o.fileIds == ids && o.files.older == fs.older
      && (o.files.active.None? <==> |ids| == 0)
      && (|ids| > 0 ==> fs.active.Some? && o.files.active.value.fileId == fs.active.value.fileId)
  {
    var found := NameIds(names).value;
    var ids := SortInts(found);
    var fs := LoadedFiles(Files(None, map[]), ids, disk);
    assert OpenResult(options, names, disk, fault)
        == if |ids| == 0 then Ok(Opened(fs, map[], 0, ids)) else Recover(fs, ids);
  }

  /** Sorting keeps every id in range. */
  lemma SortedInRange(found: seq<int>, ids: seq<int>)
    requires multiset(ids) == multiset(found)
    requires forall i :: 0 <= i < |found| ==> 0 <= found[i] < Uint32Modulus
    ensures forall i :: 0 <= i < |ids| ==> 0 <= ids[i] < Uint32Modulus
  {
    forall i | 0 <= i < |ids|
      ensures 0 <= ids[i] < Uint32Modulus
    {
      assert ids[i] in multiset(found);
    }
  }

  /** The reading half of the inner loop of `loadIndexFromDataFiles`: the
      records of a file from offset 0, each at its offset, until the first
      read that fails; why it failed (None for EOF) and where. */
  method ReadRecords(dataFile: DataFile) returns (records: seq<(LogRecord, int)>, stop: Option<Error>, end: int)
    ensures ScanFile(dataFile, 0) == Scan(records, stop, end)
  {
    records, end := [], 0;
    while true
      invariant 0 <= end <= |dataFile.content|
      invariant ScanFile(dataFile, 0) == Prepend(records, ScanFile(dataFile, end))
      decreases |dataFile.content| - end
    {
      var rd := ReadLogRecord(dataFile, end);
      if !rd.Read? {
        stop := if rd.Eof? then None else if rd.InvalidCrc? then Some(ErrInvalidCRC) else Some(SliceOutOfRange);
        assert records + [] == records;
        return;
      }
      ScanReadHolds(dataFile, end);
      PrependStep(ScanFile(dataFile, 0), records, ScanFile(dataFile, end), (rd.record, end),
                  ScanFile(dataFile, end + rd.size));
      records, end := records + [(rd.record, end)], end + rd.size;
    }
  }

  /** What `Fold` returns from the `i`-th key on: the first read error, or
      nil once `fn` returns false or the keys run out. */
  function FoldFrom(fs: Files, entries: map<seq<byte>, LogRecordPos>, keys: seq<seq<byte>>,
                    fn: (seq<byte>, seq<byte>) -> bool, i: nat): (r: Option<Error>)
    requires forall k :: k in keys ==> k in entries
    decreases |keys| - i
  {
    if i >= |keys| then None
    else
      match ValueByPosition(fs, entries[keys[i]])
      case Err(e) => Some(e)
      case Ok(value) => if !fn(keys[i], value) then None else FoldFrom(fs, entries, keys, fn, i + 1)
  }

  /** On a sound state every indexed position reads back its key's value, so
      `Fold` returns no error. */
  lemma {:induction false} FoldOnSound(fs: Files, entries: map<seq<byte>, LogRecordPos>,
                                       records: map<seq<byte>, LogRecord>, keys: seq<seq<byte>>,
                                       fn: (seq<byte>, seq<byte>) -> bool, i: nat)
    requires Sound(fs, entries, records) && forall k :: k in keys ==> k in entries
    ensures FoldFrom(fs, entries, keys, fn, i) == None
    decreases |keys| - i
  {
    if i < |keys| {
      ReadHeld(fs, entries[keys[i]], records[keys[i]]);
      FoldOnSound(fs, entries, records, keys, fn, i + 1);
    }
  }

  // ---------------------------------------------------------------------
  // Data-file discovery.

  /** The suffix of data file names. */
  const DataFileNameSuffix: string := ".data"

  /** `strings.HasSuffix`. */
  predicate HasSuffix(s: string, suffix: string)
  {
    |suffix| <= |s| && s[|s| - |suffix|..] == suffix
  }

  /** `strings.Split(s, ".")[0]`: the text before the first dot, or all of
      `s` when it has none. */
  function BeforeFirstDot(s: string): (r: string)
    ensures r <= s && '.' !in r
    ensures |r| < |s| ==> s[|r|] == '.'
  {
    if |s| == 0 || s[0] == '.' then [] else [s[0]] + BeforeFirstDot(s[1..])
  }

  /** The ids of the `.data` names of a listing, in listing order, or the
      corrupt-directory error when one of them does not start with an
      integer. */
  function NameIds(names: seq<string>): (r: Result<seq<int>, Error>)
    ensures r.Err? ==> r.error == ErrDataDirectoryCorrupted
    decreases |names|
  {
    if |names| == 0 then Ok([])
    else
      match NameIds(names[..|names| - 1])
      case Err(e) => Err(e)
      case Ok(ids) =>
        var name := names[|names| - 1];
        if !HasSuffix(name, DataFileNameSuffix) then Ok(ids)
        else
          match Atoi(BeforeFirstDot(name))
          case None => Err(ErrDataDirectoryCorrupted)
          case Some(id) => Ok(ids + [id])
  }

  /** The loop of `loadDataFiles` over the listing: the id of each `.data`
      name in turn, stopping at the first one that does not parse. */
  method FileIdsOf(names: seq<string>) returns (r: Result<seq<int>, Error>)
    ensures r == NameIds(names)
  {
    var ids: seq<int> := [];
    for j := 0 to |names|
      invariant NameIds(names[..j]) == Ok(ids)
    {
      assert names[..j + 1][..j] == names[..j];
      var name := names[j];
      if HasSuffix(name, DataFileNameSuffix) {
        var fileId := Atoi(BeforeFirstDot(name));
        if fileId.None? {
          NameIdsPrefixErr(names, j + 1);
          return Err(ErrDataDirectoryCorrupted);
        }
        ids := ids + [fileId.value];
      }
    }
    assert names[..|names|] == names;
    return Ok(ids);
  }

  /** A corrupt name early in the listing makes the whole listing corrupt. */
  lemma {:induction false} NameIdsPrefixErr(names: seq<string>, j: nat)
    requires j <= |names| && NameIds(names[..j]).Err?
    ensures NameIds(names).Err?
    decreases |names|
  {
    if j < |names| {
      var init := names[..|names| - 1];
      assert init[..j] == names[..j];
      NameIdsPrefixErr(init, j);
    } else {
      assert names[..j] == names;
    }
  }

  /** A string of digits followed by a dot and anything else splits back to
      the digits. */
  lemma {:induction false} BeforeFirstDotDigits(d: string, rest: string)
    requires AllDigits(d)
    ensures BeforeFirstDot(d + "." + rest) == d
    decreases |d|
  {
    if |d| > 0 {
      assert (d + "." + rest)[1..] == d[1..] + "." + rest;
      BeforeFirstDotDigits(d[1..], rest);
    } else {
      assert (d + "." + rest)[0] == '.';
    }
  }

  /** The name a data file is written under, `<id>.data`, is read back as its
      id; names without the suffix are ignored. */
  lemma DataFileNameRoundTrip(n: nat, other: string)
    requires n < 0x8000_0000_0000_0000 && !HasSuffix(other, DataFileNameSuffix)
    ensures NameIds([Itoa(n) + DataFileNameSuffix]) == Ok([n])
    ensures NameIds([other, Itoa(n) + DataFileNameSuffix]) == Ok([n])
  {
    var name := Itoa(n) + DataFileNameSuffix;
    BeforeFirstDotDigits(Itoa(n), "data");
    assert Itoa(n) + "." + "data" == name;
    assert HasSuffix(name, DataFileNameSuffix) by {
      assert name[|name| - |DataFileNameSuffix|..] == DataFileNameSuffix;
    }
    AtoiItoa(n);
    assert Atoi(BeforeFirstDot(name)) == Some(n);
    var one := [name];
    assert one[..0] == [] && one[0] == name;
    assert NameIds(one[..0]) == Ok([]);
    assert [] + [n] == [n];
    var two := [other, name];
    assert two[..1] == [other] && [other][..0] == [] && two[1] == name;
    assert NameIds([other]) == Ok([]);
  }

  predicate SortedInts(s: seq<int>)
  {
    forall i, j :: 0 <= i < j < |s| ==> s[i] <= s[j]
  }

  /** `x` inserted into sorted `s` in its place. */
  function InsertInt(s: seq<int>, x: int): (r: seq<int>)
    requires SortedInts(s)
    ensures SortedInts(r) && multiset(r) == multiset(s) + multiset{x}
    decreases |s|
  {
    if |s| == 0 then [x]
    else if x <= s[0] then [x] + s
    else
      var tail := InsertInt(s[1..], x);
      InsertIntBehindHead(s, x, tail);
      [s[0]] + tail
  }

  /** The first element of sorted `s`, below `x`, stays in front of `x`
      inserted into the rest. */
  lemma InsertIntBehindHead(s: seq<int>, x: int, tail: seq<int>)
    requires SortedInts(s) && |s| > 0 && s[0] < x
    requires SortedInts(tail) && multiset(tail) == multiset(s[1..]) + multiset{x}
    ensures SortedInts([s[0]] + tail) && multiset([s[0]] + tail) == multiset(s) + multiset{x}
  {
    HeadBelowRest(s, x, tail);
    var r := [s[0]] + tail;
    forall i, j | 0 <= i < j < |r|
      ensures r[i] <= r[j]
    {
      assert r[j] == tail[j - 1];
      if i > 0 {
        assert r[i] == tail[i - 1];
      }
    }
    calc {
      multiset(r);
      multiset([s[0]]) + multiset(tail);
      multiset([s[0]]) + multiset(s[1..]) + multiset{x};
      { assert s == [s[0]] + s[1..]; }
      multiset(s) + multiset{x};
    }
  }

  /** Every element of the rest of sorted `s` with `x` added is at least
      `s[0]` when `x` is. */
  lemma HeadBelowRest(s: seq<int>, x: int, tail: seq<int>)
    requires SortedInts(s) && |s| > 0 && s[0] < x
    requires multiset(tail) == multiset(s[1..]) + multiset{x}
    ensures forall k :: 0 <= k < |tail| ==> s[0] <= tail[k]
  {
    forall k | 0 <= k < |tail|
      ensures s[0] <= tail[k]
    {
      var y := tail[k];
      assert y in multiset(tail);
      if y != x {
        assert y in s[1..];
        var i :| 0 <= i < |s| - 1 && s[1..][i] == y;
        assert s[i + 1] == y;
      }
    }
  }

  /** `sort.Ints`: the ids in ascending order, none lost or added. */
  function SortInts(s: seq<int>): (r: seq<int>)
    ensures SortedInts(r) && multiset(r) == multiset(s)
    decreases |s|
  {
    if |s| == 0 then []
    else
      assert s == s[..|s| - 1] + [s[|s| - 1]];
      InsertInt(SortInts(s[..|s| - 1]), s[|s| - 1])
  }

  /** The data file of an id as `loadDataFiles` opens it: the bytes on disk
      under that id (none for a file that does not exist yet), written up
      to offset 0. */
  function OpenedFile(disk: map<uint32, seq<byte>>, fid: int): (f: DataFile)
    ensures f.fileId == ToUint32(fid) && f.writeOff == 0
  {
    var id := ToUint32(fid);
    OpenDataFile(id, if id in disk then disk[id] else [])
  }

  /** `base` with the files of `ids` opened into it, later ids last. */
  function OlderOpened(base: map<uint32, DataFile>, ids: seq<int>, disk: map<uint32, seq<byte>>): (m: map<uint32, DataFile>)
    ensures m.Keys == base.Keys + set i | 0 <= i < |ids| :: ToUint32(ids[i])
    decreases |ids|
  {
    if |ids| == 0 then base
    else
      var init := ids[..|ids| - 1];
      var m := OlderOpened(base, init, disk)[ToUint32(ids[|ids| - 1]) := OpenedFile(disk, ids[|ids| - 1])];
      assert forall i :: 0 <= i < |init| ==> init[i] == ids[i];
      m
  }

  /** The files after `loadDataFiles` opened `ids`: the last one active, the
      others added to the older files. */
  function LoadedFiles(fs: Files, ids: seq<int>, disk: map<uint32, seq<byte>>): Files
  {
    if |ids| == 0 then fs
    else Files(Some(OpenedFile(disk, ids[|ids| - 1])), OlderOpened(fs.older, ids[..|ids| - 1], disk))
  }

  /** The files while `loadDataFiles` opens `ids`, after the first `i`: the
      active file is still the one before until the last id is opened. */
  predicate LoadedUpTo(fs0: Files, ids: seq<int>, i: nat, disk: map<uint32, seq<byte>>, fs: Files)
    requires i <= |ids|
  {
    if i < |ids| then fs == Files(fs0.active, OlderOpened(fs0.older, ids[..i], disk))
    else fs == LoadedFiles(fs0, ids, disk)
  }

  /** Loading no ids changes nothing. */
  lemma LoadedNone(fs0: Files, disk: map<uint32, seq<byte>>)
    ensures LoadedUpTo(fs0, [], 0, disk, fs0)
  {
  }

  /** Opening the `i`-th id: older files gain it, or, for the last id, it
      becomes the active file. */
  lemma LoadStep(fs0: Files, ids: seq<int>, i: nat, disk: map<uint32, seq<byte>>)
    requires i < |ids|
    ensures OlderOpened(fs0.older, ids[..i + 1], disk)
      == OlderOpened(fs0.older, ids[..i], disk)[ToUint32(ids[i]) := OpenedFile(disk, ids[i])]
    ensures i == |ids| - 1 ==>
      LoadedFiles(fs0, ids, disk) == Files(Some(OpenedFile(disk, ids[i])), OlderOpened(fs0.older, ids[..i], disk))
  {
    assert ids[..i + 1][..i] == ids[..i];
  }

  /** Loading sorted ids that are valid file ids makes the largest one active
      and files every other one as older, each under its own id. */
  lemma LoadedNewestActive(ids: seq<int>, disk: map<uint32, seq<byte>>)
    requires |ids| > 0 && SortedInts(ids) && forall i :: 0 <= i < |ids| ==> 0 <= ids[i] < Uint32Modulus
    ensures var fs := LoadedFiles(Files(None, map[]), ids, disk);
      && fs.active.Some? && fs.active.value.fileId == ids[|ids| - 1]
      && (forall i :: 0 <= i < |ids| ==> ids[i] <= fs.active.value.fileId)
      && (forall id :: id in fs.older <==> exists i :: 0 <= i < |ids| - 1 && ids[i] == id)
      && (forall id :: id in fs.older ==> fs.older[id].fileId == id)
  {
    var fs := LoadedFiles(Files(None, map[]), ids, disk);
    OlderOpenedIds(ids[..|ids| - 1], disk);
    forall id | id in fs.older
      ensures exists i :: 0 <= i < |ids| - 1 && ids[i] == id
    {
      var i :| 0 <= i < |ids| - 1 && ToUint32(ids[..|ids| - 1][i]) == id;
      assert ids[..|ids| - 1][i] == ids[i];
    }
    forall id | exists i :: 0 <= i < |ids| - 1 && ids[i] == id
      ensures id in fs.older
    {
      var i :| 0 <= i < |ids| - 1 && ids[i] == id;
      assert ids[..|ids| - 1][i] == ids[i];
    }
  }

  /** Each file opened into an empty map is filed under its own id. */
  lemma {:induction false} OlderOpenedIds(ids: seq<int>, disk: map<uint32, seq<byte>>)
    ensures forall id :: id in OlderOpened(map[], ids, disk) ==> OlderOpened(map[], ids, disk)[id].fileId == id
    decreases |ids|
  {
    if |ids| > 0 {
      OlderOpenedIds(ids[..|ids| - 1], disk);
    }
  }
}
