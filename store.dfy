/** The engine's files and index as values, and the operations of db.go on
    them: where a position is read from, how a record is appended (rotating
    to a new active file past the size threshold), and what Put, Delete and
    Get do. The class `Engine.DB` performs these steps in place; this module
    states what they compute and proves that, on a sound state, the engine
    behaves as a map from keys to values. */
module Store {
  import opened Wrappers
  import opened Bytes
  import opened Data
  import opened DataFiles
  import opened Keys
  import Index

  /** options.go: data directory, rotation threshold, whether every write is
      synced, and the index type. */
  datatype Options = Options(dirPath: string, dataFileSize: int, syncWrites: bool, indexType: int)

  /** The errors of error.go, the two of `checkOptions`, the read errors of
      a data file (`io.EOF`, a crc mismatch), an I/O failure, and the
      run-time panics the engine can raise. */
  datatype Error =
    | ErrKeyIsEmpty
    | ErrIndexUpdateFailed
    | ErrKeyNotFound
    | ErrDataFileNotFound
    | ErrDataDirectoryCorrupted
    | ErrExceedMaxBatchNum
    | ErrMergeInProgress
    | ErrDirPathEmpty
    | ErrDataFileSizeNotPositive
    | ErrEOF
    | ErrInvalidCRC
    | ErrIO
    | Panic(reason: string)

  /** The run-time panics: slicing past the end of a buffer, calling through
      a nil pointer, the index refusing an update during start-up, and an
      index type `NewIndexer` does not know. */
  const SliceOutOfRange: Error := Panic("slice bounds out of range")
  const NilDereference: Error := Panic("nil pointer dereference")
  const StartupIndexFailure: Error := Panic("failed to update index at startup")
  const UnsupportedIndexPanic: Error := Panic("unsupported index type")

  /** `checkOptions`: a data directory must be named and the threshold must
      be positive, checked in that order. */
  function CheckOptions(o: Options): (r: Option<Error>)
    ensures r == None <==> |o.dirPath| > 0 && o.dataFileSize > 0
    ensures |o.dirPath| == 0 ==> r == Some(ErrDirPathEmpty)
    ensures |o.dirPath| > 0 && o.dataFileSize <= 0 ==> r == Some(ErrDataFileSizeNotPositive)
  {
    if o.dirPath == "" then Some(ErrDirPathEmpty)
    else if o.dataFileSize <= 0 then Some(ErrDataFileSizeNotPositive)
    else None
  }

  /** Which I/O step of an append fails, if one does: opening a data file,
      syncing the file being sealed, writing, or syncing after the write. */
  datatype IoFault = NoFault | OpenFault | RotateSyncFault | WriteFault | WriteSyncFault

  /** The active file (nil before the first write to an empty directory) and
      the older, read-only files by id. */
  datatype Files = Files(active: Option<DataFile>, older: map<uint32, DataFile>)

  /** The file a position names, looked up as `getValueByPosition` does: the
      active file when the ids agree, otherwise the older file of that id. */
  function FileAt(fs: Files, fid: uint32): (r: Option<DataFile>)
    ensures r.Some? <==> (fs.active.Some? && fs.active.value.fileId == fid) || fid in fs.older
  {
    if fs.active.Some? && fs.active.value.fileId == fid then fs.active
    else if fid in fs.older then Some(fs.older[fid])
    else None
  }

  /** The id `setActiveDataFile` opens: 0 without an active file, otherwise
      the active id plus one in uint32 arithmetic. */
  function NextFileId(active: Option<DataFile>): (id: uint32)
    ensures active.None? ==> id == 0
    ensures active.Some? && active.value.fileId + 1 < Uint32Modulus ==> id == active.value.fileId + 1
    ensures active.Some? && active.value.fileId + 1 == Uint32Modulus ==> id == 0
  {
    if active.None? then 0 else ToUint32(active.value.fileId + 1)
  }

  /** The files with a new, empty active file under the next id. */
  function OpenNext(fs: Files): Files
  {
    Files(Some(OpenDataFile(NextFileId(fs.active), [])), fs.older)
  }

  /** `setActiveDataFile`: opens the next data file and makes it the active
      one; the older files are untouched. A failed open changes nothing. */
  function SetActiveDataFile(fs: Files, fault: IoFault): (r: Result<Files, Error>)
    ensures r.Err? <==> fault == OpenFault
    ensures r.Ok? ==> r.value.older == fs.older && r.value.active.Some?
    ensures r.Ok? ==> r.value.active.value == DataFile(NextFileId(fs.active), 0, [])
  {
    if fault == OpenFault then Err(ErrIO) else Ok(OpenNext(fs))
  }

  /** The files after an append and the position it reports, or its error. */
  datatype Appended = Appended(files: Files, pos: Result<LogRecordPos, Error>)

  /** `appendLogRecord`: open a first active file if there is none; when the
      encoded record would take the write offset past the threshold, seal the
      active file into the older files and open the next one (the record is
      written there even if it alone exceeds the threshold); write the
      record and report the active id with the offset before the write. */
  function AppendLogRecord(fs: Files, opts: Options, r: LogRecord, fault: IoFault): (o: Appended)
    requires HeaderFits(r)
  {
    if fs.active.None? && fault == OpenFault then Appended(fs, Err(ErrIO))
    else
      var fs1 := if fs.active.None? then OpenNext(fs) else fs;
      var a := fs1.active.value;
      if a.writeOff + |Encoding(r)| > opts.dataFileSize then
        if fault == RotateSyncFault then Appended(fs1, Err(ErrIO))
        else
          var sealed := Files(fs1.active, fs1.older[a.fileId := a]);
          if fault == OpenFault then Appended(sealed, Err(ErrIO))
          else WriteActive(OpenNext(sealed), Encoding(r), opts.syncWrites, fault)
      else WriteActive(fs1, Encoding(r), opts.syncWrites, fault)
  }

  /** The write step of `appendLogRecord` on the active file. */
  function WriteActive(fs: Files, enc: seq<byte>, syncWrites: bool, fault: IoFault): (o: Appended)
    requires fs.active.Some?
  {
    var a := fs.active.value;
    if fault == WriteFault then Appended(fs, Err(ErrIO))
    else
      var written := Files(Some(Write(a, enc)), fs.older);
      if syncWrites && fault == WriteSyncFault then Appended(written, Err(ErrIO))
      else Appended(written, Ok(LogRecordPos(a.fileId, a.writeOff)))
  }

  /** `getValueByPosition`: the value of the record at a position. A file id
      that is neither active nor older gives ErrDataFileNotFound, a read error
      is passed on, and a tombstone gives ErrKeyNotFound. Without an active
      file Go dereferences nil. */
  function ValueByPosition(fs: Files, pos: LogRecordPos): (r: Result<seq<byte>, Error>)
    ensures r == Err(ErrDataFileNotFound) <==> fs.active.Some? && FileAt(fs, pos.fid).None?
    ensures r.Ok? ==>
      && FileAt(fs, pos.fid).Some?
      && var rr := ReadLogRecord(FileAt(fs, pos.fid).value, pos.offset);
      && rr.Read? && rr.record.value == r.value && rr.record.recordType != LogRecordDeleted
    ensures fs.active.Some? && FileAt(fs, pos.fid).Some? ==>
      var rr := ReadLogRecord(FileAt(fs, pos.fid).value, pos.offset);
      (r == Err(ErrKeyNotFound) <==> rr.Read? && rr.record.recordType == LogRecordDeleted)
  {
    if fs.active.None? then Err(NilDereference)
    else match FileAt(fs, pos.fid)
      case None => Err(ErrDataFileNotFound)
      case Some(f) =>
        match ReadLogRecord(f, pos.offset)
        case Read(record, _) => if record.recordType == LogRecordDeleted then Err(ErrKeyNotFound) else Ok(record.value)
        case Eof => Err(ErrEOF)
        case InvalidCrc => Err(ErrInvalidCRC)
        case ReadPanic => Err(SliceOutOfRange)
  }

  /** The record Put writes for a key. */
  function PutRecord(key: seq<byte>, value: seq<byte>): LogRecord
  {
    LogRecord(LogRecordKeyWithSeq(key, NonTransactionSeqNo), value, LogRecordNormal)
  }

  /** The tombstone Delete writes for a key. */
  function DeleteRecord(key: seq<byte>): LogRecord
  {
    LogRecord(LogRecordKeyWithSeq(key, NonTransactionSeqNo), [], LogRecordDeleted)
  }

  /** The files and index after an operation, and the error it returns. */
  datatype Outcome = Outcome(files: Files, entries: map<seq<byte>, LogRecordPos>, err: Option<Error>)

  /** `Put`: an empty key is refused before anything is written; otherwise
      the record is appended and the index entry set to its position. An
      append error is returned and leaves the index alone. */
  function PutOutcome(fs: Files, entries: map<seq<byte>, LogRecordPos>, opts: Options,
                      key: seq<byte>, value: seq<byte>, fault: IoFault): (o: Outcome)
    requires HeaderFits(PutRecord(key, value))
  {
    if |key| == 0 then Outcome(fs, entries, Some(ErrKeyIsEmpty))
    else
      var a := AppendLogRecord(fs, opts, PutRecord(key, value), fault);
      match a.pos
      case Err(e) => Outcome(a.files, entries, Some(e))
      case Ok(pos) => Outcome(a.files, entries[key := pos], None)
  }

  /** `Delete`: an empty key is refused; a key absent from the index is a
      success that writes nothing; otherwise a tombstone is appended and the
      key removed from the index. A failed tombstone append is reported as
      success and leaves the index alone. */
  function DeleteOutcome(fs: Files, entries: map<seq<byte>, LogRecordPos>, opts: Options,
                         key: seq<byte>, fault: IoFault): (o: Outcome)
    requires HeaderFits(DeleteRecord(key))
    ensures |key| == 0 ==> o == Outcome(fs, entries, Some(ErrKeyIsEmpty))
    ensures |key| > 0 && key !in entries ==> o == Outcome(fs, entries, None)
    ensures o.err == None || o.err == Some(ErrKeyIsEmpty)
  {
    if |key| == 0 then Outcome(fs, entries, Some(ErrKeyIsEmpty))
    else if key !in entries then Outcome(fs, entries, None)
    else
      var a := AppendLogRecord(fs, opts, DeleteRecord(key), fault);
      match a.pos
      case Err(_) => Outcome(a.files, entries, None)
      case Ok(_) => Outcome(a.files, entries - {key}, None)
  }

  /** `Get`: an empty key is refused, a key absent from the index is not
      found, otherwise the value is read at the indexed position. */
  function GetResult(fs: Files, entries: map<seq<byte>, LogRecordPos>, key: seq<byte>): (r: Result<seq<byte>, Error>)
    ensures |key| == 0 ==> r == Err(ErrKeyIsEmpty)
    ensures |key| > 0 && key !in entries ==> r == Err(ErrKeyNotFound)
  {
    if |key| == 0 then Err(ErrKeyIsEmpty)
    else if key !in entries then Err(ErrKeyNotFound)
    else ValueByPosition(fs, entries[key])
  }

  // ---------------------------------------------------------------------
  // Soundness: the index points at records the engine wrote.

  /** The shape the engine keeps its files in: no older files before the
      first active file, the active file written up to its end, and every
      older id at most the active id (a sealed file may still be listed under
      the active id after a failed open; the active file shadows it). */
  predicate WellFormed(fs: Files)
  {
    (fs.active.None? ==> fs.older == map[])
    && (fs.active.Some? ==>
          fs.active.value.writeOff == |fs.active.value.content|
          && forall id :: id in fs.older ==> id <= fs.active.value.fileId)
  }

  /** The active id can be followed by one more without wrapping around. */
  predicate NoWrap(fs: Files)
  {
    fs.active.Some? ==> fs.active.value.fileId + 1 < Uint32Modulus
  }

  /** The bytes at a position are the encoding of `r`. */
  predicate HoldsAt(fs: Files, pos: LogRecordPos, r: LogRecord)
  {
    && FileAt(fs, pos.fid).Some? && 0 <= pos.offset && SizesFit(r)
    && EncodedAt(FileAt(fs, pos.fid).value.content, pos.offset, r)
  }

  /** A record that is not a tombstone and whose stored key is user key `k`. */
  predicate LiveRecord(k: seq<byte>, r: LogRecord)
  {
    r.recordType != LogRecordDeleted && ParseLogRecordKey(r.key).0 == k
  }

  /** Every index entry points at the encoding of a live record of its key;
      `records` names those records. */
  predicate Sound(fs: Files, entries: map<seq<byte>, LogRecordPos>, records: map<seq<byte>, LogRecord>)
  {
    && WellFormed(fs) && entries.Keys == records.Keys
    && forall k :: k in entries ==> HoldsAt(fs, entries[k], records[k]) && LiveRecord(k, records[k])
  }

  /** What the engine holds: each key with the value of its record. */
  function Contents(records: map<seq<byte>, LogRecord>): (m: map<seq<byte>, seq<byte>>)
    ensures m.Keys == records.Keys
  {
    map k | k in records :: records[k].value
  }

  /** Every file of `fs` is still there in `fs2`, possibly with bytes added. */
  predicate Extends(fs: Files, fs2: Files)
  {
    forall fid :: FileAt(fs, fid).Some? ==>
      FileAt(fs2, fid).Some? && FileAt(fs, fid).value.content <= FileAt(fs2, fid).value.content
  }

  /** Reading at a position that holds an encoded record gives that record. */
  lemma ReadHeld(fs: Files, pos: LogRecordPos, r: LogRecord)
    requires HoldsAt(fs, pos, r)
    ensures ReadLogRecord(FileAt(fs, pos.fid).value, pos.offset) == Read(r, |Encoding(r)|)
  {
    ReadEncoded(FileAt(fs, pos.fid).value, pos.offset, r);
  }

  /** The files and index of a sound state determine its records: `records`
      only names what reading the indexed positions gives. */
  lemma RecordsDetermined(fs: Files, entries: map<seq<byte>, LogRecordPos>,
                          records: map<seq<byte>, LogRecord>, records2: map<seq<byte>, LogRecord>)
    requires Sound(fs, entries, records) && Sound(fs, entries, records2)
    ensures records == records2
  {
    forall k | k in entries
      ensures records[k] == records2[k]
    {
      ReadHeld(fs, entries[k], records[k]);
      ReadHeld(fs, entries[k], records2[k]);
    }
  }

  /** An encoded record stays where it is when its file grows. */
  lemma HeldAfterExtend(fs: Files, fs2: Files, pos: LogRecordPos, r: LogRecord)
    requires Extends(fs, fs2) && HoldsAt(fs, pos, r)
    ensures HoldsAt(fs2, pos, r)
  {
    var f, g := FileAt(fs, pos.fid).value, FileAt(fs2, pos.fid).value;
    var n := |Encoding(r)|;
    assert g.content[pos.offset..pos.offset + n] == f.content[pos.offset..pos.offset + n];
  }

  /** A sound state stays sound when its files grow. */
  lemma SoundAfterExtend(fs: Files, fs2: Files, entries: map<seq<byte>, LogRecordPos>, records: map<seq<byte>, LogRecord>)
    requires Sound(fs, entries, records) && Extends(fs, fs2) && WellFormed(fs2)
    ensures Sound(fs2, entries, records)
  {
    forall k | k in entries
      ensures HoldsAt(fs2, entries[k], records[k])
    {
      HeldAfterExtend(fs, fs2, entries[k], records[k]);
    }
  }

  /** What an append keeps: well-formed files that extend the old ones, and
      on success the record encoded at the reported position. */
  predicate AppendKeeps(fs: Files, a: Appended, r: LogRecord)
  {
    WellFormed(a.files) && Extends(fs, a.files) && (a.pos.Ok? ==> HoldsAt(a.files, a.pos.value, r))
  }

  /** The write step of an append. */
  lemma WriteActiveFacts(fs: Files, r: LogRecord, syncWrites: bool, fault: IoFault)
    requires WellFormed(fs) && fs.active.Some? && SizesFit(r)
    ensures AppendKeeps(fs, WriteActive(fs, Encoding(r), syncWrites, fault), r)
    ensures fault == NoFault ==> WriteActive(fs, Encoding(r), syncWrites, fault).pos.Ok?
  {
    var a := fs.active.value;
    if fault != WriteFault {
      var w := Write(a, Encoding(r));
      assert w.content[|a.content|..|a.content| + |Encoding(r)|] == Encoding(r);
      assert FileAt(Files(Some(w), fs.older), a.fileId) == Some(w);
    }
  }

  /** The sealing and reopening of a rotation keep every file reachable. */
  lemma RotateExtends(fs: Files)
    requires WellFormed(fs) && NoWrap(fs) && fs.active.Some?
    ensures var a := fs.active.value;
      var sealed := Files(fs.active, fs.older[a.fileId := a]);
      && Extends(fs, sealed) && WellFormed(sealed)
      && Extends(fs, OpenNext(sealed)) && WellFormed(OpenNext(sealed))
  {
    var a := fs.active.value;
    var sealed := Files(fs.active, fs.older[a.fileId := a]);
    var next := OpenNext(sealed);
    assert next.active.value.fileId == a.fileId + 1;
    forall fid | FileAt(fs, fid).Some?
      ensures FileAt(next, fid) == FileAt(fs, fid)
    {
    }
  }

  lemma ExtendsTrans(a: Files, b: Files, c: Files)
    requires Extends(a, b) && Extends(b, c)
    ensures Extends(a, c)
  {
  }

  /** An append keeps the files well formed and only adds bytes; without a
      fault it succeeds, and on success the record is encoded at the
      reported position. */
  lemma AppendFacts(fs: Files, opts: Options, r: LogRecord, fault: IoFault)
    requires WellFormed(fs) && NoWrap(fs) && HeaderFits(r) && SizesFit(r)
    ensures AppendKeeps(fs, AppendLogRecord(fs, opts, r, fault), r)
    ensures fault == NoFault ==> AppendLogRecord(fs, opts, r, fault).pos.Ok?
  {
    if !(fs.active.None? && fault == OpenFault) {
      var fs1 := if fs.active.None? then OpenNext(fs) else fs;
      assert Extends(fs, fs1) && WellFormed(fs1) && NoWrap(fs1);
      var a := fs1.active.value;
      if a.writeOff + |Encoding(r)| > opts.dataFileSize {
        RotateExtends(fs1);
        if fault != RotateSyncFault && fault != OpenFault {
          var next := OpenNext(Files(fs1.active, fs1.older[a.fileId := a]));
          WriteActiveFacts(next, r, opts.syncWrites, fault);
          ExtendsTrans(fs, fs1, next);
          ExtendsTrans(fs, next, WriteActive(next, Encoding(r), opts.syncWrites, fault).files);
        } else if fault == OpenFault {
          ExtendsTrans(fs, fs1, Files(fs1.active, fs1.older[a.fileId := a]));
        }
      } else {
        WriteActiveFacts(fs1, r, opts.syncWrites, fault);
        ExtendsTrans(fs, fs1, WriteActive(fs1, Encoding(r), opts.syncWrites, fault).files);
      }
    }
  }

  /** An append opens at most one file: the active id after it is at most
      one past the one before (1 when there was no active file). */
  lemma AppendActiveId(fs: Files, opts: Options, r: LogRecord, fault: IoFault)
    requires NoWrap(fs) && HeaderFits(r)
    ensures var a := AppendLogRecord(fs, opts, r, fault);
      a.files.active.Some? ==> a.files.active.value.fileId <= if fs.active.None? then 1 else fs.active.value.fileId + 1
  {
    if !(fs.active.None? && fault == OpenFault) {
      var fs1 := if fs.active.None? then OpenNext(fs) else fs;
      var a := fs1.active.value;
      assert a.fileId <= if fs.active.None? then 0 else fs.active.value.fileId;
      if a.writeOff + |Encoding(r)| > opts.dataFileSize && fault != RotateSyncFault && fault != OpenFault {
        assert NextFileId(fs1.active) <= a.fileId + 1;
      }
    }
  }

  /** Put on a sound state: without a fault it succeeds; on success the key's
      record is the one Put wrote, on failure the records stay as they were.
      Either way the state stays sound. */
  lemma PutSound(fs: Files, entries: map<seq<byte>, LogRecordPos>, records: map<seq<byte>, LogRecord>,
                 opts: Options, key: seq<byte>, value: seq<byte>, fault: IoFault)
    requires Sound(fs, entries, records) && NoWrap(fs) && |key| > 0
    requires HeaderFits(PutRecord(key, value)) && SizesFit(PutRecord(key, value))
    ensures var o := PutOutcome(fs, entries, opts, key, value, fault);
      && (fault == NoFault ==> o.err == None)
      && (o.err == None ==> Sound(o.files, o.entries, records[key := PutRecord(key, value)]))
      && (o.err != None ==> Sound(o.files, o.entries, records))
  {
    var r := PutRecord(key, value);
    AppendFacts(fs, opts, r, fault);
    ParseKeyWithSeq(key, NonTransactionSeqNo);
    IndexAppended(fs, entries, records, key, r, AppendLogRecord(fs, opts, r, fault));
  }

  /** Pointing a key at a live record the append wrote keeps a state sound;
      a failed append keeps it sound as it was. */
  lemma IndexAppended(fs: Files, entries: map<seq<byte>, LogRecordPos>, records: map<seq<byte>, LogRecord>,
                      key: seq<byte>, r: LogRecord, a: Appended)
    requires Sound(fs, entries, records) && AppendKeeps(fs, a, r) && LiveRecord(key, r)
    ensures a.pos.Ok? ==> Sound(a.files, entries[key := a.pos.value], records[key := r])
    ensures Sound(a.files, entries, records)
  {
    SoundAfterExtend(fs, a.files, entries, records);
  }

  /** Dropping a key from index and records keeps a state sound. */
  lemma SoundRemove(fs: Files, entries: map<seq<byte>, LogRecordPos>, records: map<seq<byte>, LogRecord>, key: seq<byte>)
    requires Sound(fs, entries, records)
    ensures Sound(fs, entries - {key}, records - {key})
  {
  }

  /** Delete of an indexed key on a sound state: when the tombstone is
      written the key leaves the index and the records; when its append fails
      Delete still reports success and nothing changes but the files. The
      state stays sound, and without a fault the tombstone is written. */
  lemma DeleteSound(fs: Files, entries: map<seq<byte>, LogRecordPos>, records: map<seq<byte>, LogRecord>,
                    opts: Options, key: seq<byte>, fault: IoFault)
    requires Sound(fs, entries, records) && NoWrap(fs) && |key| > 0 && key in entries
    requires HeaderFits(DeleteRecord(key)) && SizesFit(DeleteRecord(key))
    ensures var a := AppendLogRecord(fs, opts, DeleteRecord(key), fault);
      && DeleteOutcome(fs, entries, opts, key, fault)
         == Outcome(a.files, if a.pos.Ok? then entries - {key} else entries, None)
      && (a.pos.Ok? ==> Sound(a.files, entries - {key}, records - {key}))
      && (a.pos.Err? ==> Sound(a.files, entries, records))
      && (fault == NoFault ==> a.pos.Ok?)
  {
    var a := AppendLogRecord(fs, opts, DeleteRecord(key), fault);
    AppendFacts(fs, opts, DeleteRecord(key), fault);
    SoundAfterExtend(fs, a.files, entries, records);
    SoundRemove(a.files, entries, records, key);
  }

  /** Get on a sound state answers from the records: the value of a present
      key, ErrKeyNotFound for an absent one. */
  lemma GetContents(fs: Files, entries: map<seq<byte>, LogRecordPos>, records: map<seq<byte>, LogRecord>, key: seq<byte>)
    requires Sound(fs, entries, records) && |key| > 0
    ensures key in Contents(records) ==> GetResult(fs, entries, key) == Ok(Contents(records)[key])
    ensures key !in Contents(records) ==> GetResult(fs, entries, key) == Err(ErrKeyNotFound)
  {
    if key in entries {
      ReadHeld(fs, entries[key], records[key]);
    }
  }

  /** A Put that meets no fault is seen by the next Get of its key and by no
      Get of another key. */
  lemma PutThenGet(fs: Files, entries: map<seq<byte>, LogRecordPos>, records: map<seq<byte>, LogRecord>,
                   opts: Options, key: seq<byte>, value: seq<byte>, other: seq<byte>)
    requires Sound(fs, entries, records) && NoWrap(fs) && |key| > 0
    requires HeaderFits(PutRecord(key, value)) && SizesFit(PutRecord(key, value))
    ensures var o := PutOutcome(fs, entries, opts, key, value, NoFault);
      && GetResult(o.files, o.entries, key) == Ok(value)
      && (other != key ==> GetResult(o.files, o.entries, other) == GetResult(fs, entries, other))
  {
    var o := PutOutcome(fs, entries, opts, key, value, NoFault);
    var records2 := records[key := PutRecord(key, value)];
    PutSound(fs, entries, records, opts, key, value, NoFault);
    GetContents(o.files, o.entries, records2, key);
    if other != key && |other| > 0 {
      GetContents(o.files, o.entries, records2, other);
      GetContents(fs, entries, records, other);
    }
  }

  /** A Delete that meets no fault makes the next Get of its key fail with
      ErrKeyNotFound and changes no Get of another key. */
  lemma DeleteThenGet(fs: Files, entries: map<seq<byte>, LogRecordPos>, records: map<seq<byte>, LogRecord>,
                      opts: Options, key: seq<byte>, other: seq<byte>)
    requires Sound(fs, entries, records) && NoWrap(fs) && |key| > 0
    requires HeaderFits(DeleteRecord(key)) && SizesFit(DeleteRecord(key))
    ensures var o := DeleteOutcome(fs, entries, opts, key, NoFault);
      && GetResult(o.files, o.entries, key) == Err(ErrKeyNotFound)
      && (other != key ==> GetResult(o.files, o.entries, other) == GetResult(fs, entries, other))
  {
    if key in entries {
      var o := DeleteOutcome(fs, entries, opts, key, NoFault);
      DeleteSound(fs, entries, records, opts, key, NoFault);
      if other != key && |other| > 0 {
        GetContents(o.files, o.entries, records - {key}, other);
        GetContents(fs, entries, records, other);
      }
    }
  }
}
