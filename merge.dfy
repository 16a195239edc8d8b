/** merge.go: compaction. `Merge` seals the active file, opens a fresh one
    whose id is the first not to take part, and rewrites every record of
    the older files that the index still points at into a new engine
    instance in the merge directory beside the data directory; for each
    record rewritten it writes a hint (the key and its new position), and at
    the end a `merge.finished` record naming that first id. The merge
    directory's contents are returned as a value (`MergeOutput`); a failing
    I/O step is named by a `MergeFault` parameter. */
module Merging {
  import opened Wrappers
  import opened Bytes
  import opened Data
  import opened DataFiles
  import opened Keys
  import opened Store
  import opened Replay
  import opened Engine
  import Index
  import Paths
  import Binary

  /** The key of the record that marks a finished merge. */
  const MergeFinishedKey: string := "merge.finished"

  /** Which I/O step of a merge fails, if one does: syncing the active file,
      opening the next one, preparing the merge directory, listing it while
      opening the merge instance, opening, writing or syncing the hint file,
      syncing the merge instance, or opening, writing or syncing the
      finished file. */
  datatype MergeFault =
    | NoMergeFault | SyncActiveFault | OpenActiveFault | MergeDirFault | MergeOpenFault
    | HintOpenFault | HintWriteFault | HintSyncFault | MergeSyncFault
    | FinishedOpenFault | FinishedWriteFault | FinishedSyncFault

  /** The failing step of the merge instance's `Open`, if any: the merge
      directory was just created, so only its listing can fail. */
  function MergeOpenLoadFault(fault: MergeFault): LoadFault
  {
    if fault == MergeOpenFault then ReadDirFault else NoLoadFault
  }

  /** A hint: a user key and the position of its record in the merge instance. */
  type Hint = (seq<byte>, LogRecordPos)

  /** The merge instance's files and the hints written so far. */
  datatype Rewritten = Rewritten(files: Files, hints: seq<Hint>)

  /** What a merge leaves in the merge directory: the merge instance's data
      files, the hint file's entries and the encoded finished record. */
  datatype MergeOutput = MergeOutput(files: Files, hints: seq<Hint>, finished: seq<byte>)

  const NoOutput: MergeOutput := MergeOutput(Files(None, map[]), [], [])

  /** The engine's files after a merge, its error, and the merge directory's
      contents when it succeeds. */
  datatype MergeOutcome = MergeOutcome(files: Files, err: Option<Error>, output: MergeOutput)

  // --- The older files in ascending id order.

  predicate Increasing(ids: seq<uint32>)
  {
    forall i, j :: 0 <= i < j < |ids| ==> ids[i] < ids[j]
  }

  /** `ids` lists the members of `keys` once each, in ascending order. */
  ghost predicate ListsIds(ids: seq<uint32>, keys: set<uint32>)
  {
    Increasing(ids) && forall x :: x in keys <==> x in ids
  }

  /** `x` put in its place in an ascending list. */
  function InsertId(ids: seq<uint32>, x: uint32): (r: seq<uint32>)
    requires Increasing(ids) && x !in ids
    ensures Increasing(r) && forall y :: y in r <==> y in ids || y == x
    decreases |ids|
  {
    if |ids| == 0 then [x]
    else if x < ids[0] then [x] + ids
    else
      var rest := InsertId(ids[1..], x);
      assert forall j :: 0 <= j < |rest| ==> ids[0] < rest[j] by {
        forall j | 0 <= j < |rest| ensures ids[0] < rest[j] {
          assert rest[j] in rest;
          if rest[j] != x {
            var k :| 0 <= k < |ids[1..]| && ids[1..][k] == rest[j];
            assert ids[k + 1] == rest[j];
          }
        }
      }
      [ids[0]] + rest
  }

  lemma {:induction false} OrderedExists(keys: set<uint32>)
    ensures exists ids :: ListsIds(ids, keys)
    decreases |keys|
  {
    if keys == {} {
      assert ListsIds([], keys);
    } else {
      var x :| x in keys;
      OrderedExists(keys - {x});
      var ids :| ListsIds(ids, keys - {x});
      assert ListsIds(InsertId(ids, x), keys);
    }
  }

  /** A set of ids has one ascending listing. */
  lemma {:induction false} ListsIdsUnique(a: seq<uint32>, b: seq<uint32>, keys: set<uint32>)
    requires ListsIds(a, keys) && ListsIds(b, keys)
    ensures a == b
    decreases |a|
  {
    if |a| > 0 {
      assert a[0] in keys;
    }
    if |b| > 0 {
      assert b[0] in keys;
    }
    if |a| > 0 && |b| > 0 {
      assert a[0] == b[0] by {
        assert a[0] in b && b[0] in a;
      }
      var rest := keys - {a[0]};
      assert ListsIds(a[1..], rest) by {
        forall x ensures x in rest <==> x in a[1..] {
          if x in a[1..] {
            assert x != a[0];
          }
        }
      }
      assert ListsIds(b[1..], rest) by {
        forall x ensures x in rest <==> x in b[1..] {
          if x in b[1..] {
            assert x != b[0];
          }
        }
      }
      ListsIdsUnique(a[1..], b[1..], rest);
      assert a == [a[0]] + a[1..] && b == [b[0]] + b[1..];
    }
  }

  /** The ids of `keys` in ascending order. */
  ghost function Ordered(keys: set<uint32>): (ids: seq<uint32>)
    ensures ListsIds(ids, keys)
  {
    OrderedExists(keys);
    var ids :| ListsIds(ids, keys); ids
  }

  /** The files to merge sorted by id, as `sort.Slice` orders them. */
  method SortedIds(files: map<uint32, DataFile>) returns (ids: seq<uint32>)
    ensures ids == Ordered(files.Keys)
  {
    ids := [];
    var rest := files.Keys;
    while rest != {}
      invariant rest <= files.Keys
      invariant ListsIds(ids, files.Keys - rest)
      decreases |rest|
    {
      var x :| x in rest;
      ids := InsertId(ids, x);
      rest := rest - {x};
    }
    ListsIdsUnique(ids, Ordered(files.Keys), files.Keys);
  }

  // --- Rewriting the live records.

  /** The record read at `at` in file `fid` is where the index has its
      user key. */
  predicate Live(entries: map<seq<byte>, LogRecordPos>, fid: uint32, record: LogRecord, at: int)
  {
    var realKey := ParseLogRecordKey(record.key).0;
    realKey in entries && entries[realKey] == LogRecordPos(fid, at)
  }

  /** The record as the merge rewrites it: the same value and type, and the
      user key under the non-transactional sequence number. */
  function Cleaned(record: LogRecord): (r: LogRecord)
    ensures r.value == record.value && r.recordType == record.recordType
    ensures ParseLogRecordKey(r.key) == (ParseLogRecordKey(record.key).0, NonTransactionSeqNo)
  {
    var realKey := ParseLogRecordKey(record.key).0;
    ParseKeyWithSeq(realKey, NonTransactionSeqNo);
    record.(key := LogRecordKeyWithSeq(realKey, NonTransactionSeqNo))
  }

  /** One record of a merged file: a live one is appended to the merge
      instance (Go panics when its header does not fit) and its hint is
      written; any other record is passed over. */
  function RewriteRecord(acc: Rewritten, opts: Options, entries: map<seq<byte>, LogRecordPos>, fid: uint32,
                         x: (LogRecord, int), appendFault: IoFault, hintFault: bool): Result<Rewritten, Error>
  {
    var record := x.0;
    if !Live(entries, fid, record, x.1) then Ok(acc)
    else
      var c := Cleaned(record);
      if !HeaderFits(c) then Err(SliceOutOfRange)
      else
        var a := AppendLogRecord(acc.files, opts, c, appendFault);
        if a.pos.Err? then Err(a.pos.error)
        else if hintFault then Err(ErrIO)
        else Ok(Rewritten(a.files, acc.hints + [(ParseLogRecordKey(record.key).0, a.pos.value)]))
  }

  /** The records of one file, in order, until one of them fails. */
  function RewriteRecords(acc: Rewritten, opts: Options, entries: map<seq<byte>, LogRecordPos>, fid: uint32,
                          recs: seq<(LogRecord, int)>, appendFault: IoFault, hintFault: bool): Result<Rewritten, Error>
    decreases |recs|
  {
    if |recs| == 0 then Ok(acc)
    else match RewriteRecords(acc, opts, entries, fid, recs[..|recs| - 1], appendFault, hintFault)
      case Err(e) => Err(e)
      case Ok(acc2) => RewriteRecord(acc2, opts, entries, fid, recs[|recs| - 1], appendFault, hintFault)
  }

  /** A merged file read from offset 0 (`scan`): its records, then the
      error that stopped the read unless it was the end of the file. */
  function RewriteScan(acc: Rewritten, opts: Options, entries: map<seq<byte>, LogRecordPos>, fid: uint32,
                       scan: Scan, appendFault: IoFault, hintFault: bool): Result<Rewritten, Error>
  {
    match RewriteRecords(acc, opts, entries, fid, scan.records, appendFault, hintFault)
    case Err(e) => Err(e)
    case Ok(acc2) => if scan.stop.Some? then Err(scan.stop.value) else Ok(acc2)
  }

  /** Each of the files `ids` of `older` with what reading it from offset 0
      gives. */
  ghost function ScansOf(older: map<uint32, DataFile>, ids: seq<uint32>): (scans: seq<(uint32, Scan)>)
    requires forall i :: 0 <= i < |ids| ==> ids[i] in older
    ensures |scans| == |ids|
    ensures forall i :: 0 <= i < |ids| ==> scans[i] == (older[ids[i]].fileId, ScanFile(older[ids[i]], 0))
  {
    seq(|ids|, i requires 0 <= i < |ids| => (older[ids[i]].fileId, ScanFile(older[ids[i]], 0)))
  }

  /** The files read as `scans`, in that order, until one of them fails. */
  function RewriteScans(acc: Rewritten, opts: Options, entries: map<seq<byte>, LogRecordPos>,
                        scans: seq<(uint32, Scan)>, appendFault: IoFault, hintFault: bool): Result<Rewritten, Error>
    decreases |scans|
  {
    if |scans| == 0 then Ok(acc)
    else match RewriteScans(acc, opts, entries, scans[..|scans| - 1], appendFault, hintFault)
      case Err(e) => Err(e)
      case Ok(acc2) =>
        var last := scans[|scans| - 1];
        RewriteScan(acc2, opts, entries, last.0, last.1, appendFault, hintFault)
  }

  /** The merge instance's options: the data directory's, in the merge
      directory and without syncing every write. */
  function MergeOptions(opts: Options): (m: Options)
    ensures m.dataFileSize == opts.dataFileSize && m.indexType == opts.indexType && !m.syncWrites
    ensures |m.dirPath| > 0
  {
    opts.(dirPath := Paths.MergePath(opts.dirPath), syncWrites := false)
  }

  /** The record that marks a finished merge: key `merge.finished`, value
      the decimal text of the first file id not merged. */
  function FinishedRecord(nonMergeFileId: uint32): (r: LogRecord)
    ensures HeaderFits(r) && SizesFit(r)
  {
    ItoaLength(nonMergeFileId);
    var value := Itoa(nonMergeFileId);
    assert IsAscii(MergeFinishedKey);
    Binary.VarintLengthOfSize(|MergeFinishedKey|);
    Binary.VarintLengthOfSize(|value|);
    LogRecord(AsciiBytes(MergeFinishedKey), AsciiBytes(value), LogRecordNormal)
  }

  /** What `Merge` does after sealing the active file: prepare the merge
      directory, open the merge instance there, open the hint file (Go
      returns no error when this fails), rewrite the older files in id
      order, sync the hint file and the merge instance (the sync does
      nothing without an active file), and write the finished record. */
  ghost function CompactResult(older: map<uint32, DataFile>, entries: map<seq<byte>, LogRecordPos>, opts: Options,
                               nonMergeFileId: uint32, fault: MergeFault, appendFault: IoFault): Result<MergeOutput, Error>
  {
    if fault == MergeDirFault then Err(ErrIO)
    else
      var mergeOpts := MergeOptions(opts);
      match OpenEmpty(mergeOpts, MergeOpenLoadFault(fault))
      case Err(e) => Err(e)
      case Ok(o) =>
        if fault == HintOpenFault then Ok(NoOutput)
        else RewriteAndFinish(older, entries, mergeOpts, o.files, nonMergeFileId, fault, appendFault)
  }

  /** The rewrite of the older files in id order into the merge instance's
      files `files0`, the syncs of the hint file and the merge instance (the
      latter does nothing without an active file), and the finished record. */
  ghost function RewriteAndFinish(older: map<uint32, DataFile>, entries: map<seq<byte>, LogRecordPos>,
                                  mergeOpts: Options, files0: Files, nonMergeFileId: uint32,
                                  fault: MergeFault, appendFault: IoFault): Result<MergeOutput, Error>
  {
    match RewriteScans(Rewritten(files0, []), mergeOpts, entries, ScansOf(older, Ordered(older.Keys)), appendFault,
                       fault == HintWriteFault)
    case Err(e) => Err(e)
    case Ok(acc) =>
      if fault == HintSyncFault || (fault == MergeSyncFault && acc.files.active.Some?)
         || fault == FinishedOpenFault || fault == FinishedWriteFault || fault == FinishedSyncFault
      then Err(ErrIO)
      else Ok(MergeOutput(acc.files, acc.hints, Encoding(FinishedRecord(nonMergeFileId))))
  }

  /** `Merge`: nothing to do without an active file; refused while another
      merge runs; otherwise sync the active file, seal it into the older
      files, open the next one and compact. */
  ghost function MergeResult(fs: Files, entries: map<seq<byte>, LogRecordPos>, opts: Options, merging: bool,
                             fault: MergeFault, appendFault: IoFault): MergeOutcome
  {
    if fs.active.None? then MergeOutcome(fs, None, NoOutput)
    else if merging then MergeOutcome(fs, Some(ErrMergeInProgress), NoOutput)
    else if fault == SyncActiveFault then MergeOutcome(fs, Some(ErrIO), NoOutput)
    else
      var a := fs.active.value;
      var sealed := Files(fs.active, fs.older[a.fileId := a]);
      if fault == OpenActiveFault then MergeOutcome(sealed, Some(ErrIO), NoOutput)
      else
        var next := OpenNext(sealed);
        Compacted(next, CompactResult(sealed.older, entries, opts, next.active.value.fileId, fault, appendFault))
  }

  /** The outcome of a merge that got as far as compacting: the engine's
      files, and the compaction's error or output. */
  function Compacted(files: Files, c: Result<MergeOutput, Error>): (m: MergeOutcome)
    ensures m.files == files && (m.err.None? <==> c.Ok?) && (c.Ok? ==> m.output == c.value)
  {
    MergeOutcome(files, if c.Err? then Some(c.error) else None, if c.Ok? then c.value else NoOutput)
  }

  // --- Error propagation.

  lemma {:induction false} RewriteRecordsErr(acc: Rewritten, opts: Options, entries: map<seq<byte>, LogRecordPos>,
                                             fid: uint32, recs: seq<(LogRecord, int)>, j: nat,
                                             appendFault: IoFault, hintFault: bool, e: Error)
    requires j <= |recs|
    requires RewriteRecords(acc, opts, entries, fid, recs[..j], appendFault, hintFault) == Err(e)
    ensures RewriteRecords(acc, opts, entries, fid, recs, appendFault, hintFault) == Err(e)
    decreases |recs|
  {
    if j == |recs| {
      assert recs[..j] == recs;
    } else {
      assert recs[..|recs| - 1][..j] == recs[..j];
      RewriteRecordsErr(acc, opts, entries, fid, recs[..|recs| - 1], j, appendFault, hintFault, e);
    }
  }

  lemma {:induction false} RewriteScansErr(acc: Rewritten, opts: Options, entries: map<seq<byte>, LogRecordPos>,
                                           scans: seq<(uint32, Scan)>, j: nat,
                                           appendFault: IoFault, hintFault: bool, e: Error)
    requires j <= |scans|
    requires RewriteScans(acc, opts, entries, scans[..j], appendFault, hintFault) == Err(e)
    ensures RewriteScans(acc, opts, entries, scans, appendFault, hintFault) == Err(e)
    decreases |scans|
  {
    if j == |scans| {
      assert scans[..j] == scans;
    } else {
      assert scans[..|scans| - 1][..j] == scans[..j];
      RewriteScansErr(acc, opts, entries, scans[..|scans| - 1], j, appendFault, hintFault, e);
    }
  }

  /** Rewriting one more file: the files before it, then that one. */
  lemma RewriteScansStep(acc: Rewritten, opts: Options, entries: map<seq<byte>, LogRecordPos>,
                         scans: seq<(uint32, Scan)>, i: nat, appendFault: IoFault, hintFault: bool)
    requires i < |scans|
    ensures RewriteScans(acc, opts, entries, scans[..i + 1], appendFault, hintFault)
      == match RewriteScans(acc, opts, entries, scans[..i], appendFault, hintFault)
         case Err(e) => Err(e)
         case Ok(acc2) => RewriteScan(acc2, opts, entries, scans[i].0, scans[i].1, appendFault, hintFault)
  {
    assert scans[..i + 1][..i] == scans[..i];
  }

  // --- What a merge leaves behind.

  /** The finished file read back from offset 0 gives the finished record;
      its key is `merge.finished` and its value parses as the first file id
      not merged. */
  lemma FinishedReadBack(nonMergeFileId: uint32)
    ensures var r := FinishedRecord(nonMergeFileId);
      && ReadLogRecord(OpenDataFile(0, Encoding(r)), 0) == Read(r, |Encoding(r)|)
      && AsciiString(r.key) == MergeFinishedKey
      && Atoi(AsciiString(r.value)) == Some(nonMergeFileId as int)
  {
    var r := FinishedRecord(nonMergeFileId);
    assert Encoding(r)[0..|Encoding(r)|] == Encoding(r);
    ReadEncoded(OpenDataFile(0, Encoding(r)), 0, r);
    AsciiRoundTrip(MergeFinishedKey);
    AsciiRoundTrip(Itoa(nonMergeFileId));
    AtoiItoa(nonMergeFileId);
  }

  /** A merge that gets past sealing the active file merges the older files
      and the sealed active file, all below the id of the new active file. */
  lemma MergeSplitsAtNewActive(fs: Files, a: DataFile, entries: map<seq<byte>, LogRecordPos>, opts: Options,
                               fault: MergeFault, appendFault: IoFault)
    requires WellFormed(fs) && NoWrap(fs) && fs.active == Some(a)
    requires fault != SyncActiveFault && fault != OpenActiveFault
    ensures MergeResult(fs, entries, opts, false, fault, appendFault).files
            == Files(Some(DataFile(a.fileId + 1, 0, [])), fs.older[a.fileId := a])
    ensures forall id :: id in fs.older ==> id < a.fileId + 1
  {
    var sealed := Files(fs.active, fs.older[a.fileId := a]);
    assert NextFileId(fs.active) == a.fileId + 1;
    MergeIsCompact(fs, a, entries, opts, fault, appendFault);
    assert OpenNext(sealed) == Files(Some(DataFile(a.fileId + 1, 0, [])), fs.older[a.fileId := a]);
  }

  /** A successful merge records the id of the new active file in its
      finished record: the files below it are the merged ones. */
  lemma MergeFinishedNamesNewActive(fs: Files, a: DataFile, entries: map<seq<byte>, LogRecordPos>, opts: Options,
                                    fault: MergeFault, appendFault: IoFault)
    requires fs.active == Some(a)
    ensures var m := MergeResult(fs, entries, opts, false, fault, appendFault);
      m.err.None? && fault != HintOpenFault ==>
        m.files.active.Some? && m.output.finished == Encoding(FinishedRecord(m.files.active.value.fileId))
  {
    if fault != SyncActiveFault && fault != OpenActiveFault {
      MergeIsCompact(fs, a, entries, opts, fault, appendFault);
      CompactFinished(fs.older[a.fileId := a], entries, opts, NextFileId(fs.active), fault, appendFault);
    }
  }

  lemma CompactFinished(older: map<uint32, DataFile>, entries: map<seq<byte>, LogRecordPos>, opts: Options,
                        nonMergeFileId: uint32, fault: MergeFault, appendFault: IoFault)
    ensures var r := CompactResult(older, entries, opts, nonMergeFileId, fault, appendFault);
      r.Ok? && fault != HintOpenFault ==> r.value.finished == Encoding(FinishedRecord(nonMergeFileId))
  {
    if fault != MergeDirFault && fault != HintOpenFault {
      var mergeOpts := MergeOptions(opts);
      var o := OpenEmpty(mergeOpts, MergeOpenLoadFault(fault));
      if o.Ok? {
        RewriteAndFinishFinished(older, entries, mergeOpts, o.value.files, nonMergeFileId, fault, appendFault);
      }
    }
  }

  lemma RewriteAndFinishFinished(older: map<uint32, DataFile>, entries: map<seq<byte>, LogRecordPos>,
                                  mergeOpts: Options, files0: Files, nonMergeFileId: uint32,
                                  fault: MergeFault, appendFault: IoFault)
    ensures var r := RewriteAndFinish(older, entries, mergeOpts, files0, nonMergeFileId, fault, appendFault);
      r.Ok? ==> r.value.finished == Encoding(FinishedRecord(nonMergeFileId))
  {
  }

  /** The keys of a sequence of hints. */
  function HintKeys(hints: seq<Hint>): (keys: seq<seq<byte>>)
    ensures |keys| == |hints| && forall i :: 0 <= i < |hints| ==> keys[i] == hints[i].0
  {
    seq(|hints|, i requires 0 <= i < |hints| => hints[i].0)
  }

  /** The user keys of the records among `recs` that the index points at,
      in order. */
  function LiveKeys(entries: map<seq<byte>, LogRecordPos>, fid: uint32, recs: seq<(LogRecord, int)>): seq<seq<byte>>
    decreases |recs|
  {
    if |recs| == 0 then []
    else
      var last := recs[|recs| - 1];
      LiveKeys(entries, fid, recs[..|recs| - 1])
        + if Live(entries, fid, last.0, last.1) then [ParseLogRecordKey(last.0.key).0] else []
  }

  /** The live keys of the files read as `scans`, file after file. */
  function LiveKeysOfScans(entries: map<seq<byte>, LogRecordPos>, scans: seq<(uint32, Scan)>): seq<seq<byte>>
    decreases |scans|
  {
    if |scans| == 0 then []
    else
      var last := scans[|scans| - 1];
      LiveKeysOfScans(entries, scans[..|scans| - 1]) + LiveKeys(entries, last.0, last.1.records)
  }

  lemma HintKeysSnoc(hints: seq<Hint>, h: Hint)
    ensures HintKeys(hints + [h]) == HintKeys(hints) + [h.0]
  {
  }

  /** Rewriting one file's records adds one hint per live record, in order. */
  lemma {:induction false} RewriteRecordsKeys(acc: Rewritten, opts: Options, entries: map<seq<byte>, LogRecordPos>,
                                              fid: uint32, recs: seq<(LogRecord, int)>,
                                              appendFault: IoFault, hintFault: bool)
    requires RewriteRecords(acc, opts, entries, fid, recs, appendFault, hintFault).Ok?
    ensures HintKeys(RewriteRecords(acc, opts, entries, fid, recs, appendFault, hintFault).value.hints)
         == HintKeys(acc.hints) + LiveKeys(entries, fid, recs)
    decreases |recs|
  {
    if |recs| == 0 {
      assert HintKeys(acc.hints) + [] == HintKeys(acc.hints);
    } else {
      var front := recs[..|recs| - 1];
      RewriteRecordsKeys(acc, opts, entries, fid, front, appendFault, hintFault);
      var acc2 := RewriteRecords(acc, opts, entries, fid, front, appendFault, hintFault).value;
      var last := recs[|recs| - 1];
      if Live(entries, fid, last.0, last.1) {
        var c := Cleaned(last.0);
        var a := AppendLogRecord(acc2.files, opts, c, appendFault);
        HintKeysSnoc(acc2.hints, (ParseLogRecordKey(last.0.key).0, a.pos.value));
      } else {
        assert LiveKeys(entries, fid, recs) == LiveKeys(entries, fid, front) + [];
      }
    }
  }

  /** Rewriting files adds one hint per live record, file after file. */
  lemma {:induction false} RewriteScansKeys(acc: Rewritten, opts: Options, entries: map<seq<byte>, LogRecordPos>,
                                            scans: seq<(uint32, Scan)>, appendFault: IoFault, hintFault: bool)
    requires RewriteScans(acc, opts, entries, scans, appendFault, hintFault).Ok?
    ensures HintKeys(RewriteScans(acc, opts, entries, scans, appendFault, hintFault).value.hints)
         == HintKeys(acc.hints) + LiveKeysOfScans(entries, scans)
    decreases |scans|
  {
    if |scans| == 0 {
      assert HintKeys(acc.hints) + [] == HintKeys(acc.hints);
    } else {
      var front := scans[..|scans| - 1];
      var last := scans[|scans| - 1];
      RewriteScansKeys(acc, opts, entries, front, appendFault, hintFault);
      var acc2 := RewriteScans(acc, opts, entries, front, appendFault, hintFault).value;
      RewriteRecordsKeys(acc2, opts, entries, last.0, last.1.records, appendFault, hintFault);
    }
  }

  /** A merge's hint file lists exactly the keys of the records the index
      pointed at, file by file in id order and record by record in file
      order. */
  lemma MergeHintKeys(older: map<uint32, DataFile>, entries: map<seq<byte>, LogRecordPos>, opts: Options,
                      nonMergeFileId: uint32, fault: MergeFault, appendFault: IoFault)
    requires CompactResult(older, entries, opts, nonMergeFileId, fault, appendFault).Ok?
    requires fault != HintOpenFault
    ensures HintKeys(CompactResult(older, entries, opts, nonMergeFileId, fault, appendFault).value.hints)
         == LiveKeysOfScans(entries, ScansOf(older, Ordered(older.Keys)))
  {
    var o := OpenEmpty(MergeOptions(opts), MergeOpenLoadFault(fault)).value;
    RewriteScansKeys(Rewritten(o.files, []), MergeOptions(opts), entries, ScansOf(older, Ordered(older.Keys)), appendFault,
                     fault == HintWriteFault);
  }

  // --- Where the hints point.

  /** Older file `id` is the data file of id `id`. */
  predicate FiledById(older: map<uint32, DataFile>)
  {
    forall id :: id in older ==> older[id].fileId == id
  }

  /** Every record among `recs` that the index points at is the record that
      `records` names for its key. */
  predicate LiveAgree(entries: map<seq<byte>, LogRecordPos>, records: map<seq<byte>, LogRecord>, fid: uint32,
                      recs: seq<(LogRecord, int)>)
  {
    forall j :: 0 <= j < |recs| && Live(entries, fid, recs[j].0, recs[j].1) ==>
      ParseLogRecordKey(recs[j].0.key).0 in records && records[ParseLogRecordKey(recs[j].0.key).0] == recs[j].0
  }

  predicate ScansAgree(entries: map<seq<byte>, LogRecordPos>, records: map<seq<byte>, LogRecord>,
                       scans: seq<(uint32, Scan)>)
  {
    forall i :: 0 <= i < |scans| ==> LiveAgree(entries, records, scans[i].0, scans[i].1.records)
  }

  /** On a sound state, the live records the merge reads from the files of
      `ids` are the records the index names. */
  lemma SoundScansAgree(fs: Files, entries: map<seq<byte>, LogRecordPos>, records: map<seq<byte>, LogRecord>,
                        older: map<uint32, DataFile>, ids: seq<uint32>)
    requires Sound(fs, entries, records) && FiledById(older)
    requires forall i :: 0 <= i < |ids| ==> ids[i] in older && FileAt(fs, ids[i]) == Some(older[ids[i]])
    ensures ScansAgree(entries, records, ScansOf(older, ids))
  {
    var scans := ScansOf(older, ids);
    forall i | 0 <= i < |scans|
      ensures LiveAgree(entries, records, scans[i].0, scans[i].1.records)
    {
      FileLiveAgree(fs, entries, records, older[ids[i]]);
    }
  }

  lemma FileLiveAgree(fs: Files, entries: map<seq<byte>, LogRecordPos>, records: map<seq<byte>, LogRecord>,
                      f: DataFile)
    requires Sound(fs, entries, records) && FileAt(fs, f.fileId) == Some(f)
    ensures LiveAgree(entries, records, f.fileId, ScanFile(f, 0).records)
  {
    var recs := ScanFile(f, 0).records;
    ScanReadsBack(f, 0);
    forall j | 0 <= j < |recs| && Live(entries, f.fileId, recs[j].0, recs[j].1)
      ensures ParseLogRecordKey(recs[j].0.key).0 in records && records[ParseLogRecordKey(recs[j].0.key).0] == recs[j].0
    {
      var k := ParseLogRecordKey(recs[j].0.key).0;
      ReadHeld(fs, entries[k], records[k]);
    }
  }

  /** Each hint names a key of `records` and a position of `files` that
      holds that key's record as the merge rewrites it. */
  predicate HintsHold(files: Files, hints: seq<Hint>, records: map<seq<byte>, LogRecord>)
  {
    forall i :: 0 <= i < |hints| ==> hints[i].0 in records && HoldsAt(files, hints[i].1, Cleaned(records[hints[i].0]))
  }

  /** The merge instance's files are well formed and its active id is at
      most the number of hints written. */
  predicate Bounded(acc: Rewritten)
  {
    WellFormed(acc.files) && (acc.files.active.Some? ==> acc.files.active.value.fileId <= |acc.hints|)
  }

  /** Every record still fits its header once rewritten. */
  predicate CleanedFit(records: map<seq<byte>, LogRecord>)
  {
    forall k :: k in records ==> SizesFit(Cleaned(records[k]))
  }

  /** Rewriting one record keeps the hints pointing at their records and
      adds at most one. */
  lemma RewriteRecordHolds(acc: Rewritten, opts: Options, entries: map<seq<byte>, LogRecordPos>,
                           records: map<seq<byte>, LogRecord>, fid: uint32, x: (LogRecord, int),
                           appendFault: IoFault, hintFault: bool)
    requires Bounded(acc) && HintsHold(acc.files, acc.hints, records) && |acc.hints| + 1 < Uint32Modulus
    requires CleanedFit(records) && LiveAgree(entries, records, fid, [x])
    ensures var r := RewriteRecord(acc, opts, entries, fid, x, appendFault, hintFault);
      r.Ok? ==> Bounded(r.value) && HintsHold(r.value.files, r.value.hints, records) && |r.value.hints| <= |acc.hints| + 1
  {
    var record := x.0;
    var c := Cleaned(record);
    if Live(entries, fid, record, x.1) && HeaderFits(c) {
      assert [x][0] == x;
      var k := ParseLogRecordKey(record.key).0;
      assert records[k] == record;
      AppendFacts(acc.files, opts, c, appendFault);
      AppendActiveId(acc.files, opts, c, appendFault);
      var a := AppendLogRecord(acc.files, opts, c, appendFault);
      if a.pos.Ok? {
        var hints := acc.hints + [(k, a.pos.value)];
        forall i | 0 <= i < |hints|
          ensures hints[i].0 in records && HoldsAt(a.files, hints[i].1, Cleaned(records[hints[i].0]))
        {
          if i < |acc.hints| {
            HeldAfterExtend(acc.files, a.files, acc.hints[i].1, Cleaned(records[acc.hints[i].0]));
          }
        }
      }
    }
  }

  /** Rewriting a file's records keeps the hints pointing at their records. */
  lemma {:induction false} RewriteRecordsHold(acc: Rewritten, opts: Options, entries: map<seq<byte>, LogRecordPos>,
                                              records: map<seq<byte>, LogRecord>, fid: uint32,
                                              recs: seq<(LogRecord, int)>, appendFault: IoFault, hintFault: bool)
    requires Bounded(acc) && HintsHold(acc.files, acc.hints, records) && |acc.hints| + |recs| < Uint32Modulus
    requires CleanedFit(records) && LiveAgree(entries, records, fid, recs)
    ensures var r := RewriteRecords(acc, opts, entries, fid, recs, appendFault, hintFault);
      r.Ok? ==> Bounded(r.value) && HintsHold(r.value.files, r.value.hints, records)
                && |r.value.hints| <= |acc.hints| + |recs|
    decreases |recs|
  {
    if |recs| > 0 {
      var front, last := recs[..|recs| - 1], recs[|recs| - 1];
      assert LiveAgree(entries, records, fid, front) by {
        forall j | 0 <= j < |front| ensures front[j] == recs[j] { }
      }
      assert LiveAgree(entries, records, fid, [last]);
      RewriteRecordsHold(acc, opts, entries, records, fid, front, appendFault, hintFault);
      var r := RewriteRecords(acc, opts, entries, fid, front, appendFault, hintFault);
      if r.Ok? {
        RewriteRecordHolds(r.value, opts, entries, records, fid, last, appendFault, hintFault);
      }
    }
  }

  /** The number of records the scans list. */
  function RecordCount(scans: seq<(uint32, Scan)>): (n: nat)
    ensures |scans| > 0 ==> n == RecordCount(scans[..|scans| - 1]) + |scans[|scans| - 1].1.records|
    decreases |scans|
  {
    if |scans| == 0 then 0 else RecordCount(scans[..|scans| - 1]) + |scans[|scans| - 1].1.records|
  }

  /** Rewriting files keeps the hints pointing at their records. */
  lemma {:induction false} RewriteScansHold(acc: Rewritten, opts: Options, entries: map<seq<byte>, LogRecordPos>,
                                            records: map<seq<byte>, LogRecord>, scans: seq<(uint32, Scan)>,
                                            appendFault: IoFault, hintFault: bool)
    requires Bounded(acc) && HintsHold(acc.files, acc.hints, records) && |acc.hints| + RecordCount(scans) < Uint32Modulus
    requires CleanedFit(records) && ScansAgree(entries, records, scans)
    ensures var r := RewriteScans(acc, opts, entries, scans, appendFault, hintFault);
      r.Ok? ==> Bounded(r.value) && HintsHold(r.value.files, r.value.hints, records)
                && |r.value.hints| <= |acc.hints| + RecordCount(scans)
    decreases |scans|
  {
    if |scans| > 0 {
      var front, last := scans[..|scans| - 1], scans[|scans| - 1];
      assert ScansAgree(entries, records, front) by {
        forall i | 0 <= i < |front| ensures front[i] == scans[i] { }
      }
      RewriteScansHold(acc, opts, entries, records, front, appendFault, hintFault);
      var r := RewriteScans(acc, opts, entries, front, appendFault, hintFault);
      if r.Ok? {
        RewriteRecordsHold(r.value, opts, entries, records, last.0, last.1.records, appendFault, hintFault);
      }
    }
  }

  /** On a sound state whose keys leave room for the rewritten key's zero
      byte, every record fits its header once rewritten. */
  lemma SoundCleanedFit(fs: Files, entries: map<seq<byte>, LogRecordPos>, records: map<seq<byte>, LogRecord>)
    requires Sound(fs, entries, records)
    requires forall k :: k in entries ==> |k| + 1 < Uint32Modulus
    ensures CleanedFit(records)
  {
    forall k | k in records
      ensures SizesFit(Cleaned(records[k]))
    {
      NonTransactionalKey(k);
    }
  }

  /** What compacting the older files needs of them: each record fits its
      header once rewritten, the live records scanned are the ones the
      index names, and the hints fit in 32 bits. */
  ghost predicate Compactable(older: map<uint32, DataFile>, entries: map<seq<byte>, LogRecordPos>,
                              records: map<seq<byte>, LogRecord>)
  {
    && CleanedFit(records) && ScansAgree(entries, records, ScansOf(older, Ordered(older.Keys)))
    && RecordCount(ScansOf(older, Ordered(older.Keys))) < Uint32Modulus
  }

  /** A compaction result, when there is one, is well-formed files whose
      hints point at the records named, rewritten. */
  predicate HintsPoint(r: Result<MergeOutput, Error>, records: map<seq<byte>, LogRecord>)
  {
    r.Ok? ==> WellFormed(r.value.files) && HintsHold(r.value.files, r.value.hints, records)
  }

  /** The hints of a successful compaction point, in the merge instance's
      files, at the records the index names, rewritten. */
  lemma CompactHintsHold(older: map<uint32, DataFile>, entries: map<seq<byte>, LogRecordPos>,
                         records: map<seq<byte>, LogRecord>, opts: Options, nonMergeFileId: uint32,
                         fault: MergeFault, appendFault: IoFault)
    requires Compactable(older, entries, records)
    ensures fault != HintOpenFault ==> HintsPoint(CompactResult(older, entries, opts, nonMergeFileId, fault, appendFault), records)
  {
    if fault != MergeDirFault && fault != HintOpenFault {
      var o := OpenEmpty(MergeOptions(opts), MergeOpenLoadFault(fault));
      if o.Ok? {
        RewriteAndFinishHolds(older, entries, records, MergeOptions(opts), o.value.files, nonMergeFileId,
                              fault, appendFault);
      }
    }
  }

  /** The rewrite-and-finish half of `CompactHintsHold`, from any well-formed
      merge instance without an active file. */
  lemma RewriteAndFinishHolds(older: map<uint32, DataFile>, entries: map<seq<byte>, LogRecordPos>,
                              records: map<seq<byte>, LogRecord>, mergeOpts: Options, files0: Files,
                              nonMergeFileId: uint32, fault: MergeFault, appendFault: IoFault)
    requires WellFormed(files0) && files0.active.None? && Compactable(older, entries, records)
    ensures HintsPoint(RewriteAndFinish(older, entries, mergeOpts, files0, nonMergeFileId, fault, appendFault), records)
  {
    RewriteScansHold(Rewritten(files0, []), mergeOpts, entries, records, ScansOf(older, Ordered(older.Keys)),
                     appendFault, fault == HintWriteFault);
  }

  /** The files a merge of `fs` reads: the older files and the sealed active
      file, in id order. */
  ghost function MergedScans(fs: Files): (scans: seq<(uint32, Scan)>)
    requires fs.active.Some?
  {
    var a := fs.active.value;
    var sealed := fs.older[a.fileId := a];
    ScansOf(sealed, Ordered(sealed.Keys))
  }

  /** A sound state with an active file, whose file ids and record count
      leave room for the merge, and whose keys fit the record key length. */
  ghost predicate Mergeable(fs: Files, entries: map<seq<byte>, LogRecordPos>, records: map<seq<byte>, LogRecord>)
  {
    && Sound(fs, entries, records) && NoWrap(fs) && fs.active.Some? && FiledById(fs.older)
    && (forall k :: k in entries ==> |k| + 1 < Uint32Modulus)
    && RecordCount(MergedScans(fs)) < Uint32Modulus
  }

  /** The compaction of the sealed files of a mergeable state leaves hints
      that point at the records the index names. */
  lemma SealedHintsPoint(fs: Files, entries: map<seq<byte>, LogRecordPos>, records: map<seq<byte>, LogRecord>,
                         opts: Options, fault: MergeFault, appendFault: IoFault)
    requires Mergeable(fs, entries, records)
    requires fault != HintOpenFault
    ensures var a := fs.active.value;
      var m := Compacted(OpenNext(Files(fs.active, fs.older[a.fileId := a])),
                         CompactResult(fs.older[a.fileId := a], entries, opts, NextFileId(fs.active), fault, appendFault));
      m.err.None? ==> WellFormed(m.output.files) && HintsHold(m.output.files, m.output.hints, records)
  {
    var a := fs.active.value;
    var id := NextFileId(fs.active);
    var c := CompactResult(fs.older[a.fileId := a], entries, opts, id, fault, appendFault);
    SealedCompactable(fs, entries, records);
    CompactHintsHold(fs.older[a.fileId := a], entries, records, opts, id, fault, appendFault);
    CompactedHintsPoint(OpenNext(Files(fs.active, fs.older[a.fileId := a])), c, records);
  }

  lemma MergeHintsPoint(fs: Files, entries: map<seq<byte>, LogRecordPos>, records: map<seq<byte>, LogRecord>,
                        opts: Options, fault: MergeFault, appendFault: IoFault)
    requires Mergeable(fs, entries, records)
    ensures var m := MergeResult(fs, entries, opts, false, fault, appendFault);
      m.err.None? && fault != HintOpenFault ==>
        WellFormed(m.output.files) && HintsHold(m.output.files, m.output.hints, records)
  {
    if fault != SyncActiveFault && fault != OpenActiveFault && fault != HintOpenFault {
      SealedHintsPoint(fs, entries, records, opts, fault, appendFault);
      MergeIsCompact(fs, fs.active.value, entries, opts, fault, appendFault);
    }
  }

  lemma CompactedHintsPoint(files: Files, c: Result<MergeOutput, Error>, records: map<seq<byte>, LogRecord>)
    requires HintsPoint(c, records)
    ensures var m := Compacted(files, c);
      m.err.None? ==> WellFormed(m.output.files) && HintsHold(m.output.files, m.output.hints, records)
  {
  }

  /** Past sealing the active file, a merge's outcome is the next files and
      the compaction of the sealed files for the next id. */
  lemma MergeIsCompact(fs: Files, a: DataFile, entries: map<seq<byte>, LogRecordPos>, opts: Options,
                       fault: MergeFault, appendFault: IoFault)
    requires fs.active == Some(a)
    requires fault != SyncActiveFault && fault != OpenActiveFault
    ensures MergeResult(fs, entries, opts, false, fault, appendFault)
      == Compacted(OpenNext(Files(fs.active, fs.older[a.fileId := a])),
                   CompactResult(fs.older[a.fileId := a], entries, opts, NextFileId(fs.active), fault, appendFault))
  {
  }

  /** On a sound state, the older files and the sealed active file can be
      compacted against the index. */
  lemma SealedCompactable(fs: Files, entries: map<seq<byte>, LogRecordPos>, records: map<seq<byte>, LogRecord>)
    requires Mergeable(fs, entries, records)
    ensures Compactable(fs.older[fs.active.value.fileId := fs.active.value], entries, records)
  {
    var a := fs.active.value;
    var sealed := Files(fs.active, fs.older[a.fileId := a]);
    var next := OpenNext(sealed);
    RotateExtends(fs);
    SoundAfterExtend(fs, next, entries, records);
    var ids := Ordered(sealed.older.Keys);
    forall i | 0 <= i < |ids|
      ensures ids[i] in sealed.older && FileAt(next, ids[i]) == Some(sealed.older[ids[i]])
    {
      assert ids[i] in sealed.older.Keys;
    }
    SoundScansAgree(next, entries, records, sealed.older, ids);
    SoundCleanedFit(fs, entries, records);
  }

  /** A position holding a record that is not a tombstone reads back as its
      value. */
  lemma ValueHeld(files: Files, pos: LogRecordPos, r: LogRecord)
    requires WellFormed(files) && HoldsAt(files, pos, r) && r.recordType != LogRecordDeleted
    ensures ValueByPosition(files, pos) == Ok(r.value)
  {
    ReadHeld(files, pos, r);
  }

  /** After a successful merge of a sound state, every hint names a key of
      the index, and the value read from the merge instance at the hint's
      position is that key's value before the merge: what `Get` returned. */
  lemma MergeKeepsValues(fs: Files, entries: map<seq<byte>, LogRecordPos>, records: map<seq<byte>, LogRecord>,
                         opts: Options, fault: MergeFault, appendFault: IoFault)
    requires Mergeable(fs, entries, records)
    ensures var m := MergeResult(fs, entries, opts, false, fault, appendFault);
      m.err.None? && fault != HintOpenFault ==>
        forall i :: 0 <= i < |m.output.hints| ==>
          && m.output.hints[i].0 in entries
          && ValueByPosition(m.output.files, m.output.hints[i].1) == Ok(Contents(records)[m.output.hints[i].0])
          && (|m.output.hints[i].0| > 0 ==>
                GetResult(fs, entries, m.output.hints[i].0) == ValueByPosition(m.output.files, m.output.hints[i].1))
  {
    MergeHintsPoint(fs, entries, records, opts, fault, appendFault);
    var m := MergeResult(fs, entries, opts, false, fault, appendFault);
    if m.err.None? && fault != HintOpenFault {
      var out := m.output;
      forall i | 0 <= i < |out.hints|
        ensures && out.hints[i].0 in entries
                && ValueByPosition(out.files, out.hints[i].1) == Ok(Contents(records)[out.hints[i].0])
                && (|out.hints[i].0| > 0 ==> GetResult(fs, entries, out.hints[i].0) == ValueByPosition(out.files, out.hints[i].1))
      {
        var k := out.hints[i].0;
        ValueHeld(out.files, out.hints[i].1, Cleaned(records[k]));
        if |k| > 0 {
          GetContents(fs, entries, records, k);
        }
      }
    }
  }

  // --- The merge as Go runs it.

  /** The inner loop of `Merge` over the records read from one file. */
  method RewriteFileRecords(mergeDB: DB, index: Index.BTree, fid: uint32, records: seq<(LogRecord, int)>,
                            hints0: seq<Hint>, appendFault: IoFault, hintFault: bool)
    returns (hints: seq<Hint>, err: Option<Error>)
    requires index.Invariant()
    modifies mergeDB
    ensures match RewriteRecords(Rewritten(old(mergeDB.FileSet()), hints0), mergeDB.options, index.entries, fid,
                                 records, appendFault, hintFault)
      case Err(e) => err == Some(e)
      case Ok(acc) => err == None && acc == Rewritten(mergeDB.FileSet(), hints)
  {
    hints := hints0;
    ghost var acc0 := Rewritten(mergeDB.FileSet(), hints0);
    for j := 0 to |records|
      invariant RewriteRecords(acc0, mergeDB.options, index.entries, fid, records[..j], appendFault, hintFault)
                == Ok(Rewritten(mergeDB.FileSet(), hints))
    {
      ghost var before := Rewritten(mergeDB.FileSet(), hints);
      assert records[..j + 1][..j] == records[..j];
      var record := records[j].0;
      var realKey := ParseLogRecordKey(record.key).0;
      var pos := index.Get(realKey);
      if pos.Some? && pos.value.fid == fid && pos.value.offset == records[j].1 {
        var cleaned := record.(key := LogRecordKeyWithSeq(realKey, NonTransactionSeqNo));
        assert cleaned == Cleaned(record);
        if !HeaderFits(cleaned) {
          RewriteRecordsErr(acc0, mergeDB.options, index.entries, fid, records, j + 1, appendFault, hintFault, SliceOutOfRange);
          return hints, Some(SliceOutOfRange);
        }
        var newPos := mergeDB.AppendLogRecord(cleaned, appendFault);
        if newPos.Err? {
          RewriteRecordsErr(acc0, mergeDB.options, index.entries, fid, records, j + 1, appendFault, hintFault, newPos.error);
          return hints, Some(newPos.error);
        }
        if hintFault {
          RewriteRecordsErr(acc0, mergeDB.options, index.entries, fid, records, j + 1, appendFault, hintFault, ErrIO);
          return hints, Some(ErrIO);
        }
        hints := hints + [(realKey, newPos.value)];
      }
    }
    assert records[..|records|] == records;
    err := None;
  }

  /** One file of `Merge`: read its records from offset 0 until the end and
      rewrite the live ones. */
  method MergeFile(mergeDB: DB, index: Index.BTree, dataFile: DataFile, hints0: seq<Hint>,
                   appendFault: IoFault, hintFault: bool)
    returns (hints: seq<Hint>, err: Option<Error>)
    requires index.Invariant()
    modifies mergeDB
    ensures match RewriteScan(Rewritten(old(mergeDB.FileSet()), hints0), mergeDB.options, index.entries,
                              dataFile.fileId, ScanFile(dataFile, 0), appendFault, hintFault)
      case Err(e) => err == Some(e)
      case Ok(acc) => err == None && acc == Rewritten(mergeDB.FileSet(), hints)
  {
    var records, stop, _ := ReadRecords(dataFile);
    hints, err := RewriteFileRecords(mergeDB, index, dataFile.fileId, records, hints0, appendFault, hintFault);
    if err.None? && stop.Some? {
      err := stop;
    }
  }

  /** The loop of `Merge` over the files to merge, in the order given. */
  method MergeFiles(mergeDB: DB, index: Index.BTree, older: map<uint32, DataFile>, ids: seq<uint32>,
                    appendFault: IoFault, hintFault: bool)
    returns (hints: seq<Hint>, err: Option<Error>)
    requires index.Invariant()
    requires forall i :: 0 <= i < |ids| ==> ids[i] in older
    modifies mergeDB
    ensures match RewriteScans(Rewritten(old(mergeDB.FileSet()), []), mergeDB.options, index.entries, ScansOf(older, ids),
                               appendFault, hintFault)
      case Err(e) => err == Some(e)
      case Ok(acc) => err == None && acc == Rewritten(mergeDB.FileSet(), hints)
  {
    hints := [];
    ghost var acc0 := Rewritten(mergeDB.FileSet(), []);
    ghost var scans := ScansOf(older, ids);
    for i := 0 to |ids|
      invariant RewriteScans(acc0, mergeDB.options, index.entries, scans[..i], appendFault, hintFault)
                == Ok(Rewritten(mergeDB.FileSet(), hints))
    {
      RewriteScansStep(acc0, mergeDB.options, index.entries, scans, i, appendFault, hintFault);
      assert scans[i] == (older[ids[i]].fileId, ScanFile(older[ids[i]], 0));
      hints, err := MergeFile(mergeDB, index, older[ids[i]], hints, appendFault, hintFault);
      if err.Some? {
        RewriteScansErr(acc0, mergeDB.options, index.entries, scans, i + 1, appendFault, hintFault, err.value);
        return;
      }
    }
    assert scans[..|scans|] == scans;
    err := None;
  }

  /** The part of `Merge` after the active file is sealed. */
  method Compact(older: map<uint32, DataFile>, index: Index.BTree, opts: Options, nonMergeFileId: uint32,
                 fault: MergeFault, appendFault: IoFault)
    returns (r: Result<MergeOutput, Error>)
    requires index.Invariant()
    ensures r == CompactResult(older, index.entries, opts, nonMergeFileId, fault, appendFault)
  {
    var ids := SortedIds(older);
    if fault == MergeDirFault {
      return Err(ErrIO);
    }
    var mergeOptions := opts.(dirPath := Paths.MergePath(opts.dirPath), syncWrites := false);
    var mergeOpen := Open(mergeOptions, [], map[], MergeOpenLoadFault(fault));
    OpenEmptyIsOpen(mergeOptions, MergeOpenLoadFault(fault));
    if mergeOpen.Err? {
      return Err(mergeOpen.error);
    }
    if fault == HintOpenFault {
      return Ok(NoOutput);
    }
    r := RewriteInto(mergeOpen.value, index, older, ids, nonMergeFileId, fault, appendFault);
  }

  /** `Merge` from the loop over the files on, into the merge instance. */
  method RewriteInto(mergeDB: DB, index: Index.BTree, older: map<uint32, DataFile>, ids: seq<uint32>,
                     nonMergeFileId: uint32, fault: MergeFault, appendFault: IoFault)
    returns (r: Result<MergeOutput, Error>)
    requires index.Invariant() && ids == Ordered(older.Keys)
    modifies mergeDB
    ensures r == RewriteAndFinish(older, index.entries, mergeDB.options, old(mergeDB.FileSet()), nonMergeFileId,
                                  fault, appendFault)
  {
    var hints, err := MergeFiles(mergeDB, index, older, ids, appendFault, fault == HintWriteFault);
    if err.Some? {
      return Err(err.value);
    }
    if fault == HintSyncFault || (fault == MergeSyncFault && mergeDB.activeFile.Some?) {
      return Err(ErrIO);
    }
    if fault == FinishedOpenFault || fault == FinishedWriteFault || fault == FinishedSyncFault {
      return Err(ErrIO);
    }
    var encRecord, _ := EncodeLogRecord(FinishedRecord(nonMergeFileId));
    r := Ok(MergeOutput(mergeDB.FileSet(), hints, encRecord[..]));
  }

  /** `Merge` on an engine: the `isMerging` flag is set for the duration and
      cleared on every return, as Go's deferred reset does. */
  method Merge(db: DB, fault: MergeFault, appendFault: IoFault) returns (err: Option<Error>, out: MergeOutput)
    requires db.Invariant()
    modifies db
    ensures db.Invariant() && db.isMerging == old(db.isMerging)
    ensures db.fileIds == old(db.fileIds) && db.seqNo == old(db.seqNo)
    ensures var m := MergeResult(old(db.FileSet()), db.index.entries, db.options, old(db.isMerging), fault, appendFault);
      db.FileSet() == m.files && err == m.err && (err.None? ==> out == m.output)
  {
    out := NoOutput;
    if db.activeFile.None? {
      return None, out;
    }
    if db.isMerging {
      return Some(ErrMergeInProgress), out;
    }
    db.isMerging := true;
    err, out := SealAndCompact(db, fault, appendFault);
    db.isMerging := false;
  }

  /** The steps of `Merge` once the flag is set. */
  method SealAndCompact(db: DB, fault: MergeFault, appendFault: IoFault) returns (err: Option<Error>, out: MergeOutput)
    requires db.Invariant() && db.activeFile.Some?
    modifies db
    ensures db.Invariant() && db.isMerging == old(db.isMerging)
    ensures db.fileIds == old(db.fileIds) && db.seqNo == old(db.seqNo)
    ensures var m := MergeResult(old(db.FileSet()), db.index.entries, db.options, false, fault, appendFault);
      db.FileSet() == m.files && err == m.err && (err.None? ==> out == m.output)
  {
    out := NoOutput;
    if fault == SyncActiveFault {
      return Some(ErrIO), out;
    }
    var active := db.activeFile.value;
    db.olderFiles := db.olderFiles[active.fileId := active];
    err := db.SetActiveDataFile(if fault == OpenActiveFault then OpenFault else NoFault);
    if err.Some? {
      return;
    }
    var nonMergeFileId := db.activeFile.value.fileId;
    var r := Compact(db.olderFiles, db.index, db.options, nonMergeFileId, fault, appendFault);
    match r
    case Err(e) => err := Some(e);
    case Ok(o) => out := o;
  }
}
