/** Rebuilding the index from the data files (`loadIndexFromDataFiles` in
    db.go): each file is read record by record from offset 0 until EOF;
    records outside any batch update the index at once, records of a batch
    are buffered under its sequence number until the batch's TxnFinished
    record is read, and then applied in the order they were buffered. */
module Replay {
  import opened Wrappers
  import opened Bytes
  import opened Data
  import opened DataFiles
  import opened Keys
  import opened Store

  /** The index being rebuilt, the buffered batch records by sequence number,
      and the largest sequence number seen. */
  datatype ReplayState = ReplayState(entries: map<seq<byte>, LogRecordPos>,
                                     txn: map<nat, seq<TransactionRecord>>,
                                     seqNo: nat)

  /** The records buffered for a batch; none for a batch not seen yet. */
  function Buffered(txn: map<nat, seq<TransactionRecord>>, s: nat): seq<TransactionRecord>
  {
    if s in txn then txn[s] else []
  }

  /** `updateIndex`: a tombstone deletes the key, anything else puts it; the
      B-tree refuses to delete an absent key, and that refusal is a panic
      (None). */
  function UpdateIndex(entries: map<seq<byte>, LogRecordPos>, key: seq<byte>, typ: LogRecordType,
                       pos: LogRecordPos): (r: Option<map<seq<byte>, LogRecordPos>>)
    ensures typ == LogRecordDeleted ==> (r.Some? <==> key in entries)
    ensures r.Some? ==> r.value.Keys == if typ == LogRecordDeleted then entries.Keys - {key} else entries.Keys + {key}
    ensures r.Some? && typ != LogRecordDeleted ==> r.value[key] == pos
    ensures r.Some? ==> forall k :: k in entries && k != key ==> k in r.value && r.value[k] == entries[k]
  {
    if typ == LogRecordDeleted then
      if key in entries then Some(entries - {key}) else None
    else Some(entries[key := pos])
  }

  /** A finished batch's buffered records applied to the index in order. */
  function ApplyBatch(entries: map<seq<byte>, LogRecordPos>, batch: seq<TransactionRecord>): (r: Option<map<seq<byte>, LogRecordPos>>)
    decreases |batch|
  {
    if |batch| == 0 then Some(entries)
    else
      match UpdateIndex(entries, batch[0].record.key, batch[0].record.recordType, batch[0].pos)
      case None => None
      case Some(e) => ApplyBatch(e, batch[1..])
  }

  function Max(a: nat, b: nat): nat
  {
    if a < b then b else a
  }

  /** One record read at `pos` during replay. */
  function ReplayRecord(st: ReplayState, record: LogRecord, pos: LogRecordPos): (r: Result<ReplayState, Error>)
  {
    var (realKey, s) := ParseLogRecordKey(record.key);
    var next :=
      if s == NonTransactionSeqNo then
        match UpdateIndex(st.entries, realKey, record.recordType, pos)
        case None => Err(StartupIndexFailure)
        case Some(e) => Ok(st.(entries := e))
      else if record.recordType == LogRecordTxnFinished then
        match ApplyBatch(st.entries, Buffered(st.txn, s))
        case None => Err(StartupIndexFailure)
        case Some(e) => Ok(st.(entries := e, txn := st.txn - {s}))
      else
        Ok(st.(txn := st.txn[s := Buffered(st.txn, s) + [TransactionRecord(record.(key := realKey), pos)]]));
    match next
    case Err(e) => Err(e)
    case Ok(st2) => Ok(st2.(seqNo := Max(st2.seqNo, s)))
  }

  /** Replay of a list of records read from file `fid`, paired with their
      offsets. */
  function ReplayRecords(st: ReplayState, fid: uint32, rs: seq<(LogRecord, int)>): (r: Result<ReplayState, Error>)
    decreases |rs|
  {
    if |rs| == 0 then Ok(st)
    else
      match ReplayRecord(st, rs[0].0, LogRecordPos(fid, rs[0].1))
      case Err(e) => Err(e)
      case Ok(st2) => ReplayRecords(st2, fid, rs[1..])
  }

  /** What one file holds from `offset` on: the records read until the first
      failed read, their offsets, why reading stopped (None for EOF), and
      where. */
  datatype Scan = Scan(records: seq<(LogRecord, int)>, stop: Option<Error>, end: int)

  /** Reading the file at the offset paired with a record gives that record. */
  predicate ReadsAt(f: DataFile, x: (LogRecord, int))
  {
    ReadLogRecord(f, x.1).Read? && ReadLogRecord(f, x.1).record == x.0
  }

  /** Every record of `recs` reads back from `f` at its offset. */
  predicate ReadsBack(f: DataFile, recs: seq<(LogRecord, int)>)
  {
    forall j :: 0 <= j < |recs| ==> ReadsAt(f, recs[j])
  }

  function ScanFile(f: DataFile, offset: int): (r: Scan)
    decreases |f.content| - offset
  {
    match ReadLogRecord(f, offset)
    case Eof => Scan([], None, offset)
    case InvalidCrc => Scan([], Some(ErrInvalidCRC), offset)
    case ReadPanic => Scan([], Some(SliceOutOfRange), offset)
    case Read(record, size) =>
      var rest := ScanFile(f, offset + size);
      Scan([(record, offset)] + rest.records, rest.stop, rest.end)
  }

  /** The inner loop of replay over one file, from `offset`: each record is
      applied as soon as it is read, so a panic while applying a record
      comes before a read error further on; otherwise the state after the
      last record and the offset where EOF was met. */
  function ReplayFile(st: ReplayState, f: DataFile, fid: uint32, offset: int): (r: Result<(ReplayState, int), Error>)
  {
    var scan := ScanFile(f, offset);
    match ReplayRecords(st, fid, scan.records)
    case Err(e) => Err(e)
    case Ok(st2) => if scan.stop.Some? then Err(scan.stop.value) else Ok((st2, scan.end))
  }

  /** The outer loop of replay over the file ids from the `i`-th on. Each id
      is first compared with the active file's id (Go dereferences the nil
      active file when there is none), and names the active file when they
      agree and an older file otherwise (a nil file when there is no such
      older file). The result carries the offset where the last file ended. */
  function ReplayFrom(fs: Files, ids: seq<int>, i: nat, st: ReplayState, lastEnd: int): (r: Result<(ReplayState, int), Error>)
    requires i <= |ids|
    ensures r.Ok? && i < |ids| ==> fs.active.Some?
    decreases |ids| - i, 1
  {
    if i == |ids| then Ok((st, lastEnd))
    else if fs.active.None? then Err(NilDereference)
    else
      var fid := ToUint32(ids[i]);
      match FileAt(fs, fid)
      case None => Err(NilDereference)
      case Some(f) => ReplayFromFile(fs, ids, i, st, f, fid, 0)
  }

  /** Replay of the `i`-th file `f` from `offset` on, followed by the files
      after it. */
  function ReplayFromFile(fs: Files, ids: seq<int>, i: nat, st: ReplayState, f: DataFile, fid: uint32,
                          offset: int): (r: Result<(ReplayState, int), Error>)
    requires i < |ids|
    decreases |ids| - i, 0
  {
    match ReplayFile(st, f, fid, offset)
    case Err(e) => Err(e)
    case Ok((st2, end)) => ReplayFrom(fs, ids, i + 1, st2, end)
  }

  /** Replaying a list that starts with record `x` is replaying `x`, then the
      rest. */
  lemma ReplayRecordsCons(st: ReplayState, fid: uint32, x: (LogRecord, int), rest: seq<(LogRecord, int)>)
    ensures var next := ReplayRecord(st, x.0, LogRecordPos(fid, x.1));
      ReplayRecords(st, fid, [x] + rest)
        == if next.Err? then Err(next.error) else ReplayRecords(next.value, fid, rest)
  {
    assert ([x] + rest)[0] == x && ([x] + rest)[1..] == rest;
  }

  /** `rs` followed by what the file holds from some offset on. */
  function Prepend(rs: seq<(LogRecord, int)>, rest: Scan): (r: Scan)
    ensures r.stop == rest.stop && r.end == rest.end
    ensures |r.records| == |rs| + |rest.records|
  {
    Scan(rs + rest.records, rest.stop, rest.end)
  }

  /** Replaying `done` from `st0` has succeeded with `st`. */
  predicate ReplayedUpTo(st0: ReplayState, fid: uint32, done: seq<(LogRecord, int)>, st: ReplayState)
  {
    ReplayRecords(st0, fid, done) == Ok(st)
  }

  /** The scan from `at` starts with `record` and goes on from `next`. */
  predicate ScanStep(f: DataFile, at: int, record: LogRecord, next: int)
  {
    ScanFile(f, at) == Prepend([(record, at)], ScanFile(f, next))
  }

  /** `ScanStep` with the record's length in place of the next offset. */
  predicate ScanStepBy(f: DataFile, at: int, record: LogRecord, size: int)
  {
    ScanStep(f, at, record, at + size)
  }

  /** A record that reads at `at` is the first one scanned from there. */
  predicate ScanRead(f: DataFile, at: int)
  {
    var rd := ReadLogRecord(f, at);
    rd.Read? ==> ScanStep(f, at, rd.record, at + rd.size)
  }

  lemma ScanReadHolds(f: DataFile, at: int)
    ensures ScanRead(f, at)
  {
  }

  /** A scan stops, listing nothing more, where a read fails. */
  lemma ScanStops(f: DataFile, at: int)
    requires !ReadLogRecord(f, at).Read?
    ensures ScanFile(f, at).records == []
  {
  }

  /** A scan lists records where reading finds them. */
  lemma {:induction false} ScanReadsBack(f: DataFile, offset: int)
    ensures ReadsBack(f, ScanFile(f, offset).records)
    decreases |f.content| - offset
  {
    var r, n, more := ScanFirst(f, offset);
    if more {
      ScanReadsBack(f, offset + n);
      ScanReadsBackStep(f, offset, r, n);
    }
  }

  /** What a scan from `offset` starts with: nothing, or the record `r` that
      reads there, `n` bytes long, followed by the scan after it. */
  lemma ScanFirst(f: DataFile, offset: int) returns (r: LogRecord, n: int, more: bool)
    ensures !more ==> ScanFile(f, offset).records == []
    ensures more ==> 0 < n && offset + n <= |f.content|
    ensures more ==> ScanStepBy(f, offset, r, n) && ReadsBack(f, [(r, offset)])
  {
    more := ReadLogRecord(f, offset).Read?;
    if more {
      r, n := ScanFirstRead(f, offset);
    } else {
      r, n := LogRecord([], [], LogRecordNormal), 0;
      ScanStops(f, offset);
    }
  }

  /** `ScanFirst` where a record reads at `offset`. */
  lemma ScanFirstRead(f: DataFile, offset: int) returns (r: LogRecord, n: int)
    requires ReadLogRecord(f, offset).Read?
    ensures 0 < n && offset + n <= |f.content|
    ensures ScanStepBy(f, offset, r, n) && ReadsBack(f, [(r, offset)])
  {
    ScanReadFirst(f, offset);
    r, n := ReadLogRecord(f, offset).record, ReadLogRecord(f, offset).size;
  }

  /** The record that reads at `offset` is the first one scanned from there. */
  lemma ScanReadFirst(f: DataFile, offset: int)
    requires ReadLogRecord(f, offset).Read?
    ensures ScanStepBy(f, offset, ReadLogRecord(f, offset).record, ReadLogRecord(f, offset).size)
    ensures ReadsBack(f, [(ReadLogRecord(f, offset).record, offset)])
  {
    ScanReadHolds(f, offset);
    assert [(ReadLogRecord(f, offset).record, offset)][0] == (ReadLogRecord(f, offset).record, offset);
  }

  /** The step of `ScanReadsBack`: a record read at `offset`, then the rest. */
  lemma ScanReadsBackStep(f: DataFile, offset: int, r: LogRecord, n: int)
    requires ScanStepBy(f, offset, r, n) && ReadsBack(f, [(r, offset)])
    requires ReadsBack(f, ScanFile(f, offset + n).records)
    ensures ReadsBack(f, ScanFile(f, offset).records)
  {
    var rest := ScanFile(f, offset + n).records;
    var recs := ScanFile(f, offset).records;
    assert recs == [(r, offset)] + rest;
    forall j | 0 <= j < |recs|
      ensures ReadsAt(f, recs[j])
    {
      if j > 0 {
        assert recs[j] == rest[j - 1];
      } else {
        assert recs[j] == [(r, offset)][0];
      }
    }
  }

  /** Reading one more record: what was read before, then that record, then
      the rest. */
  lemma PrependStep(all: Scan, done: seq<(LogRecord, int)>, cur: Scan, x: (LogRecord, int), next: Scan)
    requires all == Prepend(done, cur)
    requires cur == Prepend([x], next)
    ensures all == Prepend(done + [x], next)
  {
    PrependCons(done, x, next);
  }

  /** Moving a record from the front of a scan to the end of the records
      before it. */
  lemma PrependCons(rs: seq<(LogRecord, int)>, x: (LogRecord, int), rest: Scan)
    ensures Prepend(rs + [x], rest) == Prepend(rs, Scan([x] + rest.records, rest.stop, rest.end))
  {
    assert (rs + [x]) + rest.records == rs + ([x] + rest.records);
  }

  /** Replaying a concatenation is replaying the first part, then the second
      from where the first ended. */
  lemma {:induction false} ReplayRecordsAppend(st: ReplayState, fid: uint32, a: seq<(LogRecord, int)>,
                                               b: seq<(LogRecord, int)>)
    ensures ReplayRecords(st, fid, a + b)
      == match ReplayRecords(st, fid, a)
         case Err(e) => Err(e)
         case Ok(st2) => ReplayRecords(st2, fid, b)
    decreases |a|
  {
    if |a| == 0 {
      assert a + b == b;
    } else {
      assert (a + b)[0] == a[0] && (a + b)[1..] == a[1..] + b;
      var next := ReplayRecord(st, a[0].0, LogRecordPos(fid, a[0].1));
      if next.Ok? {
        ReplayRecordsAppend(next.value, fid, a[1..], b);
      }
    }
  }

  /** One more record replayed successfully extends the replay. */
  lemma ReplayedUpToStep(st0: ReplayState, fid: uint32, done: seq<(LogRecord, int)>, st: ReplayState,
                         x: (LogRecord, int), st2: ReplayState)
    requires ReplayedUpTo(st0, fid, done, st)
    requires ReplayRecord(st, x.0, LogRecordPos(fid, x.1)) == Ok(st2)
    ensures ReplayedUpTo(st0, fid, done + [x], st2)
  {
    ReplayRecordsAppend(st0, fid, done, [x]);
    assert [x][1..] == [];
  }

  /** A record whose replay fails makes the replay of a list holding it fail
      with it, whatever follows that record. */
  lemma ReplayRecordsFailure(st0: ReplayState, fid: uint32, done: seq<(LogRecord, int)>,
                             x: (LogRecord, int), later: seq<(LogRecord, int)>, st: ReplayState)
    requires ReplayedUpTo(st0, fid, done, st)
    requires ReplayRecord(st, x.0, LogRecordPos(fid, x.1)).Err?
    ensures ReplayRecords(st0, fid, (done + [x]) + later) == Err(ReplayRecord(st, x.0, LogRecordPos(fid, x.1)).error)
  {
    assert (done + [x]) + later == done + ([x] + later);
    ReplayRecordsAppend(st0, fid, done, [x] + later);
    ReplayRecordsCons(st, fid, x, later);
  }

  // ---------------------------------------------------------------------
  // Batches that never finish never reach the index.

  /** The records of a list that do not belong to batch `s`. */
  function WithoutBatch(rs: seq<(LogRecord, int)>, s: nat): (r: seq<(LogRecord, int)>)
    ensures |r| <= |rs|
    ensures forall i :: 0 <= i < |r| ==> ParseLogRecordKey(r[i].0.key).1 != s
  {
    if |rs| == 0 then []
    else if ParseLogRecordKey(rs[0].0.key).1 == s then WithoutBatch(rs[1..], s)
    else [rs[0]] + WithoutBatch(rs[1..], s)
  }

  /** No TxnFinished record of batch `s` is in the list. */
  predicate Unfinished(rs: seq<(LogRecord, int)>, s: nat)
  {
    forall i :: 0 <= i < |rs| ==>
      !(ParseLogRecordKey(rs[i].0.key).1 == s && rs[i].0.recordType == LogRecordTxnFinished)
  }

  /** Two replay states that agree on the index and on every buffer but
      batch `s`'s. */
  predicate SameButBatch(a: ReplayState, b: ReplayState, s: nat)
  {
    a.entries == b.entries && a.txn - {s} == b.txn - {s}
  }

  /** Replaying a list in which batch `s` never finishes gives the same index
      (or the same error) as replaying it with batch `s`'s records removed:
      an unfinished batch never reaches the index. */
  lemma {:induction false} UnfinishedBatchInvisible(st1: ReplayState, st2: ReplayState, fid: uint32,
                                                    rs: seq<(LogRecord, int)>, s: nat)
    requires s != NonTransactionSeqNo && SameButBatch(st1, st2, s) && Unfinished(rs, s)
    ensures var a, b := ReplayRecords(st1, fid, rs), ReplayRecords(st2, fid, WithoutBatch(rs, s));
      && a.Err? == b.Err?
      && (a.Err? ==> a.error == b.error)
      && (a.Ok? ==> SameButBatch(a.value, b.value, s))
    decreases |rs|
  {
    if |rs| > 0 {
      var record, pos := rs[0].0, LogRecordPos(fid, rs[0].1);
      var t := ParseLogRecordKey(record.key).1;
      assert Unfinished(rs[1..], s) by {
        forall i | 0 <= i < |rs[1..]|
          ensures !(ParseLogRecordKey(rs[1..][i].0.key).1 == s && rs[1..][i].0.recordType == LogRecordTxnFinished)
        {
          assert rs[1..][i] == rs[i + 1];
        }
      }
      var n1 := ReplayRecord(st1, record, pos);
      if t == s {
        assert record.recordType != LogRecordTxnFinished by {
          assert rs[0].0 == record;
        }
        assert n1.Ok? && SameButBatch(n1.value, st2, s) by {
          assert n1.value.txn - {s} == st1.txn - {s};
        }
        UnfinishedBatchInvisible(n1.value, st2, fid, rs[1..], s);
      } else {
        var n2 := ReplayRecord(st2, record, pos);
        assert Buffered(st1.txn, t) == Buffered(st2.txn, t) by {
          assert t in st1.txn <==> t in st1.txn - {s};
          assert t in st2.txn <==> t in st2.txn - {s};
          if t in st1.txn {
            assert st1.txn[t] == (st1.txn - {s})[t];
            assert st2.txn[t] == (st2.txn - {s})[t];
          }
        }
        ReplayRecordSame(st1, st2, record, pos, s);
        if n1.Ok? {
          UnfinishedBatchInvisible(n1.value, n2.value, fid, rs[1..], s);
        }
      }
    }
  }

  /** One record outside batch `s` has the same effect on two states that
      differ only in batch `s`'s buffer. */
  lemma ReplayRecordSame(st1: ReplayState, st2: ReplayState, record: LogRecord, pos: LogRecordPos, s: nat)
    requires SameButBatch(st1, st2, s) && ParseLogRecordKey(record.key).1 != s
    requires Buffered(st1.txn, ParseLogRecordKey(record.key).1) == Buffered(st2.txn, ParseLogRecordKey(record.key).1)
    ensures var a, b := ReplayRecord(st1, record, pos), ReplayRecord(st2, record, pos);
      a.Err? == b.Err? && (a.Err? ==> a.error == b.error) && (a.Ok? ==> SameButBatch(a.value, b.value, s))
  {
    var t := ParseLogRecordKey(record.key).1;
    var a, b := ReplayRecord(st1, record, pos), ReplayRecord(st2, record, pos);
    if a.Ok? && b.Ok? {
      if t != NonTransactionSeqNo && record.recordType == LogRecordTxnFinished {
        assert a.value.txn - {s} == b.value.txn - {s} by {
          assert a.value.txn - {s} == (st1.txn - {s}) - {t};
          assert b.value.txn - {s} == (st2.txn - {s}) - {t};
        }
      } else if t != NonTransactionSeqNo {
        var item := [TransactionRecord(record.(key := ParseLogRecordKey(record.key).0), pos)];
        assert a.value.txn - {s} == (st1.txn - {s})[t := Buffered(st1.txn, t) + item];
        assert b.value.txn - {s} == (st2.txn - {s})[t := Buffered(st2.txn, t) + item];
      }
    }
  }
  // ---------------------------------------------------------------------
  // The sequence number replay ends with.

  /** The largest of `seqNo` and the sequence numbers of the records' keys. */
  function MaxSeqNo(seqNo: nat, rs: seq<(LogRecord, int)>): (m: nat)
    ensures m >= seqNo
    ensures forall i :: 0 <= i < |rs| ==> m >= ParseLogRecordKey(rs[i].0.key).1
    ensures m == seqNo || exists i :: 0 <= i < |rs| && m == ParseLogRecordKey(rs[i].0.key).1
    decreases |rs|
  {
    if |rs| == 0 then seqNo
    else
      var m := MaxSeqNo(Max(seqNo, ParseLogRecordKey(rs[0].0.key).1), rs[1..]);
      assert forall i :: 0 < i < |rs| ==> rs[1..][i - 1] == rs[i];
      m
  }

  /** A successful replay ends with the largest sequence number among the
      one it started from and those of every record it read. */
  lemma {:induction false} SeqNoIsMax(st: ReplayState, fid: uint32, rs: seq<(LogRecord, int)>)
    requires ReplayRecords(st, fid, rs).Ok?
    ensures ReplayRecords(st, fid, rs).value.seqNo == MaxSeqNo(st.seqNo, rs)
    decreases |rs|
  {
    if |rs| > 0 {
      var next := ReplayRecord(st, rs[0].0, LogRecordPos(fid, rs[0].1));
      ReplayRecordSeqNo(st, rs[0].0, LogRecordPos(fid, rs[0].1));
      SeqNoIsMax(next.value, fid, rs[1..]);
    }
  }

  /** Replaying a record raises the sequence number to the record's. */
  lemma ReplayRecordSeqNo(st: ReplayState, record: LogRecord, pos: LogRecordPos)
    ensures ReplayRecord(st, record, pos).Ok? ==>
      ReplayRecord(st, record, pos).value.seqNo == Max(st.seqNo, ParseLogRecordKey(record.key).1)
  {
  }

  // ---------------------------------------------------------------------
  // A finished batch is applied as if written outside any batch.

  /** Every record belongs to batch `s` and none of them finishes it. */
  predicate InBatch(rs: seq<(LogRecord, int)>, s: nat)
  {
    forall i :: 0 <= i < |rs| ==>
      ParseLogRecordKey(rs[i].0.key).1 == s && rs[i].0.recordType != LogRecordTxnFinished
  }

  /** The records of file `fid` as replay buffers them: under their user
      key, with their position. */
  function Txns(fid: uint32, rs: seq<(LogRecord, int)>): (r: seq<TransactionRecord>)
    ensures |r| == |rs|
  {
    seq(|rs|, i requires 0 <= i < |rs| =>
      TransactionRecord(rs[i].0.(key := ParseLogRecordKey(rs[i].0.key).0), LogRecordPos(fid, rs[i].1)))
  }

  /** The same records written outside any batch: each user key under the
      non-transactional sequence number. */
  function Untagged(rs: seq<(LogRecord, int)>): (r: seq<(LogRecord, int)>)
    ensures |r| == |rs|
  {
    seq(|rs|, i requires 0 <= i < |rs| =>
      (rs[i].0.(key := LogRecordKeyWithSeq(ParseLogRecordKey(rs[i].0.key).0, NonTransactionSeqNo)), rs[i].1))
  }

  /** Replaying records of an unfinished batch leaves the index alone and
      appends them, in order, to the batch's buffer. */
  lemma {:induction false} BatchBuffered(st: ReplayState, fid: uint32, rs: seq<(LogRecord, int)>, s: nat)
    requires s != NonTransactionSeqNo && InBatch(rs, s)
    ensures var r := ReplayRecords(st, fid, rs);
      && r.Ok? && r.value.entries == st.entries && r.value.txn - {s} == st.txn - {s}
      && Buffered(r.value.txn, s) == Buffered(st.txn, s) + Txns(fid, rs)
      && r.value.seqNo == if |rs| == 0 then st.seqNo else Max(st.seqNo, s)
    decreases |rs|
  {
    if |rs| == 0 {
      assert Buffered(st.txn, s) + Txns(fid, rs) == Buffered(st.txn, s);
    } else {
      var t := Txns(fid, rs)[0];
      var next := ReplayRecord(st, rs[0].0, LogRecordPos(fid, rs[0].1));
      assert next == Ok(ReplayState(st.entries, st.txn[s := Buffered(st.txn, s) + [t]], Max(st.seqNo, s)));
      assert InBatch(rs[1..], s) by {
        forall i | 0 <= i < |rs[1..]|
          ensures ParseLogRecordKey(rs[1..][i].0.key).1 == s && rs[1..][i].0.recordType != LogRecordTxnFinished
        {
          assert rs[1..][i] == rs[i + 1];
        }
      }
      BatchBuffered(next.value, fid, rs[1..], s);
      assert Txns(fid, rs) == [t] + Txns(fid, rs[1..]);
      assert next.value.txn - {s} == st.txn - {s};
    }
  }

  /** Applying a batch's buffer does to the index what replaying the same
      records outside any batch does. */
  lemma {:induction false} ApplyBatchUntagged(st: ReplayState, fid: uint32, rs: seq<(LogRecord, int)>)
    ensures var a, b := ApplyBatch(st.entries, Txns(fid, rs)), ReplayRecords(st, fid, Untagged(rs));
      && (a.None? ==> b == Err(StartupIndexFailure))
      && (a.Some? ==> b == Ok(st.(entries := a.value)))
    decreases |rs|
  {
    if |rs| > 0 {
      var realKey := ParseLogRecordKey(rs[0].0.key).0;
      ParseKeyWithSeq(realKey, NonTransactionSeqNo);
      var u := Untagged(rs);
      var pos := LogRecordPos(fid, rs[0].1);
      assert Txns(fid, rs)[1..] == Txns(fid, rs[1..]);
      assert u[1..] == Untagged(rs[1..]);
      match UpdateIndex(st.entries, realKey, rs[0].0.recordType, pos)
      case None =>
      case Some(e) =>
        assert ReplayRecord(st, u[0].0, pos) == Ok(st.(entries := e));
        ApplyBatchUntagged(st.(entries := e), fid, rs[1..]);
    }
  }

  /** A batch that is finished: its records, then its TxnFinished record,
      read from a state with no buffer for it. The index ends as if the
      batch's writes had been made one by one outside any batch, the buffer
      is dropped, and the sequence number rises to the batch's. */
  lemma FinishedBatchApplied(st: ReplayState, fid: uint32, rs: seq<(LogRecord, int)>, fin: (LogRecord, int), s: nat)
    requires s != NonTransactionSeqNo && s !in st.txn && InBatch(rs, s)
    requires ParseLogRecordKey(fin.0.key).1 == s && fin.0.recordType == LogRecordTxnFinished
    ensures var a, b := ReplayRecords(st, fid, rs + [fin]), ReplayRecords(st, fid, Untagged(rs));
      && a.Err? == b.Err? && (a.Err? ==> a.error == b.error)
      && (a.Ok? ==> a.value == ReplayState(b.value.entries, st.txn, Max(st.seqNo, s)))
  {
    BatchBuffered(st, fid, rs, s);
    var mid := ReplayRecords(st, fid, rs).value;
    ReplayRecordsAppend(st, fid, rs, [fin]);
    ReplayRecordsCons(mid, fid, fin, []);
    assert [fin] + [] == [fin];
    ApplyBatchUntagged(st, fid, rs);
    assert Buffered(mid.txn, s) == Txns(fid, rs);
    assert mid.txn - {s} == st.txn;
  }
}
