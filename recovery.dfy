/** Recovery after writes: the files that a sequence of `Put` and `Delete`
    calls leaves in an empty directory, replayed by `loadIndexFromDataFiles`
    from an empty index, rebuild exactly the index those calls kept in
    memory. The files are described by their logs: file `i` holds the
    records `logs[i]` written one after another. */
module Recovery {
  import opened Wrappers
  import opened Bytes
  import opened Data
  import opened DataFiles
  import opened Keys
  import opened Store
  import opened Replay
  import opened Engine

  /** A call the user makes: `Put` of a key and value, or `Delete` of a key. */
  datatype Op = PutOp(key: seq<byte>, value: seq<byte>) | DeleteOp(key: seq<byte>)

  /** The record a call appends when it writes one. */
  function OpRecord(op: Op): LogRecord
  {
    match op
    case PutOp(k, v) => PutRecord(k, v)
    case DeleteOp(k) => DeleteRecord(k)
  }

  /** Calls whose records have headers and sizes the format can hold. */
  predicate Fits(ops: seq<Op>)
  {
    forall i :: 0 <= i < |ops| ==> HeaderFits(OpRecord(ops[i])) && SizesFit(OpRecord(ops[i]))
  }

  /** The files and index after the calls `ops`, made in order from an empty
      directory and an empty index, none of them meeting an I/O fault. A
      call that is refused (an empty key) leaves both as they were. */
  function Run(opts: Options, ops: seq<Op>): (o: Outcome)
    requires Fits(ops)
    decreases |ops|
  {
    if |ops| == 0 then Outcome(Files(None, map[]), map[], None)
    else
      assert forall i :: 0 <= i < |ops| - 1 ==> ops[..|ops| - 1][i] == ops[i];
      var prev := Run(opts, ops[..|ops| - 1]);
      match ops[|ops| - 1]
      case PutOp(k, v) => PutOutcome(prev.files, prev.entries, opts, k, v, NoFault)
      case DeleteOp(k) => DeleteOutcome(prev.files, prev.entries, opts, k, NoFault)
  }

  // --- Files as logs of records.

  /** The bytes of the records `rs` written one after another. */
  function Encodings(rs: seq<LogRecord>): (b: seq<byte>)
    decreases |rs|
  {
    if |rs| == 0 then [] else Encoding(rs[0]) + Encodings(rs[1..])
  }

  /** The records `rs` paired with the offsets they are written at, the
      first at `offset`. */
  function Placed(rs: seq<LogRecord>, offset: int): (ps: seq<(LogRecord, int)>)
    ensures |ps| == |rs|
    decreases |rs|
  {
    if |rs| == 0 then [] else [(rs[0], offset)] + Placed(rs[1..], offset + |Encoding(rs[0])|)
  }

  lemma {:induction false} EncodingsSnoc(rs: seq<LogRecord>, r: LogRecord)
    ensures Encodings(rs + [r]) == Encodings(rs) + Encoding(r)
    decreases |rs|
  {
    if |rs| == 0 {
      assert rs + [r] == [r];
      assert Encodings([r]) == Encoding(r) + Encodings([]);
    } else {
      assert (rs + [r])[0] == rs[0] && (rs + [r])[1..] == rs[1..] + [r];
      EncodingsSnoc(rs[1..], r);
    }
  }

  lemma {:induction false} PlacedSnoc(rs: seq<LogRecord>, offset: int, r: LogRecord)
    ensures Placed(rs + [r], offset) == Placed(rs, offset) + [(r, offset + |Encodings(rs)|)]
    decreases |rs|
  {
    if |rs| == 0 {
      assert rs + [r] == [r];
      assert Placed([r], offset) == [(r, offset)] + Placed([], offset + |Encoding(r)|);
    } else {
      var n := |Encoding(rs[0])|;
      assert (rs + [r])[0] == rs[0] && (rs + [r])[1..] == rs[1..] + [r];
      assert |Encodings(rs)| == n + |Encodings(rs[1..])|;
      PlacedSnoc(rs[1..], offset + n, r);
      calc {
        Placed(rs + [r], offset);
        [(rs[0], offset)] + Placed(rs[1..] + [r], offset + n);
        [(rs[0], offset)] + (Placed(rs[1..], offset + n) + [(r, offset + |Encodings(rs)|)]);
        ([(rs[0], offset)] + Placed(rs[1..], offset + n)) + [(r, offset + |Encodings(rs)|)];
      }
    }
  }

  /** A file whose bytes from `offset` on are the records `rs` written one
      after another reads back as those records at their offsets, and then
      EOF at its end. */
  lemma {:induction false} ScanEncoded(f: DataFile, offset: nat, rs: seq<LogRecord>)
    requires offset <= |f.content| && f.content[offset..] == Encodings(rs)
    requires forall i :: 0 <= i < |rs| ==> SizesFit(rs[i])
    ensures ScanFile(f, offset) == Scan(Placed(rs, offset), None, |f.content|)
    decreases |rs|
  {
    if |rs| == 0 {
      ScanAtEnd(f);
    } else {
      var n := |Encoding(rs[0])|;
      EncodingsFront(f.content, offset, rs[0], rs[1..]);
      ReadEncoded(f, offset, rs[0]);
      ScanReadHolds(f, offset);
      ScanEncoded(f, offset + n, rs[1..]);
      ScanPlaced(f, offset, rs, n, |f.content|);
    }
  }

  /** A scan from a record that reads: that record at its offset, then the
      records scanned after it. */
  lemma ScanPlaced(f: DataFile, offset: nat, rs: seq<LogRecord>, n: int, end: int)
    requires |rs| > 0 && n == |Encoding(rs[0])| && ScanStep(f, offset, rs[0], offset + n)
    requires ScanFile(f, offset + n) == Scan(Placed(rs[1..], offset + n), None, end)
    ensures ScanFile(f, offset) == Scan(Placed(rs, offset), None, end)
  {
  }

  /** Reading at the end of a file meets EOF at once. */
  lemma ScanAtEnd(f: DataFile)
    ensures ScanFile(f, |f.content|) == Scan([], None, |f.content|)
  {
    assert |HeaderWindow(f.content, |f.content|)| == 0;
  }

  /** Bytes that are `r` written, then `rest`, hold `r` at the front. */
  lemma EncodingsFront(content: seq<byte>, offset: nat, r: LogRecord, rest: seq<LogRecord>)
    requires offset <= |content| && content[offset..] == Encoding(r) + Encodings(rest)
    ensures EncodedAt(content, offset, r)
    ensures content[offset + |Encoding(r)|..] == Encodings(rest)
  {
    var n := |Encoding(r)|;
    assert content[offset..][..n] == Encoding(r);
    assert content[offset..][n..] == Encodings(rest);
  }

  /** The files hold the logs `logs`: with no log there is no file at all;
      otherwise file `i` is the active file for the last `i` and an older
      file for the others (as `FileAt` finds it), its bytes are the records of `logs[i]` written
      one after another, and the active file is written to its end. */
  ghost predicate Logged(fs: Files, logs: seq<seq<LogRecord>>)
  {
    && |logs| < Uint32Modulus
    && (|logs| == 0 <==> fs.active.None?)
    && (fs.active.None? ==> fs.older == map[])
    && (fs.active.Some? ==>
          fs.active.value.fileId == |logs| - 1 && fs.active.value.writeOff == |fs.active.value.content|)
    && (forall i :: 0 <= i < |logs| ==>
          && FileAt(fs, i).Some? && FileAt(fs, i).value.content == Encodings(logs[i])
          && forall j :: 0 <= j < |logs[i]| ==> SizesFit(logs[i][j]))
  }

  // --- Replay over logs.

  /** Replay of the logs from the `i`-th on, in the shape of `ReplayFrom`. */
  function ReplayLogs(logs: seq<seq<LogRecord>>, i: nat, st: ReplayState, lastEnd: int): (r: Result<(ReplayState, int), Error>)
    requires i <= |logs| < Uint32Modulus
    decreases |logs| - i
  {
    if i == |logs| then Ok((st, lastEnd))
    else
      match ReplayRecords(st, i, Placed(logs[i], 0))
      case Err(e) => Err(e)
      case Ok(st2) => ReplayLogs(logs, i + 1, st2, |Encodings(logs[i])|)
  }

  /** The ids `0, 1, ..., n - 1`. */
  function Upto(n: nat): (ids: seq<int>)
    ensures |ids| == n && forall i :: 0 <= i < n ==> ids[i] == i
  {
    seq(n, i => i)
  }

  /** Replaying files that hold logs is replaying the logs. */
  lemma {:induction false} ReplayFromLogs(fs: Files, logs: seq<seq<LogRecord>>, i: nat, st: ReplayState, lastEnd: int)
    requires Logged(fs, logs) && i <= |logs|
    ensures ReplayFrom(fs, Upto(|logs|), i, st, lastEnd) == ReplayLogs(logs, i, st, lastEnd)
    decreases |logs| - i
  {
    if i < |logs| {
      var ids := Upto(|logs|);
      var f := FileAt(fs, i).value;
      assert f.content[0..] == f.content;
      ScanEncoded(f, 0, logs[i]);
      ReplayFromStep(fs, ids, i, st, lastEnd, f);
      ReplayFileScanned(st, f, i, Placed(logs[i], 0), |f.content|);
      var r := ReplayRecords(st, i, Placed(logs[i], 0));
      if r.Ok? {
        ReplayFromLogs(fs, logs, i + 1, r.value, |f.content|);
      }
    }
  }

  /** One turn of `ReplayFrom`: the file of the `i`-th id replayed from
      offset 0, then the ids after it. */
  lemma ReplayFromStep(fs: Files, ids: seq<int>, i: nat, st: ReplayState, lastEnd: int, f: DataFile)
    requires i < |ids| && fs.active.Some? && FileAt(fs, ToUint32(ids[i])) == Some(f)
    ensures ReplayFrom(fs, ids, i, st, lastEnd)
         == match ReplayFile(st, f, ToUint32(ids[i]), 0)
            case Err(e) => Err(e)
            case Ok((st2, end)) => ReplayFrom(fs, ids, i + 1, st2, end)
  {
  }

  /** Replaying a file that scans to EOF is replaying what it scans to. */
  lemma ReplayFileScanned(st: ReplayState, f: DataFile, fid: uint32, rs: seq<(LogRecord, int)>, end: int)
    requires ScanFile(f, 0) == Scan(rs, None, end)
    ensures ReplayFile(st, f, fid, 0)
         == match ReplayRecords(st, fid, rs)
            case Err(e) => Err(e)
            case Ok(st2) => Ok((st2, end))
  {
  }

  /** The replay `x` followed by record `r` read at `pos`, ending at `end`. */
  function Then(x: Result<(ReplayState, int), Error>, r: LogRecord, pos: LogRecordPos, end: int): Result<(ReplayState, int), Error>
  {
    match x
    case Err(e) => Err(e)
    case Ok((st, _)) =>
      match ReplayRecord(st, r, pos)
      case Err(e) => Err(e)
      case Ok(st2) => Ok((st2, end))
  }

  /** A new empty last file changes nothing but where the replay ends. */
  lemma {:induction false} ReplayLogsEmptyFile(logs: seq<seq<LogRecord>>, i: nat, st: ReplayState, lastEnd: int)
    requires i <= |logs| && |logs| + 1 < Uint32Modulus
    ensures ReplayLogs(logs + [[]], i, st, lastEnd)
         == match ReplayLogs(logs, i, st, lastEnd)
            case Err(e) => Err(e)
            case Ok((st2, _)) => Ok((st2, 0))
    decreases |logs| - i
  {
    var logs2 := logs + [[]];
    assert logs2[|logs|] == [];
    if i < |logs| {
      assert logs2[i] == logs[i];
      var r := ReplayRecords(st, i, Placed(logs[i], 0));
      if r.Ok? {
        ReplayLogsEmptyFile(logs, i + 1, r.value, |Encodings(logs[i])|);
      }
    }
  }

  /** A record written at the end of the last file is replayed after all
      the others, at the position it was written at. */
  lemma {:induction false} ReplayLogsExtend(logs: seq<seq<LogRecord>>, r: LogRecord, i: nat, st: ReplayState, lastEnd: int)
    requires 0 < |logs| < Uint32Modulus && i < |logs|
    ensures var L := logs[|logs| - 1];
      ReplayLogs(logs[|logs| - 1 := L + [r]], i, st, lastEnd)
        == Then(ReplayLogs(logs, i, st, lastEnd), r, LogRecordPos(|logs| - 1, |Encodings(L)|), |Encodings(L + [r])|)
    decreases |logs| - i
  {
    var n := |logs|;
    var L := logs[n - 1];
    var logs2 := logs[n - 1 := L + [r]];
    if i < n - 1 {
      assert logs2[i] == logs[i];
      ReplayLogsStep(logs, i, st, lastEnd);
      ReplayLogsStep(logs2, i, st, lastEnd);
      var x := ReplayRecords(st, i, Placed(logs[i], 0));
      if x.Ok? {
        ReplayLogsExtend(logs, r, i + 1, x.value, |Encodings(logs[i])|);
      }
    } else {
      ReplayLastExtend(logs, r, st, lastEnd);
    }
  }

  /** Replaying one record more: the record is applied last. */
  lemma ReplayRecordsSnoc(st: ReplayState, fid: uint32, rs: seq<(LogRecord, int)>, x: (LogRecord, int))
    ensures ReplayRecords(st, fid, rs + [x])
         == match ReplayRecords(st, fid, rs)
            case Err(e) => Err(e)
            case Ok(st2) => ReplayRecord(st2, x.0, LogRecordPos(fid, x.1))
  {
    ReplayRecordsAppend(st, fid, rs, [x]);
    var before := ReplayRecords(st, fid, rs);
    if before.Ok? {
      assert [x] + [] == [x];
      ReplayRecordsCons(before.value, fid, x, []);
    }
  }

  /** `ReplayLogsExtend` for the last log alone. */
  lemma ReplayLastExtend(logs: seq<seq<LogRecord>>, r: LogRecord, st: ReplayState, lastEnd: int)
    requires 0 < |logs| < Uint32Modulus
    ensures var L := logs[|logs| - 1];
      ReplayLogs(logs[|logs| - 1 := L + [r]], |logs| - 1, st, lastEnd)
        == Then(ReplayLogs(logs, |logs| - 1, st, lastEnd), r, LogRecordPos(|logs| - 1, |Encodings(L)|), |Encodings(L + [r])|)
  {
    var n := |logs|;
    var L := logs[n - 1];
    var logs2 := logs[n - 1 := L + [r]];
    var x := (r, |Encodings(L)|);
    PlacedSnoc(L, 0, r);
    assert Placed(L + [r], 0) == Placed(L, 0) + [x];
    ReplayRecordsSnoc(st, n - 1, Placed(L, 0), x);
    ReplayLogsLast(logs, st, lastEnd);
    ReplayLogsLast(logs2, st, lastEnd);
    assert logs2[n - 1] == L + [r];
  }

  /** Replaying from log `i`: its records, then the logs after it. */
  lemma ReplayLogsStep(logs: seq<seq<LogRecord>>, i: nat, st: ReplayState, lastEnd: int)
    requires i < |logs| < Uint32Modulus
    ensures ReplayLogs(logs, i, st, lastEnd)
         == match ReplayRecords(st, i, Placed(logs[i], 0))
            case Err(e) => Err(e)
            case Ok(st2) => ReplayLogs(logs, i + 1, st2, |Encodings(logs[i])|)
  {
  }

  /** Replaying from the last log: that log's records, ending at its end. */
  lemma ReplayLogsLast(logs: seq<seq<LogRecord>>, st: ReplayState, lastEnd: int)
    requires 0 < |logs| < Uint32Modulus
    ensures ReplayLogs(logs, |logs| - 1, st, lastEnd)
         == match ReplayRecords(st, |logs| - 1, Placed(logs[|logs| - 1], 0))
            case Err(e) => Err(e)
            case Ok(st2) => Ok((st2, |Encodings(logs[|logs| - 1])|))
  {
  }

  // --- Appending keeps the files logged.

  /** Opening the first file of an empty directory: one empty log. */
  lemma LoggedFirstOpen(fs: Files)
    requires Logged(fs, [])
    ensures Logged(OpenNext(fs), [[]])
  {
    var next := OpenNext(fs);
    assert FileAt(next, 0) == next.active;
    assert Encodings([]) == [];
  }

  /** Sealing the active file and opening the next one: one more log, empty. */
  lemma LoggedRotate(fs: Files, logs: seq<seq<LogRecord>>)
    requires Logged(fs, logs) && fs.active.Some? && |logs| + 1 < Uint32Modulus
    ensures var a := fs.active.value;
      Logged(OpenNext(Files(fs.active, fs.older[a.fileId := a])), logs + [[]])
  {
    var a := fs.active.value;
    var next := OpenNext(Files(fs.active, fs.older[a.fileId := a]));
    var logs2 := logs + [[]];
    assert NextFileId(fs.active) == |logs|;
    forall i | 0 <= i < |logs2|
      ensures && FileAt(next, i).Some? && FileAt(next, i).value.content == Encodings(logs2[i])
              && forall j :: 0 <= j < |logs2[i]| ==> SizesFit(logs2[i][j])
    {
      if i < |logs| {
        assert logs2[i] == logs[i];
        if i < |logs| - 1 {
          assert FileAt(next, i) == FileAt(fs, i);
        } else {
          assert FileAt(next, i) == Some(a) == FileAt(fs, i);
        }
      } else {
        assert FileAt(next, i) == next.active;
        assert Encodings(logs2[i]) == [];
      }
    }
  }

  /** Writing record `r` to the active file: `r` ends the last log. */
  lemma LoggedWrite(fs: Files, logs: seq<seq<LogRecord>>, r: LogRecord)
    requires Logged(fs, logs) && fs.active.Some? && SizesFit(r)
    ensures var a := fs.active.value;
      Logged(Files(Some(Write(a, Encoding(r))), fs.older), logs[|logs| - 1 := logs[|logs| - 1] + [r]])
  {
    var a := fs.active.value;
    var written := Files(Some(Write(a, Encoding(r))), fs.older);
    var n := |logs|;
    var logs2 := logs[n - 1 := logs[n - 1] + [r]];
    EncodingsSnoc(logs[n - 1], r);
    forall i | 0 <= i < n
      ensures && FileAt(written, i).Some? && FileAt(written, i).value.content == Encodings(logs2[i])
              && forall j :: 0 <= j < |logs2[i]| ==> SizesFit(logs2[i][j])
    {
      if i < n - 1 {
        assert logs2[i] == logs[i];
        assert FileAt(written, i) == FileAt(fs, i);
      } else {
        assert FileAt(written, i) == written.active;
        assert forall j :: 0 <= j < |logs[i]| ==> logs2[i][j] == logs[i][j];
      }
    }
  }

  /** The files `appendLogRecord` writes `r` to: a first file opened in an
      empty directory, and the next one opened when `r` would take the
      active file past the threshold. */
  function Ready(fs: Files, opts: Options, r: LogRecord): (ready: Files)
    ensures ready.active.Some?
  {
    var fs1 := if fs.active.None? then OpenNext(fs) else fs;
    var a := fs1.active.value;
    if a.writeOff + |Encoding(r)| > opts.dataFileSize then OpenNext(Files(fs1.active, fs1.older[a.fileId := a]))
    else fs1
  }

  /** Without a fault, `appendLogRecord` writes `r` to the files `Ready`
      names. */
  lemma AppendWritesReady(fs: Files, opts: Options, r: LogRecord)
    requires HeaderFits(r)
    ensures AppendLogRecord(fs, opts, r, NoFault) == WriteActive(Ready(fs, opts, r), Encoding(r), opts.syncWrites, NoFault)
  {
  }

  /** Two replays that agree on their outcome, wherever they end. */
  predicate SameOutcome(x: Result<(ReplayState, int), Error>, y: Result<(ReplayState, int), Error>)
  {
    && x.Err? == y.Err? && (x.Err? ==> x.error == y.error) && (x.Ok? ==> x.value.0 == y.value.0)
  }

  lemma ThenSame(x: Result<(ReplayState, int), Error>, y: Result<(ReplayState, int), Error>,
                 r: LogRecord, pos: LogRecordPos, end: int)
    requires SameOutcome(x, y)
    ensures Then(x, r, pos, end) == Then(y, r, pos, end)
  {
  }

  /** The files `Ready` names hold the logs with one or two empty logs more
      (at most one when there was a file), whose replay has the same
      outcome. */
  lemma ReadyLogged(fs: Files, logs: seq<seq<LogRecord>>, opts: Options, r: LogRecord, st: ReplayState)
    returns (logs2: seq<seq<LogRecord>>)
    requires Logged(fs, logs) && |logs| + 2 < Uint32Modulus
    ensures Logged(Ready(fs, opts, r), logs2) && |logs2| <= |logs| + 2 && (|logs| > 0 ==> |logs2| <= |logs| + 1)
    ensures SameOutcome(ReplayLogs(logs2, 0, st, 0), ReplayLogs(logs, 0, st, 0))
  {
    var fs1 := if fs.active.None? then OpenNext(fs) else fs;
    logs2 := logs;
    if fs.active.None? {
      LoggedFirstOpen(fs);
      ReplayLogsEmptyFile([], 0, st, 0);
      assert logs + [[]] == [[]];
      logs2 := [[]];
    }
    var a := fs1.active.value;
    if a.writeOff + |Encoding(r)| > opts.dataFileSize {
      LoggedRotate(fs1, logs2);
      ReplayLogsEmptyFile(logs2, 0, st, 0);
      logs2 := logs2 + [[]];
    }
  }

  /** Writing `r` to the active file of files holding logs: `r` ends the
      last log, and is replayed after the others at the position reported. */
  lemma WriteLogged(fs: Files, logs: seq<seq<LogRecord>>, r: LogRecord, syncWrites: bool, st: ReplayState)
    returns (logs2: seq<seq<LogRecord>>)
    requires Logged(fs, logs) && fs.active.Some? && SizesFit(r)
    ensures var w := WriteActive(fs, Encoding(r), syncWrites, NoFault);
      && w.pos.Ok? && w.files.active.Some? && Logged(w.files, logs2) && |logs2| == |logs|
      && ReplayLogs(logs2, 0, st, 0)
         == Then(ReplayLogs(logs, 0, st, 0), r, w.pos.value, |w.files.active.value.content|)
  {
    var a := fs.active.value;
    var L := logs[|logs| - 1];
    assert FileAt(fs, |logs| - 1) == fs.active;
    assert a.fileId == |logs| - 1 && a.writeOff == |Encodings(L)|;
    EncodingsSnoc(L, r);
    assert WriteActive(fs, Encoding(r), syncWrites, NoFault)
        == Appended(Files(Some(Write(a, Encoding(r))), fs.older), Ok(LogRecordPos(|logs| - 1, |Encodings(L)|)));
    LoggedWrite(fs, logs, r);
    ReplayLogsExtend(logs, r, 0, st, 0);
    logs2 := logs[|logs| - 1 := logs[|logs| - 1] + [r]];
  }

  /** An append without a fault succeeds; the files go on holding logs,
      now with `r` at the end of the last one, and replaying them is
      replaying the old logs and then `r` at the position the append
      reported. */
  lemma AppendLogged(fs: Files, logs: seq<seq<LogRecord>>, opts: Options, r: LogRecord, st: ReplayState)
    returns (logs2: seq<seq<LogRecord>>)
    requires Logged(fs, logs) && |logs| + 2 < Uint32Modulus && HeaderFits(r) && SizesFit(r)
    ensures var a := AppendLogRecord(fs, opts, r, NoFault);
      && a.pos.Ok? && a.files.active.Some? && Logged(a.files, logs2) && |logs2| <= |logs| + 2
      && (|logs| > 0 ==> |logs2| <= |logs| + 1)
      && ReplayLogs(logs2, 0, st, 0)
         == Then(ReplayLogs(logs, 0, st, 0), r, a.pos.value, |a.files.active.value.content|)
  {
    var ready := Ready(fs, opts, r);
    AppendWritesReady(fs, opts, r);
    var logs1 := ReadyLogged(fs, logs, opts, r, st);
    logs2 := WriteLogged(ready, logs1, r, opts.syncWrites, st);
    var w := WriteActive(ready, Encoding(r), opts.syncWrites, NoFault);
    ThenSame(ReplayLogs(logs1, 0, st, 0), ReplayLogs(logs, 0, st, 0), r, w.pos.value, |w.files.active.value.content|);
  }

  /** A Put or Delete record replayed over the index it was written
      against, outside any batch, sets or removes its key. */
  lemma ReplayOwnRecord(entries: map<seq<byte>, LogRecordPos>, op: Op, pos: LogRecordPos)
    requires op.DeleteOp? ==> op.key in entries
    ensures ReplayRecord(ReplayState(entries, map[], NonTransactionSeqNo), OpRecord(op), pos)
         == Ok(ReplayState(if op.PutOp? then entries[op.key := pos] else entries - {op.key}, map[], NonTransactionSeqNo))
  {
    ParseKeyWithSeq(op.key, NonTransactionSeqNo);
  }

  /** The replay of no file ends at offset 0; of some, where the last one ends. */
  function LogsEnd(logs: seq<seq<LogRecord>>): int
  {
    if |logs| == 0 then 0 else |Encodings(logs[|logs| - 1])|
  }

  /** The calls leave files that hold logs, and replaying those logs from an
      empty index ends in the index the calls kept, with no batch pending
      and sequence number 0. */
  lemma {:induction false} RunLogged(opts: Options, ops: seq<Op>) returns (logs: seq<seq<LogRecord>>)
    requires Fits(ops) && |ops| + 3 < Uint32Modulus
    ensures var o := Run(opts, ops);
      && Logged(o.files, logs) && |logs| <= |ops| + 1
      && ReplayLogs(logs, 0, ReplayState(map[], map[], NonTransactionSeqNo), 0)
         == Ok((ReplayState(o.entries, map[], NonTransactionSeqNo), LogsEnd(logs)))
    decreases |ops|
  {
    if |ops| == 0 {
      logs := [];
    } else {
      var prefix := ops[..|ops| - 1];
      assert forall i :: 0 <= i < |prefix| ==> prefix[i] == ops[i];
      var before := RunLogged(opts, prefix);
      var prev := Run(opts, prefix);
      var op := ops[|ops| - 1];
      assert HeaderFits(OpRecord(op)) && SizesFit(OpRecord(op));
      if |op.key| > 0 && (op.PutOp? || op.key in prev.entries) {
        var empty := ReplayState(map[], map[], NonTransactionSeqNo);
        logs := AppendLogged(prev.files, before, opts, OpRecord(op), empty);
        var a := AppendLogRecord(prev.files, opts, OpRecord(op), NoFault);
        ReplayOwnRecord(prev.entries, op, a.pos.value);
        assert LogsEnd(logs) == |a.files.active.value.content|;
      } else {
        logs := before;
      }
    }
  }

  /** Crash recovery: the files that the calls `ops` leave, replayed from
      an empty index in id order as `Open` does, rebuild the index the
      calls kept in memory, with the active file going on where it ends and
      sequence number 0; when the calls wrote nothing there are no files
      and the index is empty. */
  lemma RecoveryRebuildsIndex(opts: Options, ops: seq<Op>)
    requires Fits(ops) && |ops| + 3 < Uint32Modulus
    ensures var o := Run(opts, ops);
      && (o.files.active.None? ==> o.files.older == map[] && o.entries == map[])
      && (o.files.active.Some? ==>
            var ids := Upto(o.files.active.value.fileId + 1);
            Recover(o.files, ids) == Ok(Opened(o.files, o.entries, 0, ids)))
  {
    var o := Run(opts, ops);
    var logs := RunLogged(opts, ops);
    if |logs| > 0 {
      ReplayFromLogs(o.files, logs, 0, ReplayState(map[], map[], NonTransactionSeqNo), 0);
      assert o.files.active.value.(writeOff := LogsEnd(logs)) == o.files.active.value;
    }
  }

  // ---------------------------------------------------------------------
  // The sequence number `Open` leaves the database with.

  /** The largest of `seqNo` and the sequence numbers of the records of the
      files of `ids[i..]`, each read from offset 0, in id order. A missing
      file adds nothing (replay fails on it anyway). */
  function FilesMaxSeqNo(fs: Files, ids: seq<int>, i: nat, seqNo: nat): (m: nat)
    requires i <= |ids|
    ensures m >= seqNo
    decreases |ids| - i
  {
    if i == |ids| then seqNo
    else
      match FileAt(fs, ToUint32(ids[i]))
      case None => seqNo
      case Some(f) => FilesMaxSeqNo(fs, ids, i + 1, MaxSeqNo(seqNo, ScanFile(f, 0).records))
  }

  /** A successful replay of the files of `ids[i..]` ends with the largest
      sequence number among the one it started from and those of every
      record of every file it read. */
  lemma {:induction false} ReplayFromSeqNo(fs: Files, ids: seq<int>, i: nat, st: ReplayState, lastEnd: int)
    requires i <= |ids| && ReplayFrom(fs, ids, i, st, lastEnd).Ok?
    ensures ReplayFrom(fs, ids, i, st, lastEnd).value.0.seqNo == FilesMaxSeqNo(fs, ids, i, st.seqNo)
    decreases |ids| - i
  {
    if i < |ids| {
      var fid := ToUint32(ids[i]);
      var f := FileAt(fs, fid).value;
      var scan := ScanFile(f, 0);
      ReplayFromStep(fs, ids, i, st, lastEnd, f);
      assert ReplayRecords(st, fid, scan.records).Ok? && scan.stop.None?;
      ReplayFileScanned(st, f, fid, scan.records, scan.end);
      var st2 := ReplayRecords(st, fid, scan.records).value;
      SeqNoIsMax(st, fid, scan.records);
      ReplayFromSeqNo(fs, ids, i + 1, st2, scan.end);
    }
  }

  /** A successful `Open` leaves the database with the largest sequence
      number of any record in the files it loaded, or 0 when there are
      none: the next batch commits under a larger one. */
  lemma OpenSeqNo(options: Options, names: seq<string>, disk: map<uint32, seq<byte>>, fault: LoadFault)
    requires OpenResult(options, names, disk, fault).Ok?
    ensures var o := OpenResult(options, names, disk, fault).value;
      o.seqNo == FilesMaxSeqNo(LoadedFiles(Files(None, map[]), o.fileIds, disk), o.fileIds, 0, NonTransactionSeqNo)
  {
    var found := NameIds(names).value;
    var ids := SortInts(found);
    var fs := LoadedFiles(Files(None, map[]), ids, disk);
    if |ids| > 0 {
      ReplayFromSeqNo(fs, ids, 0, ReplayState(map[], map[], NonTransactionSeqNo), 0);
    }
  }
}
