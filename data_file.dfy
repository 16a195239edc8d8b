/** Data files as the engine sees them: an id, the write offset the engine
    keeps for it, and the bytes on disk. data/data_file.go is not part of
    this model; its reads and writes are stated here in terms of the codec. */
module DataFiles {
  import opened Wrappers
  import opened Bytes
  import opened Data
  import Crc32
  import Seqs

  datatype DataFile = DataFile(fileId: uint32, writeOff: int, content: seq<byte>)

  /** What reading a record at an offset yields: the record and the number
      of bytes it occupies; end of data (no complete header or a truncated
      record); a crc mismatch; or the panic of a header whose varint overflow
      makes its length negative. */
  datatype ReadResult = Read(record: LogRecord, size: nat) | Eof | InvalidCrc | ReadPanic

  /** A data file opened with `OpenDataFile`: the bytes already on disk and a
      write offset of 0. */
  function OpenDataFile(fileId: uint32, onDisk: seq<byte>): (f: DataFile)
    ensures f.fileId == fileId && f.writeOff == 0 && f.content == onDisk
  {
    DataFile(fileId, 0, onDisk)
  }

  /** `DataFile.Write`: the bytes go to the end of the file (it is opened for
      appending) and the write offset advances by their number. */
  function Write(f: DataFile, b: seq<byte>): (g: DataFile)
    ensures g.fileId == f.fileId
    ensures g.content == f.content + b && g.writeOff == f.writeOff + |b|
  {
    DataFile(f.fileId, f.writeOff + |b|, f.content + b)
  }

  /** `IOManager.Read` of `n` bytes at `offset`, taken one byte at a time. */
  function ReadAt(content: seq<byte>, offset: nat, n: nat): (b: seq<byte>)
    requires offset + n <= |content|
    ensures |b| == n
    decreases n
  {
    if n == 0 then [] else ReadAt(content, offset, n - 1) + [content[offset + n - 1]]
  }

  /** The bytes read are the slice of the file from `offset`. */
  lemma {:induction false} ReadAtSlice(content: seq<byte>, offset: nat, n: nat)
    requires offset + n <= |content|
    ensures ReadAt(content, offset, n) == content[offset..offset + n]
    decreases n
  {
    if n > 0 {
      ReadAtSlice(content, offset, n - 1);
      assert content[offset..offset + n] == content[offset..offset + n - 1] + [content[offset + n - 1]];
    }
  }

  function Min(a: int, b: int): int
  {
    if a <= b then a else b
  }

  /** The bytes `ReadLogRecord` hands to the header decoder: at most
      `MaxLogRecordHeaderSize` of them, fewer at the end of the file. */
  function HeaderWindow(content: seq<byte>, offset: int): (w: seq<byte>)
    requires 0 <= offset <= |content|
    ensures |w| <= MaxLogRecordHeaderSize
    ensures offset + |w| <= |content|
  {
    ReadAt(content, offset, Min(MaxLogRecordHeaderSize, |content| - offset))
  }

  /** `DataFile.ReadLogRecord(offset)`: decode the header from at most
      15 bytes, read key and value, and re-check the crc. */
  function ReadLogRecord(f: DataFile, offset: int): (r: ReadResult)
    ensures r.Read? ==> 0 <= offset && 0 < r.size && offset + r.size <= |f.content|
  {
    if offset < 0 || offset > |f.content| then Eof
    else
      var headerBuf := HeaderWindow(f.content, offset);
      match DecodeLogRecordHeader(headerBuf)
      case NoHeader => Eof
      case SlicePanic => ReadPanic
      case Decoded(header, headerSize) => ReadBody(f.content, offset, headerBuf, header, headerSize)
  }

  /** The second half of `ReadLogRecord`: with the header decoded, read key
      and value after it and compare the crc. */
  function ReadBody(content: seq<byte>, offset: int, headerBuf: seq<byte>, header: LogRecordHeader,
                    headerSize: int): (r: ReadResult)
    requires 0 <= offset && headerSize <= |headerBuf|
    ensures r.Read? ==> 0 < r.size && offset + r.size <= |content|
  {
    if headerSize < 5 then ReadPanic
    else
      var recordSize := headerSize + header.keySize + header.valueSize;
      if offset + recordSize > |content| then Eof
      else
        var kvStart := offset + headerSize;
        var keyEnd := kvStart + header.keySize;
        var record := LogRecord(ReadAt(content, kvStart, header.keySize),
                                ReadAt(content, keyEnd, header.valueSize), header.recordType);
        if GetLogRecordCRC(Some(record), headerBuf[CrcSize..headerSize]) != header.crc then InvalidCrc
        else Read(record, recordSize)
  }

  /** The encoding of `r` sits in `content` from `offset` on. */
  predicate EncodedAt(content: seq<byte>, offset: nat, r: LogRecord)
  {
    offset + |Encoding(r)| <= |content| && content[offset..offset + |Encoding(r)|] == Encoding(r)
  }

  /** After a header of `headerSize` bytes at `offset`, `content` holds the
      key and value of `record`, as long as `header` says, and the type matches. */
  predicate BodyAt(content: seq<byte>, offset: nat, headerSize: int, header: LogRecordHeader, record: LogRecord)
  {
    && 0 <= headerSize
    && offset + headerSize + header.keySize + header.valueSize <= |content|
    && record.recordType == header.recordType
    && content[offset + headerSize..offset + headerSize + header.keySize] == record.key
    && content[offset + headerSize + header.keySize..offset + headerSize + header.keySize + header.valueSize]
       == record.value
  }

  /** `headerBuf` decodes to `header`, `headerSize` bytes long, and the crc
      check over it and `record` passes. */
  predicate HeaderChecks(headerBuf: seq<byte>, header: LogRecordHeader, headerSize: int, record: LogRecord)
  {
    && 5 <= headerSize <= |headerBuf|
    && DecodeLogRecordHeader(headerBuf) == Decoded(header, headerSize)
    && GetLogRecordCRC(Some(record), headerBuf[CrcSize..headerSize]) == header.crc
  }

  /** Reading at the start of an encoded record gives back that record and
      its encoded length, whatever follows it in the file. */
  lemma ReadEncoded(f: DataFile, offset: nat, r: LogRecord)
    requires SizesFit(r) && EncodedAt(f.content, offset, r)
    ensures ReadLogRecord(f, offset) == Read(r, |Encoding(r)|)
  {
    var headerBuf := HeaderWindow(f.content, offset);
    var header := LogRecordHeader(Crc32.ChecksumIEEE(Payload(r)), r.recordType, |r.key|, |r.value|);
    EncodedHeaderRead(f.content, offset, r, headerBuf, header);
    EncodedBodyRead(f.content, offset, r, header);
    ReadDecoded(f, offset, headerBuf, header, HeaderSize(r), r);
  }

  /** At an encoded record the header window decodes to the record's header
      and the stored crc passes the check. */
  lemma EncodedHeaderRead(content: seq<byte>, offset: nat, r: LogRecord, headerBuf: seq<byte>, header: LogRecordHeader)
    requires SizesFit(r) && EncodedAt(content, offset, r)
    requires headerBuf == HeaderWindow(content, offset)
    requires header == LogRecordHeader(Crc32.ChecksumIEEE(Payload(r)), r.recordType, |r.key|, |r.value|)
    ensures HeaderChecks(headerBuf, header, HeaderSize(r), r)
  {
    WindowDecodes(content, offset, r, headerBuf);
    HeaderCrcChecks(r, headerBuf);
  }

  /** At an encoded record, key and value follow the header, as long as the
      header says. */
  lemma EncodedBodyRead(content: seq<byte>, offset: nat, r: LogRecord, header: LogRecordHeader)
    requires EncodedAt(content, offset, r)
    requires header.keySize == |r.key| && header.valueSize == |r.value| && header.recordType == r.recordType
    ensures |Encoding(r)| == HeaderSize(r) + header.keySize + header.valueSize
    ensures BodyAt(content, offset, HeaderSize(r), header, r)
  {
    EncodingLength(r);
    ReadEncodedParts(content, offset, r);
  }

  /** The crc field of an encoded header matches the record read back. */
  lemma HeaderCrcChecks(r: LogRecord, headerBuf: seq<byte>)
    requires HeaderSize(r) <= |headerBuf| && headerBuf[..HeaderSize(r)] == EncodedHeader(r)
    ensures GetLogRecordCRC(Some(r), headerBuf[CrcSize..HeaderSize(r)]) == Crc32.ChecksumIEEE(Payload(r))
  {
    var h := HeaderSize(r);
    EncodingLength(r);
    Seqs.SliceWithin(headerBuf, 0, EncodedHeader(r), CrcSize, h - CrcSize);
    assert EncodedHeader(r)[CrcSize..h] == HeaderFields(r);
    Crc32.UpdateAppend(0, HeaderFields(r), r.key);
    Crc32.ChecksumAppend(HeaderFields(r) + r.key, r.value);
  }

  /** The header window at an encoded record starts with its encoded header
      and decodes to that record's header. */
  lemma WindowDecodes(content: seq<byte>, offset: nat, r: LogRecord, headerBuf: seq<byte>)
    requires SizesFit(r) && EncodedAt(content, offset, r)
    requires headerBuf == HeaderWindow(content, offset)
    ensures HeaderSize(r) <= |headerBuf| && headerBuf[..HeaderSize(r)] == EncodedHeader(r)
    ensures DecodeLogRecordHeader(headerBuf)
         == Decoded(LogRecordHeader(Crc32.ChecksumIEEE(Payload(r)), r.recordType, |r.key|, |r.value|),
                    HeaderSize(r))
  {
    var h := HeaderSize(r);
    HeaderBound(r);
    EncodingLayout(r);
    Seqs.SliceWithin(content, offset, Encoding(r), 0, h);
    ReadAtSlice(content, offset, |headerBuf|);
    assert headerBuf[..h] == content[offset..offset + h];
    DecodeEncodedHeader(r, headerBuf);
  }

  /** The key and value bytes of an encoded record sit where the header says. */
  lemma ReadEncodedParts(content: seq<byte>, offset: nat, r: LogRecord)
    requires EncodedAt(content, offset, r)
    ensures var kvStart := offset + HeaderSize(r);
      && content[kvStart..kvStart + |r.key|] == r.key
      && content[kvStart + |r.key|..kvStart + |r.key| + |r.value|] == r.value
  {
    EncodingSplit(r);
    Seqs.PartsWithin(content, offset, EncodedHeader(r), r.key, r.value);
  }

  /** `ReadLogRecord` at an offset whose header decodes and whose record is
      complete and passes the crc check. */
  lemma ReadDecoded(f: DataFile, offset: nat, headerBuf: seq<byte>, header: LogRecordHeader,
                    headerSize: int, record: LogRecord)
    requires offset <= |f.content| && headerBuf == HeaderWindow(f.content, offset)
    requires HeaderChecks(headerBuf, header, headerSize, record)
    requires BodyAt(f.content, offset, headerSize, header, record)
    ensures ReadLogRecord(f, offset) == Read(record, headerSize + header.keySize + header.valueSize)
  {
    ReadBodyComplete(f.content, offset, headerBuf, header, headerSize, record);
  }

  /** `ReadBody` on a complete record whose crc checks. */
  lemma ReadBodyComplete(content: seq<byte>, offset: nat, headerBuf: seq<byte>, header: LogRecordHeader,
                         headerSize: int, record: LogRecord)
    requires 5 <= headerSize <= |headerBuf|
    requires BodyAt(content, offset, headerSize, header, record)
    requires GetLogRecordCRC(Some(record), headerBuf[CrcSize..headerSize]) == header.crc
    ensures ReadBody(content, offset, headerBuf, header, headerSize)
         == Read(record, headerSize + header.keySize + header.valueSize)
  {
    ReadAtSlice(content, offset + headerSize, header.keySize);
    ReadAtSlice(content, offset + headerSize + header.keySize, header.valueSize);
  }

  /** Appending to a file does not change the record read at the start of an
      encoded record already in it. */
  lemma ReadEncodedAfterWrite(f: DataFile, offset: nat, r: LogRecord, b: seq<byte>)
    requires SizesFit(r) && EncodedAt(f.content, offset, r)
    ensures ReadLogRecord(Write(f, b), offset) == ReadLogRecord(f, offset) == Read(r, |Encoding(r)|)
  {
    ReadEncoded(f, offset, r);
    var g := Write(f, b);
    assert g.content[offset..offset + |Encoding(r)|] == f.content[offset..offset + |Encoding(r)|];
    ReadEncoded(g, offset, r);
  }
}
