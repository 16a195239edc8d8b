/** The log-record codec of data/log_record.go. An encoded record is
      crc (4 bytes, little-endian) | type (1 byte) | key size (varint) |
      value size (varint) | key | value
    and the crc is CRC-32/IEEE of every byte after the crc field. */
module Data {
  import opened Wrappers
  import opened Bytes
  import opened Binary
  import opened Crc32
  import Seqs

  /** A record type is a plain byte on disk; three values are named. */
  type LogRecordType = byte

  const LogRecordNormal: LogRecordType := 0
  const LogRecordDeleted: LogRecordType := 1
  const LogRecordTxnFinished: LogRecordType := 2

  /** `crc32.Size`: the width of the crc field. */
  const CrcSize: nat := 4

  /** crc + type + two 32-bit varints: 4 + 1 + 5 + 5. */
  const MaxLogRecordHeaderSize: nat := MaxVarintLen32 * 2 + 5

  datatype LogRecord = LogRecord(key: seq<byte>, value: seq<byte>, recordType: LogRecordType)

  datatype LogRecordHeader = LogRecordHeader(crc: uint32, recordType: LogRecordType, keySize: uint32, valueSize: uint32)

  /** Where a record starts: the data file's id and the byte offset in it. */
  datatype LogRecordPos = LogRecordPos(fid: uint32, offset: int)

  /** A record read during replay and held back until its batch commits. */
  datatype TransactionRecord = TransactionRecord(record: LogRecord, pos: LogRecordPos)

  /** The outcome of `decodeLogRecordHeader`: `nil` for a buffer of at most
      four bytes, a header with its length, or the run-time panic Go raises
      when a varint overflow drives the slice index below zero. */
  datatype HeaderDecoding = NoHeader | SlicePanic | Decoded(header: LogRecordHeader, headerSize: int)

  /** The header length of the encoding of `r`. */
  function HeaderSize(r: LogRecord): nat
  {
    5 + |VarintBytes(|r.key|)| + |VarintBytes(|r.value|)|
  }

  /** The encoder writes into a 15-byte header buffer; Go panics when the two
      varints do not fit it. */
  predicate HeaderFits(r: LogRecord)
  {
    HeaderSize(r) <= MaxLogRecordHeaderSize
  }

  /** Key and value sizes that the header's uint32 fields can hold. */
  predicate SizesFit(r: LogRecord)
  {
    |r.key| < Uint32Modulus && |r.value| < Uint32Modulus
  }

  /** The header bytes after the crc field: type and the two size varints. */
  function HeaderFields(r: LogRecord): seq<byte>
  {
    [r.recordType] + VarintBytes(|r.key|) + VarintBytes(|r.value|)
  }

  /** Every byte after the crc field. */
  function Payload(r: LogRecord): seq<byte>
  {
    HeaderFields(r) + r.key + r.value
  }

  /** The encoded header: the crc field and the fields after it. */
  function EncodedHeader(r: LogRecord): seq<byte>
  {
    PutUint32LE(ChecksumIEEE(Payload(r))) + HeaderFields(r)
  }

  /** The bytes `EncodeLogRecord` returns for `r`. */
  function Encoding(r: LogRecord): seq<byte>
  {
    PutUint32LE(ChecksumIEEE(Payload(r))) + Payload(r)
  }

  /** `EncodeLogRecord`: builds the header in a scratch buffer, copies header,
      key and value into the result and writes the crc into its first four bytes. */
  method EncodeLogRecord(r: LogRecord) returns (encBytes: array<byte>, size: int)
    requires HeaderFits(r)
    ensures encBytes[..] == Encoding(r)
    ensures size == encBytes.Length
  {
    var header := new byte[MaxLogRecordHeaderSize];
    var index := PutHeaderFields(header, r);

    size := index + |r.key| + |r.value|;
    encBytes := new byte[size];
    forall i | 0 <= i < index {
      encBytes[i] := header[i];
    }
    forall i | 0 <= i < |r.key| {
      encBytes[index + i] := r.key[i];
    }
    forall i | 0 <= i < |r.value| {
      encBytes[index + |r.key| + i] := r.value[i];
    }
    PayloadFromParts(r, encBytes[..], header[..], index);
    var crc := ChecksumIEEE(encBytes[4..]);
    PutUint32(encBytes, crc);
    assert encBytes[..] == encBytes[..4] + encBytes[4..];
  }

  /** The part of `EncodeLogRecord` that fills bytes 4 up to the header
      length of the scratch header: type, key size, value size. */
  method PutHeaderFields(header: array<byte>, r: LogRecord) returns (index: nat)
    requires header.Length == MaxLogRecordHeaderSize && HeaderFits(r)
    modifies header
    ensures index == HeaderSize(r)
    ensures header[4..index] == HeaderFields(r)
  {
    header[4] := r.recordType;
    index := 5;
    var n := PutVarint(header, index, |r.key|);
    index := index + n;
    ghost var keyBytes := header[4..index];
    assert keyBytes == [r.recordType] + VarintBytes(|r.key|) by {
      assert header[4..index] == [header[4]] + header[5..index];
    }
    n := PutVarint(header, index, |r.value|);
    assert header[4..index] == keyBytes;
    assert header[4..index + n] == header[4..index] + header[index..index + n];
    index := index + n;
  }

  /** An array filled as EncodeLogRecord fills it holds the payload from byte 4 on. */
  lemma PayloadFromParts(r: LogRecord, e: seq<byte>, header: seq<byte>, index: nat)
    requires index == HeaderSize(r) && |e| == index + |r.key| + |r.value|
    requires index <= |header| && header[4..index] == HeaderFields(r)
    requires forall i :: 0 <= i < index ==> e[i] == header[i]
    requires forall i :: 0 <= i < |r.key| ==> e[index + i] == r.key[i]
    requires forall i :: 0 <= i < |r.value| ==> e[index + |r.key| + i] == r.value[i]
    ensures e[4..] == Payload(r)
  {
    assert e[4..index] == header[4..index];
    assert e[index..index + |r.key|] == r.key;
    assert e[index + |r.key|..] == r.value;
    assert e[4..] == e[4..index] + e[index..index + |r.key|] + e[index + |r.key|..];
  }

  /** `decodeLogRecordHeader`: the crc and type come from the first five
      bytes, the sizes from two varints read one after the other. The byte
      counts the varints report are added to the header length as they are,
      without checking for a short or overflowing varint. */
  function DecodeLogRecordHeader(buf: seq<byte>): (r: HeaderDecoding)
    ensures r.NoHeader? <==> |buf| <= 4
    ensures r.Decoded? ==> r.header.crc == Uint32LE(buf) && r.header.recordType == buf[4]
    ensures r.Decoded? ==> r.headerSize <= |buf|
  {
    if |buf| <= 4 then NoHeader
    else
      var (keySize, n1) := VarintAt(buf, 5);
      var index := 5 + n1;
      if index < 0 then SlicePanic
      else
        var (valueSize, n2) := VarintAt(buf, index);
        Decoded(LogRecordHeader(Uint32LE(buf), buf[4], ToUint32(keySize), ToUint32(valueSize)), index + n2)
  }

  /** `getLogRecordCRC`: the checksum of the header bytes after the crc field,
      continued over the key and then the value; 0 for a nil record. The
      chaining works on the 32-bit register, read as a number at the end. */
  function GetLogRecordCRC(lr: Option<LogRecord>, header: seq<byte>): uint32
  {
    if lr.None? then 0
    else Update(Update(Update(0, header), lr.value.key), lr.value.value)
  }

  /** The encoded length is the header length plus key and value lengths. */
  lemma EncodingLength(r: LogRecord)
    ensures |HeaderFields(r)| == HeaderSize(r) - 4
    ensures |EncodedHeader(r)| == HeaderSize(r)
    ensures |Encoding(r)| == HeaderSize(r) + |r.key| + |r.value|
  {
  }

  /** Where each part of the encoding sits: the crc field in bytes 0..3,
      the header fields up to the header length, then key, then value. */
  lemma EncodingLayout(r: LogRecord)
    ensures var e, h := Encoding(r), HeaderSize(r);
      && |e| == h + |r.key| + |r.value|
      && e[..4] == PutUint32LE(ChecksumIEEE(Payload(r)))
      && e[4..h] == HeaderFields(r)
      && e[..h] == EncodedHeader(r)
      && e[h..h + |r.key|] == r.key
      && e[h + |r.key|..] == r.value
  {
    var c := PutUint32LE(ChecksumIEEE(Payload(r)));
    EncodingLength(r);
    Seqs.Regroup(c, HeaderFields(r), r.key, r.value);
    Seqs.AppendThree(EncodedHeader(r), r.key, r.value);
  }

  /** The encoding is the encoded header followed by key and value. */
  lemma EncodingSplit(r: LogRecord)
    ensures Encoding(r) == EncodedHeader(r) + r.key + r.value
    ensures |EncodedHeader(r)| == HeaderSize(r)
  {
    Seqs.Regroup(PutUint32LE(ChecksumIEEE(Payload(r))), HeaderFields(r), r.key, r.value);
  }

  /** Bytes 0..3 hold, little-endian, the CRC-32 of every byte after them. */
  lemma EncodingCrc(r: LogRecord)
    ensures Uint32LE(Encoding(r)) == ChecksumIEEE(Encoding(r)[4..])
  {
    EncodingLayout(r);
    Uint32LERoundTrip(ChecksumIEEE(Payload(r)), Encoding(r));
    assert Encoding(r)[4..] == Payload(r);
  }

  /** When both sizes fit a uint32 the header is at most 15 bytes. */
  lemma HeaderBound(r: LogRecord)
    requires SizesFit(r)
    ensures HeaderSize(r) <= MaxLogRecordHeaderSize
    ensures HeaderFits(r)
  {
    VarintLengthOfSize(|r.key|);
    VarintLengthOfSize(|r.value|);
  }

  /** Decoding the header of an encoded record (from any buffer that starts
      with the encoded header) recovers the stored crc, the type and both
      sizes, and its length. */
  lemma DecodeEncodedHeader(r: LogRecord, buf: seq<byte>)
    requires SizesFit(r)
    requires HeaderSize(r) <= |buf| && buf[..HeaderSize(r)] == EncodedHeader(r)
    ensures DecodeLogRecordHeader(buf)
      == Decoded(LogRecordHeader(ChecksumIEEE(Payload(r)), r.recordType, |r.key|, |r.value|), HeaderSize(r))
  {
    HeaderBound(r);
    EncodingLength(r);
    var c := PutUint32LE(ChecksumIEEE(Payload(r)));
    var k, v := VarintBytes(|r.key|), VarintBytes(|r.value|);
    var rest := buf[HeaderSize(r)..];
    Seqs.PrefixRest(buf, EncodedHeader(r));
    Seqs.DropFront(c, [r.recordType], k, v, rest);
    VarintRoundTrip(|r.key|, v + rest, buf, 5);
    VarintRoundTrip(|r.value|, rest, buf, 5 + |k|);
    Uint32LERoundTrip(ChecksumIEEE(Payload(r)), buf);
    assert buf[4] == r.recordType;
  }

  /** The crc re-check: `getLogRecordCRC` over the decoded record and the
      header bytes after the crc field gives the crc the encoder stored,
      for every record, an empty value included. */
  lemma CrcRecheck(r: LogRecord)
    ensures GetLogRecordCRC(Some(r), Encoding(r)[4..HeaderSize(r)]) == Uint32LE(Encoding(r))
  {
    EncodingLayout(r);
    Uint32LERoundTrip(ChecksumIEEE(Payload(r)), Encoding(r));
    UpdateAppend(0, HeaderFields(r), r.key);
    ChecksumAppend(HeaderFields(r) + r.key, r.value);
  }

  /** `getLogRecordCRC(nil, ...)` is 0. */
  lemma CrcOfNilRecord(header: seq<byte>)
    ensures GetLogRecordCRC(None, header) == 0
  {
  }

  /** A five-byte buffer has no size bytes at all: both varints come back as
      (0, 0), so the sizes are 0 and the header length is 5. */
  lemma DecodeFiveBytes(buf: seq<byte>)
    requires |buf| == 5
    ensures DecodeLogRecordHeader(buf) == Decoded(LogRecordHeader(Uint32LE(buf), buf[4], 0, 0), 5)
  {
  }

  /** The header of the record ("name", "bitcask-go", Normal). */
  lemma DecodeSampleHeader()
    ensures DecodeLogRecordHeader([104, 82, 240, 150, 0, 8, 20])
      == Decoded(LogRecordHeader(2532332136, LogRecordNormal, 4, 10), 7)
  {
    var buf: seq<byte> := [104, 82, 240, 150, 0, 8, 20];
    assert VarintAt(buf, 5) == (4, 1);
    assert VarintAt(buf, 6) == (10, 1);
  }

  /** The header of the record ("name", "", Normal). */
  lemma DecodeEmptyValueHeader()
    ensures DecodeLogRecordHeader([9, 252, 88, 14, 0, 8, 0])
      == Decoded(LogRecordHeader(240712713, LogRecordNormal, 4, 0), 7)
  {
    var buf: seq<byte> := [9, 252, 88, 14, 0, 8, 0];
    assert VarintAt(buf, 5) == (4, 1);
    assert VarintAt(buf, 6) == (0, 1);
  }

  /** The header of the tombstone ("name", "bitcask-go", Deleted). */
  lemma DecodeDeletedHeader()
    ensures DecodeLogRecordHeader([43, 153, 86, 17, 1, 8, 20])
      == Decoded(LogRecordHeader(290887979, LogRecordDeleted, 4, 10), 7)
  {
    var buf: seq<byte> := [43, 153, 86, 17, 1, 8, 20];
    assert VarintAt(buf, 5) == (4, 1);
    assert VarintAt(buf, 6) == (10, 1);
  }
}
