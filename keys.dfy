/** How a record's stored key carries the sequence number of the batch that
    wrote it. batch.go is not part of this model: the stored key is taken to
    be the `PutUvarint` encoding of the sequence number followed by the
    user's key, and parsing reads that varint back off the front. */
module Keys {
  import opened Bytes
  import opened Binary

  /** The sequence number of writes made outside any batch. */
  const NonTransactionSeqNo: nat := 0

  /** `logRecordKeyWithSeq`: the stored key for `key` written by batch `seqNo`. */
  function LogRecordKeyWithSeq(key: seq<byte>, seqNo: nat): (r: seq<byte>)
    ensures |r| == |UvarintBytes(seqNo)| + |key|
    ensures r[|UvarintBytes(seqNo)|..] == key
  {
    UvarintBytes(seqNo) + key
  }

  /** `parseLogRecordKey`: the user's key and the sequence number. A key whose
      front is no complete varint is taken as a non-transactional key as a
      whole. */
  function ParseLogRecordKey(stored: seq<byte>): (r: (seq<byte>, nat))
    ensures |r.0| <= |stored|
    ensures r.0 == stored[|stored| - |r.0|..]
  {
    var (seqNo, n) := Uvarint(stored);
    if n <= 0 then (stored, NonTransactionSeqNo) else (stored[n..], seqNo)
  }

  /** Parsing a stored key gives back the key and sequence number it was built
      from (for sequence numbers below 2^63, whose varints take at most nine
      bytes). */
  lemma ParseKeyWithSeq(key: seq<byte>, seqNo: nat)
    requires seqNo < 0x8000_0000_0000_0000
    ensures ParseLogRecordKey(LogRecordKeyWithSeq(key, seqNo)) == (key, seqNo)
  {
    assert Pow128(9) == 0x8000_0000_0000_0000;
    UvarintLength(seqNo, 9);
    UvarintFromRoundTrip(seqNo, key, LogRecordKeyWithSeq(key, seqNo), 0, 0);
  }

  /** The non-transactional stored key is the user's key behind a single zero
      byte. */
  lemma NonTransactionalKey(key: seq<byte>)
    ensures LogRecordKeyWithSeq(key, NonTransactionSeqNo) == [0] + key
    ensures ParseLogRecordKey([0] + key) == (key, NonTransactionSeqNo)
  {
    ParseKeyWithSeq(key, NonTransactionSeqNo);
  }
}
