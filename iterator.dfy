/** iterator.go: the engine's iterator. It wraps a cursor of the index,
    passes over the keys that do not start with the configured prefix, and
    reads the value of the current key through the engine. */
module Iteration {
  import opened Wrappers
  import opened Bytes
  import opened Data
  import opened Store
  import Index
  import Engine

  /** options.go: the prefix the keys must start with (empty: every key)
      and whether to walk in descending key order. */
  datatype IteratorOptions = IteratorOptions(prefix: seq<byte>, reverse: bool)

  /** Where `skipToNext` leaves a cursor standing at `i`: the first position
      from `i` on whose key starts with `prefix`, or past the end when there
      is none. */
  function NextMatch(keys: seq<seq<byte>>, prefix: seq<byte>, i: nat): (j: nat)
    ensures i <= j
    ensures i >= |keys| ==> j == i
    ensures i < |keys| ==> j <= |keys|
    ensures forall k :: i <= k < j && k < |keys| ==> !HasPrefix(keys[k], prefix)
    ensures j < |keys| ==> HasPrefix(keys[j], prefix)
    decreases |keys| - i
  {
    if i >= |keys| || HasPrefix(keys[i], prefix) then i else NextMatch(keys, prefix, i + 1)
  }

  /** The keys from position `i` on that start with `prefix`, in order. */
  function FilterFrom(keys: seq<seq<byte>>, prefix: seq<byte>, i: nat): (r: seq<seq<byte>>)
    decreases |keys| - i
  {
    if i >= |keys| then []
    else (if HasPrefix(keys[i], prefix) then [keys[i]] else []) + FilterFrom(keys, prefix, i + 1)
  }

  /** The keys an iterator yields from cursor position `j` on, calling
      `Next` after each until it is no longer valid. */
  function Yield(keys: seq<seq<byte>>, prefix: seq<byte>, j: nat): seq<seq<byte>>
    decreases |keys| - j
  {
    if j >= |keys| then [] else [keys[j]] + Yield(keys, prefix, NextMatch(keys, prefix, j + 1))
  }

  /** Walking from where `skipToNext` stops at `i` yields exactly the keys
      from `i` on that carry the prefix: no matching key is passed over and
      no other key is yielded. */
  lemma {:induction false} YieldFilters(keys: seq<seq<byte>>, prefix: seq<byte>, i: nat)
    requires i <= |keys|
    ensures Yield(keys, prefix, NextMatch(keys, prefix, i)) == FilterFrom(keys, prefix, i)
    decreases |keys| - i
  {
    if i < |keys| {
      YieldFilters(keys, prefix, i + 1);
      if !HasPrefix(keys[i], prefix) {
        assert FilterFrom(keys, prefix, i) == [] + FilterFrom(keys, prefix, i + 1);
      }
    }
  }

  /** The keys filtered from position `i` on are those of positions `i` and
      after that carry the prefix. */
  lemma {:induction false} FilterMembers(keys: seq<seq<byte>>, prefix: seq<byte>, i: nat)
    ensures forall x :: x in FilterFrom(keys, prefix, i) <==>
      exists k :: i <= k < |keys| && keys[k] == x && HasPrefix(x, prefix)
    decreases |keys| - i
  {
    if i < |keys| {
      FilterMembers(keys, prefix, i + 1);
      forall x | exists k :: i <= k < |keys| && keys[k] == x && HasPrefix(x, prefix)
        ensures x in FilterFrom(keys, prefix, i)
      {
        var k :| i <= k < |keys| && keys[k] == x && HasPrefix(x, prefix);
        if k > i {
          assert x in FilterFrom(keys, prefix, i + 1);
        }
      }
    }
  }

  /** Filtering keeps the relative order of the keys: an ascending cursor
      yields ascending keys, a reverse one descending keys. */
  lemma {:induction false} FilterKeepsOrder(keys: seq<seq<byte>>, prefix: seq<byte>, i: nat, reverse: bool)
    requires if reverse then Index.Descending(keys) else Index.Ascending(keys)
    ensures var r := FilterFrom(keys, prefix, i);
      if reverse then Index.Descending(r) else Index.Ascending(r)
    decreases |keys| - i
  {
    if i < |keys| {
      FilterKeepsOrder(keys, prefix, i + 1, reverse);
      var rest := FilterFrom(keys, prefix, i + 1);
      FilterMembers(keys, prefix, i + 1);
      if HasPrefix(keys[i], prefix) {
        var r := [keys[i]] + rest;
        forall a, b | 0 <= a < b < |r|
          ensures if reverse then Index.Less(r[b], r[a]) else Index.Less(r[a], r[b])
        {
          if a > 0 {
            assert r[a] == rest[a - 1] && r[b] == rest[b - 1];
          } else {
            assert r[b] in rest;
            var k :| i + 1 <= k < |keys| && keys[k] == r[b] && HasPrefix(r[b], prefix);
          }
        }
      } else {
        assert FilterFrom(keys, prefix, i) == [] + rest;
      }
    }
  }

  /** With an empty prefix `skipToNext` never moves the cursor and the
      iterator yields every key of the index cursor from where it stands. */
  lemma {:induction false} EmptyPrefixYieldsAll(keys: seq<seq<byte>>, i: nat)
    requires i <= |keys|
    ensures NextMatch(keys, [], i) == i
    ensures Yield(keys, [], i) == keys[i..]
    decreases |keys| - i
  {
    if i < |keys| {
      assert HasPrefix(keys[i], []);
      EmptyPrefixYieldsAll(keys, i + 1);
      assert keys[i..] == [keys[i]] + keys[i + 1..];
    }
  }

  class Iterator {
    const indexIter: Index.IndexIterator
    const db: Engine.DB
    const options: IteratorOptions

    /** The cursor walks in the direction the options ask for. */
    ghost predicate Invariant()
      reads this, indexIter
    {
      indexIter.Invariant() && indexIter.reverse == options.reverse
    }

    constructor (db: Engine.DB, indexIter: Index.IndexIterator, options: IteratorOptions)
      ensures this.db == db && this.indexIter == indexIter && this.options == options
    {
      this.db := db;
      this.indexIter := indexIter;
      this.options := options;
    }

    /** `Iterator.Valid`: whether the cursor stands on an entry. */
    function Valid(): (b: bool)
      reads this, indexIter
      ensures b <==> indexIter.cur < |indexIter.keys|
    {
      indexIter.Valid()
    }

    /** `Iterator.Key`: the key of the entry the cursor stands on. */
    function Key(): (k: seq<byte>)
      reads this, indexIter
      requires Valid()
      ensures k == indexIter.keys[indexIter.cur]
    {
      indexIter.Key()
    }

    /** `skipToNext`: with a prefix, moves the cursor on until it stands on
        a key that starts with it or has passed the last entry; without one
        it does nothing. */
    method SkipToNext()
      requires Invariant()
      modifies indexIter
      ensures Invariant()
      ensures indexIter.keys == old(indexIter.keys) && indexIter.values == old(indexIter.values)
      ensures indexIter.cur == NextMatch(indexIter.keys, options.prefix, old(indexIter.cur))
    {
      var prefixLen := |options.prefix|;
      if prefixLen == 0 {
        return;
      }
      while indexIter.Valid()
        invariant Invariant()
        invariant indexIter.keys == old(indexIter.keys) && indexIter.values == old(indexIter.values)
        invariant NextMatch(indexIter.keys, options.prefix, indexIter.cur)
               == NextMatch(indexIter.keys, options.prefix, old(indexIter.cur))
        decreases |indexIter.keys| - indexIter.cur
      {
        var key := indexIter.Key();
        if prefixLen <= |key| {
          Index.CompareZero(key[..prefixLen], options.prefix);
          if Index.Compare(key[..prefixLen], options.prefix) == 0 {
            break;
          }
        }
        indexIter.Next();
      }
    }

    /** `Iterator.Rewind`: back to the first entry, then on to the first key
        with the prefix. */
    method Rewind()
      requires Invariant()
      modifies indexIter
      ensures Invariant()
      ensures indexIter.keys == old(indexIter.keys) && indexIter.values == old(indexIter.values)
      ensures indexIter.cur == NextMatch(indexIter.keys, options.prefix, 0)
      ensures Valid() ==> HasPrefix(Key(), options.prefix)
    {
      indexIter.Rewind();
      SkipToNext();
    }

    /** `Iterator.Seek(key)`: to the first entry at or after `key` in the
        walking direction whose key has the prefix; past the end when there
        is none. */
    method Seek(key: seq<byte>)
      requires Invariant()
      modifies indexIter
      ensures Invariant()
      ensures indexIter.keys == old(indexIter.keys) && indexIter.values == old(indexIter.values)
      ensures indexIter.cur <= |indexIter.keys|
      ensures forall i :: 0 <= i < indexIter.cur ==>
        !(Index.SeekTarget(indexIter.keys[i], key, options.reverse) && HasPrefix(indexIter.keys[i], options.prefix))
      ensures Valid() ==> Index.SeekTarget(Key(), key, options.reverse) && HasPrefix(Key(), options.prefix)
    {
      indexIter.Seek(key);
      SkipToNext();
    }

    /** `Iterator.Next`: on to the next key with the prefix. */
    method Next()
      requires Invariant()
      modifies indexIter
      ensures Invariant()
      ensures indexIter.keys == old(indexIter.keys) && indexIter.values == old(indexIter.values)
      ensures indexIter.cur == NextMatch(indexIter.keys, options.prefix, old(indexIter.cur) + 1)
      ensures Valid() ==> HasPrefix(Key(), options.prefix)
    {
      indexIter.Next();
      SkipToNext();
    }

    /** `Iterator.Value`: the value at the current entry's position, read as
        `getValueByPosition` reads it; a tombstone there gives
        ErrKeyNotFound. */
    method Value() returns (r: Result<seq<byte>, Error>)
      requires Invariant() && Valid()
      ensures r == ValueByPosition(db.FileSet(), indexIter.values[indexIter.cur])
    {
      var logRecordPos := indexIter.Value();
      r := db.GetValueByPosition(logRecordPos);
    }

    /** `Iterator.Close`: releases the cursor, which is then never valid. */
    method Close()
      modifies indexIter
      ensures !Valid()
    {
      indexIter.Close();
    }
  }

  /** `NewIterator`: a cursor over the engine's index in the direction the
      options ask for, standing on the first entry (the prefix is not yet
      applied). */
  method NewIterator(db: Engine.DB, options: IteratorOptions) returns (it: Iterator)
    requires db.Invariant()
    ensures fresh(it) && fresh(it.indexIter) && it.Invariant()
    ensures it.db == db && it.options == options && it.indexIter.cur == 0
    ensures it.indexIter.keys == if options.reverse then Index.Reverse(db.index.keys) else db.index.keys
    ensures forall i :: 0 <= i < |it.indexIter.keys| ==>
      it.indexIter.keys[i] in db.index.entries && it.indexIter.values[i] == db.index.entries[it.indexIter.keys[i]]
  {
    var indexIter := db.index.Iterator(options.reverse);
    it := new Iterator(db, indexIter, options);
  }

  /** A rewound iterator over an index with key list `keys` yields the keys
      of the index that carry the prefix, each once, ascending or, for a
      reverse iterator, descending. */
  lemma IteratorYields(keys: seq<seq<byte>>, prefix: seq<byte>, reverse: bool)
    requires Index.Ascending(keys)
    ensures var order := if reverse then Index.Reverse(keys) else keys;
      var ys := Yield(order, prefix, NextMatch(order, prefix, 0));
      && (if reverse then Index.Descending(ys) else Index.Ascending(ys))
      && forall x :: x in ys <==> x in keys && HasPrefix(x, prefix)
  {
    var order := if reverse then Index.Reverse(keys) else keys;
    if reverse {
      Index.ReverseDescending(keys);
    }
    YieldFilters(order, prefix, 0);
    FilterKeepsOrder(order, prefix, 0, reverse);
    FilterMembers(order, prefix, 0);
    forall x | x in keys
      ensures x in order
    {
      var k :| 0 <= k < |keys| && keys[k] == x;
      if reverse {
        assert order[|keys| - 1 - k] == x;
      }
    }
  }

  /** On a sound engine state, the value an iterator reads at an entry of
      its snapshot is the value of that key's record. */
  lemma ValueAtEntry(fs: Files, entries: map<seq<byte>, LogRecordPos>, records: map<seq<byte>, LogRecord>,
                     key: seq<byte>, pos: LogRecordPos)
    requires Sound(fs, entries, records) && key in entries && pos == entries[key]
    ensures ValueByPosition(fs, pos) == Ok(Contents(records)[key])
  {
    ReadHeld(fs, pos, records[key]);
  }
}
