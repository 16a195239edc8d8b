/** The in-memory index of index/index.go: keys ordered byte-wise, the
    B-tree index behind the `Indexer` contract, and its cursor. The B-tree
    of index/btree.go is not part of this model; it is represented by a map
    from key to position together with the keys in ascending order, and its
    cursor by a snapshot of the keys and positions in iteration order. */
module Index {
  import opened Wrappers
  import opened Bytes
  import opened Data

  /** `bytes.Compare`: -1, 0 or +1 by byte-wise lexicographic order, where a
      proper prefix comes first. */
  function Compare(a: seq<byte>, b: seq<byte>): (c: int)
    ensures -1 <= c <= 1
  {
    if |a| == 0 && |b| == 0 then 0
    else if |a| == 0 then -1
    else if |b| == 0 then 1
    else if a[0] < b[0] then -1
    else if a[0] > b[0] then 1
    else Compare(a[1..], b[1..])
  }

  /** `Item.Less`: the ordering of the B-tree items. */
  predicate Less(a: seq<byte>, b: seq<byte>)
  {
    Compare(a, b) == -1
  }

  /** Compare answers 0 exactly on equal keys. */
  lemma {:induction false} CompareZero(a: seq<byte>, b: seq<byte>)
    ensures Compare(a, b) == 0 <==> a == b
  {
    if |a| > 0 && |b| > 0 && a[0] == b[0] {
      CompareZero(a[1..], b[1..]);
      assert a == [a[0]] + a[1..];
      assert b == [b[0]] + b[1..];
    }
  }

  /** Swapping the arguments negates the answer. */
  lemma {:induction false} CompareFlip(a: seq<byte>, b: seq<byte>)
    ensures Compare(b, a) == -Compare(a, b)
  {
    if |a| > 0 && |b| > 0 && a[0] == b[0] {
      CompareFlip(a[1..], b[1..]);
    }
  }

  /** `a < b <= c` or `a <= b < c` gives `a < c`. */
  lemma {:induction false} CompareTrans(a: seq<byte>, b: seq<byte>, c: seq<byte>)
    requires Compare(a, b) <= 0 && Compare(b, c) <= 0
    requires Compare(a, b) < 0 || Compare(b, c) < 0
    ensures Compare(a, c) < 0
  {
    if |a| > 0 && |b| > 0 && |c| > 0 && a[0] == b[0] && b[0] == c[0] {
      CompareTrans(a[1..], b[1..], c[1..]);
    }
  }

  /** `Less` is a strict total order on byte strings. */
  lemma LessIsStrictTotalOrder(a: seq<byte>, b: seq<byte>, c: seq<byte>)
    ensures !Less(a, a)
    ensures Less(a, b) ==> !Less(b, a)
    ensures Less(a, b) && Less(b, c) ==> Less(a, c)
    ensures a != b ==> Less(a, b) || Less(b, a)
  {
    CompareZero(a, a);
    CompareZero(a, b);
    CompareFlip(a, b);
    if Less(a, b) && Less(b, c) {
      CompareTrans(a, b, c);
    }
  }

  /** The index types of index/index.go. */
  const Btree: int := 1
  const ART: int := 2

  /** What `NewIndexer` hands back. */
  datatype IndexerKind = BTreeIndexer | NilIndexer | UnsupportedIndexType

  /** `NewIndexer`: a B-tree for `Btree`, nil for `ART`, a panic otherwise. */
  function NewIndexer(typ: int): (r: IndexerKind)
    ensures r == BTreeIndexer <==> typ == 1
    ensures r == NilIndexer <==> typ == 2
    ensures r == UnsupportedIndexType <==> typ != 1 && typ != 2
  {
    if typ == Btree then BTreeIndexer
    else if typ == ART then NilIndexer
    else UnsupportedIndexType
  }

  /** Keys in strictly ascending order, so without repetition. */
  predicate Ascending(keys: seq<seq<byte>>)
  {
    forall i, j :: 0 <= i < j < |keys| ==> Less(keys[i], keys[j])
  }

  /** Keys in strictly descending order. */
  predicate Descending(keys: seq<seq<byte>>)
  {
    forall i, j :: 0 <= i < j < |keys| ==> Less(keys[j], keys[i])
  }

  /** The sorted key list with `k` added in its place. */
  function Insert(keys: seq<seq<byte>>, k: seq<byte>): (r: seq<seq<byte>>)
    requires Ascending(keys)
    ensures Ascending(r)
    ensures forall x :: x in r <==> x in keys || x == k
  {
    if |keys| == 0 then [k]
    else if Less(keys[0], k) then
      var tail := Insert(keys[1..], k);
      assert forall j :: 0 <= j < |tail| ==> Less(keys[0], tail[j]) by {
        forall j | 0 <= j < |tail|
          ensures Less(keys[0], tail[j])
        {
          assert tail[j] in keys[1..] || tail[j] == k;
        }
      }
      [keys[0]] + tail
    else if keys[0] == k then keys
    else
      assert Less(k, keys[0]) by {
        LessIsStrictTotalOrder(k, keys[0], k);
      }
      assert forall j :: 0 <= j < |keys| ==> Less(k, keys[j]) by {
        forall j | 0 < j < |keys|
          ensures Less(k, keys[j])
        {
          CompareTrans(k, keys[0], keys[j]);
        }
      }
      [k] + keys
  }

  /** The sorted key list without `k`. */
  function Remove(keys: seq<seq<byte>>, k: seq<byte>): (r: seq<seq<byte>>)
    requires Ascending(keys)
    ensures Ascending(r)
    ensures forall x :: x in r <==> x in keys && x != k
  {
    if |keys| == 0 then []
    else if keys[0] == k then
      assert forall j :: 0 < j < |keys| ==> keys[j] != k by {
        forall j | 0 < j < |keys|
          ensures keys[j] != k
        {
          LessIsStrictTotalOrder(keys[0], keys[j], keys[0]);
        }
      }
      keys[1..]
    else
      var tail := Remove(keys[1..], k);
      assert forall j :: 0 <= j < |tail| ==> Less(keys[0], tail[j]) by {
        forall j | 0 <= j < |tail|
          ensures Less(keys[0], tail[j])
        {
          assert tail[j] in keys[1..];
        }
      }
      [keys[0]] + tail
  }

  /** A sequence read back to front. */
  function Reverse<T>(s: seq<T>): (r: seq<T>)
    ensures |r| == |s|
    ensures forall i :: 0 <= i < |s| ==> r[i] == s[|s| - 1 - i]
  {
    if |s| == 0 then [] else Reverse(s[1..]) + [s[0]]
  }

  /** Reversing an ascending list gives a descending one. */
  lemma ReverseDescending(keys: seq<seq<byte>>)
    requires Ascending(keys)
    ensures Descending(Reverse(keys))
  {
    var r := Reverse(keys);
    forall i, j | 0 <= i < j < |r|
      ensures Less(r[j], r[i])
    {
      assert r[i] == keys[|keys| - 1 - i] && r[j] == keys[|keys| - 1 - j];
    }
  }

  /** Distinct keys: as many as the set they make up. */
  lemma {:induction false} AscendingCard(keys: seq<seq<byte>>)
    requires Ascending(keys)
    ensures |set x | x in keys| == |keys|
  {
    if |keys| > 0 {
      AscendingCard(keys[1..]);
      var rest := set x | x in keys[1..];
      assert (set x | x in keys) == rest + {keys[0]};
      assert keys[0] !in rest by {
        forall j | 0 < j < |keys|
          ensures keys[j] != keys[0]
        {
          LessIsStrictTotalOrder(keys[0], keys[j], keys[0]);
        }
      }
    }
  }

  /** The B-tree index: each key's position, and the keys in order. */
  class BTree {
    var entries: map<seq<byte>, LogRecordPos>
    var keys: seq<seq<byte>>

    /** The key list is sorted and holds exactly the mapped keys. */
    ghost predicate Invariant()
      reads this
    {
      Ascending(keys) && forall k :: k in entries <==> k in keys
    }

    /** `NewBTree`: an empty index. */
    constructor ()
      ensures Invariant()
      ensures entries == map[] && keys == []
    {
      entries := map[];
      keys := [];
    }

    /** `Indexer.Get`: the stored position, or nil (None) for an absent key. */
    function Get(key: seq<byte>): (r: Option<LogRecordPos>)
      reads this
      requires Invariant()
      ensures r.Some? <==> key in keys
      ensures r.Some? ==> r.value == entries[key]
    {
      if key in entries then Some(entries[key]) else None
    }

    /** `Indexer.Size`: the number of entries, which is also the length of
        the key list that iteration walks. */
    function Size(): (n: int)
      reads this
      requires Invariant()
      ensures n == |entries|
    {
      AscendingCard(keys);
      assert entries.Keys == set x | x in keys;
      |keys|
    }

    /** `Indexer.Put`: sets the key's position (insert or replace) and
        reports success, which the B-tree always does. */
    method Put(key: seq<byte>, pos: LogRecordPos) returns (ok: bool)
      requires Invariant()
      modifies this
      ensures Invariant()
      ensures ok
      ensures entries == old(entries)[key := pos]
    {
      keys := Insert(keys, key);
      entries := entries[key := pos];
      ok := true;
    }

    /** `Indexer.Delete`: removes the key; the answer says whether it was there. */
    method Delete(key: seq<byte>) returns (ok: bool)
      requires Invariant()
      modifies this
      ensures Invariant()
      ensures ok <==> key in old(entries)
      ensures entries == old(entries) - {key}
    {
      ok := key in entries;
      keys := Remove(keys, key);
      entries := entries - {key};
    }

    /** `Indexer.Iterator(reverse)`: a cursor over a snapshot of the entries,
        in ascending key order or, with `reverse`, descending. */
    method Iterator(reverse: bool) returns (it: IndexIterator)
      requires Invariant()
      ensures fresh(it)
      ensures it.Invariant() && it.cur == 0 && it.reverse == reverse
      ensures it.keys == if reverse then Reverse(keys) else keys
      ensures forall i :: 0 <= i < |it.keys| ==> it.keys[i] in entries && it.values[i] == entries[it.keys[i]]
    {
      var order := if reverse then Reverse(keys) else keys;
      if reverse {
        ReverseDescending(keys);
      }
      assert forall i :: 0 <= i < |order| ==> order[i] in keys;
      assert forall i :: 0 <= i < |order| ==> order[i] in entries;
      var m := entries;
      var values := seq(|order|, i requires 0 <= i < |order| && order[i] in m => m[order[i]]);
      it := new IndexIterator(order, values, reverse);
    }
  }

  /** Where `Seek(key)` may stop: at or after `key` in the cursor's direction. */
  predicate SeekTarget(k: seq<byte>, key: seq<byte>, reverse: bool)
  {
    if reverse then Compare(k, key) <= 0 else Compare(k, key) >= 0
  }

  /** The cursor of the B-tree index over its snapshot. */
  class IndexIterator {
    var keys: seq<seq<byte>>
    var values: seq<LogRecordPos>
    var reverse: bool
    var cur: nat

    /** One position per key, keys in the cursor's direction. */
    ghost predicate Invariant()
      reads this
    {
      |values| == |keys| && (if reverse then Descending(keys) else Ascending(keys))
    }

    constructor (keys0: seq<seq<byte>>, values0: seq<LogRecordPos>, reverse0: bool)
      requires |values0| == |keys0| && (if reverse0 then Descending(keys0) else Ascending(keys0))
      ensures Invariant()
      ensures keys == keys0 && values == values0 && reverse == reverse0 && cur == 0
    {
      keys := keys0;
      values := values0;
      reverse := reverse0;
      cur := 0;
    }

    /** `Iterator.Rewind`: back to the first entry. */
    method Rewind()
      modifies this
      ensures cur == 0
      ensures keys == old(keys) && values == old(values) && reverse == old(reverse)
    {
      cur := 0;
    }

    /** `Iterator.Seek(key)`: the first entry at or after `key` (at or before
        it for a reverse cursor), found by binary search as `sort.Search`
        does; past the end when there is none. */
    method Seek(key: seq<byte>)
      requires Invariant()
      modifies this
      ensures keys == old(keys) && values == old(values) && reverse == old(reverse)
      ensures cur <= |keys|
      ensures forall i :: 0 <= i < cur ==> !SeekTarget(keys[i], key, reverse)
      ensures forall i :: cur <= i < |keys| ==> SeekTarget(keys[i], key, reverse)
    {
      var lo, hi := 0, |keys|;
      while lo < hi
        invariant 0 <= lo <= hi <= |keys|
        invariant forall i :: 0 <= i < lo ==> !SeekTarget(keys[i], key, reverse)
        invariant forall i :: hi <= i < |keys| ==> SeekTarget(keys[i], key, reverse)
        decreases hi - lo
      {
        var mid := (lo + hi) / 2;
        if !SeekTarget(keys[mid], key, reverse) {
          forall i | 0 <= i < mid
            ensures !SeekTarget(keys[i], key, reverse)
          {
            SeekMonotone(keys, i, mid, key, reverse);
          }
          lo := mid + 1;
        } else {
          forall i | mid < i < |keys|
            ensures SeekTarget(keys[i], key, reverse)
          {
            SeekMonotone(keys, mid, i, key, reverse);
          }
          hi := mid;
        }
      }
      cur := lo;
    }

    /** `Iterator.Next`: one entry on. */
    method Next()
      modifies this
      ensures cur == old(cur) + 1
      ensures keys == old(keys) && values == old(values) && reverse == old(reverse)
    {
      cur := cur + 1;
    }

    /** `Iterator.Valid`: true until the cursor has passed the last entry. */
    function Valid(): (b: bool)
      reads this
      ensures b <==> cur < |keys|
    {
      cur < |keys|
    }

    /** `Iterator.Key`: the key of the current entry. */
    function Key(): (k: seq<byte>)
      reads this
      requires Valid()
      ensures k == keys[cur] && k in keys
    {
      keys[cur]
    }

    /** `Iterator.Value`: the position of the current entry. */
    function Value(): (p: LogRecordPos)
      reads this
      requires Valid() && Invariant()
      ensures p == values[cur] && p in values
    {
      values[cur]
    }

    /** `Iterator.Close`: drops the snapshot. */
    method Close()
      modifies this
      ensures keys == [] && values == [] && !Valid()
    {
      keys := [];
      values := [];
      cur := 0;
    }
  }

  /** Along the cursor's order, once an entry is a seek target every later
      one is too. */
  lemma SeekMonotone(keys: seq<seq<byte>>, i: int, j: int, key: seq<byte>, reverse: bool)
    requires 0 <= i < j < |keys|
    requires if reverse then Descending(keys) else Ascending(keys)
    ensures SeekTarget(keys[i], key, reverse) ==> SeekTarget(keys[j], key, reverse)
  {
    if SeekTarget(keys[i], key, reverse) {
      if reverse {
        assert Less(keys[j], keys[i]);
        CompareFlip(keys[i], key);
        CompareFlip(keys[j], key);
        if Compare(keys[j], key) > 0 {
          CompareTrans(key, keys[j], keys[i]);
        }
      } else {
        assert Less(keys[i], keys[j]);
        CompareFlip(keys[i], key);
        CompareFlip(keys[j], key);
        if Compare(keys[j], key) < 0 {
          CompareTrans(keys[i], keys[j], key);
        }
      }
    }
  }
}
