/** Facts about cutting concatenated sequences at their seams, stated once
    for any element type so the codec proofs can name the cut they need. */
module Seqs {
  /** `a + b + c` cut at the two seams gives back its three parts. */
  lemma AppendThree<T>(a: seq<T>, b: seq<T>, c: seq<T>)
    ensures (a + b + c)[..|a|] == a
    ensures (a + b + c)[|a|..|a| + |b|] == b
    ensures (a + b + c)[|a| + |b|..] == c
  {
    var s := a + b + c;
    assert s[..|a|] == a;
    assert s[|a|..|a| + |b|] == b;
    assert s[|a| + |b|..] == c;
  }

  /** A sequence with prefix `p` is `p` followed by the rest. */
  lemma PrefixRest<T>(s: seq<T>, p: seq<T>)
    requires |p| <= |s| && s[..|p|] == p
    ensures s == p + s[|p|..]
  {
    assert s == s[..|p|] + s[|p|..];
  }

  /** A non-empty sequence is its front followed by its last element. */
  lemma FrontLast<T>(s: seq<T>)
    requires |s| > 0
    ensures s[..|s| - 1] + [s[|s| - 1]] == s
  {
  }

  /** Inside a copy of `t` at offset `off`, any slice is the matching slice of `t`. */
  lemma SliceWithin<T>(s: seq<T>, off: nat, t: seq<T>, i: nat, n: nat)
    requires off + |t| <= |s| && s[off..off + |t|] == t
    requires i + n <= |t|
    ensures s[off + i..off + i + n] == t[i..i + n]
  {
    forall k | off + i <= k < off + i + n
      ensures s[k] == t[k - off]
    {
      assert s[off..off + |t|][k - off] == s[k];
    }
    assert s[off + i..off + i + n] == t[i..i + n];
  }

  /** Four parts written `c + (x + k + v)` regrouped from the left. */
  lemma Regroup<T>(c: seq<T>, x: seq<T>, k: seq<T>, v: seq<T>)
    ensures c + (x + k + v) == c + x + k + v
    ensures (c + (x + k + v))[..|c|] == c
    ensures (c + (x + k + v))[|c|..|c| + |x|] == x
  {
    var s := c + (x + k + v);
    assert s == c + x + k + v;
    assert s[..|c|] == c;
    assert s[|c|..|c| + |x|] == x;
  }

  /** What follows the first two parts of `c + (t + k + v) + rest`. */
  lemma DropFront<T>(c: seq<T>, t: seq<T>, k: seq<T>, v: seq<T>, rest: seq<T>)
    ensures (c + (t + k + v) + rest)[..|c|] == c
    ensures (c + (t + k + v) + rest)[|c| + |t|..] == k + (v + rest)
    ensures (c + (t + k + v) + rest)[|c| + |t| + |k|..] == v + rest
  {
    var s := c + (t + k + v) + rest;
    assert s[..|c|] == c;
    assert s[|c| + |t|..] == k + (v + rest);
    assert s[|c| + |t| + |k|..] == v + rest;
  }

  /** Inside a copy of `h + k + v` at offset `off`, the bytes of `k` and of
      `v` sit right after those of `h`. */
  lemma PartsWithin<T>(s: seq<T>, off: nat, h: seq<T>, k: seq<T>, v: seq<T>)
    requires off + |h + k + v| <= |s| && s[off..off + |h + k + v|] == h + k + v
    ensures s[off + |h|..off + |h| + |k|] == k
    ensures s[off + |h| + |k|..off + |h| + |k| + |v|] == v
  {
    AppendThree(h, k, v);
    SliceWithin(s, off, h + k + v, |h|, |k|);
    SliceWithin(s, off, h + k + v, |h| + |k|, |v|);
  }
}
