/** The slash-separated path functions of Go's `path` and `path/filepath`
    packages (Unix separator) that `getMergePath` in merge.go relies on:
    `Clean`, `Dir`, `Base` and `filepath.Join` of two elements. */
module Paths {

  const MergeDirName: string := "merge"

  /** `strings.Split(p, "/")`: the pieces of `p` between slashes. */
  function Segments(p: string): (r: seq<string>)
    ensures |r| >= 1 && forall i :: 0 <= i < |r| ==> '/' !in r[i]
    decreases |p|
  {
    if |p| == 0 then [""]
    else
      var rest := Segments(p[1..]);
      if p[0] == '/' then [""] + rest else [[p[0]] + rest[0]] + rest[1..]
  }

  /** `strings.Join(xs, "/")`. */
  function JoinSlash(xs: seq<string>): (r: string)
    ensures |xs| > 0 ==> |r| >= |xs[0]|
    decreases |xs|
  {
    if |xs| == 0 then "" else if |xs| == 1 then xs[0] else xs[0] + "/" + JoinSlash(xs[1..])
  }

  /** A path element that `Clean` keeps as it is. */
  predicate IsName(s: string)
  {
    s != "" && s != "." && s != ".." && '/' !in s
  }

  /** One element of `Clean`'s walk over a path: empty and "." elements
      vanish; ".." removes the last name kept, or when there is none is kept
      in a relative path and dropped at the root; anything else is kept.
      `up` counts the ".." elements kept at the front. */
  function Step(out: seq<string>, up: nat, rooted: bool, s: string): (seq<string>, nat)
  {
    if s == "" || s == "." then (out, up)
    else if s == ".." then
      if |out| > up then (out[..|out| - 1], up)
      else if rooted then (out, up)
      else (out + [".."], up + 1)
    else (out + [s], up)
  }

  /** `Clean`'s walk over the elements `segs`, from the state `(out, up)`. */
  function Walk(out: seq<string>, up: nat, rooted: bool, segs: seq<string>): (r: (seq<string>, nat))
    decreases |segs|
  {
    if |segs| == 0 then (out, up)
    else
      var (o, u) := Walk(out, up, rooted, segs[..|segs| - 1]);
      Step(o, u, rooted, segs[|segs| - 1])
  }

  /** The walk only ever keeps non-empty elements. */
  lemma {:induction false} WalkKeepsNonEmpty(out: seq<string>, up: nat, rooted: bool, segs: seq<string>)
    requires forall i :: 0 <= i < |out| ==> out[i] != ""
    ensures forall i :: 0 <= i < |Walk(out, up, rooted, segs).0| ==> Walk(out, up, rooted, segs).0[i] != ""
    decreases |segs|
  {
    if |segs| > 0 {
      WalkKeepsNonEmpty(out, up, rooted, segs[..|segs| - 1]);
    }
  }

  predicate IsRooted(p: string)
  {
    |p| > 0 && p[0] == '/'
  }

  /** The elements a path keeps once cleaned, and how many of them are
      leading "..". */
  function Kept(p: string): (seq<string>, nat)
  {
    Walk([], 0, IsRooted(p), Segments(p))
  }

  /** A cleaned path written out: rooted at "/" or relative, "." for an
      empty relative path. */
  function Render(rooted: bool, out: seq<string>): string
  {
    if rooted then "/" + JoinSlash(out) else if |out| == 0 then "." else JoinSlash(out)
  }

  /** `path.Clean`: the shortest path naming the same file by lexical
      processing; "." for the empty path. */
  function Clean(p: string): (r: string)
    ensures |r| > 0
  {
    if p == "" then "."
    else
      WalkKeepsNonEmpty([], 0, IsRooted(p), Segments(p));
      Render(IsRooted(p), Kept(p).0)
  }

  /** `p` without its trailing slashes. */
  function TrimTrailingSlashes(p: string): (r: string)
    ensures r <= p && (|r| > 0 ==> r[|r| - 1] != '/')
    decreases |p|
  {
    if |p| > 0 && p[|p| - 1] == '/' then TrimTrailingSlashes(p[..|p| - 1]) else p
  }

  /** `strings.LastIndex(p, "/")`: -1 when there is no slash. */
  function LastSlash(p: string): (i: int)
    ensures -1 <= i < |p|
    ensures i >= 0 ==> p[i] == '/'
    ensures forall j :: i < j < |p| ==> p[j] != '/'
    decreases |p|
  {
    if |p| == 0 then -1 else if p[|p| - 1] == '/' then |p| - 1 else LastSlash(p[..|p| - 1])
  }

  /** `path.Base`: the last element of `p` after trailing slashes are
      removed; "." for the empty path and "/" for a path of slashes. */
  function Base(p: string): (r: string)
  {
    if p == "" then "."
    else
      var t := TrimTrailingSlashes(p);
      var b := t[LastSlash(t) + 1..];
      if b == "" then "/" else b
  }

  /** `path.Dir`: everything up to the last slash, cleaned. */
  function Dir(p: string): (r: string)
  {
    Clean(p[..LastSlash(p) + 1])
  }

  /** `filepath.Join(a, b)`: the non-empty elements joined by a slash and
      cleaned; "" when both are empty. */
  function JoinPath(a: string, b: string): (r: string)
    ensures r == "" <==> a == "" && b == ""
  {
    if a == "" && b == "" then ""
    else if a == "" then Clean(b)
    else if b == "" then Clean(a)
    else Clean(a + "/" + b)
  }

  /** `getMergePath` as written: the directory of the cleaned data
      directory, joined with the base name of the data directory as given
      followed by "merge". */
  function GetMergePath(dirPath: string): (r: string)
    ensures |r| > 0
  {
    JoinPath(Dir(Clean(dirPath)), Base(dirPath) + MergeDirName)
  }

  /** The merge directory as evidently intended: both the directory and the
      base name taken from the cleaned data directory. */
  function MergePath(dirPath: string): (r: string)
    ensures |r| > 0
  {
    var c := Clean(dirPath);
    JoinPath(Dir(c), Base(c) + MergeDirName)
  }

  // --- Splitting and joining.

  lemma {:induction false} SegmentsSlash(a: string, b: string)
    ensures Segments(a + "/" + b) == Segments(a) + Segments(b)
    decreases |a|
  {
    if |a| == 0 {
      assert a + "/" + b == "/" + b;
      assert ("/" + b)[1..] == b;
    } else {
      assert (a + "/" + b)[1..] == a[1..] + "/" + b;
      SegmentsSlash(a[1..], b);
    }
  }

  lemma {:induction false} SegmentsName(s: string)
    requires '/' !in s
    ensures Segments(s) == [s]
    decreases |s|
  {
    if |s| > 0 {
      SegmentsName(s[1..]);
      assert [s[0]] + s[1..] == s;
    }
  }

  /** Splitting undoes joining elements that hold no slash. */
  lemma {:induction false} SegmentsJoin(xs: seq<string>)
    requires |xs| >= 1 && forall i :: 0 <= i < |xs| ==> '/' !in xs[i]
    ensures Segments(JoinSlash(xs)) == xs
    decreases |xs|
  {
    if |xs| == 1 {
      SegmentsName(xs[0]);
    } else {
      SegmentsSlash(xs[0], JoinSlash(xs[1..]));
      SegmentsName(xs[0]);
      SegmentsJoin(xs[1..]);
    }
  }

  lemma {:induction false} JoinSnoc(xs: seq<string>, x: string)
    requires |xs| >= 1
    ensures JoinSlash(xs + [x]) == JoinSlash(xs) + "/" + x
    decreases |xs|
  {
    if |xs| > 1 {
      assert (xs + [x])[1..] == xs[1..] + [x];
      JoinSnoc(xs[1..], x);
    }
  }

  lemma {:induction false} JoinFirst(xs: seq<string>)
    requires |xs| >= 1 && |xs[0]| > 0
    ensures |JoinSlash(xs)| > 0 && JoinSlash(xs)[0] == xs[0][0]
  {
  }

  // --- Clean's walk.

  lemma {:induction false} WalkAppend(out: seq<string>, up: nat, rooted: bool, a: seq<string>, b: seq<string>)
    ensures Walk(out, up, rooted, a + b)
         == Walk(Walk(out, up, rooted, a).0, Walk(out, up, rooted, a).1, rooted, b)
    decreases |b|
  {
    if |b| == 0 {
      assert a + b == a;
    } else {
      assert (a + b)[..|a + b| - 1] == a + b[..|b| - 1];
      WalkAppend(out, up, rooted, a, b[..|b| - 1]);
    }
  }

  lemma WalkOne(out: seq<string>, up: nat, rooted: bool, s: string)
    ensures Walk(out, up, rooted, [s]) == Step(out, up, rooted, s)
  {
    assert [s][..0] == [];
  }

  /** The state of a walk: `up` leading ".." elements (none at the root),
      then names. */
  predicate Resolved(out: seq<string>, up: nat, rooted: bool)
  {
    up <= |out| && (rooted ==> up == 0)
    && (forall i :: 0 <= i < up ==> out[i] == "..")
    && (forall i :: up <= i < |out| ==> IsName(out[i]))
  }

  lemma {:induction false} WalkResolved(out: seq<string>, up: nat, rooted: bool, segs: seq<string>)
    requires Resolved(out, up, rooted)
    requires forall i :: 0 <= i < |segs| ==> '/' !in segs[i]
    ensures Resolved(Walk(out, up, rooted, segs).0, Walk(out, up, rooted, segs).1, rooted)
    decreases |segs|
  {
    if |segs| > 0 {
      WalkResolved(out, up, rooted, segs[..|segs| - 1]);
    }
  }

  /** What `Clean` keeps of a path is a resolved state. */
  lemma KeptResolved(p: string)
    ensures Resolved(Kept(p).0, Kept(p).1, IsRooted(p))
  {
    WalkResolved([], 0, IsRooted(p), Segments(p));
  }

  lemma {:induction false} WalkNames(out: seq<string>, up: nat, rooted: bool, xs: seq<string>)
    requires up <= |out|
    requires forall i :: 0 <= i < |xs| ==> IsName(xs[i])
    ensures Walk(out, up, rooted, xs) == (out + xs, up)
    decreases |xs|
  {
    if |xs| > 0 {
      var x := xs[|xs| - 1];
      WalkNames(out, up, rooted, xs[..|xs| - 1]);
      assert Step(out + xs[..|xs| - 1], up, rooted, x) == (out + xs[..|xs| - 1] + [x], up);
      assert out + xs[..|xs| - 1] + [x] == out + xs;
    } else {
      assert out + xs == out;
    }
  }

  lemma {:induction false} WalkDots(out: seq<string>, ds: seq<string>)
    requires forall i :: 0 <= i < |ds| ==> ds[i] == ".."
    ensures Walk(out, |out|, false, ds) == (out + ds, |out| + |ds|)
    decreases |ds|
  {
    if |ds| > 0 {
      var front := out + ds[..|ds| - 1];
      WalkDots(out, ds[..|ds| - 1]);
      assert ds[|ds| - 1] == "..";
      assert Step(front, |front|, false, "..") == (front + [".."], |front| + 1);
      assert front + [".."] == out + ds;
    } else {
      assert out + ds == out;
    }
  }

  /** Walking a resolved state's own elements from nothing gives it back:
      a cleaned path is clean. */
  lemma WalkResolvedSame(out: seq<string>, up: nat, rooted: bool)
    requires Resolved(out, up, rooted)
    ensures Walk([], 0, rooted, out) == (out, up)
  {
    assert out == out[..up] + out[up..];
    WalkAppend([], 0, rooted, out[..up], out[up..]);
    if !rooted {
      WalkDots([], out[..up]);
      assert [] + out[..up] == out[..up];
    } else {
      assert out[..up] == [];
    }
    WalkNames(out[..up], up, rooted, out[up..]);
  }

  // --- Base and Dir of a path ending in a name.

  lemma {:induction false} LastSlashAppend(x: string, b: string)
    requires '/' !in b
    ensures LastSlash(x + b) == LastSlash(x)
    decreases |b|
  {
    if |b| > 0 {
      assert (x + b)[..|x + b| - 1] == x + b[..|b| - 1];
      LastSlashAppend(x, b[..|b| - 1]);
    } else {
      assert x + b == x;
    }
  }

  /** A path made of a prefix ending in a slash (or empty) and a last name:
      `Base` is the name and `Dir` looks at the prefix. */
  lemma BaseDirSplit(x: string, b: string)
    requires IsName(b)
    requires x == "" || x[|x| - 1] == '/'
    ensures Base(x + b) == b
    ensures Dir(x + b) == Clean(x)
  {
    LastSlashAppend(x, b);
    assert (x + b)[|x + b| - 1] == b[|b| - 1];
    assert (x + b)[|x|..] == b;
    assert (x + b)[..|x|] == x;
  }

  /** The text of a cleaned path before its last element: what `Dir` is
      taken of. */
  function Prefix(rooted: bool, parent: seq<string>): string
  {
    if rooted then (if |parent| == 0 then "/" else "/" + JoinSlash(parent) + "/")
    else if |parent| == 0 then "" else JoinSlash(parent) + "/"
  }

  lemma ResolvedSlashFree(out: seq<string>, up: nat, rooted: bool)
    requires Resolved(out, up, rooted)
    ensures forall i :: 0 <= i < |out| ==> '/' !in out[i] && |out[i]| > 0
  {
    forall i | 0 <= i < |out|
      ensures '/' !in out[i] && |out[i]| > 0
    {
      if i < up {
        assert out[i] == "..";
      }
    }
  }

  /** Walking an empty element, as a path's leading or trailing slash
      gives, changes nothing. */
  lemma WalkEmpty(out: seq<string>, up: nat, rooted: bool, a: seq<string>)
    ensures Walk(out, up, rooted, [""] + a) == Walk(out, up, rooted, a)
    ensures Walk(out, up, rooted, a + [""]) == Walk(out, up, rooted, a)
  {
    WalkAppend(out, up, rooted, [""], a);
    WalkOne(out, up, rooted, "");
    WalkAppend(out, up, rooted, a, [""]);
    WalkOne(Walk(out, up, rooted, a).0, Walk(out, up, rooted, a).1, rooted, "");
  }

  /** A cleaned path is its prefix followed by its last element. */
  lemma PrefixJoin(rooted: bool, parent: seq<string>, b: string)
    ensures Prefix(rooted, parent) == "" || Prefix(rooted, parent)[|Prefix(rooted, parent)| - 1] == '/'
    ensures Prefix(rooted, parent) + b == Render(rooted, parent + [b])
  {
    if |parent| > 0 {
      JoinSnoc(parent, b);
      var j := JoinSlash(parent);
      if rooted {
        assert "/" + j + "/" + b == "/" + (j + "/" + b);
      }
    } else {
      assert parent + [b] == [b];
      if rooted {
        assert Render(rooted, [b]) == "/" + b;
      }
    }
  }

  /** The root cleans to itself. */
  lemma CleanRoot()
    ensures Clean("/") == "/"
  {
    assert "/" == "" + "/" + "";
    SegmentsSlash("", "");
    assert Segments("/") == ["", ""];
    assert IsRooted("/");
    WalkEmpty([], 0, true, [""]);
    WalkOne([], 0, true, "");
    assert Walk([], 0, true, ["", ""]) == ([], 0);
    assert Kept("/") == ([], 0);
    assert Render(true, []) == "/";
  }

  /** The prefix of a cleaned path cleans to the path of its parent. */
  lemma PrefixClean(rooted: bool, parent: seq<string>, up: nat)
    requires Resolved(parent, up, rooted)
    ensures Clean(Prefix(rooted, parent)) == Render(rooted, parent)
  {
    if |parent| == 0 {
      if rooted {
        CleanRoot();
      }
    } else if rooted {
      PrefixCleanRooted(parent, up);
    } else {
      PrefixCleanRelative(parent, up);
    }
  }

  lemma PrefixCleanRooted(parent: seq<string>, up: nat)
    requires |parent| > 0 && Resolved(parent, up, true)
    ensures Clean(Prefix(true, parent)) == Render(true, parent)
  {
    var x := Prefix(true, parent);
    ResolvedSlashFree(parent, up, true);
    WalkResolvedSame(parent, up, true);
    SegmentsSlash(JoinSlash(parent), "");
    SegmentsJoin(parent);
    WalkEmpty([], 0, true, parent);
    assert x == "" + "/" + (JoinSlash(parent) + "/" + "");
    SegmentsSlash("", JoinSlash(parent) + "/" + "");
    assert Segments(x) == [""] + (parent + [""]);
    WalkEmpty([], 0, true, parent + [""]);
  }

  lemma PrefixCleanRelative(parent: seq<string>, up: nat)
    requires |parent| > 0 && Resolved(parent, up, false)
    ensures Clean(Prefix(false, parent)) == Render(false, parent)
  {
    var x := Prefix(false, parent);
    ResolvedSlashFree(parent, up, false);
    WalkResolvedSame(parent, up, false);
    SegmentsSlash(JoinSlash(parent), "");
    SegmentsJoin(parent);
    WalkEmpty([], 0, false, parent);
    JoinFirst(parent);
    assert x == JoinSlash(parent) + "/" + "";
  }

  /** `filepath.Join` of a cleaned path and a name is the path with the
      name as one more element. */
  lemma JoinRender(rooted: bool, parent: seq<string>, up: nat, m: string)
    requires Resolved(parent, up, rooted) && IsName(m)
    ensures JoinPath(Render(rooted, parent), m) == Render(rooted, parent + [m])
  {
    if |parent| == 0 {
      assert parent + [m] == [m];
      if rooted {
        JoinRoot(m);
      } else {
        JoinDot(m);
      }
    } else if rooted {
      JoinRooted(parent, up, m);
    } else {
      JoinRelative(parent, up, m);
    }
  }

  lemma JoinRoot(m: string)
    requires IsName(m)
    ensures JoinPath(Render(true, []), m) == Render(true, [m])
  {
    var d := Render(true, []);
    assert d == "/";
    SegmentsName(m);
    SegmentsSlash(d, m);
    SegmentsSlash("", "");
    WalkEmpty([], 0, true, [m]);
    WalkEmpty([], 0, true, [""] + [m]);
    assert Segments(d + "/" + m) == [""] + ([""] + [m]);
    WalkResolvedSame([m], 0, true);
  }

  lemma JoinDot(m: string)
    requires IsName(m)
    ensures JoinPath(Render(false, []), m) == Render(false, [m])
  {
    var d := Render(false, []);
    assert d == ".";
    SegmentsName(m);
    SegmentsSlash(d, m);
    SegmentsName(".");
    WalkAppend([], 0, false, ["."], [m]);
    WalkOne([], 0, false, ".");
    WalkResolvedSame([m], 0, false);
  }

  lemma JoinRooted(parent: seq<string>, up: nat, m: string)
    requires |parent| > 0 && Resolved(parent, up, true) && IsName(m)
    ensures JoinPath(Render(true, parent), m) == Render(true, parent + [m])
  {
    var d := Render(true, parent);
    ResolvedSlashFree(parent, up, true);
    SegmentsName(m);
    assert Resolved(parent + [m], up, true);
    WalkResolvedSame(parent + [m], up, true);
    SegmentsSlash(d, m);
    SegmentsJoin(parent);
    JoinSnoc(parent, m);
    SegmentsSlash("", JoinSlash(parent));
    assert d == "" + "/" + JoinSlash(parent);
    assert Segments(d + "/" + m) == [""] + (parent + [m]);
    WalkEmpty([], 0, true, parent + [m]);
  }

  lemma JoinRelative(parent: seq<string>, up: nat, m: string)
    requires |parent| > 0 && Resolved(parent, up, false) && IsName(m)
    ensures JoinPath(Render(false, parent), m) == Render(false, parent + [m])
  {
    var d := Render(false, parent);
    ResolvedSlashFree(parent, up, false);
    SegmentsName(m);
    assert Resolved(parent + [m], up, false);
    WalkResolvedSame(parent + [m], up, false);
    SegmentsSlash(d, m);
    SegmentsJoin(parent);
    JoinSnoc(parent, m);
    JoinFirst(parent);
    assert (d + "/" + m)[0] == d[0];
  }

  lemma MergeNameIsName(b: string)
    requires IsName(b)
    ensures IsName(b + MergeDirName)
  {
    var m := b + MergeDirName;
    forall i | 0 <= i < |m| ensures m[i] != '/' {
      if i < |b| {
        assert m[i] == b[i];
      }
    }
    assert |m| > 2;
  }

  /** Base and merge directory of a cleaned path that ends in a name. */
  lemma RenderedSibling(rooted: bool, parent: seq<string>, up: nat, b: string)
    requires Resolved(parent, up, rooted) && IsName(b)
    ensures var c := Render(rooted, parent + [b]);
      Base(c) == b && JoinPath(Dir(c), Base(c) + MergeDirName) == Render(rooted, parent + [b + MergeDirName])
  {
    var c := Render(rooted, parent + [b]);
    PrefixJoin(rooted, parent, b);
    PrefixClean(rooted, parent, up);
    BaseDirSplit(Prefix(rooted, parent), b);
    assert Base(c) == b && Dir(c) == Render(rooted, parent);
    var m := b + MergeDirName;
    MergeNameIsName(b);
    JoinRender(rooted, parent, up, m);
  }

  /** The merge directory sits beside the data directory: when the cleaned
      data directory ends in a name, the merge directory is the same path
      with that last name followed by "merge". */
  lemma MergePathIsSibling(dirPath: string)
    requires |Kept(dirPath).0| > Kept(dirPath).1
    ensures var out := Kept(dirPath).0;
      Clean(dirPath) == Render(IsRooted(dirPath), out)
      && Base(Clean(dirPath)) == out[|out| - 1]
      && MergePath(dirPath) == Render(IsRooted(dirPath), out[..|out| - 1] + [out[|out| - 1] + MergeDirName])
  {
    var out, up := Kept(dirPath).0, Kept(dirPath).1;
    KeptResolved(dirPath);
    var parent, b := out[..|out| - 1], out[|out| - 1];
    assert out == parent + [b];
    assert Resolved(parent, up, IsRooted(dirPath)) && IsName(b);
    RenderedSibling(IsRooted(dirPath), parent, up, b);
  }

  /** A path whose last slash comes right before the name `b` ends in the
      element `b`. */
  lemma SegmentsEndIn(x: string, b: string)
    requires IsName(b) && (x == "" || x[|x| - 1] == '/')
    ensures var s := Segments(x + b); s[|s| - 1] == b
  {
    SegmentsName(b);
    if x == "" {
      assert x + b == b;
    } else {
      var y := x[..|x| - 1];
      assert x + b == y + "/" + b;
      SegmentsSlash(y, b);
    }
  }

  /** When the data directory as given ends in a name `b` (no trailing
      slash, "." or ".."), cleaning it keeps `b` last, so `getMergePath` as
      written takes the same base name as intended and names the same
      merge directory. */
  lemma GetMergePathOfName(x: string, b: string)
    requires IsName(b) && (x == "" || x[|x| - 1] == '/')
    ensures Base(x + b) == b && Base(Clean(x + b)) == b
    ensures GetMergePath(x + b) == MergePath(x + b)
  {
    var p := x + b;
    var segs := Segments(p);
    SegmentsEndIn(x, b);
    var front := segs[..|segs| - 1];
    assert segs == front + [b];
    var w := Walk([], 0, IsRooted(p), front);
    WalkResolved([], 0, IsRooted(p), front);
    assert Kept(p) == (w.0 + [b], w.1);
    MergePathIsSibling(p);
    BaseDirSplit(x, b);
  }

  // --- A clean data directory "/a/b", worked through.

  lemma RenderTwo(a: string, b: string)
    ensures Render(true, [a, b]) == "/" + a + "/" + b
  {
    assert [a, b][1..] == [b];
    assert JoinSlash([a, b]) == a + "/" + b;
    assert "/" + (a + "/" + b) == "/" + a + "/" + b;
  }

  lemma KeptNamed(a: string, b: string)
    requires IsName(a) && IsName(b)
    ensures Kept("/" + a + "/" + b) == ([a, b], 0)
  {
    var names := [a, b];
    var q := "" + "/" + JoinSlash(names);
    assert q == "/" + a + "/" + b;
    SegmentsSlash("", JoinSlash(names));
    SegmentsJoin(names);
    assert Segments(q) == [""] + names;
    WalkEmpty([], 0, true, names);
    WalkNames([], 0, true, names);
    assert [] + names == names;
  }

  /** On a clean data directory "/a/b", `getMergePath` as written and as
      intended agree on the sibling "/a/bmerge". */
  lemma MergePathOfCleanDir(a: string, b: string)
    requires IsName(a) && IsName(b)
    ensures GetMergePath("/" + a + "/" + b) == MergePath("/" + a + "/" + b) == "/" + a + "/" + (b + MergeDirName)
  {
    var p := "/" + a + "/" + b;
    KeptNamed(a, b);
    MergePathIsSibling(p);
    RenderTwo(a, b);
    RenderTwo(a, b + MergeDirName);
    assert [a, b][..1] + [b + MergeDirName] == [a, b + MergeDirName];
  }

  // --- A data directory given with a trailing "..", worked through.

  lemma KeptUp(a: string, b: string)
    requires IsName(a) && IsName(b)
    ensures Kept("/" + a + "/" + b + "/..") == ([a], 0)
  {
    var names := [a, b, ".."];
    JoinSnoc([a, b], "..");
    assert [a, b] + [".."] == names;
    var q := "" + "/" + JoinSlash(names);
    assert q == "/" + a + "/" + b + "/..";
    SegmentsSlash("", JoinSlash(names));
    SegmentsJoin(names);
    assert Segments(q) == [""] + names;
    WalkEmpty([], 0, true, names);
    WalkNames([], 0, true, [a, b]);
    assert [] + [a, b] == [a, b];
    WalkAppend([], 0, true, [a, b], [".."]);
    WalkOne([a, b], 0, true, "..");
    assert Walk([], 0, true, [""] + names) == ([a], 0);
  }

  lemma BaseUp(a: string, b: string)
    requires IsName(a) && IsName(b)
    ensures Base("/" + a + "/" + b + "/..") == ".."
  {
    var p := "/" + a + "/" + b + "/..";
    var x := "/" + a + "/" + b + "/";
    assert p == x + "..";
    LastSlashAppend(x, "..");
    assert TrimTrailingSlashes(p) == p;
    assert p[|x|..] == "..";
  }

  /** `getMergePath` as written takes the base name of the data directory
      before cleaning it: for a data directory "/a/b/.." it names "/..merge"
      at the root instead of "/amerge" beside "/a", the directory that
      "/a/b/.." cleans to. */
  lemma GetMergePathParentDir(a: string, b: string)
    requires IsName(a) && IsName(b)
    ensures Clean("/" + a + "/" + b + "/..") == "/" + a
    ensures GetMergePath("/" + a + "/" + b + "/..") == "/" + (".." + MergeDirName)
    ensures MergePath("/" + a + "/" + b + "/..") == "/" + a + MergeDirName
  {
    var p := "/" + a + "/" + b + "/..";
    var c := CleanUp(a, b);
    assert c == "/" + a;
    BaseUp(a, b);
    DirOfRootName(a);
    JoinRender(true, [], 0, ".." + MergeDirName);
    assert Render(true, [".." + MergeDirName]) == "/" + (".." + MergeDirName);
    MergePathUp(a, b);
  }

  /** "/a/b/.." cleans to "/a", which ends in a name. */
  lemma CleanUp(a: string, b: string) returns (c: string)
    requires IsName(a) && IsName(b)
    ensures c == Clean("/" + a + "/" + b + "/..") == "/" + a
    ensures Kept("/" + a + "/" + b + "/..") == ([a], 0)
  {
    KeptUp(a, b);
    c := Clean("/" + a + "/" + b + "/..");
    assert Render(true, [a]) == "/" + a;
  }

  /** The directory of "/a" is the root. */
  lemma DirOfRootName(a: string)
    requires IsName(a)
    ensures Dir("/" + a) == Render(true, [])
  {
    BaseDirSplit("/", a);
    PrefixClean(true, [], 0);
  }

  /** As intended, the merge directory of "/a/b/.." is "/amerge". */
  lemma MergePathUp(a: string, b: string)
    requires IsName(a) && IsName(b)
    ensures MergePath("/" + a + "/" + b + "/..") == "/" + a + MergeDirName
  {
    var p := "/" + a + "/" + b + "/..";
    KeptUp(a, b);
    MergePathIsSibling(p);
    assert [a][..0] + [a + MergeDirName] == [a + MergeDirName];
    assert Render(true, [a + MergeDirName]) == "/" + a + MergeDirName;
  }
}
