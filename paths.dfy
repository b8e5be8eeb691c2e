/**
 * The parts of Python's `posixpath` the indexer uses: `basename`, two-argument
 * `join`, `splitext`, `dirname` and `relpath`. An absolute, normalised path
 * (what `abspath` yields) is given by its segments.
 */
module Paths {
  import opened Strings

  const Sep: char := '/'

  /** One segment of a normalised absolute path: not empty, not `.` or `..`, no separator. */
  predicate IsSegment(s: string) {
    s != "" && s != "." && s != ".." && Sep !in s
  }

  predicate AreSegments(segs: seq<string>) {
    forall k :: 0 <= k < |segs| ==> IsSegment(segs[k])
  }

  /** The text of the absolute path with the given segments: `/a/b`, or `/` for the root. */
  function AbsPath(segs: seq<string>): string {
    [Sep] + JoinWith(Sep, segs)
  }

  /** `posixpath.basename`: the text after the last separator. */
  function Basename(p: string): (b: string)
    ensures EndsWith(p, b)
    ensures Sep !in b
    ensures |b| < |p| ==> p[|p| - |b| - 1] == Sep
  {
    if p == [] || p[|p| - 1] == Sep then []
    else
      var b := Basename(p[..|p| - 1]) + [p[|p| - 1]];
      assert p == p[..|p| - 1] + [p[|p| - 1]];
      b
  }

  /** The three properties of `Basename` fix it: a separator-free suffix that is all of `p` or follows a separator. */
  lemma {:induction false} BasenameUnique(p: string, b: string)
    requires EndsWith(p, b) && Sep !in b
    requires |b| < |p| ==> p[|p| - |b| - 1] == Sep
    ensures Basename(p) == b
    decreases |p|
  {
    if b != [] {
      var p', b' := p[..|p| - 1], b[..|b| - 1];
      assert p[|p| - 1] == b[|b| - 1];
      assert p'[|p'| - |b'|..] == b' by {
        assert p'[|p'| - |b'|..] == p[|p| - |b|..][..|b| - 1];
      }
      assert |b'| < |p'| ==> p'[|p'| - |b'| - 1] == p[|p| - |b| - 1];
      BasenameUnique(p', b');
      assert b == b' + [b[|b| - 1]];
    }
  }

  lemma BasenameAfterSep(x: string, y: string)
    requires Sep !in y
    ensures Basename(x + [Sep] + y) == y
  {
    var p := x + [Sep] + y;
    assert p[|p| - |y|..] == y;
    BasenameUnique(p, y);
  }

  /** The basename of an absolute path is its last segment. */
  lemma {:induction false} BasenameAbsPath(segs: seq<string>)
    requires |segs| > 0 && AreSegments(segs)
    ensures Basename(AbsPath(segs)) == segs[|segs| - 1]
  {
    var last := segs[|segs| - 1];
    if |segs| == 1 {
      BasenameAfterSep([], last);
    } else {
      var init := segs[..|segs| - 1];
      assert segs == init + [last];
      JoinWithSnoc(Sep, init, last);
      assert AbsPath(segs) == ([Sep] + JoinWith(Sep, init)) + [Sep] + last;
      BasenameAfterSep([Sep] + JoinWith(Sep, init), last);
    }
  }

  /** `posixpath.join(a, b)`: `b` alone if it is absolute, else `a` and `b` with one separator between. */
  function PathJoin(a: string, b: string): string {
    if StartsWith(b, [Sep]) then b
    else if a == [] || EndsWith(a, [Sep]) then a + b
    else a + [Sep] + b
  }

  /** What `PathJoin` puts in front of a relative second argument depends on the first argument only. */
  lemma PathJoinPrefix(a: string, b: string)
    requires !StartsWith(b, [Sep])
    ensures PathJoin(a, b) == PathJoin(a, []) + b
  {
  }

  /** Joining onto the same directory keeps distinct relative names distinct. */
  lemma PathJoinInjective(a: string, b1: string, b2: string)
    requires !StartsWith(b1, [Sep]) && !StartsWith(b2, [Sep])
    requires PathJoin(a, b1) == PathJoin(a, b2)
    ensures b1 == b2
  {
    PathJoinPrefix(a, b1);
    PathJoinPrefix(a, b2);
    var d := PathJoin(a, []);
    assert b1 == (d + b1)[|d|..];
  }

  /** A separator-free name joined onto a directory is the basename of the result. */
  lemma PathJoinBasename(a: string, b: string)
    requires b != [] && Sep !in b
    ensures Basename(PathJoin(a, b)) == b
  {
    if a == [] {
      BasenameUnique(b, b);
    } else if EndsWith(a, [Sep]) {
      var x := a[..|a| - 1];
      assert a + b == x + [Sep] + b;
      BasenameAfterSep(x, b);
    } else {
      BasenameAfterSep(a, b);
    }
  }

  /** `s.rfind(c)`: the index of the last `c`, or -1. */
  function LastIndexOf(s: string, c: char): (i: int)
    ensures -1 <= i < |s|
    ensures i >= 0 ==> s[i] == c
    ensures forall k :: i < k < |s| ==> s[k] != c
  {
    if s == [] then -1
    else if s[|s| - 1] == c then |s| - 1
    else LastIndexOf(s[..|s| - 1], c)
  }

  /**
   * `posixpath.splitext`: the extension runs from the last dot of the last
   * segment, unless that segment has only dots before it.
   */
  function Splitext(p: string): (r: (string, string))
    ensures r.0 + r.1 == p
    ensures r.1 == [] || (r.1[0] == '.' && Sep !in r.1 && '.' !in r.1[1..])
  {
    var sepIndex := LastIndexOf(p, Sep);
    var dotIndex := LastIndexOf(p, '.');
    if dotIndex > sepIndex && exists k :: sepIndex < k < dotIndex && p[k] != '.' then
      assert p == p[..dotIndex] + p[dotIndex..];
      (p[..dotIndex], p[dotIndex..])
    else
      (p, [])
  }

  lemma LastIndexOfConcat(x: string, y: string, c: char)
    ensures LastIndexOf(x + y, c) == if c in y then |x| + LastIndexOf(y, c) else LastIndexOf(x, c)
  {
    var p := x + y;
    assert forall k :: 0 <= k < |x| ==> p[k] == x[k];
    assert forall k :: 0 <= k < |y| ==> p[|x| + k] == y[k];
  }

  /** Below a directory prefix ending in a separator, `splitext` only looks at the last segment. */
  lemma SplitextUnderDir(x: string, y: string)
    requires x != [] && x[|x| - 1] == Sep && Sep !in y
    ensures Splitext(x + y) == (x + Splitext(y).0, Splitext(y).1)
  {
    var p := x + y;
    LastIndexOfConcat(x, y, Sep);
    LastIndexOfConcat(x, y, '.');
    var sp, dp := LastIndexOf(p, Sep), LastIndexOf(p, '.');
    var sy, dy := LastIndexOf(y, Sep), LastIndexOf(y, '.');
    assert sy == -1 && sp == |x| - 1;
    if '.' in y {
      assert dp == |x| + dy;
      var ep := exists k :: sp < k < dp && p[k] != '.';
      var ey := exists k :: sy < k < dy && y[k] != '.';
      if ep {
        var k :| sp < k < dp && p[k] != '.';
        assert y[k - |x|] == p[k];
      }
      if ey {
        var k :| sy < k < dy && y[k] != '.';
        assert p[k + |x|] == y[k];
      }
      assert ep == ey;
      if ey {
        assert p[..dp] == x + y[..dy];
        assert p[dp..] == y[dy..];
      }
    } else {
      assert dp < sp by {
        if dp >= 0 {
          assert x[dp] == '.';
        }
      }
    }
  }

  /** Dropping the extension of a path segment leaves a path segment. */
  lemma SplitextRootOfSegment(seg: string)
    requires IsSegment(seg)
    ensures IsSegment(Splitext(seg).0)
  {
    var root := Splitext(seg).0;
    assert seg == root + Splitext(seg).1;
    assert forall k :: 0 <= k < |root| ==> root[k] == seg[k];
    if root != seg {
      var sepIndex := LastIndexOf(seg, Sep);
      var k :| sepIndex < k < |root| && seg[k] != '.';
      assert root[k] != '.';
    }
  }

  /** `posixpath.dirname` on segments: the parent, and the root for the root. */
  function DirnameSegs(segs: seq<string>): seq<string> {
    if segs == [] then [] else segs[..|segs| - 1]
  }

  /** The length of the longest common prefix (`posixpath.commonprefix` on two lists). */
  function CommonPrefixLength(a: seq<string>, b: seq<string>): (n: nat)
    ensures n <= |a| && n <= |b|
    ensures a[..n] == b[..n]
    ensures n < |a| && n < |b| ==> a[n] != b[n]
  {
    if a == [] || b == [] || a[0] != b[0] then 0
    else
      var n := 1 + CommonPrefixLength(a[1..], b[1..]);
      assert a[..n] == [a[0]] + a[1..][..n - 1];
      assert b[..n] == [b[0]] + b[1..][..n - 1];
      n
  }

  /** The segments of `posixpath.relpath(path, start)`: one `..` per unshared segment of `start`, then the rest of `path`. */
  function Relpath(path: seq<string>, start: seq<string>): seq<string> {
    var i := CommonPrefixLength(start, path);
    seq(|start| - i, _ => "..") + path[i..]
  }

  /** The text `posixpath.relpath` returns: `.` when the two paths are the same. */
  function RelpathText(path: seq<string>, start: seq<string>): string {
    var rel := Relpath(path, start);
    if rel == [] then "." else JoinWith(Sep, rel)
  }

  /** A path below `start` is relative to it by the segments that follow. */
  lemma RelpathBelow(start: seq<string>, rel: seq<string>)
    ensures Relpath(start + rel, start) == rel
  {
    assert forall k :: 0 <= k < |start| ==> (start + rel)[k] == start[k];
    assert (start + rel)[|start|..] == rel;
  }
}
