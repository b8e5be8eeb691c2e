/**
 * Python's ordering of `str` values (code point by code point, a proper
 * prefix first) and `sorted` applied to a set of distinct keys.
 */
module Ordering {

  /** `a < b` on Python strings. */
  predicate LexLess(a: string, b: string)
    decreases |a|
  {
    if |a| == 0 then |b| > 0
    else if |b| == 0 then false
    else if a[0] != b[0] then a[0] < b[0]
    else LexLess(a[1..], b[1..])
  }

  lemma {:induction false} LexLessIrreflexive(a: string)
    ensures !LexLess(a, a)
    decreases |a|
  {
    if |a| > 0 { LexLessIrreflexive(a[1..]); }
  }

  lemma {:induction false} LexLessTransitive(a: string, b: string, c: string)
    requires LexLess(a, b) && LexLess(b, c)
    ensures LexLess(a, c)
    decreases |a|
  {
    if |a| > 0 && a[0] == b[0] && b[0] == c[0] {
      LexLessTransitive(a[1..], b[1..], c[1..]);
    }
  }

  lemma {:induction false} LexLessTotal(a: string, b: string)
    requires a != b
    ensures LexLess(a, b) || LexLess(b, a)
    decreases |a|
  {
    if |a| > 0 && |b| > 0 && a[0] == b[0] {
      assert a == [a[0]] + a[1..] && b == [b[0]] + b[1..];
      LexLessTotal(a[1..], b[1..]);
    }
  }

  /** Every element is smaller than each later one: sorted, and hence without duplicates. */
  ghost predicate StrictlyAscending(s: seq<string>) {
    forall i, j :: 0 <= i < j < |s| ==> LexLess(s[i], s[j])
  }

  ghost predicate IsLeast(k: string, keys: set<string>) {
    k in keys && forall y :: y in keys && y != k ==> LexLess(k, y)
  }

  lemma {:induction false} LeastExists(keys: set<string>)
    requires keys != {}
    ensures exists k :: IsLeast(k, keys)
    decreases |keys|
  {
    var x :| x in keys;
    if keys == {x} {
      assert IsLeast(x, keys);
    } else {
      var rest := keys - {x};
      LeastExists(rest);
      var m :| IsLeast(m, rest);
      LexLessTotal(x, m);
      if LexLess(x, m) {
        forall y | y in keys && y != x ensures LexLess(x, y) {
          if y != m { LexLessTransitive(x, m, y); }
        }
        assert IsLeast(x, keys);
      } else {
        assert IsLeast(m, keys);
      }
    }
  }

  /** `sorted(keys)`: every key exactly once, in ascending order. */
  ghost function SortedKeys(keys: set<string>): (r: seq<string>)
    ensures |r| == |keys|
    ensures forall x :: x in r <==> x in keys
    ensures StrictlyAscending(r)
    decreases |keys|
  {
    if keys == {} then []
    else
      LeastExists(keys);
      var k :| IsLeast(k, keys);
      [k] + SortedKeys(keys - {k})
  }

  lemma LeastUnique(a: string, b: string, keys: set<string>)
    requires IsLeast(a, keys) && IsLeast(b, keys)
    ensures a == b
  {
    if a != b {
      assert LexLess(a, b) && LexLess(b, a);
      LexLessTransitive(a, b, a);
      LexLessIrreflexive(a);
      assert false;
    }
  }

  /** The head of a strictly ascending sequence is the least of its elements, and the tail holds the others. */
  lemma AscendingHead(s: seq<string>, keys: set<string>)
    requires StrictlyAscending(s) && s != []
    requires forall x :: x in s <==> x in keys
    ensures IsLeast(s[0], keys)
    ensures StrictlyAscending(s[1..])
    ensures forall x :: x in s[1..] <==> x in keys - {s[0]}
  {
    forall y | y in keys && y != s[0] ensures LexLess(s[0], y) {
      var j :| 0 <= j < |s| && s[j] == y;
    }
    forall x | x in s[1..] ensures x != s[0] {
      var j :| 1 <= j < |s| && s[j] == x;
      assert LexLess(s[0], s[j]);
      LexLessIrreflexive(x);
    }
    assert forall x :: x in s <==> x == s[0] || x in s[1..] by {
      assert s == [s[0]] + s[1..];
    }
  }

  /** Only one sequence is strictly ascending with exactly the given elements: `sorted` has no choice to make. */
  lemma {:induction false} SortedKeysUnique(keys: set<string>, s: seq<string>)
    requires StrictlyAscending(s)
    requires forall x :: x in s <==> x in keys
    ensures s == SortedKeys(keys)
    decreases |s|
  {
    var r := SortedKeys(keys);
    if s == [] {
      assert keys == {};
    } else {
      assert s[0] in keys;
      AscendingHead(s, keys);
      AscendingHead(r, keys);
      LeastUnique(s[0], r[0], keys);
      SortedKeysUnique(keys - {s[0]}, s[1..]);
      SortedKeysUnique(keys - {s[0]}, r[1..]);
      assert s == [s[0]] + s[1..] && r == [r[0]] + r[1..];
    }
  }
}
