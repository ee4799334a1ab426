/** The order of strings by code points, and the sorted listing of a finite set of strings. */
module Ordering {

  predicate Less(a: string, b: string) {
    if b == "" then false
    else if a == "" then true
    else a[0] < b[0] || (a[0] == b[0] && Less(a[1..], b[1..]))
  }

  lemma {:induction false} LessIsTotal(a: string, b: string)
    ensures a == b || Less(a, b) || Less(b, a)
    ensures !(Less(a, b) && Less(b, a)) && !Less(a, a)
  {
    if a != "" && b != "" {
      assert a == [a[0]] + a[1..] && b == [b[0]] + b[1..];
      LessIsTotal(a[1..], b[1..]);
      LessIsTotal(a[1..], a[1..]);
    } else if a != "" {
      LessIsTotal(a[1..], a[1..]);
    }
  }

  lemma {:induction false} LessIsTransitive(a: string, b: string, c: string)
    requires Less(a, b) && Less(b, c)
    ensures Less(a, c)
  {
    if a != "" && b != "" && c != "" && a[0] == b[0] == c[0] {
      LessIsTransitive(a[1..], b[1..], c[1..]);
    }
  }

  predicate IsLeast(m: string, s: set<string>) {
    m in s && forall x | x in s :: x == m || Less(m, x)
  }

  lemma {:induction false} LeastExists(s: set<string>)
    requires s != {}
    ensures exists m :: IsLeast(m, s)
    decreases |s|
  {
    var x: string :| x in s;
    var rest := s - {x};
    if rest == {} {
      assert s == {x} && IsLeast(x, s);
    } else {
      LeastExists(rest);
      var m :| IsLeast(m, rest);
      LessIsTotal(x, m);
      if Less(x, m) {
        forall y | y in s ensures y == x || Less(x, y) {
          if y != x && y != m { LessIsTransitive(x, m, y); }
        }
        assert IsLeast(x, s);
      } else {
        assert IsLeast(m, s);
      }
    }
  }

  lemma LeastIsUnique(m: string, n: string, s: set<string>)
    requires IsLeast(m, s) && IsLeast(n, s)
    ensures m == n
  {
    LessIsTotal(m, n);
  }

  function Least(s: set<string>): (m: string)
    requires s != {}
    ensures IsLeast(m, s)
  {
    LeastExists(s);
    assert forall m, n | IsLeast(m, s) && IsLeast(n, s) :: m == n by {
      forall m, n | IsLeast(m, s) && IsLeast(n, s) ensures m == n { LeastIsUnique(m, n, s); }
    }
    var m :| IsLeast(m, s);
    m
  }

  predicate Ascending(keys: seq<string>) {
    forall i, j | 0 <= i < j < |keys| :: Less(keys[i], keys[j])
  }

  /** Python's sorted on a set of strings. */
  function SortedSet(s: set<string>): (keys: seq<string>)
    ensures forall k :: k in keys <==> k in s
    ensures Ascending(keys)
  {
    if s == {} then [] else [Least(s)] + SortedSet(s - {Least(s)})
  }

  /** The order in words: the one ends where the other goes on, or at their first difference it has the lesser character. */
  lemma {:induction false} LessMeans(a: string, b: string)
    ensures Less(a, b) <==>
              exists k: nat :: k <= |a| && k < |b| && a[..k] == b[..k] && (k < |a| ==> a[k] < b[k])
  {
    if b == "" {
    } else if a == "" {
      assert a[..0] == b[..0];
    } else {
      LessMeans(a[1..], b[1..]);
      if Less(a[1..], b[1..]) && a[0] == b[0] {
        var k: nat :| k <= |a[1..]| && k < |b[1..]| && a[1..][..k] == b[1..][..k] && (k < |a[1..]| ==> a[1..][k] < b[1..][k]);
        assert a[..k + 1] == [a[0]] + a[1..][..k] && b[..k + 1] == [b[0]] + b[1..][..k];
      }
      if a[0] < b[0] { assert a[..0] == b[..0]; }
      if k: nat :| k <= |a| && k < |b| && a[..k] == b[..k] && (k < |a| ==> a[k] < b[k]) {
        if k > 0 {
          assert a[0] == a[..k][0] && b[0] == b[..k][0];
          assert a[1..][..k - 1] == a[..k][1..] && b[1..][..k - 1] == b[..k][1..];
        }
      }
    }
  }

  /** How many names of a set come before a name. */
  ghost function LesserCount(names: set<string>, name: string): nat {
    |set n | n in names && Less(n, name)|
  }

  lemma {:induction false} DistinctCount(keys: seq<string>)
    requires Ascending(keys)
    ensures |set k | k in keys| == |keys|
  {
    hide Less;
    if keys != [] {
      var front, last := keys[..|keys| - 1], keys[|keys| - 1];
      assert Ascending(front);
      DistinctCount(front);
      LessIsTotal(last, last);
      assert last !in front;
      assert keys == front + [last];
      assert (set k | k in keys) == (set k | k in front) + {last};
    }
  }

  lemma FrontIsLesser(keys: seq<string>, k: nat)
    requires Ascending(keys) && k < |keys|
    ensures forall n :: n in keys[..k] <==> n in keys && Less(n, keys[k])
  {
    hide Less;
    forall n | n in keys ensures n in keys[..k] <==> Less(n, keys[k]) {
      var i :| 0 <= i < |keys| && keys[i] == n;
      LessIsTotal(keys[k], keys[i]);
      if i < k { assert keys[..k][i] == n; }
      if j :| 0 <= j < k && keys[..k][j] == n { assert keys[j] == n; }
    }
  }

  lemma FrontAscends(keys: seq<string>, k: nat)
    requires Ascending(keys) && k <= |keys|
    ensures Ascending(keys[..k])
  {
    hide Less;
  }

  /** In the sorted listing the names ahead of a name are those in front of it, and no name is listed twice. */
  lemma ListedBehindLesser(s: set<string>, k: nat)
    ensures |SortedSet(s)| == |s|
    ensures k < |s| ==> LesserCount(s, SortedSet(s)[k]) == k
  {
    hide Less, SortedSet, Ascending;
    var keys := SortedSet(s);
    DistinctCount(keys);
    assert (set n | n in keys) == s;
    if k < |s| {
      FrontIsLesser(keys, k);
      FrontAscends(keys, k);
      DistinctCount(keys[..k]);
      assert (set n | n in keys[..k]) == set n | n in s && Less(n, keys[k]);
    }
  }
}
