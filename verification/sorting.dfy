/**
 * The stable comparison sort that `Array.prototype.sort` performs, for the
 * comparators the application uses: each compares up to three integer
 * measures lexicographically. A descending measure is passed negated.
 */
module Sorting {

  datatype SortKey = SortKey(primary: int, secondary: int, tertiary: int)

  /** `a` may come before `b`: lexicographically not greater. */
  predicate KeyLe(a: SortKey, b: SortKey) {
    a.primary < b.primary
    || (a.primary == b.primary && a.secondary < b.secondary)
    || (a.primary == b.primary && a.secondary == b.secondary && a.tertiary <= b.tertiary)
  }

  predicate SortedBy<T>(s: seq<T>, key: T -> SortKey) {
    forall i, j :: 0 <= i < j < |s| ==> KeyLe(key(s[i]), key(s[j]))
  }

  /**
   * Places `x` in front of the first element it may precede, so that `x`, which
   * came earlier in the input, stays ahead of elements with an equal key.
   */
  function Insert<T>(x: T, s: seq<T>, key: T -> SortKey): (r: seq<T>)
    ensures multiset(r) == multiset(s) + multiset{x}
    ensures |r| == |s| + 1
    ensures forall k :: 0 <= k < |r| ==> r[k] == x || r[k] in s
  {
    if |s| == 0 || KeyLe(key(x), key(s[0])) then [x] + s
    else
      assert s == [s[0]] + s[1..];
      [s[0]] + Insert(x, s[1..], key)
  }

  /** Inserting into a sorted sequence keeps it sorted. */
  lemma {:induction false} InsertSorted<T>(x: T, s: seq<T>, key: T -> SortKey)
    requires SortedBy(s, key)
    ensures SortedBy(Insert(x, s, key), key)
  {
    if |s| > 0 && !KeyLe(key(x), key(s[0])) {
      var tail := s[1..];
      assert SortedBy(tail, key) by {
        forall i, j | 0 <= i < j < |tail| ensures KeyLe(key(tail[i]), key(tail[j])) {
          assert tail[i] == s[i + 1] && tail[j] == s[j + 1];
        }
      }
      InsertSorted(x, tail, key);
      var t := Insert(x, tail, key);
      forall c | c in t ensures KeyLe(key(s[0]), key(c)) {
        var n :| 0 <= n < |t| && t[n] == c;
        if c in tail {
          var m :| 0 <= m < |tail| && tail[m] == c;
          assert s[m + 1] == c;
        }
      }
      ConsSorted(s[0], t, key);
    }
  }

  /** An element that may precede everything in a sorted sequence can go in front. */
  lemma ConsSorted<T>(a: T, t: seq<T>, key: T -> SortKey)
    requires SortedBy(t, key)
    requires forall c :: c in t ==> KeyLe(key(a), key(c))
    ensures SortedBy([a] + t, key)
  {
    var r := [a] + t;
    forall i, j | 0 <= i < j < |r| ensures KeyLe(key(r[i]), key(r[j])) {
      assert r[j] == t[j - 1];
      if i > 0 {
        assert r[i] == t[i - 1];
      } else {
        assert t[j - 1] in t;
      }
    }
  }

  /** The stable sort: ascending by `key`, ties kept in input order. */
  function SortBy<T>(s: seq<T>, key: T -> SortKey): (r: seq<T>)
    ensures |r| == |s|
    ensures multiset(r) == multiset(s)
    ensures SortedBy(r, key)
  {
    if |s| == 0 then []
    else
      var rest := SortBy(s[1..], key);
      InsertSorted(s[0], rest, key);
      assert s == [s[0]] + s[1..];
      Insert(s[0], rest, key)
  }

  /** Cutting a sorted sequence after `n` keeps elements that may precede every dropped one. */
  lemma CutKeepsFront<T>(s: seq<T>, key: T -> SortKey, n: nat, x: T, k: nat)
    requires SortedBy(s, key) && n <= |s|
    requires x in s && x !in s[..n] && k < n
    ensures KeyLe(key(s[k]), key(x))
  {
    forall i | 0 <= i < n
      ensures s[i] != x
    {
      assert s[..n][i] == s[i];
    }
    var j :| 0 <= j < |s| && s[j] == x;
  }

  /** A prefix of a sorted sequence is sorted and holds part of its elements. */
  lemma PrefixFacts<T>(s: seq<T>, key: T -> SortKey, n: nat)
    requires SortedBy(s, key) && n <= |s|
    ensures SortedBy(s[..n], key)
    ensures multiset(s[..n]) <= multiset(s)
    ensures n == |s| ==> multiset(s[..n]) == multiset(s)
  {
    assert s == s[..n] + s[n..];
  }
}
