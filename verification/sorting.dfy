/** A stable insertion sort over a caller-supplied total preorder, standing in for Python's
    `sorted(xs, key=...)`: elements whose keys tie keep their input order. */
module Sorting {
  import opened Sequences

  /** `le` is total and transitive: a valid "not greater than" on sort keys. */
  ghost predicate TotalPreorder<T(!new)>(le: (T, T) -> bool) {
    && (forall a, b :: le(a, b) || le(b, a))
    && (forall a, b, c :: le(a, b) && le(b, c) ==> le(a, c))
  }

  /** No element is greater than one that comes after it. */
  ghost predicate SortedBy<T>(le: (T, T) -> bool, s: seq<T>) {
    forall i, j :: 0 <= i < j < |s| ==> le(s[i], s[j])
  }

  /** Inserts `x` in front of the first element it is not greater than, so that `x` stays ahead
      of every later element it ties with. */
  function Insert<T(!new)>(le: (T, T) -> bool, x: T, s: seq<T>): (r: seq<T>)
    requires TotalPreorder(le) && SortedBy(le, s)
    ensures SortedBy(le, r)
    ensures multiset(r) == multiset(s) + multiset{x}
    decreases |s|
  {
    if |s| == 0 || le(x, s[0]) then [x] + s
    else
      var rest := Insert(le, x, s[1..]);
      assert s == [s[0]] + s[1..];
      assert le(s[0], x);
      forall k | 0 <= k < |rest| ensures le(s[0], rest[k]) {
        assert rest[k] in multiset(rest);
        if rest[k] != x {
          assert rest[k] in multiset(s[1..]);
          var j :| 0 <= j < |s[1..]| && s[1..][j] == rest[k];
          assert s[j + 1] == rest[k];
        }
      }
      PrependKeepsSorted(le, s[0], rest);
      [s[0]] + rest
  }

  /** An element no greater than any element of a sorted sequence can go in front of it. */
  lemma PrependKeepsSorted<T>(le: (T, T) -> bool, a: T, s: seq<T>)
    requires SortedBy(le, s)
    requires forall k :: 0 <= k < |s| ==> le(a, s[k])
    ensures SortedBy(le, [a] + s)
  {
    var r := [a] + s;
    forall i, j | 0 <= i < j < |r| ensures le(r[i], r[j]) {
      assert r[j] == s[j - 1];
      if i > 0 {
        assert r[i] == s[i - 1];
      }
    }
  }

  function InsertionSort<T(!new)>(le: (T, T) -> bool, s: seq<T>): (r: seq<T>)
    requires TotalPreorder(le)
    ensures SortedBy(le, r)
    ensures multiset(r) == multiset(s)
    decreases |s|
  {
    if |s| == 0 then []
    else
      assert s == [s[0]] + s[1..];
      Insert(le, s[0], InsertionSort(le, s[1..]))
  }

  /** Sorting an already sorted sequence leaves it exactly as it was (not merely a permutation). */
  lemma {:induction false} SortSortedIsIdentity<T(!new)>(le: (T, T) -> bool, s: seq<T>)
    requires TotalPreorder(le) && SortedBy(le, s)
    ensures InsertionSort(le, s) == s
    decreases |s|
  {
    if |s| > 0 {
      SortSortedIsIdentity(le, s[1..]);
      assert InsertionSort(le, s[1..]) == s[1..];
      assert s == [s[0]] + s[1..];
    }
  }

  /** Deleting elements from a sorted sequence leaves it sorted. */
  lemma {:induction false} SubsequenceOfSorted<T>(le: (T, T) -> bool, sub: seq<T>, s: seq<T>)
    requires IsSubsequence(sub, s) && SortedBy(le, s)
    ensures SortedBy(le, sub)
    decreases |s|
  {
    if |sub| == 0 {
    } else if sub[0] == s[0] && IsSubsequence(sub[1..], s[1..]) {
      SubsequenceOfSorted(le, sub[1..], s[1..]);
      SubsequenceMembers(sub[1..], s[1..]);
      forall i, j | 0 <= i < j < |sub|
        ensures le(sub[i], sub[j])
      {
        if i > 0 {
          assert le(sub[1..][i - 1], sub[1..][j - 1]);
        } else {
          assert sub[j] in s[1..];
          var k :| 0 <= k < |s[1..]| && s[1..][k] == sub[j];
          assert le(s[0], s[k + 1]);
        }
      }
    } else {
      SubsequenceOfSorted(le, sub, s[1..]);
      assert forall i, j :: 0 <= i < j < |s[1..]| ==> le(s[1..][i], s[1..][j]) by {
        forall i, j | 0 <= i < j < |s[1..]| ensures le(s[1..][i], s[1..][j]) {
          assert le(s[i + 1], s[j + 1]);
        }
      }
    }
  }
}
