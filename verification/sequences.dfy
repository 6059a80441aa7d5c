/** Generic facts about sequences: order-preserving subsequences, filtering and flattening. */
module Sequences {

  /** `sub` is obtained from `s` by deleting zero or more elements and keeping the rest in order. */
  ghost predicate IsSubsequence<T>(sub: seq<T>, s: seq<T>)
    decreases |s|
  {
    || |sub| == 0
    || (&& |s| > 0
        && ((sub[0] == s[0] && IsSubsequence(sub[1..], s[1..])) || IsSubsequence(sub, s[1..])))
  }

  lemma {:induction false} SubsequenceReflexive<T>(s: seq<T>)
    ensures IsSubsequence(s, s)
    decreases |s|
  {
    if |s| > 0 {
      SubsequenceReflexive(s[1..]);
    }
  }

  /** Dropping the first element leaves a subsequence of `sub`'s whole. */
  lemma TailOfSubsequence<T>(sub: seq<T>, s: seq<T>)
    requires IsSubsequence(sub, s) && |sub| > 0
    ensures IsSubsequence(sub[1..], s)
  {
    SubsequenceReflexive(sub[1..]);
    assert IsSubsequence(sub[1..], sub);
    SubsequenceTransitive(sub[1..], sub, s);
  }

  /** Every element of a subsequence is an element of the whole. */
  lemma {:induction false} SubsequenceMembers<T>(sub: seq<T>, s: seq<T>)
    requires IsSubsequence(sub, s)
    ensures forall x :: x in sub ==> x in s
    decreases |s|
  {
    if |sub| == 0 {
    } else if sub[0] == s[0] && IsSubsequence(sub[1..], s[1..]) {
      SubsequenceMembers(sub[1..], s[1..]);
      forall x | x in sub
        ensures x in s
      {
        if x != sub[0] {
          assert x in sub[1..];
        }
      }
    } else {
      SubsequenceMembers(sub, s[1..]);
    }
  }

  lemma {:induction false} SubsequenceTransitive<T>(a: seq<T>, b: seq<T>, c: seq<T>)
    requires IsSubsequence(a, b) && IsSubsequence(b, c)
    ensures IsSubsequence(a, c)
    decreases |c|
  {
    if |a| == 0 {
    } else if b[0] == c[0] && IsSubsequence(b[1..], c[1..]) {
      if a[0] == b[0] && IsSubsequence(a[1..], b[1..]) {
        SubsequenceTransitive(a[1..], b[1..], c[1..]);
      } else {
        SubsequenceTransitive(a, b[1..], c[1..]);
      }
    } else {
      SubsequenceTransitive(a, b, c[1..]);
    }
  }

  /** The elements of `s` that satisfy `p`, in their original order (a Python list comprehension
      with an `if` clause). */
  function Filter<T(!new)>(p: T -> bool, s: seq<T>): (r: seq<T>)
    ensures IsSubsequence(r, s)
    ensures forall x :: x in r <==> x in s && p(x)
    ensures forall x :: multiset(r)[x] == if p(x) then multiset(s)[x] else 0
    decreases |s|
  {
    if |s| == 0 then []
    else
      var rest := Filter(p, s[1..]);
      assert s == [s[0]] + s[1..];
      if p(s[0]) then [s[0]] + rest else rest
  }

  /** The number of elements of `s` that satisfy `p`, counted with repetition. */
  function CountWhere<T>(p: T -> bool, s: seq<T>): nat
    decreases |s|
  {
    if |s| == 0 then 0 else (if p(s[0]) then 1 else 0) + CountWhere(p, s[1..])
  }

  /** The filter keeps exactly the elements the predicate accepts, so its length is their count. */
  lemma {:induction false} FilterLength<T(!new)>(p: T -> bool, s: seq<T>)
    ensures |Filter(p, s)| == CountWhere(p, s)
    decreases |s|
  {
    if |s| > 0 {
      FilterLength(p, s[1..]);
    }
  }

  /** Filtering by `p`, then by `q`: the elements that pass both, in order, each as often as it
      occurs. */
  function FilterTwice<T(!new)>(p: T -> bool, q: T -> bool, s: seq<T>): (r: seq<T>)
    ensures IsSubsequence(r, s)
    ensures forall x :: x in r <==> x in s && p(x) && q(x)
    ensures forall x :: multiset(r)[x] == if p(x) && q(x) then multiset(s)[x] else 0
  {
    var once := Filter(p, s);
    var r := Filter(q, once);
    SubsequenceTransitive(r, once, s);
    forall x ensures multiset(r)[x] == if p(x) && q(x) then multiset(s)[x] else 0 {
      assert multiset(r)[x] == if q(x) then multiset(once)[x] else 0;
      assert multiset(once)[x] == if p(x) then multiset(s)[x] else 0;
    }
    r
  }

  /** Sequences with the same multiset have the same members. */
  lemma SameMembers<T>(a: seq<T>, b: seq<T>)
    requires multiset(a) == multiset(b)
    ensures forall x :: x in a <==> x in b
  {
    forall x ensures x in a <==> x in b {
      assert x in a <==> x in multiset(a);
      assert x in b <==> x in multiset(b);
    }
  }

  /** The concatenation of a sequence of sequences (Python's `chain(*xss)`). */
  function Flatten<T(!new)>(xss: seq<seq<T>>): (r: seq<T>)
    ensures forall x :: x in r <==> exists i :: 0 <= i < |xss| && x in xss[i]
    decreases |xss|
  {
    if |xss| == 0 then []
    else
      var rest := Flatten(xss[1..]);
      assert forall i :: 1 <= i < |xss| ==> xss[i] == xss[1..][i - 1];
      xss[0] + rest
  }

  lemma {:induction false} FlattenAppend<T(!new)>(xss: seq<seq<T>>, yss: seq<seq<T>>)
    ensures Flatten(xss + yss) == Flatten(xss) + Flatten(yss)
    decreases |xss|
  {
    if |xss| > 0 {
      assert (xss + yss)[1..] == xss[1..] + yss;
      FlattenAppend(xss[1..], yss);
    } else {
      assert xss + yss == yss;
    }
  }
}
