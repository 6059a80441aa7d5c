/** Python's `itertools.groupby`: it splits a sequence into maximal runs of ADJACENT equal keys.
    Equal keys that are not adjacent land in different groups. */
module Grouping {
  import opened Results

  /** One group: its key and how many adjacent elements carry it. */
  datatype Run<K> = Run(key: K, size: nat)

  /** `count` copies of `k`. */
  function Repeat<K>(k: K, count: nat): (r: seq<K>)
    ensures |r| == count && forall i :: 0 <= i < count ==> r[i] == k
  {
    if count == 0 then [] else [k] + Repeat(k, count - 1)
  }

  /** Undoes the grouping: each run written out in full, runs in order. */
  function Expand<K>(runs: seq<Run<K>>): seq<K> {
    if |runs| == 0 then [] else Repeat(runs[0].key, runs[0].size) + Expand(runs[1..])
  }

  /** The groups of `keys`, in order. The result is a run-length encoding: expanding it gives
      `keys` back, no run is empty and neighbouring runs have different keys. */
  function Runs<K(==)>(keys: seq<K>): (r: seq<Run<K>>)
    ensures forall i :: 0 <= i < |r| ==> r[i].size > 0
    ensures forall i :: 0 <= i < |r| - 1 ==> r[i].key != r[i + 1].key
    ensures |keys| > 0 <==> |r| > 0
    ensures |keys| > 0 ==> r[0].key == keys[0]
    ensures Expand(r) == keys
    decreases |keys|
  {
    if |keys| == 0 then []
    else
      var rest := Runs(keys[1..]);
      assert keys == [keys[0]] + keys[1..];
      if |rest| > 0 && rest[0].key == keys[0] then
        var merged := [Run(keys[0], rest[0].size + 1)] + rest[1..];
        ExpandExtend(rest);
        assert forall i :: 1 <= i < |merged| ==> merged[i] == rest[i];
        merged
      else
        var r := [Run(keys[0], 1)] + rest;
        ExpandOpen(keys[0], rest);
        assert forall i :: 1 <= i < |r| ==> r[i] == rest[i - 1];
        r
  }

  /** Growing the first run by one writes one more copy of its key in front. */
  lemma ExpandExtend<K>(runs: seq<Run<K>>)
    requires |runs| > 0
    ensures Expand([Run(runs[0].key, runs[0].size + 1)] + runs[1..]) == [runs[0].key] + Expand(runs)
  {
    var k, n := runs[0].key, runs[0].size;
    var merged := [Run(k, n + 1)] + runs[1..];
    var tail := Expand(runs[1..]);
    assert Expand(merged) == Repeat(k, n + 1) + tail by {
      assert merged[1..] == runs[1..];
    }
    assert Expand(runs) == Repeat(k, n) + tail;
    assert Repeat(k, n + 1) == [k] + Repeat(k, n);
    AppendAssociative([k], Repeat(k, n), tail);
  }

  lemma AppendAssociative<K>(a: seq<K>, b: seq<K>, c: seq<K>)
    ensures (a + b) + c == a + (b + c)
  {
  }

  /** A new run of one writes its key in front. */
  lemma ExpandOpen<K>(k: K, runs: seq<Run<K>>)
    ensures Expand([Run(k, 1)] + runs) == [k] + Expand(runs)
  {
    assert ([Run(k, 1)] + runs)[1..] == runs;
    assert Repeat(k, 1) == [k] + Repeat(k, 0);
  }

  /** The first group larger than `limit`: the one the source's validator reports. */
  function FirstOversized<K>(runs: seq<Run<K>>, limit: int): (r: Option<Run<K>>)
    ensures r.None? <==> forall i :: 0 <= i < |runs| ==> runs[i].size <= limit
    ensures r.Some? ==> r.value in runs && r.value.size > limit
  {
    if |runs| == 0 then None
    else if runs[0].size > limit then Some(runs[0])
    else
      var r := FirstOversized(runs[1..], limit);
      assert forall i :: 1 <= i < |runs| ==> runs[i] == runs[1..][i - 1];
      r
  }

  /** Keys that never repeat form only single-element groups. */
  lemma {:induction false} DistinctKeysGiveSingletonGroups<K>(keys: seq<K>)
    requires forall i, j :: 0 <= i < j < |keys| ==> keys[i] != keys[j]
    ensures |Runs(keys)| == |keys|
    ensures forall i :: 0 <= i < |Runs(keys)| ==> Runs(keys)[i].size == 1
    decreases |keys|
  {
    if |keys| > 0 {
      DistinctKeysGiveSingletonGroups(keys[1..]);
      var rest := Runs(keys[1..]);
      if |rest| > 0 {
        assert rest[0].key == keys[1..][0] == keys[1];
      }
    }
  }

  ghost predicate NonDecreasing(keys: seq<int>) {
    forall i, j :: 0 <= i < j < |keys| ==> keys[i] <= keys[j]
  }

  /** Group keys strictly increase. */
  ghost predicate KeysIncrease(runs: seq<Run<int>>) {
    forall i, j :: 0 <= i < j < |runs| ==> runs[i].key < runs[j].key
  }

  /** Each group's key occurs in `keys` exactly as many times as the group's size. */
  ghost predicate SizesAreCounts(keys: seq<int>, runs: seq<Run<int>>) {
    forall i :: 0 <= i < |runs| ==> runs[i].key in keys && runs[i].size == multiset(keys)[runs[i].key]
  }

  /** Every key heads some group. */
  ghost predicate KeysCovered(keys: seq<int>, runs: seq<Run<int>>) {
    forall x :: x in keys ==> exists i :: 0 <= i < |runs| && runs[i].key == x
  }

  /** `runs` describes sorted `keys`: one group per distinct key, in increasing order, each as
      large as the number of occurrences of its key. */
  ghost predicate CountsOf(keys: seq<int>, runs: seq<Run<int>>) {
    KeysIncrease(runs) && SizesAreCounts(keys, runs) && KeysCovered(keys, runs)
  }

  /** When the keys are sorted, equal keys are adjacent, so each group holds every element with
      its key. */
  lemma {:induction false} SortedGroupsAreCounts(keys: seq<int>)
    requires NonDecreasing(keys)
    ensures CountsOf(keys, Runs(keys))
    decreases |keys|
  {
    if |keys| > 0 {
      var k, rest := keys[0], keys[1..];
      SortedTail(keys);
      SortedGroupsAreCounts(rest);
      var R := Runs(rest);
      RunsStep(keys);
      if |R| > 0 && R[0].key == k {
        ExtendKeepsIncrease(k, R);
        ExtendKeepsSizes(k, rest, R);
        ExtendKeepsCovered(k, rest, R);
      } else {
        LaterKeysAreLarger(keys, R);
        OpenKeepsIncrease(k, R);
        OpenKeepsSizes(k, rest, R);
        OpenKeepsCovered(k, rest, R);
      }
    }
  }

  lemma SortedTail(keys: seq<int>)
    requires NonDecreasing(keys) && |keys| > 0
    ensures keys == [keys[0]] + keys[1..]
    ensures NonDecreasing(keys[1..])
    ensures forall x :: x in keys[1..] ==> keys[0] <= x
  {
    var rest := keys[1..];
    forall i, j | 0 <= i < j < |rest| ensures rest[i] <= rest[j] {
      assert rest[i] == keys[i + 1] && rest[j] == keys[j + 1];
    }
    forall x | x in rest ensures keys[0] <= x {
      var j :| 0 <= j < |rest| && rest[j] == x;
      assert keys[j + 1] == x;
    }
  }

  /** One unfolding of `Runs`: the first key either extends the first group of the rest or opens
      a group of its own. */
  lemma RunsStep<K>(keys: seq<K>)
    requires |keys| > 0
    ensures var R := Runs(keys[1..]);
      Runs(keys) == if |R| > 0 && R[0].key == keys[0] then [Run(keys[0], R[0].size + 1)] + R[1..] else [Run(keys[0], 1)] + R
  {
  }

  /** Past a group that does not carry the smallest key, every group's key is larger than it. */
  lemma LaterKeysAreLarger(keys: seq<int>, R: seq<Run<int>>)
    requires |keys| > 0 && forall x :: x in keys[1..] ==> keys[0] <= x
    requires CountsOf(keys[1..], R)
    requires !(|R| > 0 && R[0].key == keys[0])
    ensures forall i :: 0 <= i < |R| ==> keys[0] < R[i].key
  {
    forall i | 0 <= i < |R| ensures keys[0] < R[i].key {
      assert R[i].key in keys[1..];
      if i > 0 { assert R[0].key < R[i].key; }
    }
  }

  lemma ExtendKeepsIncrease(k: int, R: seq<Run<int>>)
    requires KeysIncrease(R) && |R| > 0 && R[0].key == k
    ensures forall n: nat :: KeysIncrease([Run(k, n)] + R[1..])
  {
    forall n: nat ensures KeysIncrease([Run(k, n)] + R[1..]) {
      var r := [Run(k, n)] + R[1..];
      forall i, j | 0 <= i < j < |r| ensures r[i].key < r[j].key {
        assert r[j] == R[j];
        if i > 0 { assert r[i] == R[i]; }
      }
    }
  }

  lemma ExtendKeepsSizes(k: int, rest: seq<int>, R: seq<Run<int>>)
    requires KeysIncrease(R) && SizesAreCounts(rest, R) && |R| > 0 && R[0].key == k
    ensures SizesAreCounts([k] + rest, [Run(k, R[0].size + 1)] + R[1..])
  {
    var keys := [k] + rest;
    var r := [Run(k, R[0].size + 1)] + R[1..];
    assert multiset(keys) == multiset{k} + multiset(rest);
    forall i | 0 <= i < |r| ensures r[i].key in keys && r[i].size == multiset(keys)[r[i].key] {
      if i > 0 {
        assert r[i] == R[i];
        assert R[0].key < R[i].key;
      }
    }
  }

  lemma ExtendKeepsCovered(k: int, rest: seq<int>, R: seq<Run<int>>)
    requires KeysCovered(rest, R) && |R| > 0 && R[0].key == k
    ensures KeysCovered([k] + rest, [Run(k, R[0].size + 1)] + R[1..])
  {
    var keys := [k] + rest;
    var r := [Run(k, R[0].size + 1)] + R[1..];
    forall x | x in keys ensures exists i :: 0 <= i < |r| && r[i].key == x {
      if x != k {
        assert x in rest;
        var i :| 0 <= i < |R| && R[i].key == x;
        assert r[i] == R[i];
      } else {
        assert r[0].key == x;
      }
    }
  }

  lemma OpenKeepsIncrease(k: int, R: seq<Run<int>>)
    requires KeysIncrease(R) && forall i :: 0 <= i < |R| ==> k < R[i].key
    ensures KeysIncrease([Run(k, 1)] + R)
  {
    var r := [Run(k, 1)] + R;
    forall i, j | 0 <= i < j < |r| ensures r[i].key < r[j].key {
      assert r[j] == R[j - 1];
      if i > 0 { assert r[i] == R[i - 1]; }
    }
  }

  lemma OpenKeepsSizes(k: int, rest: seq<int>, R: seq<Run<int>>)
    requires SizesAreCounts(rest, R) && KeysCovered(rest, R)
    requires forall i :: 0 <= i < |R| ==> k < R[i].key
    ensures SizesAreCounts([k] + rest, [Run(k, 1)] + R)
  {
    var keys := [k] + rest;
    var r := [Run(k, 1)] + R;
    assert multiset(keys) == multiset{k} + multiset(rest);
    forall x | x in rest ensures x != k {
      var i :| 0 <= i < |R| && R[i].key == x;
    }
    assert k !in rest;
    assert k !in multiset(rest);
    forall i | 0 <= i < |r| ensures r[i].key in keys && r[i].size == multiset(keys)[r[i].key] {
      if i > 0 {
        assert r[i] == R[i - 1];
      }
    }
  }

  lemma OpenKeepsCovered(k: int, rest: seq<int>, R: seq<Run<int>>)
    requires KeysCovered(rest, R)
    ensures KeysCovered([k] + rest, [Run(k, 1)] + R)
  {
    var keys := [k] + rest;
    var r := [Run(k, 1)] + R;
    forall x | x in keys ensures exists i :: 0 <= i < |r| && r[i].key == x {
      if x != k {
        assert x in rest;
        var i :| 0 <= i < |R| && R[i].key == x;
        assert r[i + 1] == R[i];
      } else {
        assert r[0].key == x;
      }
    }
  }

  /** For sorted keys, "every group is within the limit" means "no key occurs more often than
      the limit". */
  lemma SortedGroupsWithinLimit(keys: seq<int>, limit: int)
    requires NonDecreasing(keys)
    ensures FirstOversized(Runs(keys), limit).None?
        <==> forall x :: x in keys ==> multiset(keys)[x] <= limit
  {
    SortedGroupsAreCounts(keys);
  }
}
