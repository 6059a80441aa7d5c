/** A Python `dict` with string keys: keys stay in first-insertion order, and writing an
    existing key replaces its value without moving it. */
module OrderedDicts {
  import opened Sequences

  datatype Dict<V> = Dict(order: seq<string>, entries: map<string, V>)

  /** The order lists each key of the map exactly once. */
  ghost predicate Valid<V>(d: Dict<V>) {
    && (forall i, j :: 0 <= i < j < |d.order| ==> d.order[i] != d.order[j])
    && (forall k :: k in d.entries <==> k in d.order)
  }

  function Empty<V>(): (d: Dict<V>)
    ensures Valid(d) && |d.entries| == 0
  {
    Dict([], map[])
  }

  /** `d[k] = v`. */
  function Put<V>(d: Dict<V>, k: string, v: V): (r: Dict<V>)
    requires Valid(d)
    ensures Valid(r)
    ensures r.entries.Keys == d.entries.Keys + {k}
    ensures r.entries[k] == v
    ensures forall j :: j in d.entries && j != k ==> r.entries[j] == d.entries[j]
    ensures |d.order| <= |r.order| && r.order[..|d.order|] == d.order
  {
    if k in d.entries then Dict(d.order, d.entries[k := v])
    else Dict(d.order + [k], d.entries[k := v])
  }

  /** `d.values()`, in key order. */
  function Values<V>(d: Dict<V>): (vs: seq<V>)
    requires Valid(d)
    ensures |vs| == |d.order| == |d.entries|
    ensures forall i :: 0 <= i < |vs| ==> d.order[i] in d.entries && vs[i] == d.entries[d.order[i]]
  {
    OrderCoversKeys(d);
    seq(|d.order|, i requires 0 <= i < |d.order| => d.entries[d.order[i]])
  }

  /** A valid order has exactly as many keys as the map. */
  lemma OrderCoversKeys<V>(d: Dict<V>)
    requires Valid(d)
    ensures |d.order| == |d.entries|
  {
    DistinctSeqSize(d.order);
    assert (set k | k in d.order) == d.entries.Keys;
  }

  lemma {:induction false} DistinctSeqSize(s: seq<string>)
    requires forall i, j :: 0 <= i < j < |s| ==> s[i] != s[j]
    ensures |set k | k in s| == |s|
    decreases |s|
  {
    if |s| > 0 {
      var init := s[..|s| - 1];
      DistinctSeqSize(init);
      assert (set k | k in s) == (set k | k in init) + {s[|s| - 1]};
      assert s[|s| - 1] !in init;
    }
  }

  /** The dict built by writing `vals[i]` under `keys[i]` for each `i` in turn. */
  function FromPairs<V>(keys: seq<string>, vals: seq<V>): (d: Dict<V>)
    requires |keys| == |vals|
    ensures Valid(d)
    ensures forall k :: k in d.entries <==> k in keys
    ensures LastWriteWins(keys, vals, d)
    decreases |keys|
  {
    if |keys| == 0 then Empty()
    else
      var n := |keys| - 1;
      var d := FromPairs(keys[..n], vals[..n]);
      PutKeepsLastWriteWins(keys, vals, d);
      Put(d, keys[n], vals[n])
  }

  /** No later key repeats `keys[i]`. */
  ghost predicate IsLastOf(keys: seq<string>, i: int)
    requires 0 <= i < |keys|
  {
    forall j :: i < j < |keys| ==> keys[j] != keys[i]
  }

  /** Each key of `d` holds the value written last under it. */
  ghost predicate LastWriteWins<V>(keys: seq<string>, vals: seq<V>, d: Dict<V>)
    requires |keys| == |vals|
  {
    forall i :: 0 <= i < |keys| && IsLastOf(keys, i) ==> keys[i] in d.entries && d.entries[keys[i]] == vals[i]
  }

  lemma PutKeepsLastWriteWins<V>(keys: seq<string>, vals: seq<V>, d: Dict<V>)
    requires |keys| == |vals| > 0 && Valid(d)
    requires forall k :: k in d.entries <==> k in keys[..|keys| - 1]
    requires LastWriteWins(keys[..|keys| - 1], vals[..|keys| - 1], d)
    ensures var r := Put(d, keys[|keys| - 1], vals[|keys| - 1]);
      (forall k :: k in r.entries <==> k in keys) && LastWriteWins(keys, vals, r)
  {
    var n := |keys| - 1;
    var r := Put(d, keys[n], vals[n]);
    PutKeys(keys, d, vals[n]);
    forall i | 0 <= i < |keys| && IsLastOf(keys, i)
      ensures keys[i] in r.entries && r.entries[keys[i]] == vals[i]
    {
      if i < n {
        LastInPrefix(keys, i);
        assert vals[..n][i] == vals[i];
      }
    }
  }

  lemma PutKeys<V>(keys: seq<string>, d: Dict<V>, v: V)
    requires |keys| > 0 && Valid(d)
    requires forall k :: k in d.entries <==> k in keys[..|keys| - 1]
    ensures forall k :: k in Put(d, keys[|keys| - 1], v).entries <==> k in keys
  {
    assert keys == keys[..|keys| - 1] + [keys[|keys| - 1]];
  }

  lemma LastInPrefix(keys: seq<string>, i: int)
    requires 0 <= i < |keys| - 1 && IsLastOf(keys, i)
    ensures keys[i] != keys[|keys| - 1] && keys[..|keys| - 1][i] == keys[i] && IsLastOf(keys[..|keys| - 1], i)
  {
  }
  /** `chain(*d.values())` holds exactly the elements of the values stored under some key. */
  lemma FlattenedValues<T(!new)>(d: Dict<seq<T>>, x: T)
    requires Valid(d)
    ensures x in Flatten(Values(d)) <==> exists k :: k in d.entries && x in d.entries[k]
  {
    var vs := Values(d);
    if x in Flatten(vs) {
      var i :| 0 <= i < |vs| && x in vs[i];
      assert d.order[i] in d.entries && x in d.entries[d.order[i]];
    }
    if k :| k in d.entries && x in d.entries[k] {
      var i :| 0 <= i < |d.order| && d.order[i] == k;
      assert x in vs[i];
    }
  }

  /** Equal keys carry equal values. */
  ghost predicate Consistent<V>(keys: seq<string>, vals: seq<V>)
    requires |keys| == |vals|
  {
    forall i, j :: 0 <= i < |keys| && 0 <= j < |keys| && keys[i] == keys[j] ==> vals[i] == vals[j]
  }

  /** Every position has a last position holding the same key at or after it. */
  lemma {:induction false} HasLastOccurrence(keys: seq<string>, i: int)
    requires 0 <= i < |keys|
    ensures exists j :: i <= j < |keys| && keys[j] == keys[i] && IsLastOf(keys, j)
    decreases |keys| - i
  {
    if !IsLastOf(keys, i) {
      var j :| i < j < |keys| && keys[j] == keys[i];
      HasLastOccurrence(keys, j);
    }
  }

  /** When equal keys carry equal values, no write is lost. */
  lemma ConsistentWritesAllSurvive<V>(keys: seq<string>, vals: seq<V>, i: int)
    requires |keys| == |vals| && Consistent(keys, vals) && 0 <= i < |keys|
    ensures keys[i] in FromPairs(keys, vals).entries && FromPairs(keys, vals).entries[keys[i]] == vals[i]
  {
    HasLastOccurrence(keys, i);
  }

  /** When equal keys carry equal values, `chain(*d.values())` holds exactly the elements of the
      values written. */
  lemma FlattenedConsistentPairs<T(!new)>(keys: seq<string>, vals: seq<seq<T>>, x: T)
    requires |keys| == |vals| && Consistent(keys, vals)
    ensures x in Flatten(Values(FromPairs(keys, vals))) <==> exists i :: 0 <= i < |vals| && x in vals[i]
  {
    var d := FromPairs(keys, vals);
    FlattenedValues(d, x);
    if k :| k in d.entries && x in d.entries[k] {
      var i :| 0 <= i < |keys| && keys[i] == k;
      ConsistentWritesAllSurvive(keys, vals, i);
    }
    if i :| 0 <= i < |vals| && x in vals[i] {
      ConsistentWritesAllSurvive(keys, vals, i);
    }
  }
}
