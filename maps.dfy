/**
 * The map functions of `apoc.map`: grouping a list of maps by a property,
 * selecting and merging, removing and cleaning entries, flattening nested maps
 * and listing properties in key order. Each loop of the source is a method whose
 * result is tied to a specification function over the input read so far.
 */
module Maps {
  import opened Lang
  import opened Values

  // ---------------------------------------------------------------------------
  // groupBy and groupByMulti

  /**
   * `getKey(key, value).toString()`: the string form of a map's property `key`, or
   * `None` when `value` is no map or the property is missing or `null`.
   * Nodes and relationships are not modelled.
   */
  function GroupKey(key: JString, value: Value): (r: Option<JString>)
    ensures r.Some? <==> value.MapV? && Get(value.entries, key).Some? && !Get(value.entries, key).value.Null?
  {
    if value.MapV? && Get(value.entries, key).Some? && !Get(value.entries, key).value.Null? then
      Some(ToJavaString(Get(value.entries, key).value))
    else None
  }

  /** The group keys of `values` that are not `null`, in input order. */
  function GroupKeys(values: seq<Value>, key: JString): seq<JString>
  {
    if values == [] then []
    else
      var k := GroupKey(key, values[|values| - 1]);
      GroupKeys(values[..|values| - 1], key) + (if k.Some? then [k.value] else [])
  }

  /** `ks` without repetitions, each element where it first occurs. */
  function FirstOccurrences(ks: seq<JString>): seq<JString>
  {
    if ks == [] then []
    else
      var r := FirstOccurrences(ks[..|ks| - 1]);
      if ks[|ks| - 1] in r then r else r + [ks[|ks| - 1]]
  }

  /** The index of the first occurrence of `x` in `ks`. */
  function IndexOf(ks: seq<JString>, x: JString): (i: nat)
    requires x in ks
    ensures i < |ks| && ks[i] == x && x !in ks[..i]
  {
    if ks[0] == x then 0 else 1 + IndexOf(ks[1..], x)
  }

  lemma {:induction false} IndexOfSnoc(ks: seq<JString>, y: JString, x: JString)
    requires x in ks
    ensures IndexOf(ks + [y], x) == IndexOf(ks, x)
  {
    if ks[0] != x {
      assert (ks + [y])[1..] == ks[1..] + [y];
      IndexOfSnoc(ks[1..], y, x);
    }
  }

  /**
   * First occurrences keep every element once, and in the order of first
   * occurrence: an element listed earlier occurs before the first occurrence of
   * any element listed later.
   */
  lemma {:induction false} FirstOccurrencesSpec(ks: seq<JString>)
    ensures forall x :: x in FirstOccurrences(ks) <==> x in ks
    ensures forall i, j :: 0 <= i < j < |FirstOccurrences(ks)| ==> FirstOccurrences(ks)[i] != FirstOccurrences(ks)[j]
    ensures forall i, j :: 0 <= i < j < |FirstOccurrences(ks)| ==>
      FirstOccurrences(ks)[i] in ks[..IndexOf(ks, FirstOccurrences(ks)[j])]
  {
    if ks != [] {
      var p, x := ks[..|ks| - 1], ks[|ks| - 1];
      assert ks == p + [x];
      FirstOccurrencesSpec(p);
      var r := FirstOccurrences(p);
      forall y | y in p ensures IndexOf(ks, y) == IndexOf(p, y) {
        IndexOfSnoc(p, x, y);
      }
      forall y | y in p ensures ks[..IndexOf(ks, y)] == p[..IndexOf(p, y)] { }
      if x !in r {
        assert forall i :: 0 <= i < |p| ==> ks[i] != x;
        assert IndexOf(ks, x) == |p|;
        assert ks[..|p|] == p;
      }
    }
  }

  /** `groupBy` after reading `values`: `LinkedHashMap.put` of each value under its group key. */
  function GroupBySpec(values: seq<Value>, key: JString): (r: seq<Entry>)
    ensures |r| <= |values|
  {
    if values == [] then []
    else
      var r := GroupBySpec(values[..|values| - 1], key);
      var v := values[|values| - 1];
      if GroupKey(key, v).Some? then Put(r, GroupKey(key, v).value, v) else r
  }

  /** `apoc.map.groupBy(values, key)`. */
  method GroupBy(values: seq<Value>, key: JString) returns (result: seq<Entry>)
    ensures result == GroupBySpec(values, key)
  {
    result := [];
    var i := 0;
    while i < |values|
      invariant 0 <= i <= |values|
      invariant result == GroupBySpec(values[..i], key)
    {
      var value := values[i];
      var id := GroupKey(key, value);
      if id.Some? {
        result := Put(result, id.value, value);
      }
      assert values[..i + 1][..i] == values[..i];
      i := i + 1;
    }
    assert values[..|values|] == values;
  }

  /** `values[i]` is the last value with group key `k`. */
  predicate LastWithKey(values: seq<Value>, key: JString, k: JString, i: int)
  {
    && 0 <= i < |values|
    && GroupKey(key, values[i]) == Some(k)
    && forall j :: i < j < |values| ==> GroupKey(key, values[j]) != Some(k)
  }

  /** `groupBy` has one entry per distinct non-null group key, in the order the keys first occur. */
  lemma {:induction false} GroupByKeys(values: seq<Value>, key: JString)
    ensures DistinctKeys(GroupBySpec(values, key))
    ensures Keys(GroupBySpec(values, key)) == FirstOccurrences(GroupKeys(values, key))
  {
    if values != [] {
      var p, v := values[..|values| - 1], values[|values| - 1];
      GroupByKeys(p, key);
      if GroupKey(key, v).Some? {
        var ks := GroupKeys(values, key);
        assert ks == GroupKeys(p, key) + [GroupKey(key, v).value];
        assert ks[..|ks| - 1] == GroupKeys(p, key);
        PutDistinct(GroupBySpec(p, key), GroupKey(key, v).value, v);
      } else {
        assert GroupKeys(values, key) == GroupKeys(p, key);
      }
    }
  }

  /** Each entry of `groupBy` holds the last value with that key. */
  lemma {:induction false} GroupByLastWins(values: seq<Value>, key: JString, k: JString)
    requires k in Keys(GroupBySpec(values, key))
    ensures exists i :: LastWithKey(values, key, k, i) && Get(GroupBySpec(values, key), k) == Some(values[i])
  {
    var p, v := values[..|values| - 1], values[|values| - 1];
    var r0, r := GroupBySpec(p, key), GroupBySpec(values, key);
    if GroupKey(key, v) == Some(k) {
      assert LastWithKey(values, key, k, |values| - 1);
    } else {
      assert Get(r, k) == Get(r0, k);
      GroupByLastWins(p, key, k);
      var i :| LastWithKey(p, key, k, i) && Get(r0, k) == Some(p[i]);
      LastWithKeyInit(values, key, k, i);
      assert values[i] == p[i];
    }
  }

  /** A value with another group key after the last one with `k` leaves it the last. */
  lemma LastWithKeyInit(values: seq<Value>, key: JString, k: JString, i: int)
    requires values != [] && LastWithKey(values[..|values| - 1], key, k, i)
    requires GroupKey(key, values[|values| - 1]) != Some(k)
    ensures LastWithKey(values, key, k, i)
  {
    var p := values[..|values| - 1];
    assert values[i] == p[i];
    forall j | i < j < |values| ensures GroupKey(key, values[j]) != Some(k) {
      if j < |p| {
        assert values[j] == p[j];
      }
    }
  }

  /** The values of `values` whose group key is `k`, in input order. */
  function WithGroupKey(values: seq<Value>, key: JString, k: JString): seq<Value>
  {
    if values == [] then []
    else
      var v := values[|values| - 1];
      WithGroupKey(values[..|values| - 1], key, k) + (if GroupKey(key, v) == Some(k) then [v] else [])
  }

  /** The list a `groupByMulti` entry holds (the `compute` starts a new list for `null`). */
  function ListOf(e: Option<Value>): seq<Value>
  {
    if e.Some? && e.value.ListV? then e.value.items else []
  }

  /** `groupByMulti` after reading `values`: each value appended to its key's list. */
  function GroupByMultiSpec(values: seq<Value>, key: JString): seq<Entry>
  {
    if values == [] then []
    else
      var r := GroupByMultiSpec(values[..|values| - 1], key);
      var v := values[|values| - 1];
      var id := GroupKey(key, v);
      if id.Some? then Put(r, id.value, ListV(ListOf(Get(r, id.value)) + [v])) else r
  }

  /** `apoc.map.groupByMulti(values, key)`. */
  method GroupByMulti(values: seq<Value>, key: JString) returns (result: seq<Entry>)
    ensures result == GroupByMultiSpec(values, key)
  {
    result := [];
    var i := 0;
    while i < |values|
      invariant 0 <= i <= |values|
      invariant result == GroupByMultiSpec(values[..i], key)
    {
      var value := values[i];
      var id := GroupKey(key, value);
      GroupByMultiStep(values, key, i);
      if id.Some? {
        var list := ListOf(Get(result, id.value));
        result := Put(result, id.value, ListV(list + [value]));
      }
      i := i + 1;
    }
    assert values[..|values|] == values;
  }

  /** Reading one more value is one more step of `GroupByMultiSpec`. */
  lemma GroupByMultiStep(values: seq<Value>, key: JString, i: nat)
    requires i < |values|
    ensures GroupByMultiSpec(values[..i + 1], key) ==
      var r := GroupByMultiSpec(values[..i], key);
      var id := GroupKey(key, values[i]);
      if id.Some? then Put(r, id.value, ListV(ListOf(Get(r, id.value)) + [values[i]])) else r
  {
    assert values[..i + 1][..i] == values[..i];
  }

  /** The number of values held in the lists of a `groupByMulti` result. */
  function ListSizes(m: seq<Entry>): nat
  {
    if m == [] then 0 else |ListOf(Some(m[0].value))| + ListSizes(m[1..])
  }

  /** Putting a list one longer under a key adds one to the total. */
  lemma {:induction false} ListSizesPut(m: seq<Entry>, k: JString, xs: seq<Value>, v: Value)
    requires DistinctKeys(m) && ListOf(Get(m, k)) == xs
    ensures ListSizes(Put(m, k, ListV(xs + [v]))) == ListSizes(m) + 1
  {
    if m == [] {
    } else if m[0].key == k {
      assert Put(m, k, ListV(xs + [v]))[1..] == m[1..];
    } else {
      KeysSplit(m);
      ListSizesPut(m[1..], k, xs, v);
      assert Put(m, k, ListV(xs + [v]))[1..] == Put(m[1..], k, ListV(xs + [v]));
    }
  }

  /** `groupByMulti` has one entry per distinct non-null group key, in the order the keys first occur. */
  lemma {:induction false} GroupByMultiKeys(values: seq<Value>, key: JString)
    ensures DistinctKeys(GroupByMultiSpec(values, key))
    ensures Keys(GroupByMultiSpec(values, key)) == FirstOccurrences(GroupKeys(values, key))
  {
    if values != [] {
      var p, v := values[..|values| - 1], values[|values| - 1];
      GroupByMultiKeys(p, key);
      var r0 := GroupByMultiSpec(p, key);
      var id := GroupKey(key, v);
      if id.Some? {
        var ks := GroupKeys(values, key);
        assert ks == GroupKeys(p, key) + [id.value];
        assert ks[..|ks| - 1] == GroupKeys(p, key);
        PutDistinct(r0, id.value, ListV(ListOf(Get(r0, id.value)) + [v]));
      } else {
        assert GroupKeys(values, key) == GroupKeys(p, key);
      }
    }
  }

  /** The list `groupByMulti` holds under `k` is every value with group key `k`, in input order. */
  lemma {:induction false} GroupByMultiLists(values: seq<Value>, key: JString, k: JString)
    ensures Get(GroupByMultiSpec(values, key), k) ==
      if k in GroupKeys(values, key) then Some(ListV(WithGroupKey(values, key, k))) else None
  {
    if values != [] {
      var p, v := values[..|values| - 1], values[|values| - 1];
      GroupByMultiLists(p, key, k);
      var r0 := GroupByMultiSpec(p, key);
      var id := GroupKey(key, v);
      if id == Some(k) {
        var xs := ListOf(Get(r0, k));
        assert xs == WithGroupKey(p, key, k) by {
          if k !in GroupKeys(p, key) {
            WithGroupKeyAbsent(p, key, k);
          }
        }
        assert GroupByMultiSpec(values, key) == Put(r0, k, ListV(xs + [v]));
        assert WithGroupKey(values, key, k) == xs + [v];
        assert GroupKeys(values, key) == GroupKeys(p, key) + [k];
      } else {
        assert Get(GroupByMultiSpec(values, key), k) == Get(r0, k);
        assert WithGroupKey(values, key, k) == WithGroupKey(p, key, k);
        assert k in GroupKeys(values, key) <==> k in GroupKeys(p, key) by {
          if id.Some? {
            assert GroupKeys(values, key) == GroupKeys(p, key) + [id.value];
          } else {
            assert GroupKeys(values, key) == GroupKeys(p, key);
          }
        }
      }
    }
  }

  /** The lists of `groupByMulti` together hold as many values as have a non-null group key. */
  lemma {:induction false} GroupByMultiSizes(values: seq<Value>, key: JString)
    ensures ListSizes(GroupByMultiSpec(values, key)) == |GroupKeys(values, key)|
  {
    if values != [] {
      var p, v := values[..|values| - 1], values[|values| - 1];
      GroupByMultiSizes(p, key);
      GroupByMultiKeys(p, key);
      var r0 := GroupByMultiSpec(p, key);
      var id := GroupKey(key, v);
      if id.Some? {
        ListSizesPut(r0, id.value, ListOf(Get(r0, id.value)), v);
      }
    }
  }

  /** Only a key that occurs has values. */
  lemma {:induction false} WithGroupKeyAbsent(values: seq<Value>, key: JString, k: JString)
    requires k !in GroupKeys(values, key)
    ensures WithGroupKey(values, key, k) == []
  {
    if values != [] {
      var p := values[..|values| - 1];
      WithGroupKeyAbsent(p, key, k);
    }
  }

  // ---------------------------------------------------------------------------
  // values

  /** `values` after reading `keys`: a key contributes when nulls are added or it is present. */
  function ValuesSpec(m: seq<Entry>, keys: seq<JString>, addNullsForMissing: bool): (r: seq<Value>)
    ensures |r| <= |keys|
  {
    if keys == [] then []
    else
      var k := keys[|keys| - 1];
      ValuesSpec(m, keys[..|keys| - 1], addNullsForMissing)
        + (if addNullsForMissing || k in Keys(m) then [GetOrNull(m, k)] else [])
  }

  /** `apoc.map.values(map, keys, addNullsForMissing)`; a `null` key list gives the empty list. */
  method MapValues(m: seq<Entry>, keys: Option<seq<JString>>, addNullsForMissing: bool) returns (values: seq<Value>)
    ensures keys.None? || keys.value == [] ==> values == []
    ensures keys.Some? ==> values == ValuesSpec(m, keys.value, addNullsForMissing)
  {
    if keys.None? || keys.value == [] {
      return [];
    }
    var ks := keys.value;
    values := [];
    var i := 0;
    while i < |ks|
      invariant 0 <= i <= |ks|
      invariant values == ValuesSpec(m, ks[..i], addNullsForMissing)
    {
      var key := ks[i];
      if addNullsForMissing || key in Keys(m) {
        values := values + [GetOrNull(m, key)];
      }
      assert ks[..i + 1][..i] == ks[..i];
      i := i + 1;
    }
    assert ks[..|ks|] == ks;
  }

  /** With `addNullsForMissing`, element `i` is the value under `keys[i]`, `null` when absent. */
  lemma {:induction false} ValuesAddingNulls(m: seq<Entry>, keys: seq<JString>)
    ensures |ValuesSpec(m, keys, true)| == |keys|
    ensures forall i :: 0 <= i < |keys| ==> ValuesSpec(m, keys, true)[i] == GetOrNull(m, keys[i])
  {
    if keys != [] {
      ValuesAddingNulls(m, keys[..|keys| - 1]);
    }
  }

  /** The listed keys that are present in `m`, in the order listed. */
  function PresentKeys(m: seq<Entry>, keys: seq<JString>): (r: seq<JString>)
    ensures forall k :: k in r <==> k in keys && k in Keys(m)
  {
    if keys == [] then []
    else
      var k := keys[|keys| - 1];
      PresentKeys(m, keys[..|keys| - 1]) + (if k in Keys(m) then [k] else [])
  }

  /** Without `addNullsForMissing`, the result is exactly the values of the present keys. */
  lemma {:induction false} ValuesOfPresentKeys(m: seq<Entry>, keys: seq<JString>)
    ensures ValuesSpec(m, keys, false) == ValuesSpec(m, PresentKeys(m, keys), true)
    ensures forall v :: v in ValuesSpec(m, keys, false) ==> exists k :: k in keys && Get(m, k) == Some(v)
  {
    if keys != [] {
      var p, k := keys[..|keys| - 1], keys[|keys| - 1];
      ValuesOfPresentKeys(m, p);
      var ps := PresentKeys(m, p);
      if k in Keys(m) {
        assert PresentKeys(m, keys) == ps + [k];
        assert (ps + [k])[..|ps|] == ps;
      } else {
        assert PresentKeys(m, keys) == ps;
      }
      forall v | v in ValuesSpec(m, keys, false)
        ensures exists k' :: k' in keys && Get(m, k') == Some(v)
      {
        if v in ValuesSpec(m, p, false) {
          var k' :| k' in p && Get(m, k') == Some(v);
          assert k' in keys;
        } else {
          assert k in keys;
        }
      }
    }
  }

  // ---------------------------------------------------------------------------
  // mergeList

  /** `mergeList` after reading `maps`: each map `putAll` into the result in turn. */
  function MergeSpec(maps: seq<seq<Entry>>): (r: seq<Entry>)
    ensures DistinctKeys(r)
  {
    if maps == [] then []
    else
      PutAllDistinct(MergeSpec(maps[..|maps| - 1]), maps[|maps| - 1]);
      PutAll(MergeSpec(maps[..|maps| - 1]), maps[|maps| - 1])
  }

  /** `apoc.map.mergeList(maps)`. */
  method MergeList(maps: seq<seq<Entry>>) returns (result: seq<Entry>)
    ensures result == MergeSpec(maps)
  {
    result := [];
    var i := 0;
    while i < |maps|
      invariant 0 <= i <= |maps|
      invariant result == MergeSpec(maps[..i])
    {
      result := PutAll(result, maps[i]);
      assert maps[..i + 1][..i] == maps[..i];
      i := i + 1;
    }
    assert maps[..|maps|] == maps;
  }

  /** The merged keys are the union of the maps' keys. */
  lemma {:induction false} MergeListKeys(maps: seq<seq<Entry>>)
    ensures forall k :: k in Keys(MergeSpec(maps)) <==> exists i :: 0 <= i < |maps| && k in Keys(maps[i])
  {
    if maps != [] {
      var p, n := maps[..|maps| - 1], maps[|maps| - 1];
      MergeListKeys(p);
      PutAllKeys(MergeSpec(p), n);
      assert MergeSpec(maps) == PutAll(MergeSpec(p), n);
      assert maps == p + [n];
      forall k ensures k in Keys(MergeSpec(maps)) <==> exists i :: 0 <= i < |maps| && k in Keys(maps[i]) {
        SomeMapSnoc(p, n, k);
      }
    }
  }

  /** A key is in one of the maps `p + [n]` when it is in one of `p`, or in `n`. */
  lemma SomeMapSnoc(p: seq<seq<Entry>>, n: seq<Entry>, k: JString)
    ensures (exists i :: 0 <= i < |p + [n]| && k in Keys((p + [n])[i]))
      <==> (exists i :: 0 <= i < |p| && k in Keys(p[i])) || k in Keys(n)
  {
    var maps := p + [n];
    if i :| 0 <= i < |maps| && k in Keys(maps[i]) {
      if i < |p| {
        assert p[i] == maps[i];
      }
    }
    if i :| 0 <= i < |p| && k in Keys(p[i]) {
      assert maps[i] == p[i];
    }
    assert maps[|p|] == n;
  }

  /** `maps[i]` is the last map holding `k`. */
  predicate LastMapWith(maps: seq<seq<Entry>>, k: JString, i: int)
  {
    && 0 <= i < |maps|
    && k in Keys(maps[i])
    && forall j :: i < j < |maps| ==> k !in Keys(maps[j])
  }

  lemma LastMapWithSnoc(p: seq<seq<Entry>>, n: seq<Entry>, k: JString, i: int)
    requires LastMapWith(p, k, i) && k !in Keys(n)
    ensures LastMapWith(p + [n], k, i)
  {
    var maps := p + [n];
    forall j | i < j < |maps| ensures k !in Keys(maps[j]) {
      if j < |p| {
        assert maps[j] == p[j];
      }
    }
  }

  /** For a shared key, the value of the last map holding it wins. */
  lemma {:induction false} MergeListLastWins(maps: seq<seq<Entry>>, k: JString)
    requires forall i :: 0 <= i < |maps| ==> DistinctKeys(maps[i])
    requires k in Keys(MergeSpec(maps))
    ensures exists i :: LastMapWith(maps, k, i) && Get(MergeSpec(maps), k) == Get(maps[i], k)
  {
    var p, n := maps[..|maps| - 1], maps[|maps| - 1];
    assert maps == p + [n];
    var r0 := MergeSpec(p);
    assert MergeSpec(maps) == PutAll(r0, n);
    GetPutAll(r0, n, k);
    if k in Keys(n) {
      assert LastMapWith(maps, k, |maps| - 1);
    } else {
      assert k in Keys(r0);
      assert forall i :: 0 <= i < |p| ==> DistinctKeys(p[i]) by {
        forall i | 0 <= i < |p| ensures DistinctKeys(p[i]) {
          assert p[i] == maps[i];
        }
      }
      MergeListLastWins(p, k);
      var i :| LastMapWith(p, k, i) && Get(r0, k) == Get(p[i], k);
      LastMapWithSnoc(p, n, k, i);
      assert maps[i] == p[i];
    }
  }

  // ---------------------------------------------------------------------------
  // removeKey and removeKeys

  /**
   * `apoc.map.removeKeys(map, keys)`: a copy of `map` without the listed keys;
   * every other entry keeps its value and its place.
   */
  function RemoveKeys(m: seq<Entry>, keys: seq<JString>): (r: seq<Entry>)
    ensures forall e :: e in r <==> e in m && e.key !in keys
    ensures forall k :: Get(r, k) == if k in keys then None else Get(m, k)
    ensures Subsequence(r, m)
  {
    forall k ensures Get(Without(m, keys), k) == if k in keys then None else Get(m, k) {
      GetWithout(m, keys, k);
    }
    WithoutIsSubsequence(m, keys);
    Without(m, keys)
  }

  /** `apoc.map.removeKey(map, key)`. */
  function RemoveKey(m: seq<Entry>, key: JString): (r: seq<Entry>)
    ensures Get(r, key).None?
    ensures forall k :: k != key ==> Get(r, k) == Get(m, k)
    ensures forall e :: e in r <==> e in m && e.key != key
    ensures Subsequence(r, m)
  {
    RemoveKeys(m, [key])
  }

  // ---------------------------------------------------------------------------
  // clean

  /**
   * `clean` keeps an entry whose key is not listed, whose value is not `null`, and
   * whose value is not listed either as itself or as its `toString`.
   */
  predicate Kept(e: Entry, keys: seq<JString>, values: seq<Value>)
  {
    e.key !in keys && !e.value.Null? && e.value !in values && Str(ToJavaString(e.value)) !in values
  }

  /** The kept entries of `m`, in their original order. */
  function Cleaned(m: seq<Entry>, keys: seq<JString>, values: seq<Value>): (r: seq<Entry>)
    ensures forall e :: e in r <==> e in m && Kept(e, keys, values)
  {
    if m == [] then []
    else
      var e := m[|m| - 1];
      Cleaned(m[..|m| - 1], keys, values) + (if Kept(e, keys, values) then [e] else [])
  }

  /** `apoc.map.clean(map, keys, values)`. */
  method Clean(m: seq<Entry>, keys: seq<JString>, values: seq<Value>) returns (result: seq<Entry>)
    requires DistinctKeys(m)
    ensures result == Cleaned(m, keys, values)
  {
    result := [];
    var i := 0;
    while i < |m|
      invariant 0 <= i <= |m|
      invariant result == Cleaned(m[..i], keys, values)
    {
      var entry := m[i];
      var value := entry.value;
      if !(entry.key in keys || value.Null? || value in values || Str(ToJavaString(value)) in values) {
        assert entry.key !in Keys(result) by {
          forall e | e in result ensures e.key != entry.key {
            var j :| 0 <= j < i && m[j] == e;
          }
        }
        PutNew(result, entry.key, value);
        result := Put(result, entry.key, value);
      }
      assert m[..i + 1][..i] == m[..i];
      i := i + 1;
    }
    assert m[..|m|] == m;
  }

  /** `clean` keeps the kept entries in their original order. */
  lemma {:induction false} CleanedIsSubsequence(m: seq<Entry>, keys: seq<JString>, values: seq<Value>)
    ensures Subsequence(Cleaned(m, keys, values), m)
  {
    if m == [] {
    } else {
      var p, e := m[..|m| - 1], m[|m| - 1];
      CleanedIsSubsequence(p, keys, values);
      SubsequenceSnoc(Cleaned(p, keys, values), p, e);
      assert p + [e] == m;
      if Kept(e, keys, values) {
        assert Cleaned(m, keys, values) == Cleaned(p, keys, values) + [e];
      } else {
        assert Cleaned(m, keys, values) == Cleaned(p, keys, values);
      }
    }
  }

  // ---------------------------------------------------------------------------
  // updateTree and visit

  /** The lookup `updateTree` builds: a `HashMap` from each datum's first element to its map. */
  type Index = map<Value, seq<Entry>>

  /** A datum `updateTree` accepts: a list of at least two elements whose second is a map. */
  predicate WellFormedDatum(datum: Value)
  {
    datum.ListV? && |datum.items| >= 2 && datum.items[1].MapV?
  }

  /** The exception a datum raises while the lookup is built, if any. */
  function DatumError(datum: Value): (r: Option<JavaError>)
    ensures r.None? <==> WellFormedDatum(datum)
  {
    if datum.Null? then Some(NullPointer)
    else if !datum.ListV? then Some(ClassCast)
    else if |datum.items| < 2 || !datum.items[1].MapV? then
      Some(IllegalArgument(Lit("Wrong data list entry: ") + ToJavaString(datum)))
    else None
  }

  /** The lookup after reading `data`; the first malformed datum raises its exception. */
  function IndexSpec(data: seq<Value>): (r: Result<Index>)
    ensures r.Err? ==> exists i :: 0 <= i < |data| && DatumError(data[i]) == Some(r.error)
  {
    if data == [] then Ok(map[])
    else
      var datum := data[|data| - 1];
      match IndexSpec(data[..|data| - 1])
      case Err(e) => Err(e)
      case Ok(index) =>
        match DatumError(datum)
        case Some(e) => Err(e)
        case None => Ok(index[datum.items[0] := datum.items[1].entries])
  }

  /** The loop of `updateTree` that fills the lookup. */
  method BuildIndex(data: seq<Value>) returns (r: Result<Index>)
    ensures r == IndexSpec(data)
  {
    var index: Index := map[];
    var i := 0;
    while i < |data|
      invariant 0 <= i <= |data|
      invariant IndexSpec(data[..i]) == Ok(index)
    {
      var datum := data[i];
      assert data[..i + 1][..i] == data[..i];
      var error := DatumError(datum);
      if error.Some? {
        assert IndexSpec(data[..i + 1]) == Err(error.value);
        IndexErrorPersists(data, i + 1);
        return Err(error.value);
      }
      index := index[datum.items[0] := datum.items[1].entries];
      i := i + 1;
    }
    assert data[..|data|] == data;
    return Ok(index);
  }

  /** Once a prefix of `data` raised an exception, so does the whole of `data`, with the same exception. */
  lemma {:induction false} IndexErrorPersists(data: seq<Value>, n: nat)
    requires n <= |data| && IndexSpec(data[..n]).Err?
    ensures IndexSpec(data) == IndexSpec(data[..n])
  {
    if n < |data| {
      var p := data[..|data| - 1];
      assert p[..n] == data[..n];
      IndexErrorPersists(p, n);
    } else {
      assert data[..n] == data;
    }
  }

  /**
   * The lookup is built exactly when every datum is well formed, and then it maps
   * an identifier to the map of the last datum with that identifier.
   */
  lemma IndexLastWins(data: seq<Value>)
    ensures IndexSpec(data).Ok? <==> forall i :: 0 <= i < |data| ==> WellFormedDatum(data[i])
    ensures IndexSpec(data).Ok? ==> forall id :: id in IndexSpec(data).value <==>
      exists i :: 0 <= i < |data| && data[i].items[0] == id
    ensures IndexSpec(data).Ok? ==> forall id :: id in IndexSpec(data).value ==>
      exists i :: LastDatumWith(data, id, i) && IndexSpec(data).value[id] == data[i].items[1].entries
  {
    IndexOk(data);
    if IndexSpec(data).Ok? {
      IndexIds(data);
      IndexLastValue(data);
    }
  }

  /** The lookup is built exactly when every datum is well formed. */
  lemma {:induction false} IndexOk(data: seq<Value>)
    ensures IndexSpec(data).Ok? <==> forall i :: 0 <= i < |data| ==> WellFormedDatum(data[i])
  {
    if data != [] {
      var p := data[..|data| - 1];
      IndexOk(p);
      forall i | 0 <= i < |p| ensures p[i] == data[i] { }
    }
  }

  /** The identifiers of a built lookup are those of the data. */
  lemma {:induction false} IndexIds(data: seq<Value>)
    requires forall i :: 0 <= i < |data| ==> WellFormedDatum(data[i])
    requires IndexSpec(data).Ok?
    ensures forall id :: id in IndexSpec(data).value <==>
      exists i :: 0 <= i < |data| && WellFormedDatum(data[i]) && data[i].items[0] == id
  {
    if data != [] {
      var p, datum := data[..|data| - 1], data[|data| - 1];
      forall i | 0 <= i < |p| ensures p[i] == data[i] { }
      IndexIds(p);
    }
  }

  /** Each identifier of a built lookup maps to the map of its last datum. */
  lemma {:induction false} IndexLastValue(data: seq<Value>)
    requires IndexSpec(data).Ok?
    ensures forall id :: id in IndexSpec(data).value ==>
      exists i :: LastDatumWith(data, id, i) && IndexSpec(data).value[id] == data[i].items[1].entries
  {
    if data != [] {
      var p, datum := data[..|data| - 1], data[|data| - 1];
      IndexLastValue(p);
      var index := IndexSpec(p).value;
      forall id | id in IndexSpec(data).value
        ensures exists i :: LastDatumWith(data, id, i) && IndexSpec(data).value[id] == data[i].items[1].entries
      {
        if id == datum.items[0] {
          assert LastDatumWith(data, id, |data| - 1);
        } else {
          var i :| LastDatumWith(p, id, i) && index[id] == p[i].items[1].entries;
          LastDatumInit(data, id, i);
          assert data[i] == p[i];
        }
      }
    }
  }

  /** A datum with another identifier after the last one with `id` leaves it the last. */
  lemma LastDatumInit(data: seq<Value>, id: Value, i: int)
    requires data != [] && LastDatumWith(data[..|data| - 1], id, i)
    requires WellFormedDatum(data[|data| - 1]) ==> data[|data| - 1].items[0] != id
    ensures LastDatumWith(data, id, i)
  {
    var p := data[..|data| - 1];
    assert data[i] == p[i];
    forall j | i < j < |data| && WellFormedDatum(data[j]) ensures data[j].items[0] != id {
      if j < |p| {
        assert data[j] == p[j];
      }
    }
  }

  /** `data[i]` is the last (well-formed) datum whose identifier is `id`. */
  predicate LastDatumWith(data: seq<Value>, id: Value, i: int)
  {
    && 0 <= i < |data|
    && WellFormedDatum(data[i])
    && data[i].items[0] == id
    && forall j :: i < j < |data| && WellFormedDatum(data[j]) ==> data[j].items[0] != id
  }

  /**
   * The mapper `updateTree` hands to `visit`: look up `m.get(key)` (`null` for a
   * missing key, which matches a datum whose identifier is `null`) and `putAll`
   * the matching map.
   */
  function Merge(m: seq<Entry>, key: JString, index: Index): seq<Entry>
  {
    var id := GetOrNull(m, key);
    if id in index then PutAll(m, index[id]) else m
  }

  /** A merged tree has the tree's keys and, when it matched, the data map's keys. */
  lemma MergeKeys(m: seq<Entry>, key: JString, index: Index)
    ensures forall k :: k in Keys(Merge(m, key, index)) <==>
      k in Keys(m) || (GetOrNull(m, key) in index && k in Keys(index[GetOrNull(m, key)]))
  {
    if GetOrNull(m, key) in index {
      PutAllKeys(m, index[GetOrNull(m, key)]);
    }
  }

  /** A matched tree takes the data map's value for each of its keys and keeps its own for the rest. */
  lemma MergeValues(m: seq<Entry>, key: JString, index: Index, k: JString)
    requires GetOrNull(m, key) in index && DistinctKeys(index[GetOrNull(m, key)])
    ensures var n := index[GetOrNull(m, key)];
      Get(Merge(m, key, index), k) == if k in Keys(n) then Get(n, k) else Get(m, k)
  {
    GetPutAll(m, index[GetOrNull(m, key)], k);
  }

  /**
   * `visit(tree, mapper)` with at most `fuel` nested calls: the tree is merged,
   * then every map value and every map element of a list value is visited in
   * turn. Running out of fuel stands for the `StackOverflowError` of a data map
   * that keeps matching its own subtree.
   */
  function Visit(tree: seq<Entry>, key: JString, index: Index, fuel: nat): (r: Result<seq<Entry>>)
    ensures r.Err? ==> r == Err(StackOverflow)
    ensures r.Ok? ==> Keys(r.value) == Keys(Merge(tree, key, index))
    decreases fuel, 0, 0
  {
    if fuel == 0 then Err(StackOverflow)
    else VisitEntries(Merge(tree, key, index), key, index, fuel - 1)
  }

  /** The entries of a merged map with their values visited, keys and order unchanged. */
  function VisitEntries(es: seq<Entry>, key: JString, index: Index, fuel: nat): (r: Result<seq<Entry>>)
    ensures r.Err? ==> r == Err(StackOverflow)
    ensures r.Ok? ==> Keys(r.value) == Keys(es)
    decreases fuel, 3, |es|
  {
    if es == [] then Ok([])
    else
      var e := es[|es| - 1];
      match VisitEntries(es[..|es| - 1], key, index, fuel)
      case Err(err) => Err(err)
      case Ok(done) =>
        match VisitValue(e.value, key, index, fuel)
        case Err(err) => Err(err)
        case Ok(v) =>
          KeysSnoc(done, Entry(e.key, v));
          KeysInit(es);
          Ok(done + [Entry(e.key, v)])
  }

  /** A visited value: a map is visited, a list has its map elements visited, anything else stays. */
  function VisitValue(v: Value, key: JString, index: Index, fuel: nat): (r: Result<Value>)
    ensures r.Err? ==> r == Err(StackOverflow)
    ensures r.Ok? ==> (r.value.MapV? <==> v.MapV?) && (r.value.ListV? <==> v.ListV?)
    ensures r.Ok? && !v.MapV? && !v.ListV? ==> r.value == v
    decreases fuel, 2, 0
  {
    match v
    case MapV(m) =>
      (match Visit(m, key, index, fuel)
       case Err(err) => Err(err)
       case Ok(t) => Ok(MapV(t)))
    case ListV(items) =>
      (match VisitItems(items, key, index, fuel)
       case Err(err) => Err(err)
       case Ok(t) => Ok(ListV(t)))
    case _ => Ok(v)
  }

  /** The elements of a list after `visit`'s stream: maps visited, other elements kept. */
  function VisitItems(items: seq<Value>, key: JString, index: Index, fuel: nat): (r: Result<seq<Value>>)
    ensures r.Err? ==> r == Err(StackOverflow)
    ensures r.Ok? ==> |r.value| == |items|
    decreases fuel, 1, |items|
  {
    if items == [] then Ok([])
    else
      var x := items[|items| - 1];
      match VisitItems(items[..|items| - 1], key, index, fuel)
      case Err(err) => Err(err)
      case Ok(done) =>
        if x.MapV? then
          match Visit(x.entries, key, index, fuel)
          case Err(err) => Err(err)
          case Ok(t) => Ok(done + [MapV(t)])
        else Ok(done + [x])
  }

  /** `visit`: a copy of the tree is merged, then each entry's value is rewritten in place. */
  method VisitTree(tree: seq<Entry>, key: JString, index: Index, fuel: nat) returns (r: Result<seq<Entry>>)
    ensures r == Visit(tree, key, index, fuel)
    decreases fuel, 0
  {
    if fuel == 0 {
      return Err(StackOverflow);
    }
    var m := Merge(tree, key, index);
    r := VisitMerged(m, key, index, fuel - 1);
  }

  /** The `forEach` over the merged copy's entries, each value replaced by its visited value. */
  method VisitMerged(m: seq<Entry>, key: JString, index: Index, fuel: nat) returns (r: Result<seq<Entry>>)
    ensures r == VisitEntries(m, key, index, fuel)
    decreases fuel, 2
  {
    var result := [];
    var i := 0;
    while i < |m|
      invariant 0 <= i <= |m|
      invariant VisitEntries(m[..i], key, index, fuel) == Ok(result)
    {
      var v := VisitValueOf(m[i].value, key, index, fuel);
      VisitEntriesStep(m, i, key, index, fuel, result);
      if v.Err? {
        VisitEntriesErrorPersists(m, key, index, fuel, i + 1);
        return Err(StackOverflow);
      }
      result := result + [Entry(m[i].key, v.value)];
      i := i + 1;
    }
    assert m[..|m|] == m;
    return Ok(result);
  }

  /** One more entry visited: its visited value is appended, or its error ends the visit. */
  lemma VisitEntriesStep(es: seq<Entry>, i: nat, key: JString, index: Index, fuel: nat, done: seq<Entry>)
    requires i < |es| && VisitEntries(es[..i], key, index, fuel) == Ok(done)
    ensures var v := VisitValue(es[i].value, key, index, fuel);
      && (v.Err? ==> VisitEntries(es[..i + 1], key, index, fuel).Err?)
      && (v.Ok? ==> VisitEntries(es[..i + 1], key, index, fuel) == Ok(done + [Entry(es[i].key, v.value)]))
  {
    var p := es[..i + 1];
    assert p[..|p| - 1] == es[..i] && p[|p| - 1] == es[i];
  }

  /** One more list element visited: a map is visited, anything else is kept. */
  lemma VisitItemsStep(items: seq<Value>, j: nat, key: JString, index: Index, fuel: nat, done: seq<Value>)
    requires j < |items| && VisitItems(items[..j], key, index, fuel) == Ok(done)
    ensures var x := items[j];
      && (!x.MapV? ==> VisitItems(items[..j + 1], key, index, fuel) == Ok(done + [x]))
      && (x.MapV? && Visit(x.entries, key, index, fuel).Err? ==> VisitItems(items[..j + 1], key, index, fuel).Err?)
      && (x.MapV? && Visit(x.entries, key, index, fuel).Ok? ==>
            VisitItems(items[..j + 1], key, index, fuel) == Ok(done + [MapV(Visit(x.entries, key, index, fuel).value)]))
  {
    var p := items[..j + 1];
    assert p[..|p| - 1] == items[..j] && p[|p| - 1] == items[j];
  }

  /** `visit`'s treatment of one entry value: the recursive call, or the stream over a list. */
  method VisitValueOf(v: Value, key: JString, index: Index, fuel: nat) returns (r: Result<Value>)
    ensures r == VisitValue(v, key, index, fuel)
    decreases fuel, 1
  {
    match v
    case MapV(m) =>
      var t := VisitTree(m, key, index, fuel);
      if t.Err? {
        return Err(StackOverflow);
      }
      return Ok(MapV(t.value));
    case ListV(items) =>
      var out: seq<Value> := [];
      var j := 0;
      while j < |items|
        invariant 0 <= j <= |items|
        invariant VisitItems(items[..j], key, index, fuel) == Ok(out)
      {
        var x := items[j];
        VisitItemsStep(items, j, key, index, fuel, out);
        if x.MapV? {
          var t := VisitTree(x.entries, key, index, fuel);
          if t.Err? {
            VisitItemsErrorPersists(items, key, index, fuel, j + 1);
            return Err(StackOverflow);
          }
          out := out + [MapV(t.value)];
        } else {
          out := out + [x];
        }
        j := j + 1;
      }
      assert items[..|items|] == items;
      return Ok(ListV(out));
    case _ =>
      return Ok(v);
  }

  lemma {:induction false} VisitEntriesErrorPersists(es: seq<Entry>, key: JString, index: Index, fuel: nat, n: nat)
    requires n <= |es| && VisitEntries(es[..n], key, index, fuel).Err?
    ensures VisitEntries(es, key, index, fuel).Err?
  {
    if n < |es| {
      var p := es[..|es| - 1];
      assert p[..n] == es[..n];
      VisitEntriesErrorPersists(p, key, index, fuel, n);
    } else {
      assert es[..n] == es;
    }
  }

  lemma {:induction false} VisitItemsErrorPersists(items: seq<Value>, key: JString, index: Index, fuel: nat, n: nat)
    requires n <= |items| && VisitItems(items[..n], key, index, fuel).Err?
    ensures VisitItems(items, key, index, fuel).Err?
  {
    if n < |items| {
      var p := items[..|items| - 1];
      assert p[..n] == items[..n];
      VisitItemsErrorPersists(p, key, index, fuel, n);
    } else {
      assert items[..n] == items;
    }
  }

  /** A successful visit of entries is that of all but the last, followed by the last one visited. */
  lemma VisitEntriesLast(es: seq<Entry>, key: JString, index: Index, fuel: nat)
    requires es != [] && VisitEntries(es, key, index, fuel).Ok?
    ensures var p, e := es[..|es| - 1], es[|es| - 1];
      && VisitEntries(p, key, index, fuel).Ok?
      && VisitValue(e.value, key, index, fuel).Ok?
      && VisitEntries(es, key, index, fuel).value ==
           VisitEntries(p, key, index, fuel).value + [Entry(e.key, VisitValue(e.value, key, index, fuel).value)]
  {
  }

  /** A successful visit of a list is that of all but the last element, followed by the last one visited. */
  lemma VisitItemsLast(items: seq<Value>, key: JString, index: Index, fuel: nat)
    requires items != [] && VisitItems(items, key, index, fuel).Ok?
    ensures var p, x := items[..|items| - 1], items[|items| - 1];
      && VisitItems(p, key, index, fuel).Ok?
      && (x.MapV? ==> Visit(x.entries, key, index, fuel).Ok?)
      && VisitItems(items, key, index, fuel).value ==
           VisitItems(p, key, index, fuel).value + [if x.MapV? then MapV(Visit(x.entries, key, index, fuel).value) else x]
  {
  }

  /** Each visited entry keeps its key and holds the visit of its value. */
  lemma {:induction false} VisitEntriesEach(es: seq<Entry>, key: JString, index: Index, fuel: nat)
    requires VisitEntries(es, key, index, fuel).Ok?
    ensures var r := VisitEntries(es, key, index, fuel).value;
      && |r| == |es|
      && forall i :: 0 <= i < |es| ==>
        r[i].key == es[i].key && VisitValue(es[i].value, key, index, fuel) == Ok(r[i].value)
    decreases |es|
  {
    if es != [] {
      var p := es[..|es| - 1];
      VisitEntriesLast(es, key, index, fuel);
      VisitEntriesEach(p, key, index, fuel);
      var done := VisitEntries(p, key, index, fuel).value;
      var r := VisitEntries(es, key, index, fuel).value;
      forall i | 0 <= i < |es|
        ensures r[i].key == es[i].key && VisitValue(es[i].value, key, index, fuel) == Ok(r[i].value)
      {
        if i < |p| {
          assert r[i] == done[i] && p[i] == es[i];
        }
      }
    }
  }

  /** The entries' visit fails exactly when the visit of some entry's value fails. */
  lemma {:induction false} VisitEntriesFails(es: seq<Entry>, key: JString, index: Index, fuel: nat)
    ensures VisitEntries(es, key, index, fuel).Err? <==>
      exists i :: 0 <= i < |es| && VisitValue(es[i].value, key, index, fuel).Err?
    decreases |es|
  {
    if VisitEntries(es, key, index, fuel).Ok? {
      VisitEntriesEach(es, key, index, fuel);
    } else {
      var p := es[..|es| - 1];
      if VisitEntries(p, key, index, fuel).Err? {
        VisitEntriesFails(p, key, index, fuel);
        var i :| 0 <= i < |p| && VisitValue(p[i].value, key, index, fuel).Err?;
        assert p[i] == es[i];
      } else {
        assert VisitValue(es[|es| - 1].value, key, index, fuel).Err?;
      }
    }
  }

  /** A visited list keeps its non-map elements and holds the visit of each map element. */
  lemma {:induction false} VisitItemsEach(items: seq<Value>, key: JString, index: Index, fuel: nat)
    requires VisitItems(items, key, index, fuel).Ok?
    ensures var r := VisitItems(items, key, index, fuel).value;
      && |r| == |items|
      && forall j :: 0 <= j < |items| ==>
        (!items[j].MapV? ==> r[j] == items[j]) &&
        (items[j].MapV? ==> r[j].MapV? && Visit(items[j].entries, key, index, fuel) == Ok(r[j].entries))
    decreases |items|
  {
    if items != [] {
      var p := items[..|items| - 1];
      VisitItemsLast(items, key, index, fuel);
      VisitItemsEach(p, key, index, fuel);
      var done := VisitItems(p, key, index, fuel).value;
      var r := VisitItems(items, key, index, fuel).value;
      forall j | 0 <= j < |items|
        ensures (!items[j].MapV? ==> r[j] == items[j]) &&
          (items[j].MapV? ==> r[j].MapV? && Visit(items[j].entries, key, index, fuel) == Ok(r[j].entries))
      {
        if j < |p| {
          assert r[j] == done[j] && p[j] == items[j];
        }
      }
    }
  }

  /** A list's visit fails exactly when the visit of some map element fails. */
  lemma {:induction false} VisitItemsFails(items: seq<Value>, key: JString, index: Index, fuel: nat)
    ensures VisitItems(items, key, index, fuel).Err? <==>
      exists j :: 0 <= j < |items| && items[j].MapV? && Visit(items[j].entries, key, index, fuel).Err?
    decreases |items|
  {
    if VisitItems(items, key, index, fuel).Ok? {
      VisitItemsEach(items, key, index, fuel);
    } else {
      var p := items[..|items| - 1];
      if VisitItems(p, key, index, fuel).Err? {
        VisitItemsFails(p, key, index, fuel);
        var j :| 0 <= j < |p| && p[j].MapV? && Visit(p[j].entries, key, index, fuel).Err?;
        assert p[j] == items[j];
      } else {
        assert items[|items| - 1].MapV?;
      }
    }
  }

  /** `get` finds the value of the first entry with the key. */
  lemma {:induction false} GetFirst(m: seq<Entry>, k: JString)
    requires k in Keys(m)
    ensures Get(m, k) == Some(m[IndexOf(Keys(m), k)].value)
  {
    KeysSplit(m);
    if m[0].key != k {
      GetFirst(m[1..], k);
    }
  }

  /**
   * One level of `visit`: the result has the merged tree's keys, and under each
   * key the visit of the merged tree's value, which `MergeValues` says is the
   * data map's value for a key of the matching data map and the tree's own otherwise.
   */
  lemma VisitLevel(tree: seq<Entry>, key: JString, index: Index, fuel: nat, k: JString)
    requires Visit(tree, key, index, fuel).Ok?
    ensures var m, r := Merge(tree, key, index), Visit(tree, key, index, fuel).value;
      && fuel > 0
      && (Get(r, k).Some? <==> Get(m, k).Some?)
      && (Get(m, k).Some? ==> VisitValue(Get(m, k).value, key, index, fuel - 1) == Ok(Get(r, k).value))
  {
    var m, r := Merge(tree, key, index), Visit(tree, key, index, fuel).value;
    VisitEntriesEach(m, key, index, fuel - 1);
    if k in Keys(m) {
      GetFirst(m, k);
      GetFirst(r, k);
    }
  }

  /** The map reached from `tree` along the keys of `path`, each tree merged before the step down. */
  function MergedAt(tree: seq<Entry>, path: seq<JString>, key: JString, index: Index): Option<seq<Entry>>
    decreases |path|
  {
    if path == [] then Some(tree)
    else
      var v := Get(Merge(tree, key, index), path[0]);
      if v.Some? && v.value.MapV? then MergedAt(v.value.entries, path[1..], key, index) else None
  }

  /** The map reached from `tree` along the keys of `path`. */
  function At(tree: seq<Entry>, path: seq<JString>): Option<seq<Entry>>
    decreases |path|
  {
    if path == [] then Some(tree)
    else
      var v := Get(tree, path[0]);
      if v.Some? && v.value.MapV? then At(v.value.entries, path[1..]) else None
  }

  /**
   * `visit` reaches every nested level: if `s` is the (merged) map at `path` in
   * the tree, the map at `path` in the result is the visit of `s` with the fuel
   * `f` left after `|path|` steps down.
   */
  lemma {:induction false} VisitAt(tree: seq<Entry>, path: seq<JString>, s: seq<Entry>, key: JString, index: Index, fuel: nat, f: nat)
    requires Visit(tree, key, index, fuel).Ok? && MergedAt(tree, path, key, index) == Some(s)
    requires fuel == f + |path|
    ensures Visit(s, key, index, f).Ok?
    ensures At(Visit(tree, key, index, fuel).value, path) == Some(Visit(s, key, index, f).value)
    decreases |path|
  {
    if path != [] {
      var r := Visit(tree, key, index, fuel).value;
      var k := path[0];
      var sub := Get(Merge(tree, key, index), k).value.entries;
      VisitStepDown(tree, key, index, fuel, k);
      var w := Get(r, k).value;
      assert At(r, path) == At(w.entries, path[1..]);
      VisitAt(sub, path[1..], s, key, index, fuel - 1, f);
    }
  }

  /** A map value's visit is the visit of its map, a list value's that of its elements. */
  lemma VisitValueCases(v: Value, key: JString, index: Index, fuel: nat)
    ensures var r := VisitValue(v, key, index, fuel);
      && (v.MapV? ==> (r.Ok? <==> Visit(v.entries, key, index, fuel).Ok?))
      && (v.MapV? && r.Ok? ==> Visit(v.entries, key, index, fuel) == Ok(r.value.entries))
      && (v.ListV? ==> (r.Ok? <==> VisitItems(v.items, key, index, fuel).Ok?))
      && (v.ListV? && r.Ok? ==> VisitItems(v.items, key, index, fuel) == Ok(r.value.items))
  {
  }

  /** Below a key whose merged value is a map, the result holds the visit of that map. */
  lemma VisitStepDown(tree: seq<Entry>, key: JString, index: Index, fuel: nat, k: JString)
    requires Visit(tree, key, index, fuel).Ok?
    requires Get(Merge(tree, key, index), k).Some? && Get(Merge(tree, key, index), k).value.MapV?
    ensures var sub, r := Get(Merge(tree, key, index), k).value.entries, Visit(tree, key, index, fuel).value;
      && fuel > 0
      && Get(r, k).Some? && Get(r, k).value.MapV?
      && Visit(sub, key, index, fuel - 1) == Ok(Get(r, k).value.entries)
  {
    VisitLevel(tree, key, index, fuel, k);
  }

  /**
   * A map that matches a data map: the visit holds every key of the data map,
   * with the data map's value visited.
   */
  lemma MatchedLevel(s: seq<Entry>, key: JString, index: Index, fuel: nat, k: JString)
    requires Visit(s, key, index, fuel).Ok?
    requires GetOrNull(s, key) in index && DistinctKeys(index[GetOrNull(s, key)])
    requires k in Keys(index[GetOrNull(s, key)])
    ensures var t, d := Visit(s, key, index, fuel).value, Get(index[GetOrNull(s, key)], k).value;
      fuel > 0 && Get(t, k).Some? && VisitValue(d, key, index, fuel - 1) == Ok(Get(t, k).value)
  {
    MergeValues(s, key, index, k);
    VisitLevel(s, key, index, fuel, k);
  }

  /**
   * `updateTree`'s promise, at any depth: where the map `s` at `path` matches a
   * data map, the result's map at `path` holds every key of the data map, with
   * the data map's value visited (with the fuel `f - 1` left below that level);
   * a value that is neither a map nor a list arrives unchanged.
   */
  lemma UpdateAtDepth(tree: seq<Entry>, path: seq<JString>, s: seq<Entry>, key: JString, index: Index, fuel: nat, f: nat, k: JString)
    requires Visit(tree, key, index, fuel).Ok? && MergedAt(tree, path, key, index) == Some(s)
    requires fuel == f + |path|
    requires GetOrNull(s, key) in index && DistinctKeys(index[GetOrNull(s, key)])
    requires k in Keys(index[GetOrNull(s, key)])
    ensures var d, t := Get(index[GetOrNull(s, key)], k).value, At(Visit(tree, key, index, fuel).value, path);
      && f > 0
      && t.Some?
      && Get(t.value, k).Some?
      && VisitValue(d, key, index, f - 1) == Ok(Get(t.value, k).value)
      && (!d.MapV? && !d.ListV? ==> Get(t.value, k) == Some(d))
  {
    VisitAt(tree, path, s, key, index, fuel, f);
    MatchedLevel(s, key, index, f, k);
  }

  /** `apoc.map.updateTree(tree, key, data)`, with `visit` limited to `fuel` nested calls. */
  method UpdateTree(tree: seq<Entry>, key: JString, data: seq<Value>, fuel: nat) returns (r: Result<seq<Entry>>)
    ensures IndexSpec(data).Err? ==> r == Err(IndexSpec(data).error)
    ensures IndexSpec(data).Ok? ==> r == Visit(tree, key, IndexSpec(data).value, fuel)
  {
    var index := BuildIndex(data);
    if index.Err? {
      return Err(index.error);
    }
    r := VisitTree(tree, key, index.value, fuel);
  }

  /**
   * A datum whose map holds, under another key `c`, a subtree with the same
   * identifier makes `visit` recurse without end: no amount of fuel suffices.
   */
  lemma UpdateTreeSelfMatch(key: JString, c: JString, id: Value, fuel: nat)
    requires c != key && IsPrimitive(id)
    ensures Visit([Entry(key, id)], key, map[id := [Entry(c, MapV([Entry(key, id)]))]], fuel) == Err(StackOverflow)
  {
    SelfMatchMerge(key, c, id);
    SelfNestFails(key, id, map[id := [Entry(c, MapV([Entry(key, id)]))]], c, fuel);
  }

  /** A tree whose merge nests the tree itself under a new key never finishes. */
  lemma SelfNestFails(key: JString, id: Value, index: Index, c: JString, fuel: nat)
    requires IsPrimitive(id)
    requires Merge([Entry(key, id)], key, index) == [Entry(key, id)] + [Entry(c, MapV([Entry(key, id)]))]
    ensures Visit([Entry(key, id)], key, index, fuel) == Err(StackOverflow)
  {
    SelfOkBelow(key, id, index, fuel);
    if fuel > 0 {
      NestedEntriesFail([Entry(key, id)], c, key, index, fuel - 1);
      VisitUnfold([Entry(key, id)], key, index, fuel);
    }
  }

  /** The entries of `tree` are visited without error with any fuel up to `fuel`. */
  predicate OkBelow(tree: seq<Entry>, key: JString, index: Index, fuel: nat)
  {
    VisitEntries(tree, key, index, fuel).Ok? && (fuel > 0 ==> OkBelow(tree, key, index, fuel - 1))
  }

  /** A single primitive entry is visited without error with any fuel. */
  lemma {:induction false} SelfOkBelow(key: JString, id: Value, index: Index, fuel: nat)
    requires IsPrimitive(id)
    ensures OkBelow([Entry(key, id)], key, index, fuel)
  {
    SelfMatchFirst(key, id, index, fuel);
    if fuel > 0 {
      SelfOkBelow(key, id, index, fuel - 1);
    }
  }

  /** `visit` merges the tree and visits the merged entries with one call less. */
  lemma VisitUnfold(tree: seq<Entry>, key: JString, index: Index, fuel: nat)
    requires fuel > 0
    ensures Visit(tree, key, index, fuel) == VisitEntries(Merge(tree, key, index), key, index, fuel - 1)
  {
  }

  /** The merged entries of such a tree are never visited without error. */
  lemma {:induction false} NestedEntriesFail(tree: seq<Entry>, c: JString, key: JString, index: Index, fuel: nat)
    requires Merge(tree, key, index) == tree + [Entry(c, MapV(tree))]
    requires OkBelow(tree, key, index, fuel)
    ensures VisitEntries(tree + [Entry(c, MapV(tree))], key, index, fuel).Err?
  {
    if fuel > 0 {
      NestedEntriesFail(tree, c, key, index, fuel - 1);
      VisitUnfold(tree, key, index, fuel);
    }
    NestedFails(tree, c, key, index, fuel);
  }

  /** Appending a nested copy of a tree whose visit fails makes the visit of the entries fail. */
  lemma NestedFails(tree: seq<Entry>, c: JString, key: JString, index: Index, fuel: nat)
    requires VisitEntries(tree, key, index, fuel).Ok?
    requires Visit(tree, key, index, fuel).Err?
    ensures VisitEntries(tree + [Entry(c, MapV(tree))], key, index, fuel).Err?
  {
    var s := tree + [Entry(c, MapV(tree))];
    assert s[..|s| - 1] == tree;
    assert VisitValue(MapV(tree), key, index, fuel).Err?;
  }

  /** The datum's subtree is merged after the identifier. */
  lemma SelfMatchMerge(key: JString, c: JString, id: Value)
    requires c != key && IsPrimitive(id)
    ensures Merge([Entry(key, id)], key, map[id := [Entry(c, MapV([Entry(key, id)]))]])
      == [Entry(key, id), Entry(c, MapV([Entry(key, id)]))]
  {
    var tree := [Entry(key, id)];
    var index := map[id := [Entry(c, MapV(tree))]];
    assert GetOrNull(tree, key) == id;
    var n := [Entry(c, MapV(tree))];
    assert Merge(tree, key, index) == PutAll(tree, n);
    assert n[1..] == [];
    assert PutAll(tree, n) == Put(tree, c, MapV(tree));
    assert Keys(tree) == [key];
    PutNew(tree, c, MapV(tree));
  }

  /** A single primitive entry is visited unchanged. */
  lemma SelfMatchFirst(key: JString, id: Value, index: Index, fuel: nat)
    requires IsPrimitive(id)
    ensures VisitEntries([Entry(key, id)], key, index, fuel) == Ok([Entry(key, id)])
  {
    var es := [Entry(key, id)];
    assert es[..|es| - 1] == [];
    assert VisitEntries([], key, index, fuel) == Ok([]);
    assert VisitValue(id, key, index, fuel) == Ok(id);
    assert [] + [Entry(key, id)] == [Entry(key, id)];
  }

  /** How deeply `visit` nests on a tree: one call for the tree and one per nested map. */
  function TreeDepth(tree: seq<Entry>): nat
    decreases tree, 1
  {
    1 + EntriesDepth(tree)
  }

  function EntriesDepth(es: seq<Entry>): nat
    decreases es, 0
  {
    if es == [] then 0
    else
      var a, b := EntriesDepth(es[..|es| - 1]), ValueDepth(es[|es| - 1].value);
      if a >= b then a else b
  }

  function ValueDepth(v: Value): nat
    decreases v
  {
    match v
    case MapV(m) => TreeDepth(m)
    case ListV(items) => ItemsDepth(items)
    case _ => 0
  }

  function ItemsDepth(items: seq<Value>): nat
    decreases items
  {
    if items == [] then 0
    else
      var a := ItemsDepth(items[..|items| - 1]);
      var x := items[|items| - 1];
      var b := if x.MapV? then TreeDepth(x.entries) else 0;
      if a >= b then a else b
  }

  /** With no data, and fuel for the tree's depth, `visit` gives back the tree unchanged. */
  lemma {:induction false} VisitUnmatched(tree: seq<Entry>, key: JString, fuel: nat)
    requires fuel >= TreeDepth(tree)
    ensures Visit(tree, key, map[], fuel) == Ok(tree)
    decreases tree, 2
  {
    assert Merge(tree, key, map[]) == tree;
    VisitEntriesUnmatched(tree, key, fuel - 1);
    assert Visit(tree, key, map[], fuel) == VisitEntries(tree, key, map[], fuel - 1);
  }

  lemma {:induction false} VisitEntriesUnmatched(es: seq<Entry>, key: JString, fuel: nat)
    requires fuel >= EntriesDepth(es)
    ensures VisitEntries(es, key, map[], fuel) == Ok(es)
    decreases es, 1
  {
    if es != [] {
      var p, e := es[..|es| - 1], es[|es| - 1];
      VisitEntriesUnmatched(p, key, fuel);
      VisitValueUnmatched(e.value, key, fuel);
      assert p + [Entry(e.key, e.value)] == es;
    }
  }

  lemma {:induction false} VisitValueUnmatched(v: Value, key: JString, fuel: nat)
    requires fuel >= ValueDepth(v)
    ensures VisitValue(v, key, map[], fuel) == Ok(v)
    decreases v, 0
  {
    match v
    case MapV(m) => VisitUnmatched(m, key, fuel);
    case ListV(items) => VisitItemsUnmatched(items, key, fuel);
    case _ =>
  }

  lemma {:induction false} VisitItemsUnmatched(items: seq<Value>, key: JString, fuel: nat)
    requires fuel >= ItemsDepth(items)
    ensures VisitItems(items, key, map[], fuel) == Ok(items)
    decreases items, 0
  {
    if items != [] {
      var p, x := items[..|items| - 1], items[|items| - 1];
      VisitItemsUnmatched(p, key, fuel);
      if x.MapV? {
        VisitUnmatched(x.entries, key, fuel);
      }
      assert p + [x] == items;
    }
  }

  // ---------------------------------------------------------------------------
  // flatten

  /** The separator `flatten` puts between the keys of a path. */
  const Dot: JString := ['.' as int]

  /** `flattenMapRecursively(acc, m, prefix)`: each entry in turn, nested maps under a longer prefix. */
  function FlattenAcc(acc: map<JString, Value>, m: seq<Entry>, prefix: JString): (r: map<JString, Value>)
    ensures acc.Keys <= r.Keys
    decreases m
  {
    if m == [] then acc
    else
      var e := m[0];
      var acc' := if e.value.MapV? then FlattenAcc(acc, e.value.entries, prefix + e.key + Dot)
                  else acc[prefix + e.key := e.value];
      FlattenAcc(acc', m[1..], prefix)
  }

  /** `flattenMapRecursively`: a loop over the entries that recurses into map values. */
  method FlattenInto(acc: map<JString, Value>, m: seq<Entry>, prefix: JString) returns (r: map<JString, Value>)
    ensures r == FlattenAcc(acc, m, prefix)
    decreases m
  {
    r := acc;
    var i := 0;
    while i < |m|
      invariant 0 <= i <= |m|
      invariant FlattenAcc(r, m[i..], prefix) == FlattenAcc(acc, m, prefix)
    {
      var entry := m[i];
      assert m[i..][0] == entry && m[i..][1..] == m[i + 1..];
      if entry.value.MapV? {
        r := FlattenInto(r, entry.value.entries, prefix + entry.key + Dot);
      } else {
        r := r[prefix + entry.key := entry.value];
      }
      i := i + 1;
    }
  }

  /** `apoc.map.flatten(map)`: a `HashMap`, so the result carries no order. */
  method Flatten(m: seq<Entry>) returns (r: map<JString, Value>)
    ensures r == FlattenAcc(map[], m, [])
  {
    r := FlattenInto(map[], m, []);
  }

  /** The non-map leaves of `m` under their dotted key paths, in the order `flatten` reaches them. */
  function Leaves(m: seq<Entry>, prefix: JString): (r: seq<Entry>)
    ensures forall i :: 0 <= i < |r| ==> !r[i].value.MapV?
    decreases m
  {
    if m == [] then []
    else
      var e := m[0];
      (if e.value.MapV? then Leaves(e.value.entries, prefix + e.key + Dot) else [Entry(prefix + e.key, e.value)])
        + Leaves(m[1..], prefix)
  }

  /** Every leaf path starts with the prefix it was reached under. */
  lemma {:induction false} LeavesUnderPrefix(m: seq<Entry>, prefix: JString)
    ensures forall i :: 0 <= i < |Leaves(m, prefix)| ==> prefix <= Leaves(m, prefix)[i].key
    decreases m
  {
    if m != [] {
      var e := m[0];
      LeavesUnderPrefix(m[1..], prefix);
      if e.value.MapV? {
        var q := prefix + e.key + Dot;
        LeavesUnderPrefix(e.value.entries, q);
        forall i | 0 <= i < |Leaves(e.value.entries, q)| ensures prefix <= Leaves(e.value.entries, q)[i].key {
          assert q <= Leaves(e.value.entries, q)[i].key;
        }
      }
    }
  }

  /** `put` of each entry of `es` into `acc`, in order. */
  function PutAllMap(acc: map<JString, Value>, es: seq<Entry>): map<JString, Value>
  {
    if es == [] then acc
    else PutAllMap(acc, es[..|es| - 1])[es[|es| - 1].key := es[|es| - 1].value]
  }

  lemma {:induction false} PutAllMapConcat(acc: map<JString, Value>, a: seq<Entry>, b: seq<Entry>)
    ensures PutAllMap(acc, a + b) == PutAllMap(PutAllMap(acc, a), b)
  {
    if b == [] {
      assert a + b == a;
    } else {
      assert (a + b)[..|a + b| - 1] == a + b[..|b| - 1];
      PutAllMapConcat(acc, a, b[..|b| - 1]);
    }
  }

  /** Flattening puts the leaves of `m` into the accumulator, one after another. */
  lemma {:induction false} FlattenPutsLeaves(acc: map<JString, Value>, m: seq<Entry>, prefix: JString)
    ensures FlattenAcc(acc, m, prefix) == PutAllMap(acc, Leaves(m, prefix))
    decreases m
  {
    if m != [] {
      var e := m[0];
      var first := if e.value.MapV? then Leaves(e.value.entries, prefix + e.key + Dot) else [Entry(prefix + e.key, e.value)];
      var acc' := PutAllMap(acc, first);
      if e.value.MapV? {
        FlattenPutsLeaves(acc, e.value.entries, prefix + e.key + Dot);
      } else {
        assert first[..0] == [];
      }
      FlattenPutsLeaves(acc', m[1..], prefix);
      PutAllMapConcat(acc, first, Leaves(m[1..], prefix));
    }
  }

  /** `es[i]` is the last entry of `es` with key `k`. */
  predicate LastEntryWith(es: seq<Entry>, k: JString, i: int)
  {
    && 0 <= i < |es|
    && es[i].key == k
    && forall j :: i < j < |es| ==> es[j].key != k
  }

  /** After putting `es`, a key of `es` holds the value of its last entry; other keys keep theirs. */
  lemma PutAllMapLastWins(acc: map<JString, Value>, es: seq<Entry>, k: JString)
    ensures k in PutAllMap(acc, es) <==> k in acc || k in Keys(es)
    ensures k in Keys(es) ==> exists i :: LastEntryWith(es, k, i) && PutAllMap(acc, es)[k] == es[i].value
    ensures k !in Keys(es) && k in acc ==> PutAllMap(acc, es)[k] == acc[k]
  {
    PutAllMapKeys(acc, es, k);
    PutAllMapLastValue(acc, es, k);
  }

  /** The keys after putting `es`; a key `es` does not hold keeps its value. */
  lemma {:induction false} PutAllMapKeys(acc: map<JString, Value>, es: seq<Entry>, k: JString)
    ensures k in PutAllMap(acc, es) <==> k in acc || k in Keys(es)
    ensures k !in Keys(es) && k in acc ==> PutAllMap(acc, es)[k] == acc[k]
  {
    if es != [] {
      PutAllMapKeys(acc, es[..|es| - 1], k);
      KeysInit(es);
    }
  }

  /** A key of `es` holds the value of its last entry. */
  lemma {:induction false} PutAllMapLastValue(acc: map<JString, Value>, es: seq<Entry>, k: JString)
    ensures k in Keys(es) ==> exists i :: LastEntryWith(es, k, i) && k in PutAllMap(acc, es) && PutAllMap(acc, es)[k] == es[i].value
  {
    if es != [] {
      var p, e := es[..|es| - 1], es[|es| - 1];
      KeysInit(es);
      if e.key == k {
        assert LastEntryWith(es, k, |es| - 1);
      } else if k in Keys(p) {
        PutAllMapLastValue(acc, p, k);
        var i :| LastEntryWith(p, k, i) && k in PutAllMap(acc, p) && PutAllMap(acc, p)[k] == p[i].value;
        LastEntryInit(es, k, i);
        assert es[i] == p[i];
        assert PutAllMap(acc, es)[k] == PutAllMap(acc, p)[k];
      }
    }
  }

  /** An entry with another key after the last one with `k` leaves it the last. */
  lemma LastEntryInit(es: seq<Entry>, k: JString, i: int)
    requires es != [] && LastEntryWith(es[..|es| - 1], k, i) && es[|es| - 1].key != k
    ensures LastEntryWith(es, k, i)
  {
    var p := es[..|es| - 1];
    forall j | i < j < |es| ensures es[j].key != k {
      if j < |p| {
        assert es[j] == p[j];
      }
    }
  }

  /**
   * `flatten` holds a key exactly when some leaf has that dotted path; its value
   * is the last such leaf's (a literal "a.b" key and a path a, b collide), and no
   * value of the result is a map.
   */
  lemma FlattenLeaves(m: seq<Entry>, k: JString)
    ensures k in FlattenAcc(map[], m, []) <==> k in Keys(Leaves(m, []))
    ensures k in FlattenAcc(map[], m, []) ==> !FlattenAcc(map[], m, [])[k].MapV?
    ensures k in FlattenAcc(map[], m, []) ==> exists i ::
      LastEntryWith(Leaves(m, []), k, i) && FlattenAcc(map[], m, [])[k] == Leaves(m, [])[i].value
  {
    FlattenPutsLeaves(map[], m, []);
    PutAllMapLastWins(map[], Leaves(m, []), k);
  }

  /** A key with a dot and the same path through a nested map: the later entry wins. */
  lemma FlattenCollision(a: JString, b: JString, x: Value, y: Value)
    requires !x.MapV? && !y.MapV?
    ensures FlattenAcc(map[], [Entry(a + Dot + b, x), Entry(a, MapV([Entry(b, y)]))], []) == map[a + Dot + b := y]
  {
    var m := [Entry(a + Dot + b, x), Entry(a, MapV([Entry(b, y)]))];
    FlattenPutsLeaves(map[], m, []);
    var n := [Entry(b, y)];
    assert Leaves(n, a + Dot) == [Entry(a + Dot + b, y)] by {
      assert n[1..] == [];
      assert [Entry(a + Dot + b, y)] + [] == [Entry(a + Dot + b, y)];
    }
    assert [] + a + Dot == a + Dot;
    assert [] + (a + Dot + b) == a + Dot + b;
    assert m[1..][1..] == [];
    assert Leaves(m[1..], []) == [Entry(a + Dot + b, y)];
    var l := [Entry(a + Dot + b, x), Entry(a + Dot + b, y)];
    assert Leaves(m, []) == l;
    assert l[..1][..0] == [];
    assert l[..1] == [Entry(a + Dot + b, x)];
    assert l[..|l| - 1] == l[..1];
    assert PutAllMap(map[], l[..1]) == map[a + Dot + b := x];
    assert PutAllMap(map[], l) == map[a + Dot + b := x][a + Dot + b := y];
  }

  // ---------------------------------------------------------------------------
  // sortedProperties

  /** A two-element list `[key, value]` whose key is a string. */
  predicate IsPair(v: Value)
  {
    v.ListV? && |v.items| == 2 && v.items[0].Str?
  }

  function PairKeys(pairs: seq<Value>): (r: seq<JString>)
    requires forall i :: 0 <= i < |pairs| ==> IsPair(pairs[i])
    ensures |r| == |pairs|
  {
    seq(|pairs|, i requires 0 <= i < |pairs| && IsPair(pairs[i]) => pairs[i].items[0].s)
  }

  /**
   * `apoc.map.sortedProperties(map, ignoreCase)`: one `[key, value]` pair per
   * entry of the map, the keys sorted (ignoring case when asked); keys that
   * differ only in case keep the order they have in the map.
   */
  function SortedProperties(m: seq<Entry>, ignoreCase: bool): (r: seq<Value>)
    ensures |r| == |m|
    ensures forall i :: 0 <= i < |r| ==> IsPair(r[i]) && Entry(r[i].items[0].s, r[i].items[1]) in m
    ensures Sorted(PairKeys(r), ignoreCase)
    ensures multiset(PairKeys(r)) == multiset(Keys(m))
    ensures Stable(PairKeys(r), Keys(m), ignoreCase)
  {
    var ks := SortStrings(Keys(m), ignoreCase);
    SortStringsStable(Keys(m), ignoreCase);
    SortedKeysIn(m, ks);
    var r := KeyPairs(m, ks);
    assert PairKeys(r) == ks;
    r
  }

  /** A permutation of the keys holds only keys. */
  lemma SortedKeysIn(m: seq<Entry>, ks: seq<JString>)
    requires multiset(ks) == multiset(Keys(m))
    ensures forall i :: 0 <= i < |ks| ==> ks[i] in Keys(m)
  {
    forall i | 0 <= i < |ks| ensures ks[i] in Keys(m) {
      assert ks[i] in multiset(ks);
    }
  }

  /** The `[key, value]` pair of each of the keys `ks`, in the order of `ks`. */
  function KeyPairs(m: seq<Entry>, ks: seq<JString>): (r: seq<Value>)
    requires forall i :: 0 <= i < |ks| ==> ks[i] in Keys(m)
    ensures |r| == |ks|
    ensures forall i :: 0 <= i < |r| ==> IsPair(r[i]) && r[i].items[0].s == ks[i] && Entry(ks[i], r[i].items[1]) in m
  {
    seq(|ks|, i requires 0 <= i < |ks| => ListV([Str(ks[i]), GetOrNull(m, ks[i])]))
  }
}
