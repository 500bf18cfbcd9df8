/**
 * The Java objects the procedures receive and return: Cypher values (null,
 * integers, booleans, strings, lists and maps), insertion-ordered maps with the
 * behaviour of `LinkedHashMap`, `Object.toString`, and string ordering
 * (`String.compareTo` and `String.CASE_INSENSITIVE_ORDER`).
 */
module Values {
  import opened Lang

  /** A value passed to or returned from a procedure. Floating point is not modelled. */
  datatype Value =
    | Null
    | Int(i: int)
    | Bool(b: bool)
    | Str(s: JString)
    | ListV(items: seq<Value>)
    | MapV(entries: seq<Entry>)

  /** One key/value pair of a map, in the map's iteration order. */
  datatype Entry = Entry(key: JString, value: Value)

  /** `isPrimitive` in the text functions: null, a string, a number or a boolean. */
  predicate IsPrimitive(v: Value)
  {
    v.Null? || v.Str? || v.Int? || v.Bool?
  }

  /** The keys of an ordered map, in iteration order. */
  function Keys(m: seq<Entry>): seq<JString>
  {
    seq(|m|, i requires 0 <= i < |m| => m[i].key)
  }

  /** A well-formed Java map never holds a key twice. */
  predicate DistinctKeys(m: seq<Entry>)
  {
    forall i, j :: 0 <= i < j < |m| ==> m[i].key != m[j].key
  }

  /** The keys of a non-empty map: the first key, then the keys of the rest. */
  lemma KeysSplit(m: seq<Entry>)
    requires m != []
    ensures Keys(m) == [m[0].key] + Keys(m[1..])
  {
  }

  /** The keys of a map with one more entry in front. */
  lemma KeysCons(e: Entry, t: seq<Entry>)
    ensures Keys([e] + t) == [e.key] + Keys(t)
  {
    KeysSplit([e] + t);
    assert ([e] + t)[1..] == t;
  }

  /** The keys of a map with one more entry at the end. */
  lemma KeysSnoc(p: seq<Entry>, e: Entry)
    ensures Keys(p + [e]) == Keys(p) + [e.key]
  {
  }

  /** The keys of a non-empty map: the keys of all but the last entry, then the last key. */
  lemma KeysInit(m: seq<Entry>)
    requires m != []
    ensures Keys(m) == Keys(m[..|m| - 1]) + [m[|m| - 1].key]
  {
  }

  /** `Map.get`, with `None` for a missing key. */
  function Get(m: seq<Entry>, k: JString): (r: Option<Value>)
    ensures r.Some? <==> k in Keys(m)
    ensures r.Some? ==> Entry(k, r.value) in m
  {
    if m == [] then None
    else if m[0].key == k then
      assert Keys(m)[0] == k;
      Some(m[0].value)
    else
      KeysSplit(m);
      Get(m[1..], k)
  }

  /** In a map without duplicate keys, `Get` finds the value stored at the key's position. */
  lemma {:induction false} GetAt(m: seq<Entry>, i: nat)
    requires DistinctKeys(m) && i < |m|
    ensures Get(m, m[i].key) == Some(m[i].value)
  {
    if i > 0 {
      GetAt(m[1..], i - 1);
    }
  }

  /** Prepending an entry whose key is new keeps the keys distinct. */
  lemma DistinctCons(e: Entry, t: seq<Entry>)
    requires DistinctKeys(t) && e.key !in Keys(t)
    ensures DistinctKeys([e] + t)
  {
    forall j | 0 < j < |t| + 1 ensures ([e] + t)[j].key != e.key {
      assert Keys(t)[j - 1] == t[j - 1].key;
    }
  }

  /**
   * `LinkedHashMap.put`: a new key is appended at the end; an existing key keeps
   * its position and gets the new value.
   */
  function Put(m: seq<Entry>, k: JString, v: Value): (r: seq<Entry>)
    ensures Get(r, k) == Some(v)
    ensures forall k' :: k' != k ==> Get(r, k') == Get(m, k')
    ensures Keys(r) == if k in Keys(m) then Keys(m) else Keys(m) + [k]
  {
    if m == [] then [Entry(k, v)]
    else if m[0].key == k then
      KeysSplit(m);
      KeysCons(Entry(k, v), m[1..]);
      [Entry(k, v)] + m[1..]
    else
      var t := Put(m[1..], k, v);
      PutStep(m, k, v, t);
      [m[0]] + t
  }

  /** The recursive case of `Put`: an entry with another key in front of the updated rest. */
  lemma PutStep(m: seq<Entry>, k: JString, v: Value, t: seq<Entry>)
    requires m != [] && m[0].key != k
    requires Get(t, k) == Some(v)
    requires forall k' :: k' != k ==> Get(t, k') == Get(m[1..], k')
    requires Keys(t) == if k in Keys(m[1..]) then Keys(m[1..]) else Keys(m[1..]) + [k]
    ensures Get([m[0]] + t, k) == Some(v)
    ensures forall k' :: k' != k ==> Get([m[0]] + t, k') == Get(m, k')
    ensures Keys([m[0]] + t) == if k in Keys(m) then Keys(m) else Keys(m) + [k]
  {
    var r := [m[0]] + t;
    assert r[0] == m[0] && r[1..] == t;
    KeysSplit(m);
    KeysCons(m[0], t);
    assert k in Keys(m) <==> k in Keys(m[1..]);
  }

  /** Distinct keys are a property of the key sequence alone. */
  lemma DistinctByKeys(m: seq<Entry>)
    ensures DistinctKeys(m) <==> forall i, j :: 0 <= i < j < |Keys(m)| ==> Keys(m)[i] != Keys(m)[j]
  {
    assert |Keys(m)| == |m|;
    assert forall i :: 0 <= i < |m| ==> Keys(m)[i] == m[i].key;
  }

  /** `put` never introduces a duplicate key. */
  lemma PutDistinct(m: seq<Entry>, k: JString, v: Value)
    requires DistinctKeys(m)
    ensures DistinctKeys(Put(m, k, v))
  {
    var r := Put(m, k, v);
    DistinctByKeys(m);
    DistinctByKeys(r);
    if k !in Keys(m) {
      forall i, j | 0 <= i < j < |Keys(r)| ensures Keys(r)[i] != Keys(r)[j] {
        if j == |Keys(m)| {
          assert Keys(r)[i] == Keys(m)[i];
        }
      }
    }
  }

  /** `Map.get`: the value under `k`, or `null` when `k` is absent. */
  function GetOrNull(m: seq<Entry>, k: JString): (r: Value)
    ensures k in Keys(m) ==> Get(m, k) == Some(r)
    ensures k !in Keys(m) ==> r.Null?
  {
    if Get(m, k).Some? then Get(m, k).value else Null
  }

  /** Splitting off the first entry and appending one more commute. */
  lemma ConsSnoc(m: seq<Entry>, e: Entry)
    requires m != []
    ensures [m[0]] + (m[1..] + [e]) == m + [e]
  {
    assert m == [m[0]] + m[1..];
  }

  /** Putting a new key appends it with its value. */
  lemma {:induction false} PutNew(m: seq<Entry>, k: JString, v: Value)
    requires k !in Keys(m)
    ensures Put(m, k, v) == m + [Entry(k, v)]
  {
    if m != [] {
      KeysSplit(m);
      assert m[0].key != k && k !in Keys(m[1..]);
      PutNew(m[1..], k, v);
      assert Put(m, k, v) == [m[0]] + Put(m[1..], k, v);
      ConsSnoc(m, Entry(k, v));
    }
  }

  /** `Map.putAll`: every entry of `n`, in `n`'s order, is put into `m`. */
  function PutAll(m: seq<Entry>, n: seq<Entry>): seq<Entry>
    decreases |n|
  {
    if n == [] then m else PutAll(Put(m, n[0].key, n[0].value), n[1..])
  }

  /** After `putAll`, a key of `n` has `n`'s value and every other key keeps its value. */
  lemma {:induction false} GetPutAll(m: seq<Entry>, n: seq<Entry>, k: JString)
    requires DistinctKeys(n)
    ensures Get(PutAll(m, n), k) == if k in Keys(n) then Get(n, k) else Get(m, k)
    decreases |n|
  {
    if n != [] {
      KeysSplit(n);
      GetPutAll(Put(m, n[0].key, n[0].value), n[1..], k);
    }
  }

  /** `putAll` never duplicates a key. */
  lemma {:induction false} PutAllDistinct(m: seq<Entry>, n: seq<Entry>)
    requires DistinctKeys(m)
    ensures DistinctKeys(PutAll(m, n))
    decreases |n|
  {
    if n != [] {
      PutDistinct(m, n[0].key, n[0].value);
      PutAllDistinct(Put(m, n[0].key, n[0].value), n[1..]);
    }
  }

  /** The keys after `putAll` are those of both maps. */
  lemma {:induction false} PutAllKeys(m: seq<Entry>, n: seq<Entry>)
    ensures forall k :: k in Keys(PutAll(m, n)) <==> k in Keys(m) || k in Keys(n)
    decreases |n|
  {
    if n != [] {
      KeysSplit(n);
      PutAllKeys(Put(m, n[0].key, n[0].value), n[1..]);
    }
  }

  /** The entries of `m` whose keys are not listed in `ks`, in their original order. */
  function Without(m: seq<Entry>, ks: seq<JString>): (r: seq<Entry>)
    ensures forall e :: e in r <==> e in m && e.key !in ks
  {
    if m == [] then []
    else if m[0].key in ks then Without(m[1..], ks)
    else [m[0]] + Without(m[1..], ks)
  }

  /** Removing keys leaves a map with the same value for every key not removed. */
  lemma {:induction false} GetWithout(m: seq<Entry>, ks: seq<JString>, k: JString)
    ensures Get(Without(m, ks), k) == if k in ks then None else Get(m, k)
  {
    if m != [] {
      GetWithout(m[1..], ks, k);
      KeysSplit(m);
      if k in ks {
        assert k !in Keys(Without(m, ks));
      }
    }
  }

  /** `s` is `t` with some elements left out and the rest in the same order. */
  predicate Subsequence<T(==)>(s: seq<T>, t: seq<T>)
    decreases |t|
  {
    if t == [] then s == []
    else (s != [] && s[0] == t[0] && Subsequence(s[1..], t[1..])) || Subsequence(s, t[1..])
  }

  /** Appending one element on both sides, or on the right only, keeps a subsequence. */
  lemma {:induction false} SubsequenceSnoc<T>(s: seq<T>, t: seq<T>, x: T)
    requires Subsequence(s, t)
    ensures Subsequence(s + [x], t + [x]) && Subsequence(s, t + [x])
    decreases |t|
  {
    if t == [] {
      assert Subsequence([x], [x]) by {
        assert Subsequence([x][1..], [x][1..]);
      }
      assert Subsequence(s, [x]) by {
        assert Subsequence(s, [x][1..]);
      }
    } else {
      assert (t + [x])[1..] == t[1..] + [x];
      if s != [] && s[0] == t[0] && Subsequence(s[1..], t[1..]) {
        SubsequenceSnoc(s[1..], t[1..], x);
        assert (s + [x])[1..] == s[1..] + [x];
      } else {
        SubsequenceSnoc(s, t[1..], x);
      }
    }
  }

  /** Removing keys keeps every other entry in its place. */
  lemma {:induction false} WithoutIsSubsequence(m: seq<Entry>, ks: seq<JString>)
    ensures Subsequence(Without(m, ks), m)
  {
    if m != [] {
      WithoutIsSubsequence(m[1..], ks);
      if m[0].key !in ks {
        assert Without(m, ks)[1..] == Without(m[1..], ks);
      }
    }
  }

  /** `String.valueOf(b)`. */
  function BoolString(b: bool): JString
  {
    if b then Lit("true") else Lit("false")
  }

  /**
   * `Object.toString` of a value: `Long.toString` for integers, the string itself,
   * `[a, b]` for a list and `{k=v, ...}` for a map, as in `AbstractCollection`
   * and `AbstractMap`.
   */
  function ToJavaString(v: Value): JString
  {
    match v
    case Null => Lit("null")
    case Int(i) => DecimalString(i)
    case Bool(b) => BoolString(b)
    case Str(s) => s
    case ListV(items) => Lit("[") + Join(ItemStrings(items), Lit(", ")) + Lit("]")
    case MapV(entries) => Lit("{") + Join(EntryStrings(entries), Lit(", ")) + Lit("}")
  }

  function ItemStrings(items: seq<Value>): (r: seq<JString>)
    ensures |r| == |items|
  {
    if items == [] then [] else [ToJavaString(items[0])] + ItemStrings(items[1..])
  }

  function EntryStrings(entries: seq<Entry>): (r: seq<JString>)
    ensures |r| == |entries|
  {
    if entries == [] then []
    else [entries[0].key + Lit("=") + ToJavaString(entries[0].value)] + EntryStrings(entries[1..])
  }

  /** `Object.toString` distinguishes different integers. */
  lemma IntToStringInjective(a: int, b: int)
    requires ToJavaString(Int(a)) == ToJavaString(Int(b))
    ensures a == b
  {
    DecimalRoundTrip(a);
    DecimalRoundTrip(b);
  }

  // ---------------------------------------------------------------------------
  // String ordering

  /**
   * The character a comparison looks at: itself for `String.compareTo`, and
   * `Character.toLowerCase(Character.toUpperCase(c))` for the case-insensitive
   * order, here for the ASCII letters only.
   */
  function Fold(c: Char16, ignoreCase: bool): (r: Char16)
    ensures !ignoreCase ==> r == c
    ensures ignoreCase && 'A' as int <= c <= 'Z' as int ==> r == c + 32
  {
    if ignoreCase && 'A' as int <= c <= 'Z' as int then c + 32 else c
  }

  /** `a` comes no later than `b`: lexicographic on the folded code units, a prefix first. */
  predicate LexLeq(a: JString, b: JString, ignoreCase: bool)
  {
    if a == [] then true
    else if b == [] then false
    else if Fold(a[0], ignoreCase) != Fold(b[0], ignoreCase) then Fold(a[0], ignoreCase) < Fold(b[0], ignoreCase)
    else LexLeq(a[1..], b[1..], ignoreCase)
  }

  lemma {:induction false} LexTotal(a: JString, b: JString, ignoreCase: bool)
    ensures LexLeq(a, b, ignoreCase) || LexLeq(b, a, ignoreCase)
  {
    if a != [] && b != [] && Fold(a[0], ignoreCase) == Fold(b[0], ignoreCase) {
      LexTotal(a[1..], b[1..], ignoreCase);
    }
  }

  lemma {:induction false} LexTransitive(a: JString, b: JString, c: JString, ignoreCase: bool)
    requires LexLeq(a, b, ignoreCase) && LexLeq(b, c, ignoreCase)
    ensures LexLeq(a, c, ignoreCase)
  {
    if a != [] && b != [] && c != [] {
      if Fold(a[0], ignoreCase) == Fold(b[0], ignoreCase) && Fold(b[0], ignoreCase) == Fold(c[0], ignoreCase) {
        LexTransitive(a[1..], b[1..], c[1..], ignoreCase);
      }
    }
  }

  /** The case-sensitive order is antisymmetric: only equal strings compare as equal. */
  lemma {:induction false} LexAntisymmetric(a: JString, b: JString)
    requires LexLeq(a, b, false) && LexLeq(b, a, false)
    ensures a == b
  {
    if a != [] && b != [] {
      LexAntisymmetric(a[1..], b[1..]);
      assert a == [a[0]] + a[1..] && b == [b[0]] + b[1..];
    }
  }

  /** Ordered by `LexLeq`. */
  predicate Sorted(s: seq<JString>, ignoreCase: bool)
  {
    forall i, j :: 0 <= i < j < |s| ==> LexLeq(s[i], s[j], ignoreCase)
  }

  /** Inserts `x` after every element that does not come after it (keeps the sort stable). */
  function Insert(x: JString, s: seq<JString>, ignoreCase: bool): (r: seq<JString>)
    ensures multiset(r) == multiset(s) + multiset{x}
    ensures |r| == |s| + 1
  {
    if s == [] then [x]
    else if LexLeq(s[0], x, ignoreCase) then
      assert s == [s[0]] + s[1..];
      [s[0]] + Insert(x, s[1..], ignoreCase)
    else
      [x] + s
  }

  /** A lower bound of `x` and of every element of `s` bounds every element after inserting. */
  lemma {:induction false} InsertBound(x: JString, s: seq<JString>, ignoreCase: bool, lo: JString)
    requires LexLeq(lo, x, ignoreCase)
    requires forall i :: 0 <= i < |s| ==> LexLeq(lo, s[i], ignoreCase)
    ensures forall j :: 0 <= j < |Insert(x, s, ignoreCase)| ==> LexLeq(lo, Insert(x, s, ignoreCase)[j], ignoreCase)
  {
    if s != [] && LexLeq(s[0], x, ignoreCase) {
      InsertBound(x, s[1..], ignoreCase, lo);
      var t := Insert(x, s[1..], ignoreCase);
      assert Insert(x, s, ignoreCase) == [s[0]] + t;
    }
  }

  lemma {:induction false} InsertSorted(x: JString, s: seq<JString>, ignoreCase: bool)
    requires Sorted(s, ignoreCase)
    ensures Sorted(Insert(x, s, ignoreCase), ignoreCase)
  {
    if s != [] && LexLeq(s[0], x, ignoreCase) {
      var t := Insert(x, s[1..], ignoreCase);
      InsertSorted(x, s[1..], ignoreCase);
      InsertBound(x, s[1..], ignoreCase, s[0]);
      assert Insert(x, s, ignoreCase) == [s[0]] + t;
    } else if s != [] {
      LexTotal(s[0], x, ignoreCase);
      forall j | 0 < j < |s| ensures LexLeq(x, s[j], ignoreCase) {
        LexTransitive(x, s[0], s[j], ignoreCase);
      }
      assert Insert(x, s, ignoreCase) == [x] + s;
    }
  }

  /** `Collections.sort` on a list of strings, stable, by `LexLeq`. */
  function SortStrings(s: seq<JString>, ignoreCase: bool): (r: seq<JString>)
    ensures multiset(r) == multiset(s)
    ensures |r| == |s|
    ensures Sorted(r, ignoreCase)
  {
    if s == [] then []
    else
      assert s == s[..|s| - 1] + [s[|s| - 1]];
      var t := SortStrings(s[..|s| - 1], ignoreCase);
      InsertSorted(s[|s| - 1], t, ignoreCase);
      Insert(s[|s| - 1], t, ignoreCase)
  }

  /** `a` and `b` compare as equal. */
  predicate Equivalent(a: JString, b: JString, ignoreCase: bool)
  {
    LexLeq(a, b, ignoreCase) && LexLeq(b, a, ignoreCase)
  }

  /** `a` occurs in `s` before an occurrence of `b`. */
  predicate Before(s: seq<JString>, a: JString, b: JString)
  {
    exists p, q :: 0 <= p < q < |s| && s[p] == a && s[q] == b
  }

  /** A sort of `s` is stable when elements that compare as equal keep the order they have in `s`. */
  predicate Stable(r: seq<JString>, s: seq<JString>, ignoreCase: bool)
  {
    forall i, j :: 0 <= i < j < |r| && Equivalent(r[i], r[j], ignoreCase) ==> Before(s, r[i], r[j])
  }

  /** Where `Insert` puts `x`: after the elements that do not come after it. */
  function InsertPos(x: JString, s: seq<JString>, ignoreCase: bool): (k: nat)
    ensures k <= |s|
  {
    if s != [] && LexLeq(s[0], x, ignoreCase) then 1 + InsertPos(x, s[1..], ignoreCase) else 0
  }

  /** `Insert` puts `x` at `InsertPos`, after an element that does not come after `x`... */
  lemma InsertAt(x: JString, s: seq<JString>, ignoreCase: bool)
    ensures var k, r := InsertPos(x, s, ignoreCase), Insert(x, s, ignoreCase);
      && r[k] == x
      && (forall i :: 0 <= i < k ==> r[i] == s[i])
      && (forall i :: k < i < |r| ==> r[i] == s[i - 1])
      && (k < |s| ==> !LexLeq(s[k], x, ignoreCase))
  {
    InsertBefore(x, s, ignoreCase);
    InsertAfter(x, s, ignoreCase);
    InsertPosStops(x, s, ignoreCase);
  }

  /** ...keeps the elements before that place... */
  lemma {:induction false} InsertBefore(x: JString, s: seq<JString>, ignoreCase: bool)
    ensures Insert(x, s, ignoreCase)[InsertPos(x, s, ignoreCase)] == x
    ensures forall i :: 0 <= i < InsertPos(x, s, ignoreCase) ==> Insert(x, s, ignoreCase)[i] == s[i]
  {
    if s != [] && LexLeq(s[0], x, ignoreCase) {
      var t := s[1..];
      InsertBefore(x, t, ignoreCase);
      var r, u := Insert(x, s, ignoreCase), Insert(x, t, ignoreCase);
      assert r == [s[0]] + u;
      forall i | 0 < i < |r| ensures r[i] == u[i - 1] {
      }
    }
  }

  /** ...shifts the elements after it by one... */
  lemma {:induction false} InsertAfter(x: JString, s: seq<JString>, ignoreCase: bool)
    ensures forall i :: InsertPos(x, s, ignoreCase) < i < |Insert(x, s, ignoreCase)| ==> Insert(x, s, ignoreCase)[i] == s[i - 1]
  {
    if s != [] && LexLeq(s[0], x, ignoreCase) {
      var t := s[1..];
      InsertAfter(x, t, ignoreCase);
      var r, u := Insert(x, s, ignoreCase), Insert(x, t, ignoreCase);
      var k := InsertPos(x, t, ignoreCase);
      assert InsertPos(x, s, ignoreCase) == k + 1;
      assert r == [s[0]] + u;
      forall i | k + 1 < i < |r| ensures r[i] == s[i - 1] {
        assert r[i] == u[i - 1] && s[i - 1] == t[i - 2];
      }
    } else {
      assert Insert(x, s, ignoreCase) == [x] + s;
    }
  }

  /** ...and stops before the first element that comes after `x`. */
  lemma {:induction false} InsertPosStops(x: JString, s: seq<JString>, ignoreCase: bool)
    ensures var k := InsertPos(x, s, ignoreCase); k < |s| ==> !LexLeq(s[k], x, ignoreCase)
  {
    if s != [] && LexLeq(s[0], x, ignoreCase) {
      InsertPosStops(x, s[1..], ignoreCase);
    }
  }

  /** Nothing after the inserted element compares as equal to it. */
  lemma InsertNoEquivalentAfter(x: JString, s: seq<JString>, ignoreCase: bool, j: nat)
    requires Sorted(s, ignoreCase)
    requires InsertPos(x, s, ignoreCase) <= j < |s|
    ensures !LexLeq(s[j], x, ignoreCase)
  {
    var k := InsertPos(x, s, ignoreCase);
    InsertAt(x, s, ignoreCase);
    if LexLeq(s[j], x, ignoreCase) && j > k {
      LexTransitive(s[k], s[j], x, ignoreCase);
    }
  }

  /** An element of `s` comes before an element appended to `s`. */
  lemma BeforeLast(s: seq<JString>, a: JString, x: JString)
    requires a in s
    ensures Before(s + [x], a, x)
  {
    var p :| 0 <= p < |s| && s[p] == a;
    assert (s + [x])[p] == a && (s + [x])[|s|] == x;
  }

  /** Appending keeps the order of the elements already there. */
  lemma BeforeSnoc(s: seq<JString>, a: JString, b: JString, x: JString)
    requires Before(s, a, b)
    ensures Before(s + [x], a, b)
  {
    var p, q :| 0 <= p < q < |s| && s[p] == a && s[q] == b;
    assert (s + [x])[p] == a && (s + [x])[q] == b;
  }

  /** Inserting the next element of the input at the end of its run of equals keeps a sort stable. */
  lemma InsertStable(x: JString, t: seq<JString>, s: seq<JString>, ignoreCase: bool)
    requires Sorted(t, ignoreCase) && Stable(t, s, ignoreCase) && multiset(t) == multiset(s)
    ensures Stable(Insert(x, t, ignoreCase), s + [x], ignoreCase)
  {
    var k := InsertPos(x, t, ignoreCase);
    InsertAt(x, t, ignoreCase);
    var r, s2 := Insert(x, t, ignoreCase), s + [x];
    assert |r| == |t| + 1;
    forall i, j | 0 <= i < j < |r| && Equivalent(r[i], r[j], ignoreCase)
      ensures Before(s2, r[i], r[j])
    {
      if i == k {
        InsertNoEquivalentAfter(x, t, ignoreCase, j - 1);
      } else if j == k {
        assert r[i] == t[i] && r[j] == x;
        assert t[i] in multiset(s);
        BeforeLast(s, t[i], x);
      } else {
        var i', j' := if i < k then i else i - 1, if j < k then j else j - 1;
        assert r[i] == t[i'] && r[j] == t[j'];
        BeforeSnoc(s, t[i'], t[j'], x);
      }
    }
  }

  /** `Collections.sort` is stable: strings that compare as equal keep their input order. */
  lemma {:induction false} SortStringsStable(s: seq<JString>, ignoreCase: bool)
    ensures Stable(SortStrings(s, ignoreCase), s, ignoreCase)
  {
    if s != [] {
      var p, x := s[..|s| - 1], s[|s| - 1];
      SortStringsStable(p, ignoreCase);
      InsertStable(x, SortStrings(p, ignoreCase), p, ignoreCase);
      assert p + [x] == s;
    }
  }
}
