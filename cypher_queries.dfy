/**
 * The query-text builders and the branch selection of `apoc.cypher`: the `WITH`
 * clause that maps parameters to variables, the compiled-runtime prefix, the
 * `WITH ... UNWIND` header of the batched procedures, the parameter map of one
 * batch, and the choice `apoc.when` and `apoc.case` make between queries.
 */
module CypherQueries {
  import opened Lang
  import opened Values

  // ---------------------------------------------------------------------------
  // withParamMapping

  /** ``format(" {`%s`} as `%s` ", k, k)``: the parameter `k` bound to the variable `k`. */
  function MappingClause(k: JString): JString
  {
    Lit(" {`") + k + Lit("`} as `") + k + Lit("` ")
  }

  function MappingClauses(keys: seq<JString>): (r: seq<JString>)
    ensures |r| == |keys|
    ensures forall i :: 0 <= i < |keys| ==> r[i] == MappingClause(keys[i])
  {
    seq(|keys|, i requires 0 <= i < |keys| => MappingClause(keys[i]))
  }

  const WithKeyword: JString := Lit(" WITH ")
  const ClauseSeparator: JString := Lit(", ")

  /**
   * `withParamMapping(fragment, keys)`: the fragment unchanged when there are no
   * keys, otherwise ` WITH `, the clauses joined by `, `, then the fragment.
   */
  function WithParamMapping(fragment: JString, keys: seq<JString>): (r: JString)
    ensures keys == [] ==> r == fragment
    ensures |fragment| <= |r| && r[|r| - |fragment|..] == fragment
    ensures keys != [] ==> |r| > |WithKeyword| && r[..|WithKeyword|] == WithKeyword
  {
    if keys == [] then fragment
    else
      var r := WithKeyword + Join(MappingClauses(keys), ClauseSeparator) + fragment;
      assert r[..|WithKeyword|] == WithKeyword;
      r
  }

  /** Clause `i` of the `WITH` declaration binds `keys[i]`. */
  lemma WithParamMappingClause(fragment: JString, keys: seq<JString>, i: nat)
    requires i < |keys|
    ensures var cs := MappingClauses(keys);
      var o := |WithKeyword| + Offset(cs, ClauseSeparator, i);
      && cs[i] == MappingClause(keys[i])
      && o + |cs[i]| <= |WithParamMapping(fragment, keys)|
      && WithParamMapping(fragment, keys)[o..o + |cs[i]|] == cs[i]
  {
    var cs := MappingClauses(keys);
    assert WithParamMapping(fragment, keys) == WithKeyword + Join(cs, ClauseSeparator) + fragment;
    JoinedElementAt(WithKeyword, cs, ClauseSeparator, fragment, i);
  }

  /**
   * The last clause of the `WITH` declaration ends where the fragment begins:
   * ` WITH `, the clauses and their separators, and the fragment make up the
   * whole text.
   */
  lemma WithParamMappingLength(fragment: JString, keys: seq<JString>)
    requires keys != []
    ensures var cs := MappingClauses(keys);
      |WithParamMapping(fragment, keys)| ==
        |WithKeyword| + Offset(cs, ClauseSeparator, |cs| - 1) + |cs[|cs| - 1]| + |fragment|
  {
    var cs := MappingClauses(keys);
    assert WithParamMapping(fragment, keys) == WithKeyword + Join(cs, ClauseSeparator) + fragment;
    JoinLength(cs, ClauseSeparator);
  }

  /** Neighbouring clauses of the `WITH` declaration are separated by `, `. */
  lemma WithParamMappingSeparator(fragment: JString, keys: seq<JString>, i: nat)
    requires i + 1 < |keys|
    ensures var cs := MappingClauses(keys);
      var o := |WithKeyword| + Offset(cs, ClauseSeparator, i) + |cs[i]|;
      && o + |ClauseSeparator| <= |WithParamMapping(fragment, keys)|
      && WithParamMapping(fragment, keys)[o..o + |ClauseSeparator|] == ClauseSeparator
  {
    var cs := MappingClauses(keys);
    assert WithParamMapping(fragment, keys) == WithKeyword + Join(cs, ClauseSeparator) + fragment;
    JoinedDelimiterAt(WithKeyword, cs, ClauseSeparator, fragment, i);
  }

  /** In `w + Join(cs, d) + f`, element `i` sits at its offset past `w`. */
  lemma JoinedElementAt(w: JString, cs: seq<JString>, d: JString, f: JString, i: nat)
    requires i < |cs|
    ensures var o := |w| + Offset(cs, d, i);
      && o + |cs[i]| <= |w + Join(cs, d) + f|
      && (w + Join(cs, d) + f)[o..o + |cs[i]|] == cs[i]
  {
    JoinElement(cs, d, i);
    var o := Offset(cs, d, i);
    SliceOfMiddle(w, Join(cs, d), f, o, o + |cs[i]|);
  }

  /** In `w + Join(cs, d) + f`, the delimiter follows element `i` when another element comes. */
  lemma JoinedDelimiterAt(w: JString, cs: seq<JString>, d: JString, f: JString, i: nat)
    requires i + 1 < |cs|
    ensures var o := |w| + Offset(cs, d, i) + |cs[i]|;
      && o + |d| <= |w + Join(cs, d) + f|
      && (w + Join(cs, d) + f)[o..o + |d|] == d
  {
    JoinDelimiter(cs, d, i);
    var a := Offset(cs, d, i) + |cs[i]|;
    SliceOfMiddle(w, Join(cs, d), f, a, a + |d|);
  }

  /** A slice of the middle part of `p + m + q`. */
  lemma SliceOfMiddle(p: JString, m: JString, q: JString, a: nat, b: nat)
    requires a <= b <= |m|
    ensures (p + m + q)[|p| + a..|p| + b] == m[a..b]
  {
    assert p + m + q == p + (m + q);
    assert (m + q)[a..b] == m[a..b];
  }

  // ---------------------------------------------------------------------------
  // compiled

  /**
   * `String.equalsIgnoreCase` against an ASCII word. For the word "cypher" the
   * ASCII folding agrees with Java's, since no other code unit upper- or
   * lower-cases to one of its letters.
   */
  predicate EqualsIgnoreCase(a: JString, b: JString)
  {
    |a| == |b| && forall i :: 0 <= i < |a| ==> Fold(a[i], true) == Fold(b[i], true)
  }

  const CypherWord: JString := Lit("cypher")

  /** `COMPILED_PREFIX`, `"CYPHER runtime=" + Util.COMPILED`; `Util.COMPILED` is a parameter here. */
  function CompiledPrefix(runtime: JString): JString
  {
    Lit("CYPHER runtime=") + runtime
  }

  /**
   * `compiled(fragment)`: the fragment when it starts with "cypher" in any case,
   * otherwise the compiled-runtime prefix and the fragment. `substring(0, 6)`
   * throws for a fragment shorter than six code units.
   */
  function Compiled(fragment: JString, runtime: JString): (r: Result<JString>)
    ensures r.Err? <==> |fragment| < 6
    ensures r.Err? ==> r.error == StringIndexOutOfBounds
    ensures r.Ok? ==> |fragment| <= |r.value| && r.value[|r.value| - |fragment|..] == fragment
    ensures r.Ok? && EqualsIgnoreCase(fragment[..6], CypherWord) ==> r.value == fragment
    ensures r.Ok? && !EqualsIgnoreCase(fragment[..6], CypherWord) ==>
      |CompiledPrefix(runtime)| <= |r.value| && r.value[..|CompiledPrefix(runtime)|] == CompiledPrefix(runtime)
    ensures r.Ok? && !EqualsIgnoreCase(fragment[..6], CypherWord) ==> |r.value| == |CompiledPrefix(runtime)| + |fragment|
  {
    if |fragment| < 6 then Err(StringIndexOutOfBounds)
    else if EqualsIgnoreCase(fragment[..6], CypherWord) then Ok(fragment)
    else
      var r := CompiledPrefix(runtime) + fragment;
      assert r[..|CompiledPrefix(runtime)|] == CompiledPrefix(runtime);
      Ok(r)
  }

  /** The compiled prefix itself starts with "CYPHER". */
  lemma CompiledPrefixStartsCypher(runtime: JString)
    ensures |CompiledPrefix(runtime)| >= 6 && EqualsIgnoreCase(CompiledPrefix(runtime)[..6], CypherWord)
  {
    var p := CompiledPrefix(runtime);
    assert p[..6] == Lit("CYPHER runtime=")[..6];
    forall i | 0 <= i < 6 ensures Fold(p[i], true) == Fold(CypherWord[i], true) {
      assert p[i] == Lit("CYPHER runtime=")[i];
    }
  }

  /** `compiled` is idempotent: a compiled fragment is left as it is. */
  lemma CompiledIdempotent(fragment: JString, runtime: JString)
    requires Compiled(fragment, runtime).Ok?
    ensures Compiled(Compiled(fragment, runtime).value, runtime) == Compiled(fragment, runtime)
  {
    var r := Compiled(fragment, runtime).value;
    if !EqualsIgnoreCase(fragment[..6], CypherWord) {
      CompiledPrefixStartsCypher(runtime);
      var p := CompiledPrefix(runtime);
      assert r[..6] == p[..6];
    }
  }

  // ---------------------------------------------------------------------------
  // withParamsAndIterator

  /** `Util.quote`, `Util.param` and `Util.withMapping`, which are not part of this model. */
  datatype Helpers = Helpers(quote: JString -> JString, param: JString -> JString, withMapping: seq<JString> -> JString)

  /** The iterator counts as absent when it is `null` or empty. */
  predicate NoIterator(iteratorName: Option<JString>)
  {
    iteratorName.None? || iteratorName.value == []
  }

  /** The parameter names the `WITH` list carries: all of them, less the iterator. */
  function WithColumns(params: seq<JString>, iteratorName: Option<JString>): (r: seq<JString>)
    ensures forall c :: c in r <==> c in params && (NoIterator(iteratorName) || c != iteratorName.value)
    ensures |r| <= |params|
  {
    if params == [] then []
    else
      var c := params[|params| - 1];
      WithColumns(params[..|params| - 1], iteratorName)
        + (if NoIterator(iteratorName) || c != iteratorName.value then [c] else [])
  }

  /** The columns keep the parameters' order; without an iterator they are all the parameters. */
  lemma {:induction false} WithColumnsInOrder(params: seq<JString>, iteratorName: Option<JString>)
    ensures Subsequence(WithColumns(params, iteratorName), params)
    ensures NoIterator(iteratorName) ==> WithColumns(params, iteratorName) == params
  {
    if params != [] {
      var p, c := params[..|params| - 1], params[|params| - 1];
      WithColumnsInOrder(p, iteratorName);
      var w := WithColumns(p, iteratorName);
      SubsequenceSnoc(w, p, c);
      assert p + [c] == params;
      if NoIterator(iteratorName) || c != iteratorName.value {
        assert WithColumns(params, iteratorName) == w + [c];
      } else {
        assert WithColumns(params, iteratorName) == w;
      }
    }
  }

  /** `param(c) + " AS " + quote(c)` for each column. */
  function ColumnMappings(columns: seq<JString>, h: Helpers): (r: seq<JString>)
    ensures |r| == |columns|
  {
    seq(|columns|, i requires 0 <= i < |columns| => h.param(columns[i]) + Lit(" AS ") + h.quote(columns[i]))
  }

  /** `" UNWIND " + param(iterator) + " AS " + quote(iterator)`. */
  function Unwind(iteratorName: JString, h: Helpers): JString
  {
    Lit(" UNWIND ") + h.param(iteratorName) + Lit(" AS ") + h.quote(iteratorName)
  }

  /**
   * `withParamsAndIterator(fragment, params, iterator)`: the fragment unchanged
   * without parameters and iterator; otherwise the `WITH` of the other
   * parameters, then (with an iterator) its `UNWIND`, directly before the fragment.
   */
  function WithParamsAndIterator(fragment: JString, params: seq<JString>, iteratorName: Option<JString>, h: Helpers): (r: JString)
    ensures params == [] && NoIterator(iteratorName) ==> r == fragment
    ensures |fragment| <= |r| && r[|r| - |fragment|..] == fragment
    ensures !NoIterator(iteratorName) ==>
      var u := Unwind(iteratorName.value, h) + fragment;
      |u| <= |r| && r[|r| - |u|..] == u
    ensures !(params == [] && NoIterator(iteratorName)) ==>
      var w := h.withMapping(ColumnMappings(WithColumns(params, iteratorName), h));
      |w| <= |r| && r[..|w|] == w
    ensures !(params == [] && NoIterator(iteratorName)) ==>
      var w := h.withMapping(ColumnMappings(WithColumns(params, iteratorName), h));
      |r| == |w| + (if NoIterator(iteratorName) then 0 else |Unwind(iteratorName.value, h)|) + |fragment|
  {
    if params == [] && NoIterator(iteratorName) then fragment
    else
      var w := h.withMapping(ColumnMappings(WithColumns(params, iteratorName), h));
      if NoIterator(iteratorName) then
        assert (w + fragment)[..|w|] == w;
        w + fragment
      else
        var u := Unwind(iteratorName.value, h) + fragment;
        assert w + Unwind(iteratorName.value, h) + fragment == w + u;
        assert (w + u)[..|w|] == w;
        w + u
  }

  // ---------------------------------------------------------------------------
  // parallelParams

  /**
   * `parallelParams(params, key, partition)`: `{key: partition}` for empty
   * parameters, otherwise a copy of the parameters with `key` bound to the
   * partition. The caller's map is a value here and so is never changed.
   */
  function ParallelParams(params: seq<Entry>, key: JString, partition: seq<Value>): (r: seq<Entry>)
    ensures params == [] ==> r == [Entry(key, ListV(partition))]
    ensures Get(r, key) == Some(ListV(partition))
    ensures forall k :: k != key ==> Get(r, k) == Get(params, k)
    ensures Keys(r) == if key in Keys(params) then Keys(params) else Keys(params) + [key]
  {
    if params == [] then [Entry(key, ListV(partition))] else Put(params, key, ListV(partition))
  }

  /** Every parameter map of a batch has distinct keys when the parameters have. */
  lemma ParallelParamsDistinct(params: seq<Entry>, key: JString, partition: seq<Value>)
    requires DistinctKeys(params)
    ensures DistinctKeys(ParallelParams(params, key, partition))
  {
    if params != [] {
      PutDistinct(params, key, ListV(partition));
    }
  }

  // ---------------------------------------------------------------------------
  // when and case

  /**
   * What `when` and `case` do: return one empty-map row, or run a statement
   * with the parameters; `ExecuteNull` hands the engine a `null` statement.
   */
  datatype Outcome = EmptyRow | Execute(statement: JString, params: seq<Entry>) | ExecuteNull(params: seq<Entry>)

  /** A `null` parameter map stands for the empty map. */
  function ParamsOrEmpty(params: Option<seq<Entry>>): seq<Entry>
  {
    if params.Some? then params.value else []
  }

  /** Running `query`, or the single empty row when `query` is empty. */
  function RunOrEmptyRow(query: JString, params: seq<Entry>): (r: Outcome)
    ensures r.EmptyRow? <==> query == []
    ensures r.Execute? ==> r.statement == WithParamMapping(query, Keys(params)) && r.params == params
  {
    if query == [] then EmptyRow else Execute(WithParamMapping(query, Keys(params)), params)
  }

  /** `apoc.when(condition, ifQuery, elseQuery, params)`. */
  function When(condition: bool, ifQuery: JString, elseQuery: JString, params: Option<seq<Entry>>): (r: Outcome)
    ensures var q := if condition then ifQuery else elseQuery;
      && (r.EmptyRow? <==> q == [])
      && (r.Execute? ==> r == Execute(WithParamMapping(q, Keys(ParamsOrEmpty(params))), ParamsOrEmpty(params)))
  {
    var ps := ParamsOrEmpty(params);
    if condition then RunOrEmptyRow(ifQuery, ps) else RunOrEmptyRow(elseQuery, ps)
  }

  const OddConditionals: JString := Lit("Conditionals must be an even-sized collection of boolean, query entries")

  /**
   * The loop of `apoc.case` over the remaining pairs: the first true condition
   * runs its query; when none is true the else query runs, or the single empty
   * row is returned for an empty else query. An empty chosen query still runs.
   * Unboxing a `null` condition throws `NullPointerException`; a condition that
   * is not a boolean, or a query that is not a string, throws `ClassCastException`.
   * A `null` query casts to a `null` string without error.
   */
  function Cases(cs: seq<Value>, elseQuery: JString, params: seq<Entry>): (r: Result<Outcome>)
    requires |cs| % 2 == 0
    ensures r.Err? ==> r.error == NullPointer || r.error == ClassCast
    ensures r.Ok? && !r.value.EmptyRow? ==> r.value.params == params
    ensures r.Ok? && r.value.EmptyRow? ==> elseQuery == []
  {
    if cs == [] then Ok(RunOrEmptyRow(elseQuery, params))
    else if cs[0].Null? then Err(NullPointer)
    else if !cs[0].Bool? then Err(ClassCast)
    else if !cs[1].Str? && !cs[1].Null? then Err(ClassCast)
    else if cs[0].b then
      if cs[1].Null? then Ok(NullQuery(params)) else Ok(Execute(WithParamMapping(cs[1].s, Keys(params)), params))
    else Cases(cs[2..], elseQuery, params)
  }

  /**
   * `db.execute(withParamMapping(null, keys), params)`: without keys the engine
   * receives `null`; otherwise string concatenation appends the text "null" to
   * the `WITH` declaration.
   */
  function NullQuery(params: seq<Entry>): (r: Outcome)
    ensures params == [] <==> r.ExecuteNull?
    ensures !r.EmptyRow? && r.params == params
    ensures r.Execute? ==> r.statement == WithParamMapping(Lit("null"), Keys(params))
  {
    if Keys(params) == [] then ExecuteNull(params) else Execute(WithParamMapping(Lit("null"), Keys(params)), params)
  }

  /** `apoc.case(conditionals, elseQuery, params)`. */
  function WhenCase(conditionals: seq<Value>, elseQuery: JString, params: Option<seq<Entry>>): (r: Result<Outcome>)
    ensures |conditionals| % 2 != 0 ==> r == Err(IllegalArgument(OddConditionals))
  {
    if |conditionals| % 2 != 0 then Err(IllegalArgument(OddConditionals))
    else Cases(conditionals, elseQuery, ParamsOrEmpty(params))
  }

  /** Pair `j` of the conditionals is a well-typed false condition. */
  predicate FalsePair(cs: seq<Value>, j: nat)
    requires 2 * j + 1 < |cs|
  {
    cs[2 * j] == Bool(false) && (cs[2 * j + 1].Str? || cs[2 * j + 1].Null?)
  }

  /** The false pairs after the first one are the false pairs of the rest of the list. */
  lemma FalsePairsTail(cs: seq<Value>, n: nat)
    requires 1 <= n && 2 * n <= |cs|
    requires forall j :: 0 <= j < n ==> FalsePair(cs, j)
    ensures forall j :: 0 <= j < n - 1 ==> FalsePair(cs[2..], j)
  {
    var t := cs[2..];
    forall j | 0 <= j < n - 1 ensures FalsePair(t, j) {
      assert FalsePair(cs, j + 1);
      assert t[2 * j] == cs[2 * j + 2] && t[2 * j + 1] == cs[2 * j + 3];
    }
  }

  /** The query of the first true condition runs, whatever follows it. */
  lemma {:induction false} CasesFirstTrue(cs: seq<Value>, elseQuery: JString, params: seq<Entry>, i: nat)
    requires |cs| % 2 == 0 && 2 * i + 1 < |cs|
    requires forall j :: 0 <= j < i ==> FalsePair(cs, j)
    requires cs[2 * i] == Bool(true) && cs[2 * i + 1].Str?
    ensures Cases(cs, elseQuery, params) == Ok(Execute(WithParamMapping(cs[2 * i + 1].s, Keys(params)), params))
  {
    if i > 0 {
      assert FalsePair(cs, 0);
      var t := cs[2..];
      assert |t| % 2 == 0 && 2 * (i - 1) + 1 < |t|;
      FalsePairsTail(cs, i);
      assert t[2 * (i - 1)] == cs[2 * i] && t[2 * (i - 1) + 1] == cs[2 * i + 1];
      CasesFirstTrue(t, elseQuery, params, i - 1);
      CasesSkip(cs, elseQuery, params);
    }
  }

  /** A false first pair is skipped. */
  lemma CasesSkip(cs: seq<Value>, elseQuery: JString, params: seq<Entry>)
    requires |cs| % 2 == 0 && 2 <= |cs| && FalsePair(cs, 0)
    ensures Cases(cs, elseQuery, params) == Cases(cs[2..], elseQuery, params)
  {
  }

  /** With every condition false the else query decides, exactly as `when` does for a false condition. */
  lemma {:induction false} CasesNoneTrue(cs: seq<Value>, elseQuery: JString, params: seq<Entry>)
    requires |cs| % 2 == 0
    requires forall j :: 0 <= j < |cs| / 2 ==> FalsePair(cs, j)
    ensures Cases(cs, elseQuery, params) == Ok(When(false, [], elseQuery, Some(params)))
  {
    if cs != [] {
      assert FalsePair(cs, 0);
      var t := cs[2..];
      assert |t| % 2 == 0 && |t| / 2 == |cs| / 2 - 1;
      FalsePairsTail(cs, |cs| / 2);
      CasesNoneTrue(t, elseQuery, params);
      CasesSkip(cs, elseQuery, params);
    }
  }

  /** A true condition with a `null` query runs a statement that ends with the text "null". */
  lemma CaseOfNullQuery(elseQuery: JString, params: seq<Entry>)
    requires params != []
    ensures var r := WhenCase([Bool(true), Null], elseQuery, Some(params));
      && r.Ok? && r.value.Execute? && r.value.params == params
      && |r.value.statement| > |WithKeyword| + 4
      && r.value.statement[..|WithKeyword|] == WithKeyword
      && r.value.statement[|r.value.statement| - 4..] == Lit("null")
  {
    var cs := [Bool(true), Null];
    assert cs[0] == Bool(true) && cs[1] == Null;
    assert Keys(params) != [] by {
      assert |Keys(params)| == |params|;
    }
  }

  /**
   * A single pair behaves as `when`, except that `case` runs an empty chosen
   * query where `when` returns the empty row.
   */
  lemma CaseOfOnePair(condition: bool, query: JString, elseQuery: JString, params: Option<seq<Entry>>)
    ensures condition && query == [] ==>
      WhenCase([Bool(condition), Str(query)], elseQuery, params) ==
        Ok(Execute(WithParamMapping([], Keys(ParamsOrEmpty(params))), ParamsOrEmpty(params)))
    ensures !(condition && query == []) ==>
      WhenCase([Bool(condition), Str(query)], elseQuery, params) == Ok(When(condition, query, elseQuery, params))
  {
    var cs := [Bool(condition), Str(query)];
    var ps := ParamsOrEmpty(params);
    assert cs[0] == Bool(condition) && cs[1] == Str(query);
    assert cs[2..] == [];
    if !condition {
      assert Cases(cs, elseQuery, ps) == Cases([], elseQuery, ps);
    }
  }
}
