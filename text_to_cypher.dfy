/**
 * `apoc.text.toCypher(value, config)` on non-graph values: a recursive
 * serialiser of null, numbers, booleans, strings, lists and maps into Cypher
 * literal text, with the `keepValues`, `skipValues`, `keepKeys` and `skipKeys`
 * filters. `Util.quote`, which back-quotes a map key when it needs it, is given
 * as the parameter `quote`.
 */
module TextToCypher {
  import opened Lang
  import opened Values

  /** The options of `toCypher` that apply to non-graph values; `None` is an absent option. */
  datatype Config = Config(
    keepValues: Option<seq<Value>>,
    skipValues: Option<seq<Value>>,
    keepKeys: Option<seq<JString>>,
    skipKeys: Option<seq<JString>>)

  /** The default configuration `{}`. */
  const NoConfig: Config := Config(None, None, None, None)

  const QUOTE: Char16 := '\'' as int

  /** `v.getClass().isInstance(value)` for a non-null `v`: both values have the same Java class. */
  predicate SameClass(v: Value, value: Value)
  {
    || (v.Int? && value.Int?)
    || (v.Bool? && value.Bool?)
    || (v.Str? && value.Str?)
    || (v.ListV? && value.ListV?)
    || (v.MapV? && value.MapV?)
  }

  /** Whether the keep value `v` is compared with `value` at all. */
  predicate Compared(v: Value, value: Value)
  {
    SameClass(v, value) || (IsPrimitive(value) && IsPrimitive(v))
  }

  /**
   * The negated `noneMatch` over `keepValues`, evaluated in list order and stopping
   * at the first keep value that rejects: `value` is rejected when some keep value
   * is compared with it and differs from it. A `null` keep value, or a `null`
   * `value` that is compared, throws `NullPointerException`.
   */
  function KeepRejects(value: Value, keep: seq<Value>): (r: Result<bool>)
    ensures keep == [] ==> r == Ok(false)
    ensures r.Err? ==> r.error == NullPointer && (Null in keep || value.Null?)
    ensures r == Ok(true) ==> !value.Null? && exists i :: 0 <= i < |keep| && Compared(keep[i], value) && keep[i] != value
  {
    if keep == [] then Ok(false)
    else if keep[0].Null? then Err(NullPointer)
    else if Compared(keep[0], value) then
      if value.Null? then Err(NullPointer)
      else if value != keep[0] then Ok(true)
      else KeepRejects(value, keep[1..])
    else KeepRejects(value, keep[1..])
  }

  /** For a non-null value and non-null keep values, rejection is "some compared keep value differs". */
  lemma {:induction false} KeepRejectsSpec(value: Value, keep: seq<Value>)
    requires !value.Null? && Null !in keep
    ensures KeepRejects(value, keep) ==
      Ok(exists i :: 0 <= i < |keep| && Compared(keep[i], value) && keep[i] != value)
  {
    if keep != [] {
      KeepRejectsSpec(value, keep[1..]);
      if !(Compared(keep[0], value) && keep[0] != value) {
        assert (exists i :: 0 <= i < |keep| && Compared(keep[i], value) && keep[i] != value) <==>
               (exists i :: 0 <= i < |keep[1..]| && Compared(keep[1..][i], value) && keep[1..][i] != value) by {
          forall i | 0 < i < |keep| ensures keep[i] == keep[1..][i - 1] { }
        }
      }
    }
  }

  /** A `null` value meets a primitive keep value only by throwing. */
  lemma {:induction false} KeepRejectsNull(keep: seq<Value>)
    requires Null !in keep
    ensures KeepRejects(Null, keep) ==
      if exists i :: 0 <= i < |keep| && IsPrimitive(keep[i]) then Err(NullPointer) else Ok(false)
  {
    if keep != [] {
      KeepRejectsNull(keep[1..]);
      if !IsPrimitive(keep[0]) {
        assert (exists i :: 0 <= i < |keep| && IsPrimitive(keep[i])) <==>
               (exists i :: 0 <= i < |keep[1..]| && IsPrimitive(keep[1..][i])) by {
          forall i | 0 < i < |keep| ensures keep[i] == keep[1..][i - 1] { }
        }
      }
    }
  }

  /** A key survives `keepKeys` (`retainAll`) and `skipKeys` (`removeAll`). */
  predicate KeyKept(config: Config, k: JString): (r: bool)
    ensures config.keepKeys.None? && config.skipKeys.None? ==> r
    ensures config.skipKeys.Some? && k in config.skipKeys.value ==> !r
    ensures config.keepKeys.Some? && k !in config.keepKeys.value ==> !r
  {
    (config.keepKeys.None? || k in config.keepKeys.value) && (config.skipKeys.None? || k !in config.skipKeys.value)
  }

  /** A map entry whose value rendered to non-null text. */
  datatype Field = Field(key: JString, text: JString)

  function FieldKeys(fs: seq<Field>): (r: seq<JString>)
    ensures |r| == |fs|
    ensures forall i :: 0 <= i < |fs| ==> r[i] == fs[i].key
  {
    seq(|fs|, i requires 0 <= i < |fs| => fs[i].key)
  }

  /** The text of the field with key `k`. */
  function FieldText(fs: seq<Field>, k: JString): JString
  {
    if fs == [] then [] else if fs[0].key == k then fs[0].text else FieldText(fs[1..], k)
  }

  /** `toCypher(value, config)`: `Ok(None)` is a `null` result, `Err` an exception. */
  function ToCypher(value: Value, config: Config, quote: JString -> JString): (r: Result<Option<JString>>)
    ensures r.Err? ==> r.error == NullPointer
    ensures r.Ok? && r.value.Some? ==> config.skipValues.None? || value !in config.skipValues.value
    ensures r.Ok? && r.value.Some? && config.keepValues.Some? ==> KeepRejects(value, config.keepValues.value) == Ok(false)
    ensures r.Ok? && r.value.Some? && value.ListV? ==>
      |r.value.value| >= 2 && r.value.value[0] == '[' as int && r.value.value[|r.value.value| - 1] == ']' as int
    ensures r.Ok? && r.value.Some? && value.MapV? ==>
      |r.value.value| >= 2 && r.value.value[0] == '{' as int && r.value.value[|r.value.value| - 1] == '}' as int
  {
    var rejected := if config.keepValues.Some? then KeepRejects(value, config.keepValues.value) else Ok(false);
    if rejected.Err? then Err(rejected.error)
    else if rejected.value then Ok(None)
    else if config.skipValues.Some? && value in config.skipValues.value then Ok(None)
    else match value
      case Null => Ok(Some(Lit("null")))
      case Int(i) => Ok(Some(DecimalString(i)))
      case Bool(b) => Ok(Some(BoolString(b)))
      case Str(s) => Ok(Some([QUOTE] + s + [QUOTE]))
      case ListV(items) =>
        var parts := RenderItems(items, config, quote);
        if parts.Err? then Err(parts.error)
        else Ok(Some(Lit("[") + Join(parts.value, Lit(",")) + Lit("]")))
      case MapV(entries) =>
        var fields := RenderFields(entries, config, quote);
        if fields.Err? then Err(fields.error)
        else Ok(Some(Lit("{") + Join(FieldTexts(fields.value, quote), Lit(",")) + Lit("}")))
  }

  /** The list elements rendered in order, with the `null` renderings dropped. */
  function RenderItems(items: seq<Value>, config: Config, quote: JString -> JString): (r: Result<seq<JString>>)
    ensures r.Err? ==> r.error == NullPointer
    ensures r.Ok? ==> |r.value| <= |items|
  {
    if items == [] then Ok([])
    else
      var h := ToCypher(items[0], config, quote);
      if h.Err? then Err(h.error)
      else
        var t := RenderItems(items[1..], config, quote);
        if t.Err? then Err(t.error)
        else Ok((if h.value.Some? then [h.value.value] else []) + t.value)
  }

  /** The kept entries of a map rendered in map order, with the `null` renderings dropped. */
  function RenderFields(entries: seq<Entry>, config: Config, quote: JString -> JString): (r: Result<seq<Field>>)
    ensures r.Err? ==> r.error == NullPointer
    ensures r.Ok? ==> |r.value| <= |entries|
  {
    if entries == [] then Ok([])
    else
      var t := RenderFields(entries[1..], config, quote);
      if !KeyKept(config, entries[0].key) then t
      else
        var h := ToCypher(entries[0].value, config, quote);
        if h.Err? then Err(h.error)
        else if t.Err? then Err(t.error)
        else Ok((if h.value.Some? then [Field(entries[0].key, h.value.value)] else []) + t.value)
  }

  /** The fields sorted by key (`String.compareTo`), each as `quote(key) + ":" + text`. */
  function FieldTexts(fs: seq<Field>, quote: JString -> JString): (r: seq<JString>)
    ensures |r| == |fs|
  {
    var ks := SortStrings(FieldKeys(fs), false);
    seq(|ks|, i requires 0 <= i < |ks| => quote(ks[i]) + Lit(":") + FieldText(fs, ks[i]))
  }

  /** Each text is the quoted key of one of the fields, a colon and that field's text. */
  lemma FieldTextsOfFields(fs: seq<Field>, quote: JString -> JString)
    ensures var r := FieldTexts(fs, quote);
      forall i :: 0 <= i < |r| ==>
        exists j :: 0 <= j < |fs| && r[i] == quote(fs[j].key) + Lit(":") + FieldText(fs, fs[j].key)
  {
    var ks := SortStrings(FieldKeys(fs), false);
    var r := FieldTexts(fs, quote);
    forall i | 0 <= i < |r|
      ensures exists j :: 0 <= j < |fs| && r[i] == quote(fs[j].key) + Lit(":") + FieldText(fs, fs[j].key)
    {
      assert ks[i] in multiset(FieldKeys(fs));
      var j :| 0 <= j < |fs| && FieldKeys(fs)[j] == ks[i];
      assert r[i] == quote(fs[j].key) + Lit(":") + FieldText(fs, fs[j].key);
    }
  }

  // ---------------------------------------------------------------------------
  // Properties

  /** Without options every value renders, and a list renders every element in order. */
  lemma {:induction false} RendersWithoutConfig(v: Value, quote: JString -> JString)
    ensures ToCypher(v, NoConfig, quote).Ok? && ToCypher(v, NoConfig, quote).value.Some?
    decreases v, 1
  {
    match v
    case ListV(items) => ItemsWithoutConfig(items, quote);
    case MapV(entries) => FieldsWithoutConfig(entries, quote);
    case _ =>
  }

  lemma {:induction false} ItemsWithoutConfig(items: seq<Value>, quote: JString -> JString)
    ensures RenderItems(items, NoConfig, quote).Ok?
    ensures |RenderItems(items, NoConfig, quote).value| == |items|
    ensures forall i :: 0 <= i < |items| ==>
      ToCypher(items[i], NoConfig, quote).Ok? && ToCypher(items[i], NoConfig, quote).value.Some? &&
      RenderItems(items, NoConfig, quote).value[i] == ToCypher(items[i], NoConfig, quote).value.value
    decreases items, 0
  {
    if items != [] {
      RendersWithoutConfig(items[0], quote);
      ItemsWithoutConfig(items[1..], quote);
      forall i | 0 < i < |items| ensures items[i] == items[1..][i - 1] { }
    }
  }

  lemma {:induction false} FieldsWithoutConfig(entries: seq<Entry>, quote: JString -> JString)
    ensures RenderFields(entries, NoConfig, quote).Ok?
    ensures FieldKeys(RenderFields(entries, NoConfig, quote).value) == Keys(entries)
    decreases entries, 0
  {
    if entries != [] {
      RendersWithoutConfig(entries[0].value, quote);
      FieldsWithoutConfig(entries[1..], quote);
      KeysSplit(entries);
    }
  }

  /** `value` converts to non-null text under `config`. */
  predicate Renders(value: Value, config: Config, quote: JString -> JString)
  {
    ToCypher(value, config, quote).Ok? && ToCypher(value, config, quote).value.Some?
  }

  /**
   * The fields of a map are exactly its entries whose key is kept and whose value
   * renders, once each, with the rendering of the value under that key.
   */
  lemma {:induction false} FieldsSelected(entries: seq<Entry>, config: Config, quote: JString -> JString)
    requires DistinctKeys(entries)
    requires RenderFields(entries, config, quote).Ok?
    ensures var fs := RenderFields(entries, config, quote).value;
      && (forall i, j :: 0 <= i < j < |fs| ==> fs[i].key != fs[j].key)
      && (forall k :: k in FieldKeys(fs) <==>
            k in Keys(entries) && KeyKept(config, k) && Renders(Get(entries, k).value, config, quote))
      && (forall k :: k in FieldKeys(fs) ==>
            FieldText(fs, k) == ToCypher(Get(entries, k).value, config, quote).value.value)
  {
    if entries != [] {
      var e, rest := entries[0], entries[1..];
      assert Keys(entries) == [e.key] + Keys(rest);
      assert DistinctKeys(rest);
      assert e.key !in Keys(rest) by {
        forall j | 0 <= j < |rest| ensures rest[j].key != e.key {
          assert entries[j + 1] == rest[j];
        }
      }
      var fs := RenderFields(entries, config, quote).value;
      assert RenderFields(rest, config, quote).Ok?;
      FieldsSelected(rest, config, quote);
      var ft := RenderFields(rest, config, quote).value;
      if KeyKept(config, e.key) && Renders(e.value, config, quote) {
        var f := Field(e.key, ToCypher(e.value, config, quote).value.value);
        assert fs == [f] + ft;
        assert FieldKeys(fs) == [e.key] + FieldKeys(ft);
        FieldKeysCons(f, ft);
      } else {
        assert fs == ft;
      }
    }
  }

  /** A field in front of fields with other keys keeps the keys distinct. */
  lemma FieldKeysCons(f: Field, ft: seq<Field>)
    requires forall i, j :: 0 <= i < j < |ft| ==> ft[i].key != ft[j].key
    requires f.key !in FieldKeys(ft)
    ensures var fs := [f] + ft; forall i, j :: 0 <= i < j < |fs| ==> fs[i].key != fs[j].key
  {
    var fs := [f] + ft;
    forall i, j | 0 <= i < j < |fs| ensures fs[i].key != fs[j].key {
      if i == 0 {
        assert fs[j] == ft[j - 1];
        assert ft[j - 1].key in FieldKeys(ft);
      } else {
        assert fs[i] == ft[i - 1] && fs[j] == ft[j - 1];
      }
    }
  }

  /**
   * The fields of a map rendering: their keys, sorted, are a permutation of the
   * selected entries' keys, and each text is `quote(key) + ":" + text`.
   */
  lemma MapRendering(entries: seq<Entry>, config: Config, quote: JString -> JString)
    requires DistinctKeys(entries)
    requires RenderFields(entries, config, quote).Ok?
    ensures var fs := RenderFields(entries, config, quote).value;
      var ks := SortStrings(FieldKeys(fs), false);
      var ts := FieldTexts(fs, quote);
      && Sorted(ks, false)
      && multiset(ks) == multiset(FieldKeys(fs))
      && (forall k :: k in ks <==>
            k in Keys(entries) && KeyKept(config, k) && Renders(Get(entries, k).value, config, quote))
      && |ts| == |ks|
      && (forall i :: 0 <= i < |ks| ==>
            ts[i] == quote(ks[i]) + Lit(":") + ToCypher(Get(entries, ks[i]).value, config, quote).value.value)
  {
    FieldsSelected(entries, config, quote);
    var fs := RenderFields(entries, config, quote).value;
    var ks := SortStrings(FieldKeys(fs), false);
    forall k ensures k in ks <==> k in FieldKeys(fs) {
      assert k in ks <==> k in multiset(ks);
      assert k in FieldKeys(fs) <==> k in multiset(FieldKeys(fs));
    }
  }

  /** Neither `keepValues` nor `skipValues` turns the value into `null` before it is rendered. */
  predicate Admitted(value: Value, config: Config)
  {
    (config.keepValues.None? || KeepRejects(value, config.keepValues.value) == Ok(false))
    && (config.skipValues.None? || value !in config.skipValues.value)
  }

  /**
   * A map renders exactly when it is admitted and none of its kept entries
   * throws; its text is then `{`, the field texts sorted by key and joined by
   * commas, and `}`, each field text `quote(key) + ":" + rendering` of an entry
   * that is kept and renders non-`null`.
   */
  lemma MapText(entries: seq<Entry>, config: Config, quote: JString -> JString)
    requires DistinctKeys(entries)
    ensures ToCypher(MapV(entries), config, quote).Ok? && ToCypher(MapV(entries), config, quote).value.Some? <==>
      Admitted(MapV(entries), config) && RenderFields(entries, config, quote).Ok?
    ensures Admitted(MapV(entries), config) && RenderFields(entries, config, quote).Ok? ==>
      var fs := RenderFields(entries, config, quote).value;
      var ks := SortStrings(FieldKeys(fs), false);
      var ts := FieldTexts(fs, quote);
      && ToCypher(MapV(entries), config, quote) == Ok(Some(Lit("{") + Join(ts, Lit(",")) + Lit("}")))
      && Sorted(ks, false)
      && (forall k :: k in ks <==>
            k in Keys(entries) && KeyKept(config, k) && Renders(Get(entries, k).value, config, quote))
      && |ts| == |ks|
      && (forall i :: 0 <= i < |ks| ==>
            ts[i] == quote(ks[i]) + Lit(":") + ToCypher(Get(entries, ks[i]).value, config, quote).value.value)
  {
    if RenderFields(entries, config, quote).Ok? {
      MapRendering(entries, config, quote);
    }
  }

  /**
   * A list renders exactly when it is admitted and none of its elements throws;
   * its text is then `[`, the non-`null` renderings of its elements in list
   * order joined by commas, and `]`.
   */
  lemma ListText(items: seq<Value>, config: Config, quote: JString -> JString)
    ensures ToCypher(ListV(items), config, quote).Ok? && ToCypher(ListV(items), config, quote).value.Some? <==>
      Admitted(ListV(items), config) && RenderItems(items, config, quote).Ok?
    ensures Admitted(ListV(items), config) && RenderItems(items, config, quote).Ok? ==>
      && (forall i :: 0 <= i < |items| ==> ToCypher(items[i], config, quote).Ok?)
      && ToCypher(ListV(items), config, quote) ==
         Ok(Some(Lit("[") + Join(Present(seq(|items|, i requires 0 <= i < |items| && ToCypher(items[i], config, quote).Ok? =>
                                                         ToCypher(items[i], config, quote).value)), Lit(",")) + Lit("]")))
  {
    if RenderItems(items, config, quote).Ok? {
      ItemsSelected(items, config, quote);
    }
  }

  /** The texts of the renderings that are not `null`, in order. */
  function Present(rs: seq<Option<JString>>): seq<JString>
  {
    if rs == [] then [] else (if rs[0].Some? then [rs[0].value] else []) + Present(rs[1..])
  }

  /**
   * A list renders its elements in order with the `null` renderings dropped:
   * when no element throws, the parts are `Present` of the element renderings.
   */
  lemma {:induction false} ItemsSelected(items: seq<Value>, config: Config, quote: JString -> JString)
    requires RenderItems(items, config, quote).Ok?
    ensures forall i :: 0 <= i < |items| ==> ToCypher(items[i], config, quote).Ok?
    ensures RenderItems(items, config, quote).value ==
      Present(seq(|items|, i requires 0 <= i < |items| && ToCypher(items[i], config, quote).Ok? =>
                            ToCypher(items[i], config, quote).value))
  {
    if items != [] {
      ItemsSelected(items[1..], config, quote);
      forall i | 0 < i < |items| ensures items[i] == items[1..][i - 1] { }
      var rs := seq(|items|, i requires 0 <= i < |items| && ToCypher(items[i], config, quote).Ok? =>
                              ToCypher(items[i], config, quote).value);
      var ts := seq(|items| - 1, i requires 0 <= i < |items| - 1 && ToCypher(items[1..][i], config, quote).Ok? =>
                              ToCypher(items[1..][i], config, quote).value);
      assert rs[1..] == ts;
    }
  }

  /** A value listed in `skipValues` that `keepValues` does not reject renders as `null`. */
  lemma SkippedValue(value: Value, config: Config, quote: JString -> JString)
    requires config.keepValues.None? || KeepRejects(value, config.keepValues.value) == Ok(false)
    requires config.skipValues.Some? && value in config.skipValues.value
    ensures ToCypher(value, config, quote) == Ok(None)
  {
  }

  /** Primitive values: `null`, `Long.toString`, `Boolean.toString` and single quotes. */
  lemma PrimitiveExamples(quote: JString -> JString)
    ensures ToCypher(Null, NoConfig, quote) == Ok(Some(Lit("null")))
    ensures ToCypher(Int(41), NoConfig, quote) == Ok(Some(Lit("41")))
    ensures ToCypher(Bool(true), NoConfig, quote) == Ok(Some(Lit("true")))
    ensures ToCypher(Str(Lit("bar")), NoConfig, quote) == Ok(Some(Lit("'bar'")))
  {
    assert DecimalString(41) == Lit("41");
    assert [QUOTE] + Lit("bar") + [QUOTE] == Lit("'bar'");
  }

  lemma ListExampleText()
    ensures Lit("[41,'bar',false,null]") ==
      Lit("[") + (Lit("41") + Lit(",") + (Lit("'bar'") + Lit(",") + (Lit("false") + Lit(",") + Lit("null")))) + Lit("]")
  {
    var f := "false" + "," + "null";
    LitConcat("false", ",");
    LitConcat("false" + ",", "null");
    assert Lit(f) == Lit("false") + Lit(",") + Lit("null");
    var b := "'bar'" + "," + f;
    LitConcat("'bar'", ",");
    LitConcat("'bar'" + ",", f);
    assert Lit(b) == Lit("'bar'") + Lit(",") + Lit(f);
    var n := "41" + "," + b;
    LitConcat("41", ",");
    LitConcat("41" + ",", b);
    assert Lit(n) == Lit("41") + Lit(",") + Lit(b);
    LitConcat("[", n);
    LitConcat("[" + n, "]");
    assert Lit("[" + n + "]") == Lit("[") + Lit(n) + Lit("]");
    assert "[" + n + "]" == "[41,'bar',false,null]";
  }

  /** `[41,'bar',false,null]` renders element by element, joined by commas. */
  lemma ListExample(items: seq<Value>, quote: JString -> JString)
    requires items == [Int(41), Str(Lit("bar")), Bool(false), Null]
    ensures ToCypher(ListV(items), NoConfig, quote) == Ok(Some(Lit("[41,'bar',false,null]")))
  {
    ItemsWithoutConfig(items, quote);
    PrimitiveExamples(quote);
    var parts := RenderItems(items, NoConfig, quote).value;
    var d := Lit(",");
    assert parts == [Lit("41"), Lit("'bar'"), Lit("false"), Lit("null")];
    assert parts[1..][1..] == [Lit("false"), Lit("null")];
    assert Join(parts[1..][1..], d) == Lit("false") + d + Lit("null");
    assert Join(parts, d) == Lit("41") + d + (Lit("'bar'") + d + (Lit("false") + d + Lit("null")));
    ListExampleText();
    assert Lit("[") + Join(parts, d) + Lit("]") == Lit("[41,'bar',false,null]");
    assert ToCypher(ListV(items), NoConfig, quote) == Ok(Some(Lit("[") + Join(parts, d) + Lit("]")));
  }

  /**
   * A string is quoted without escaping, so a string holding `','` renders like
   * two strings.
   */
  lemma QuoteIsNotEscaped(x: JString, y: JString, quote: JString -> JString)
    requires x == Lit("a','b") && y == Lit("a")
    ensures ToCypher(ListV([Str(x)]), NoConfig, quote) == ToCypher(ListV([Str(y), Str(Lit("b"))]), NoConfig, quote)
  {
    ItemsWithoutConfig([Str(x)], quote);
    ItemsWithoutConfig([Str(y), Str(Lit("b"))], quote);
    var d := Lit(",");
    var b := Lit("b");
    assert Join([[QUOTE] + x + [QUOTE]], d) == [QUOTE] + x + [QUOTE];
    assert [[QUOTE] + y + [QUOTE], [QUOTE] + b + [QUOTE]][1..] == [[QUOTE] + b + [QUOTE]];
    assert Join([[QUOTE] + y + [QUOTE], [QUOTE] + b + [QUOTE]], d) == ([QUOTE] + y + [QUOTE]) + d + ([QUOTE] + b + [QUOTE]);
    assert [QUOTE] + x + [QUOTE] == ([QUOTE] + y + [QUOTE]) + d + ([QUOTE] + b + [QUOTE]);
    assert RenderItems([Str(x)], NoConfig, quote).value == [[QUOTE] + x + [QUOTE]];
    assert RenderItems([Str(y), Str(b)], NoConfig, quote).value == [[QUOTE] + y + [QUOTE], [QUOTE] + b + [QUOTE]];
  }

  lemma SortExample(b: JString, a: JString)
    requires b == Lit("bar") && a == Lit("answer")
    ensures SortStrings([b, a], false) == [a, b]
  {
    assert !LexLeq(b, a, false);
    assert [b, a][..1] == [b];
    assert SortStrings([b], false) == [b];
  }

  /** `{bar:'bar', answer:41}` renders with its keys sorted. */
  lemma MapExample(entries: seq<Entry>, quote: JString -> JString)
    requires entries == [Entry(Lit("bar"), Str(Lit("bar"))), Entry(Lit("answer"), Int(41))]
    requires quote(Lit("answer")) == Lit("answer") && quote(Lit("bar")) == Lit("bar")
    ensures ToCypher(MapV(entries), NoConfig, quote) ==
      Ok(Some(Lit("{") + Lit("answer:41") + Lit(",") + Lit("bar:'bar'") + Lit("}")))
  {
    var a, b := Lit("answer"), Lit("bar");
    PrimitiveExamples(quote);
    var fa, fb := Field(a, Lit("41")), Field(b, Lit("'bar'"));
    var one := entries[1..];
    assert one == [entries[1]] && one[1..] == [];
    assert RenderFields(one[1..], NoConfig, quote) == Ok([]);
    assert [fa] + [] == [fa];
    assert RenderFields(one, NoConfig, quote) == Ok([fa]);
    assert [fb] + [fa] == [fb, fa];
    assert RenderFields(entries, NoConfig, quote) == Ok([fb, fa]);
    MapExampleFields([fb, fa], quote);
    var ts := [Lit("answer:41"), Lit("bar:'bar'")];
    assert ts[1..] == [Lit("bar:'bar'")];
    assert Join(ts, Lit(",")) == Lit("answer:41") + Lit(",") + Lit("bar:'bar'");
    assert ToCypher(MapV(entries), NoConfig, quote) == Ok(Some(Lit("{") + Join(ts, Lit(",")) + Lit("}")));
    assert Lit("{") + Join(ts, Lit(",")) + Lit("}") == Lit("{") + Lit("answer:41") + Lit(",") + Lit("bar:'bar'") + Lit("}");
  }

  lemma MapExampleFields(fs: seq<Field>, quote: JString -> JString)
    requires fs == [Field(Lit("bar"), Lit("'bar'")), Field(Lit("answer"), Lit("41"))]
    requires quote(Lit("answer")) == Lit("answer") && quote(Lit("bar")) == Lit("bar")
    ensures FieldTexts(fs, quote) == [Lit("answer:41"), Lit("bar:'bar'")]
  {
    var a, b := Lit("answer"), Lit("bar");
    assert FieldKeys(fs) == [b, a];
    SortExample(b, a);
    FieldTextsOfTwo(fs, quote, a, b);
    ExampleFieldText(fs);
    FieldLiterals();
  }

  /** With two keys sorted as `x`, `y`, the texts are those of `x` and of `y`. */
  lemma FieldTextsOfTwo(fs: seq<Field>, quote: JString -> JString, x: JString, y: JString)
    requires SortStrings(FieldKeys(fs), false) == [x, y]
    ensures FieldTexts(fs, quote) == [quote(x) + Lit(":") + FieldText(fs, x), quote(y) + Lit(":") + FieldText(fs, y)]
  {
    var ts := FieldTexts(fs, quote);
    assert |ts| == 2;
    assert ts[0] == quote(x) + Lit(":") + FieldText(fs, x);
    assert ts[1] == quote(y) + Lit(":") + FieldText(fs, y);
  }

  /** Each key of the example finds its own field's text. */
  lemma ExampleFieldText(fs: seq<Field>)
    requires fs == [Field(Lit("bar"), Lit("'bar'")), Field(Lit("answer"), Lit("41"))]
    ensures FieldText(fs, Lit("answer")) == Lit("41")
    ensures FieldText(fs, Lit("bar")) == Lit("'bar'")
  {
    assert fs[0].key != Lit("answer");
    assert fs[1..] == [Field(Lit("answer"), Lit("41"))];
  }

  /** The two field texts of the example, spelled out. */
  lemma FieldLiterals()
    ensures Lit("answer") + Lit(":") + Lit("41") == Lit("answer:41")
    ensures Lit("bar") + Lit(":") + Lit("'bar'") == Lit("bar:'bar'")
  {
    LitConcat("answer", ":");
    LitConcat("answer:", "41");
    LitConcat("bar", ":");
    LitConcat("bar:", "'bar'");
  }

  /**
   * `keepValues: [42]` on `{foo:'foo', answer:42}`: the string is a primitive that
   * differs from 42, so it renders as `null` and its entry is dropped.
   */
  lemma KeepValuesExample(entries: seq<Entry>, quote: JString -> JString)
    requires entries == [Entry(Lit("foo"), Str(Lit("foo"))), Entry(Lit("answer"), Int(42))]
    requires quote(Lit("answer")) == Lit("answer")
    ensures ToCypher(MapV(entries), Config(Some([Int(42)]), None, None, None), quote) ==
      Ok(Some(Lit("{") + Lit("answer:42") + Lit("}")))
  {
    var a := Lit("answer");
    var config := Config(Some([Int(42)]), None, None, None);
    KeepValuesFields(entries, config, quote);
    var fs := [Field(a, Lit("42"))];
    SingleFieldText(fs, quote);
    var t := a + Lit(":") + Lit("42");
    assert t == Lit("answer:42");
    assert KeepRejects(MapV(entries), [Int(42)]) == Ok(false);
    assert Join([t], Lit(",")) == t;
    assert ToCypher(MapV(entries), config, quote) == Ok(Some(Lit("{") + Join(FieldTexts(fs, quote), Lit(",")) + Lit("}")));
  }

  /** Under `keepValues:[42]` only the entry `answer:42` is rendered. */
  lemma KeepValuesFields(entries: seq<Entry>, config: Config, quote: JString -> JString)
    requires entries == [Entry(Lit("foo"), Str(Lit("foo"))), Entry(Lit("answer"), Int(42))]
    requires config == Config(Some([Int(42)]), None, None, None)
    ensures RenderFields(entries, config, quote) == Ok([Field(Lit("answer"), Lit("42"))])
  {
    var a := Lit("answer");
    assert ToCypher(Str(Lit("foo")), config, quote) == Ok(None);
    assert ToCypher(Int(42), config, quote) == Ok(Some(DecimalString(42)));
    assert DecimalString(42) == Lit("42");
    var fa := Field(a, Lit("42"));
    var one := entries[1..];
    assert one == [entries[1]] && one[1..] == [];
    assert RenderFields(one[1..], config, quote) == Ok([]);
    assert [fa] + [] == [fa];
    assert RenderFields(one, config, quote) == Ok([fa]);
    assert [] + [fa] == [fa];
  }

  /** A single field renders as its quoted key, a colon and its text. */
  lemma SingleFieldText(fs: seq<Field>, quote: JString -> JString)
    requires |fs| == 1
    ensures FieldTexts(fs, quote) == [quote(fs[0].key) + Lit(":") + fs[0].text]
  {
    assert FieldKeys(fs) == [fs[0].key];
    assert SortStrings([fs[0].key], false) == [fs[0].key];
  }

}
