/**
 * The batching of `apoc.cypher`: `partitionColl`, which cuts a collection into
 * consecutive partitions, and the sequential skeleton of `parallel2`, which
 * checks its arguments, sizes the batches, submits one statement per batch in
 * input order and concatenates the batches' rows in the same order.
 */
module CypherBatches {
  import opened Lang
  import opened Values
  import opened CypherQueries

  /** `MAX_BATCH`. */
  const MAX_BATCH: nat := 10000

  /** `PARTITIONS`: one hundred per available processor. */
  function Partitions(processors: nat): nat
  {
    100 * processors
  }

  /**
   * `list` cut into consecutive partitions of `batchSize` elements, the last
   * one possibly shorter but never empty.
   */
  function Chunks(list: seq<Value>, batchSize: nat): (r: seq<seq<Value>>)
    requires batchSize >= 1
    ensures r == [] <==> list == []
    ensures list != [] ==> r[0] == list[..if |list| <= batchSize then |list| else batchSize]
    decreases |list|
  {
    if list == [] then []
    else if |list| <= batchSize then [list]
    else [list[..batchSize]] + Chunks(list[batchSize..], batchSize)
  }

  /** The partitions one after another. */
  function Concat(ps: seq<seq<Value>>): seq<Value>
  {
    if ps == [] then [] else ps[0] + Concat(ps[1..])
  }

  /** The partitions put back together are the list. */
  lemma {:induction false} ChunksConcat(list: seq<Value>, batchSize: nat)
    requires batchSize >= 1
    ensures Concat(Chunks(list, batchSize)) == list
    decreases |list|
  {
    var cs := Chunks(list, batchSize);
    if list == [] {
    } else if |list| <= batchSize {
      assert Concat(cs) == list + Concat([]);
    } else {
      var rest := list[batchSize..];
      ChunksConcat(rest, batchSize);
      assert cs[1..] == Chunks(rest, batchSize);
      assert list[..batchSize] + rest == list;
    }
  }

  /**
   * No partition is empty, none holds more than `batchSize` elements, and all
   * but the last hold exactly `batchSize`.
   */
  lemma {:induction false} ChunksSizes(list: seq<Value>, batchSize: nat)
    requires batchSize >= 1
    ensures forall i :: 0 <= i < |Chunks(list, batchSize)| ==>
      0 < |Chunks(list, batchSize)[i]| <= batchSize
    ensures forall i :: 0 <= i < |Chunks(list, batchSize)| - 1 ==> |Chunks(list, batchSize)[i]| == batchSize
    decreases |list|
  {
    if |list| > batchSize {
      var rest := list[batchSize..];
      ChunksSizes(rest, batchSize);
      var cs := Chunks(list, batchSize);
      assert cs[1..] == Chunks(rest, batchSize);
      forall i | 1 <= i < |cs| ensures cs[i] == Chunks(rest, batchSize)[i - 1] { }
    }
  }

  /** There are just enough partitions to hold the list: one fewer would not do. */
  lemma {:induction false} ChunksCount(list: seq<Value>, batchSize: nat)
    requires batchSize >= 1
    ensures |list| <= |Chunks(list, batchSize)| * batchSize < |list| + batchSize
    decreases |list|
  {
    if |list| > batchSize {
      var rest := list[batchSize..];
      ChunksCount(rest, batchSize);
      var n := |Chunks(rest, batchSize)|;
      assert |Chunks(list, batchSize)| == n + 1;
      assert (n + 1) * batchSize == n * batchSize + batchSize;
    }
  }

  /** A full partition followed by the rest is cut off as the first partition. */
  lemma ChunksFull(p: seq<Value>, rest: seq<Value>, batchSize: nat)
    requires batchSize >= 1 && |p| == batchSize
    ensures Chunks(p + rest, batchSize) == [p] + Chunks(rest, batchSize)
  {
    if rest == [] {
      assert p + rest == p;
    } else {
      assert (p + rest)[..batchSize] == p && (p + rest)[batchSize..] == rest;
    }
  }

  /** Moving the next element into the open partition leaves the elements still to place unchanged. */
  lemma TakeNext(partition: seq<Value>, list: seq<Value>, i: nat)
    requires i < |list|
    ensures partition + list[i..] == (partition + [list[i]]) + list[i + 1..]
  {
    assert list[i..] == [list[i]] + list[i + 1..];
  }

  /** Closing a full partition moves it from the pending chunks to the finished ones. */
  lemma CloseFull(done: seq<seq<Value>>, p: seq<Value>, rest: seq<Value>, batchSize: nat)
    requires batchSize >= 1 && |p| == batchSize
    ensures done + Chunks(p + rest, batchSize) == (done + [p]) + Chunks(rest, batchSize)
  {
    ChunksFull(p, rest, batchSize);
  }

  /** `Math.max(total / partitions, 1)` with Java's truncating division. */
  function BatchSize(total: nat, partitions: int): (b: nat)
    requires partitions != 0
    ensures b >= 1
    ensures partitions > 0 && total / partitions >= 1 ==> b == total / partitions
    ensures partitions > 0 && total < partitions ==> b == 1
    ensures partitions < 0 ==> b == 1
  {
    var q := JavaDiv(total, partitions);
    if q > 1 then q else 1
  }

  /**
   * `partitionColl(list, partitions)`: the partitions of `list` of
   * `BatchSize(|list|, partitions)` elements; a partition count of zero throws
   * `ArithmeticException` (division by zero).
   */
  method PartitionColl(list: seq<Value>, partitions: int) returns (r: Result<seq<seq<Value>>>)
    ensures partitions == 0 ==> r == Err(Arithmetic)
    ensures partitions != 0 ==> r == Ok(Chunks(list, BatchSize(|list|, partitions)))
  {
    if partitions == 0 {
      return Err(Arithmetic);
    }
    var chunks := Partition(list, BatchSize(|list|, partitions));
    return Ok(chunks);
  }

  /**
   * The loop of `partitionColl` (Cypher.java:289-299), which returns its
   * partitions as a list: elements gathered into partitions of `batchSize`, the
   * last one possibly shorter. `SubmitBatches` models the similar loop of
   * `parallel2`, which submits each batch instead.
   */
  method Partition(list: seq<Value>, batchSize: nat) returns (result: seq<seq<Value>>)
    requires batchSize >= 1
    ensures result == Chunks(list, batchSize)
  {
    result := [];
    var partition: seq<Value> := [];
    var i := 0;
    assert partition + list[i..] == list;
    assert result + Chunks(list, batchSize) == Chunks(list, batchSize);
    while i < |list|
      invariant 0 <= i <= |list| && |partition| < batchSize
      invariant result + Chunks(partition + list[i..], batchSize) == Chunks(list, batchSize)
    {
      TakeNext(partition, list, i);
      partition := partition + [list[i]];
      i := i + 1;
      if |partition| < batchSize {
        continue;
      }
      CloseFull(result, partition, list[i..], batchSize);
      result := result + [partition];
      partition := [];
      assert partition + list[i..] == list[i..];
    }
    assert partition + list[i..] == partition;
    if partition != [] {
      assert Chunks(partition, batchSize) == [partition];
      result := result + [partition];
    } else {
      assert result + Chunks(partition, batchSize) == result;
    }
  }

  // ---------------------------------------------------------------------------
  // parallel2

  /** The batch size and the partition count `parallel2` settles on. */
  datatype Sizing = Sizing(batchSize: nat, partitions: nat)

  /**
   * `parallel2`'s sizing: `max(total / PARTITIONS, 1)`, clamped to `MAX_BATCH`,
   * in which case the partition count becomes `total / MAX_BATCH + 1`.
   */
  function Parallel2Sizing(total: nat, processors: nat): (s: Sizing)
    requires processors >= 1
    ensures 1 <= s.batchSize <= MAX_BATCH
    ensures total / Partitions(processors) <= MAX_BATCH ==>
      s == Sizing(if total / Partitions(processors) >= 1 then total / Partitions(processors) else 1, Partitions(processors))
    ensures total / Partitions(processors) > MAX_BATCH ==>
      s == Sizing(MAX_BATCH, total / MAX_BATCH + 1) && s.partitions * s.batchSize > total
  {
    var b := BatchSize(total, Partitions(processors));
    if b > MAX_BATCH then Sizing(MAX_BATCH, total / MAX_BATCH + 1) else Sizing(b, Partitions(processors))
  }

  /**
   * The batches `parallel2` submits put the collection back together in order;
   * each holds between 1 and `MAX_BATCH` elements, all but the last exactly the
   * batch size, and once the batch size is clamped there are no more batches
   * than the partition count it computes.
   */
  lemma Parallel2Batches(items: seq<Value>, processors: nat)
    requires processors >= 1
    ensures var s := Parallel2Sizing(|items|, processors);
      var bs := Chunks(items, s.batchSize);
      && Concat(bs) == items
      && (forall i :: 0 <= i < |bs| ==> 0 < |bs[i]| <= s.batchSize <= MAX_BATCH)
      && (forall i :: 0 <= i < |bs| - 1 ==> |bs[i]| == s.batchSize)
      && (|items| / Partitions(processors) > MAX_BATCH ==> |bs| <= s.partitions)
  {
    var s := Parallel2Sizing(|items|, processors);
    var bs := Chunks(items, s.batchSize);
    ChunksConcat(items, s.batchSize);
    ChunksSizes(items, s.batchSize);
    if |items| / Partitions(processors) > MAX_BATCH {
      ChunksCount(items, s.batchSize);
      var q := |items| / MAX_BATCH;
      assert |items| < (q + 1) * MAX_BATCH;
      assert |bs| * MAX_BATCH < (q + 2) * MAX_BATCH;
      assert |bs| < q + 2;
    }
  }

  /** The engine: the rows a statement returns for a parameter map. */
  type Engine = (JString, seq<Entry>) -> seq<seq<Entry>>

  /** The rows of every batch, batch after batch, each run with its own parameter map. */
  function BatchRows(statement: JString, params: seq<Entry>, key: JString, batches: seq<seq<Value>>, engine: Engine): (r: seq<seq<Entry>>)
    ensures batches != [] ==>
      |engine(statement, ParallelParams(params, key, batches[0]))| <= |r| &&
      r[..|engine(statement, ParallelParams(params, key, batches[0]))|] == engine(statement, ParallelParams(params, key, batches[0]))
  {
    if batches == [] then []
    else
      var p := batches[..|batches| - 1];
      BatchRows(statement, params, key, p, engine)
        + engine(statement, ParallelParams(params, key, batches[|batches| - 1]))
  }

  /** One more batch appends its rows. */
  lemma BatchRowsTake(statement: JString, params: seq<Entry>, key: JString, batches: seq<seq<Value>>, j: nat, engine: Engine)
    requires j < |batches|
    ensures BatchRows(statement, params, key, batches[..j + 1], engine)
      == BatchRows(statement, params, key, batches[..j], engine) + engine(statement, ParallelParams(params, key, batches[j]))
  {
    assert batches[..j + 1][..j] == batches[..j];
  }

  /** `AbstractCollection.toString` of a key set: `[k1, k2, ...]`. */
  function KeySetString(keys: seq<JString>): JString
  {
    Lit("[") + Join(keys, Lit(", ")) + Lit("]")
  }

  /** `"" + key` for a key that may be `null`. */
  function KeyString(key: Option<JString>): JString
  {
    if key.Some? then key.value else Lit("null")
  }

  /**
   * What `parallel2` computes: without parameters it runs the fragment as
   * `run` does; a missing key or a value that is not a collection throws;
   * otherwise the rows of each batch of the collection, in order.
   */
  function Parallel2Spec(fragment: JString, params: Option<seq<Entry>>, key: Option<JString>, processors: nat,
                         h: Helpers, engine: Engine): (r: Result<seq<seq<Entry>>>)
    requires processors >= 1
    ensures params.None? ==> r == Ok(engine(fragment, []))
    ensures r.Err? ==> r.error.Runtime?
    ensures r.Err? <==>
      params.Some? && (key.None? || key.value !in Keys(params.value) || !GetOrNull(params.value, key.value).ListV?)
  {
    if params.None? then Ok(engine(fragment, []))
    else if key.None? || key.value !in Keys(params.value) then
      Err(Runtime(Lit("Can't parallelize on key ") + KeyString(key) + Lit(" available keys ") + KeySetString(Keys(params.value))))
    else
      var value := GetOrNull(params.value, key.value);
      if !value.ListV? then
        Err(Runtime(Lit("Can't parallelize a non collection ") + key.value + Lit(" : ") + ToJavaString(value)))
      else
        var statement := WithParamsAndIterator(fragment, Keys(params.value), key, h);
        var sizing := Parallel2Sizing(|value.items|, processors);
        Ok(BatchRows(statement, params.value, key.value, Chunks(value.items, sizing.batchSize), engine))
  }

  /**
   * `parallel2(fragment, params, key)`, sequentially: the partition loop
   * submits a batch each time the partition is full and the remainder at the
   * end; the batches' results are then read in submission order.
   */
  method Parallel2(fragment: JString, params: Option<seq<Entry>>, key: Option<JString>, processors: nat,
                   h: Helpers, engine: Engine) returns (r: Result<seq<seq<Entry>>>)
    requires processors >= 1
    ensures r == Parallel2Spec(fragment, params, key, processors, h, engine)
  {
    if params.None? {
      return Ok(engine(WithParamMapping(fragment, []), []));
    }
    var ps := params.value;
    if key.None? || key.value !in Keys(ps) {
      return Err(Runtime(Lit("Can't parallelize on key ") + KeyString(key) + Lit(" available keys ") + KeySetString(Keys(ps))));
    }
    var value := GetOrNull(ps, key.value);
    if !value.ListV? {
      return Err(Runtime(Lit("Can't parallelize a non collection ") + key.value + Lit(" : ") + ToJavaString(value)));
    }
    var statement := WithParamsAndIterator(fragment, Keys(ps), key, h);
    var sizing := Parallel2Sizing(|value.items|, processors);
    var futures := SubmitBatches(value.items, sizing.batchSize);
    var rows := CollectRows(statement, ps, key.value, futures, engine);
    return Ok(rows);
  }

  /**
   * The partition loop of `parallel2` (Cypher.java:330-342): a batch is
   * submitted to the pool each time the partition reaches `batchSize`, and the
   * non-empty remainder at the end. It is a separate loop from the one of
   * `partitionColl` (`Partition`), though it cuts the collection the same way.
   */
  method SubmitBatches(coll: seq<Value>, batchSize: nat) returns (futures: seq<seq<Value>>)
    requires batchSize >= 1
    ensures futures == Chunks(coll, batchSize)
  {
    futures := [];
    var partition: seq<Value> := [];
    var i := 0;
    assert partition + coll[i..] == coll;
    assert futures + Chunks(coll, batchSize) == Chunks(coll, batchSize);
    while i < |coll|
      invariant 0 <= i <= |coll| && |partition| < batchSize
      invariant futures + Chunks(partition + coll[i..], batchSize) == Chunks(coll, batchSize)
    {
      TakeNext(partition, coll, i);
      partition := partition + [coll[i]];
      i := i + 1;
      if |partition| == batchSize {
        CloseFull(futures, partition, coll[i..], batchSize);
        futures := futures + [partition];
        partition := [];
        assert partition + coll[i..] == coll[i..];
      }
    }
    assert partition + coll[i..] == partition;
    if partition != [] {
      assert Chunks(partition, batchSize) == [partition];
      futures := futures + [partition];
    } else {
      assert futures + Chunks(partition, batchSize) == futures;
    }
  }

  /** The results of the submitted batches, read in submission order. */
  method CollectRows(statement: JString, params: seq<Entry>, key: JString, futures: seq<seq<Value>>, engine: Engine)
    returns (rows: seq<seq<Entry>>)
    ensures rows == BatchRows(statement, params, key, futures, engine)
  {
    rows := [];
    var j := 0;
    while j < |futures|
      invariant 0 <= j <= |futures|
      invariant rows == BatchRows(statement, params, key, futures[..j], engine)
    {
      rows := rows + engine(statement, ParallelParams(params, key, futures[j]));
      BatchRowsTake(statement, params, key, futures, j, engine);
      j := j + 1;
    }
    assert futures[..|futures|] == futures;
  }
}
