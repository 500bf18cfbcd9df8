/**
 * The sequential skeleton of `runMany` and the file runners: the statements
 * are executed one after the other, each pushing its numbered rows and a
 * statistics row onto a queue, a tombstone closes the queue, and the result
 * stream reads the queue through a spliterator until the tombstone.
 */
module CypherRunner {
  import opened Lang
  import opened Values
  import opened CypherStatements

  /** One row of the result stream: `{row, result}`; the tombstone's result is `null`. */
  class RowResult {
    const row: int
    const result: Option<seq<Entry>>

    constructor (row: int, result: Option<seq<Entry>>)
      ensures this.row == row && this.result == result
    {
      this.row := row;
      this.result := result;
    }
  }

  /** What a row result holds, without its identity. */
  datatype Row = Row(row: int, result: Option<seq<Entry>>)

  function Project(rs: seq<RowResult>): (r: seq<Row>)
    ensures |r| == |rs|
  {
    if rs == [] then [] else [Row(rs[0].row, rs[0].result)] + Project(rs[1..])
  }

  lemma {:induction false} ProjectConcat(a: seq<RowResult>, b: seq<RowResult>)
    ensures Project(a + b) == Project(a) + Project(b)
  {
    if a == [] {
      assert a + b == b;
    } else {
      var ab := a + b;
      assert ab[0] == a[0] && ab[1..] == a[1..] + b;
      ProjectConcat(a[1..], b);
      var h := [Row(a[0].row, a[0].result)];
      assert Project(ab) == h + (Project(a[1..]) + Project(b));
      assert Project(a) == h + Project(a[1..]);
    }
  }

  /**
   * The `BlockingQueue` between the statements and the result stream, as the
   * sequence of its elements, head first. Capacity and blocking are not
   * modelled: `put` always succeeds, `offer` succeeds as its caller's oracle
   * says, and `poll` returns `null` when interrupted or when nothing is queued.
   */
  class RowQueue {
    var items: seq<RowResult>

    constructor ()
      ensures items == []
    {
      items := [];
    }

    method Put(x: RowResult)
      modifies this
      ensures items == old(items) + [x]
    {
      items := items + [x];
    }

    method Offer(x: RowResult, accepted: bool) returns (ok: bool)
      modifies this
      ensures ok == accepted
      ensures items == if accepted then old(items) + [x] else old(items)
    {
      if accepted {
        items := items + [x];
      }
      ok := accepted;
    }

    method Poll(interrupted: bool) returns (x: RowResult?)
      modifies this
      ensures interrupted || old(items) == [] ==> x == null && items == old(items)
      ensures !interrupted && old(items) != [] ==> x == old(items)[0] && items == old(items)[1..]
    {
      if interrupted || items == [] {
        x := null;
      } else {
        x := items[0];
        items := items[1..];
      }
    }
  }

  /** The elements of `xs` before the first occurrence of `t`, all of them when `t` is absent. */
  function UpTo(xs: seq<RowResult>, t: RowResult): (r: seq<RowResult>)
    ensures t !in r
    ensures |r| <= |xs| && r == xs[..|r|]
    ensures |r| < |xs| ==> xs[|r|] == t
  {
    if xs == [] || xs[0] == t then [] else [xs[0]] + UpTo(xs[1..], t)
  }

  /** The elements of `xs` after the first occurrence of `t`, none when `t` is absent. */
  function After(xs: seq<RowResult>, t: RowResult): (r: seq<RowResult>)
    ensures t in xs ==> UpTo(xs, t) + [t] + r == xs
    ensures t !in xs ==> r == []
  {
    if xs == [] then []
    else if xs[0] == t then xs[1..]
    else
      assert xs == [xs[0]] + xs[1..];
      After(xs[1..], t)
  }

  /** An element other than `t` in front passes through `UpTo` and is skipped by `After`. */
  lemma PastEntry(e: RowResult, q: seq<RowResult>, t: RowResult)
    requires e != t
    ensures UpTo([e] + q, t) == [e] + UpTo(q, t)
    ensures After([e] + q, t) == After(q, t)
    ensures t in [e] + q <==> t in q
  {
    assert ([e] + q)[1..] == q;
  }

  /** A list that starts with `t` has nothing before it and its tail after it. */
  lemma HeadTombstone(q: seq<RowResult>, t: RowResult)
    requires q != [] && q[0] == t
    ensures UpTo(q, t) == [] && After(q, t) == q[1..] && t in q
  {
  }

  lemma AppendAssoc(a: seq<RowResult>, b: seq<RowResult>, c: seq<RowResult>)
    ensures (a + b) + c == a + (b + c)
  {
  }

  lemma ConcatStep(c: seq<RowResult>, e: RowResult, r: seq<RowResult>, r': seq<RowResult>)
    requires r == [e] + r'
    ensures (c + [e]) + r' == c + r
  {
  }

  /** The tombstone put after rows that hold none ends the stream right after them. */
  lemma UpToTombstone(rows: seq<RowResult>, t: RowResult)
    requires t !in rows
    ensures UpTo(rows + [t], t) == rows
  {
    UpToAbsent(rows, t);
    assert (rows + [t])[|rows|] == t;
  }

  /** A list that holds no tombstone up to its end is read in full. */
  lemma {:induction false} UpToAbsent(xs: seq<RowResult>, t: RowResult)
    requires t !in xs
    ensures UpTo(xs, t) == xs
  {
    if xs != [] {
      UpToAbsent(xs[1..], t);
      assert xs == [xs[0]] + xs[1..];
    }
  }

  /**
   * `QueueBasedSpliterator`: the entry at hand and the queue behind it. The
   * stream has ended once the entry is `null` (a poll that timed out or was
   * interrupted) or is the tombstone itself, compared by identity. `consumed`
   * is what the stream's action has received so far.
   */
  class QueueSpliterator {
    const queue: RowQueue
    const tombstone: RowResult
    var entry: RowResult?
    var consumed: seq<RowResult>

    /** The constructor polls for the first entry. */
    constructor (queue: RowQueue, tombstone: RowResult, interrupted: bool)
      modifies queue
      ensures this.queue == queue && this.tombstone == tombstone && consumed == []
      ensures interrupted || old(queue.items) == [] ==> entry == null && queue.items == old(queue.items)
      ensures !interrupted && old(queue.items) != [] ==>
        entry == old(queue.items)[0] && queue.items == old(queue.items)[1..]
    {
      this.queue := queue;
      this.tombstone := tombstone;
      consumed := [];
      new;
      entry := queue.Poll(interrupted);
    }

    predicate IsEnd()
      reads this
    {
      entry == null || entry == tombstone
    }

    /** The entries still to be delivered: up to the tombstone, nothing once ended. */
    function Remaining(): (r: seq<RowResult>)
      reads this, queue
    {
      if IsEnd() then [] else UpTo([entry] + queue.items, tombstone)
    }

    /** Everything left, the entry at hand first; nothing once the entry is `null`. */
    function Stream(): (r: seq<RowResult>)
      reads this, queue
    {
      if entry == null then [] else [entry] + queue.items
    }

    /**
     * `tryAdvance`: once ended it returns false without calling the action and
     * changes nothing; otherwise the action receives the entry, the next one is
     * polled, and the answer says whether the stream goes on.
     */
    method TryAdvance(interrupted: bool) returns (more: bool)
      modifies this, queue
      ensures old(IsEnd()) ==> !more && entry == old(entry) && consumed == old(consumed) && queue.items == old(queue.items)
      ensures !old(IsEnd()) ==> consumed == old(consumed) + [old(entry)] && more == !IsEnd()
      ensures !old(IsEnd()) && (interrupted || old(queue.items) == []) ==> entry == null && queue.items == old(queue.items)
      ensures !old(IsEnd()) && !interrupted && old(queue.items) != [] ==>
        entry == old(queue.items)[0] && queue.items == old(queue.items)[1..]
      // Without an interrupt, the action received the head of what remained,
      // and what lies beyond the tombstone is untouched.
      ensures !old(IsEnd()) && !interrupted ==> old(Remaining()) == [old(entry)] + Remaining()
      ensures !old(IsEnd()) && !interrupted ==>
        (tombstone in Stream() <==> tombstone in old(Stream())) && After(Stream(), tombstone) == After(old(Stream()), tombstone)
      ensures !old(IsEnd()) && !interrupted && entry == null ==> queue.items == []
    {
      if IsEnd() {
        return false;
      }
      ghost var e := entry;
      ghost var q := queue.items;
      assert Stream() == [e] + q;
      PastEntry(e, q, tombstone);
      consumed := consumed + [entry];
      entry := queue.Poll(interrupted);
      more := !IsEnd();
      if !interrupted && q != [] {
        assert Stream() == q;
        if q[0] == tombstone {
          HeadTombstone(q, tombstone);
        }
      }
    }

    /** `trySplit`: the stream is never split. */
    method TrySplit() returns (s: QueueSpliterator?)
      ensures s == null
    {
      s := null;
    }

    /**
     * `forEachRemaining` without interrupts: `tryAdvance` until it answers
     * false. The action receives every entry up to the tombstone, in queue
     * order; the stream stops at the tombstone, or at `null` when the queue
     * runs dry first.
     */
    method Drain()
      modifies this, queue
      ensures consumed == old(consumed) + old(Remaining())
      ensures IsEnd()
      ensures old(IsEnd()) ==> entry == old(entry) && queue.items == old(queue.items)
      ensures !old(IsEnd()) && tombstone in old(Stream()) ==> entry == tombstone && queue.items == After(old(Stream()), tombstone)
      ensures !old(IsEnd()) && tombstone !in old(Stream()) ==> entry == null && queue.items == []
    {
      if IsEnd() {
        return;
      }
      AdvanceAll();
      if entry == tombstone {
        HeadTombstone(Stream(), tombstone);
        assert Stream()[1..] == queue.items;
      }
    }

    /** The loop of `forEachRemaining`, from a stream that has not ended. */
    method AdvanceAll()
      requires !IsEnd()
      modifies this, queue
      ensures IsEnd()
      ensures consumed == old(consumed) + old(Remaining())
      ensures (tombstone in Stream() <==> tombstone in old(Stream())) && After(Stream(), tombstone) == After(old(Stream()), tombstone)
      ensures entry == null ==> queue.items == []
    {
      var more := true;
      while more
        invariant more == !IsEnd()
        invariant consumed + Remaining() == old(consumed) + old(Remaining())
        invariant (tombstone in Stream() <==> tombstone in old(Stream())) && After(Stream(), tombstone) == After(old(Stream()), tombstone)
        invariant entry == null ==> queue.items == []
        decreases |queue.items| + (if more then 1 else 0)
      {
        ghost var e := entry;
        ghost var c := consumed;
        ghost var r := Remaining();
        more := TryAdvance(false);
        ConcatStep(c, e, r, Remaining());
      }
    }
  }

  /** `QueryStatistics`, the counters the engine reports for one statement. */
  datatype QueryStatistics = QueryStatistics(
    nodesCreated: int, nodesDeleted: int, labelsAdded: int, labelsRemoved: int,
    relationshipsCreated: int, relationshipsDeleted: int, propertiesSet: int,
    constraintsAdded: int, constraintsRemoved: int, indexesAdded: int, indexesRemoved: int)

  /** What the engine returns for a statement: its rows and its statistics. */
  datatype Execution = Execution(rows: seq<seq<Entry>>, stats: QueryStatistics)

  /**
   * Everything outside the runner: `execute` is the query engine, `isSchema`
   * the schema-operation pattern match, and for the `k`-th statement of a run
   * `statsAccepted(k)` says whether the timed `offer` of its statistics row
   * succeeded and `elapsed(k)` is the time the clock measured.
   */
  datatype Environment = Environment(
    execute: (JString, seq<Entry>) -> Execution,
    isSchema: JString -> bool,
    statsAccepted: nat -> bool,
    elapsed: nat -> int)

  /** The keys of `toMap`, in the order the map is built. */
  const StatsKeys: seq<string> := ["rows", "time", "nodesCreated", "nodesDeleted", "labelsAdded", "labelsRemoved",
    "relationshipsCreated", "relationshipsDeleted", "propertiesSet", "constraintsAdded", "constraintsRemoved",
    "indexesAdded", "indexesRemoved"]

  /** Keys paired with integer values, in order. */
  function Zip(keys: seq<string>, values: seq<int>): (m: seq<Entry>)
    ensures |m| <= |keys|
  {
    if keys == [] || values == [] then []
    else [Entry(Lit(keys[0]), Int(values[0]))] + Zip(keys[1..], values[1..])
  }

  /** `toMap(stats, time, rows)`: the statistics row's map. */
  function StatsMap(stats: QueryStatistics, time: int, rows: int): (m: seq<Entry>)
    ensures Get(m, Lit("rows")) == Some(Int(rows))
  {
    Zip(StatsKeys, [rows, time, stats.nodesCreated, stats.nodesDeleted, stats.labelsAdded, stats.labelsRemoved,
      stats.relationshipsCreated, stats.relationshipsDeleted, stats.propertiesSet, stats.constraintsAdded,
      stats.constraintsRemoved, stats.indexesAdded, stats.indexesRemoved])
  }

  /** The engine's rows numbered from 0 in result order. */
  function NumberedRows(rows: seq<seq<Entry>>): (r: seq<Row>)
    ensures |r| == |rows|
  {
    if rows == [] then []
    else NumberedRows(rows[..|rows| - 1]) + [Row(|rows| - 1, Some(rows[|rows| - 1]))]
  }

  /** Row `i` of the result is numbered `i` and holds the engine's row `i`. */
  lemma {:induction false} NumberedRowsAt(rows: seq<seq<Entry>>)
    ensures forall i :: 0 <= i < |rows| ==> NumberedRows(rows)[i] == Row(i, Some(rows[i]))
  {
    if rows != [] {
      var p := rows[..|rows| - 1];
      NumberedRowsAt(p);
      forall i | 0 <= i < |rows| ensures NumberedRows(rows)[i] == Row(i, Some(rows[i])) {
        if i < |p| {
          assert NumberedRows(rows)[i] == NumberedRows(p)[i];
        }
      }
    }
  }

  /** The rows the `k`-th statement of a run puts on the queue. */
  function StatementRows(env: Environment, k: nat, stmt: JString, params: seq<Entry>, addStatistics: bool): (r: seq<Row>)
    ensures |env.execute(stmt, params).rows| <= |r| <= |env.execute(stmt, params).rows| + 1
    ensures !addStatistics ==> |r| == |env.execute(stmt, params).rows|
  {
    var ex := env.execute(stmt, params);
    NumberedRows(ex.rows)
      + (if addStatistics && env.statsAccepted(k) then [Row(-1, Some(StatsMap(ex.stats, env.elapsed(k), |ex.rows|)))] else [])
  }

  /**
   * A statement's rows are its engine rows numbered 0..n-1 in result order,
   * followed, when statistics are asked for and the offer succeeds, by one row
   * numbered -1 whose "rows" field is n.
   */
  lemma StatementRowsLayout(env: Environment, k: nat, stmt: JString, params: seq<Entry>, addStatistics: bool)
    ensures var rows := env.execute(stmt, params).rows;
      var r := StatementRows(env, k, stmt, params, addStatistics);
      && |r| == |rows| + (if addStatistics && env.statsAccepted(k) then 1 else 0)
      && (forall i :: 0 <= i < |rows| ==> r[i] == Row(i, Some(rows[i])))
      && (|r| > |rows| ==> r[|rows|].row == -1 && r[|rows|].result.Some? &&
                            Get(r[|rows|].result.value, Lit("rows")) == Some(Int(|rows|)))
  {
    var rows := env.execute(stmt, params).rows;
    NumberedRowsAt(rows);
    var r := StatementRows(env, k, stmt, params, addStatistics);
    forall i | 0 <= i < |rows| ensures r[i] == Row(i, Some(rows[i])) {
      assert r[i] == NumberedRows(rows)[i];
    }
  }

  /**
   * The row loop of `executeStatement`: each engine row is queued with its
   * number, from 0. `added` names the new queue entries; none of them is the
   * tombstone, since each is a new object.
   */
  method PutRows(queue: RowQueue, rows: seq<seq<Entry>>, ghost tombstone: RowResult) returns (ghost added: seq<RowResult>)
    modifies queue
    ensures queue.items == old(queue.items) + added
    ensures Project(added) == NumberedRows(rows)
    ensures tombstone !in added
  {
    added := [];
    var row := 0;
    while row < |rows|
      invariant 0 <= row <= |rows|
      invariant queue.items == old(queue.items) + added
      invariant Project(added) == NumberedRows(rows[..row])
      invariant tombstone !in added
    {
      var r := new RowResult(row, Some(rows[row]));
      queue.Put(r);
      ProjectConcat(added, [r]);
      added := added + [r];
      assert rows[..row + 1][..row] == rows[..row];
      row := row + 1;
    }
    assert rows[..|rows|] == rows;
  }

  /**
   * `executeStatement`: the rows are numbered 0..n-1 in result order, then the
   * statistics row numbered -1, whose "rows" field is n, is offered; the
   * answer is n.
   */
  method ExecuteStatement(queue: RowQueue, stmt: JString, params: seq<Entry>, addStatistics: bool, env: Environment, k: nat,
                          ghost tombstone: RowResult)
    returns (n: int, ghost added: seq<RowResult>)
    modifies queue
    ensures n == |env.execute(stmt, params).rows|
    ensures queue.items == old(queue.items) + added
    ensures Project(added) == StatementRows(env, k, stmt, params, addStatistics)
    ensures tombstone !in added
  {
    var ex := env.execute(stmt, params);
    added := PutRows(queue, ex.rows, tombstone);
    n := |ex.rows|;
    if addStatistics {
      var s := new RowResult(-1, Some(StatsMap(ex.stats, env.elapsed(k), n)));
      var accepted := queue.Offer(s, env.statsAccepted(k));
      if accepted {
        ProjectConcat(added, [s]);
        added := added + [s];
      }
    }
  }

  /** The index of the first statement of the wrong kind for the mode, or the count when there is none. */
  function FirstMismatch(stmts: seq<JString>, schemaMode: bool, isSchema: JString -> bool): (j: nat)
    ensures j <= |stmts|
    ensures forall i :: 0 <= i < j ==> isSchema(stmts[i]) == schemaMode
    ensures j < |stmts| ==> isSchema(stmts[j]) != schemaMode
  {
    if stmts == [] || isSchema(stmts[0]) != schemaMode then 0
    else 1 + FirstMismatch(stmts[1..], schemaMode, isSchema)
  }

  /** The rows of a run of statements, each with its statistics row. */
  function RunRows(env: Environment, stmts: seq<JString>, params: seq<Entry>): seq<Row>
  {
    if stmts == [] then []
    else RunRows(env, stmts[..|stmts| - 1], params) + StatementRows(env, |stmts| - 1, stmts[|stmts| - 1], params, true)
  }

  /** Statement `i`, reached without a mismatch, is the mismatch exactly when it is of the wrong kind. */
  lemma MismatchStep(stmts: seq<JString>, schemaMode: bool, isSchema: JString -> bool, i: nat)
    requires i < |stmts| && i <= FirstMismatch(stmts, schemaMode, isSchema)
    ensures isSchema(stmts[i]) != schemaMode ==> i == FirstMismatch(stmts, schemaMode, isSchema)
    ensures isSchema(stmts[i]) == schemaMode ==> i < FirstMismatch(stmts, schemaMode, isSchema)
  {
  }

  /** One more statement adds its rows after those of the statements before it. */
  lemma RunRowsSnoc(env: Environment, stmts: seq<JString>, i: nat, params: seq<Entry>)
    requires i < |stmts|
    ensures RunRows(env, stmts[..i + 1], params) == RunRows(env, stmts[..i], params) + StatementRows(env, i, stmts[i], params, true)
  {
    assert stmts[..i + 1][..i] == stmts[..i];
  }

  /** The rows of statement `i` appended to those of the statements before it. */
  lemma RunStep(env: Environment, stmts: seq<JString>, i: nat, params: seq<Entry>, added: seq<RowResult>, produced: seq<RowResult>)
    requires i < |stmts|
    requires Project(added) == RunRows(env, stmts[..i], params)
    requires Project(produced) == StatementRows(env, i, stmts[i], params, true)
    ensures Project(added + produced) == RunRows(env, stmts[..i + 1], params)
  {
    ProjectConcat(added, produced);
    RunRowsSnoc(env, stmts, i, params);
  }

  const MixedKinds: JString := Lit("Schema Operations can't yet be mixed with data operations")

  /**
   * `runDataStatementsInTx` (schema mode off) and `runSchemaStatementsInTx`
   * (schema mode on): the statements run in order until the first one of the
   * wrong kind, which throws before it runs.
   */
  method RunStatements(queue: RowQueue, stmts: seq<JString>, params: seq<Entry>, schemaMode: bool, env: Environment,
                       ghost tombstone: RowResult)
    returns (thrown: Option<JavaError>, ghost added: seq<RowResult>)
    modifies queue
    ensures var j := FirstMismatch(stmts, schemaMode, env.isSchema);
      thrown == if j < |stmts| then Some(Runtime(MixedKinds)) else None
    ensures queue.items == old(queue.items) + added
    ensures Project(added) == RunRows(env, stmts[..FirstMismatch(stmts, schemaMode, env.isSchema)], params)
    ensures tombstone !in added
  {
    ghost var j := FirstMismatch(stmts, schemaMode, env.isSchema);
    added := [];
    var i := 0;
    while i < |stmts|
      invariant 0 <= i <= j
      invariant queue.items == old(queue.items) + added
      invariant Project(added) == RunRows(env, stmts[..i], params)
      invariant tombstone !in added
    {
      MismatchStep(stmts, schemaMode, env.isSchema, i);
      if env.isSchema(stmts[i]) != schemaMode {
        return Some(Runtime(MixedKinds)), added;
      }
      var _, produced := ExecuteStatement(queue, stmts[i], params, true, env, i, tombstone);
      RunStep(env, stmts, i, params, added, produced);
      AppendAssoc(old(queue.items), added, produced);
      added := added + produced;
      i := i + 1;
    }
    assert stmts[..|stmts|] == stmts;
    return None, added;
  }

  /**
   * `runManyStatements` followed by reading its whole result stream: the
   * statements of the text run in order; the first one of the wrong kind makes
   * the whole call throw; otherwise the stream delivers every row of every
   * statement, each statement's statistics row after its rows.
   */
  method RunManyStatements(text: JString, params: seq<Entry>, schemaMode: bool, env: Environment)
    returns (r: Result<seq<Row>>)
    ensures var stmts := Statements(text);
      r == if FirstMismatch(stmts, schemaMode, env.isSchema) < |stmts| then Err(Runtime(MixedKinds))
           else Ok(RunRows(env, stmts, params))
  {
    var tombstone := new RowResult(-1, None);
    var queue := new RowQueue();
    var stmts := Statements(text);
    var thrown, rows := RunStatements(queue, stmts, params, schemaMode, env, tombstone);
    if thrown.Some? {
      return Err(thrown.value);
    }
    assert FirstMismatch(stmts, schemaMode, env.isSchema) == |stmts|;
    assert stmts[..|stmts|] == stmts;
    var consumed := ReadStream(queue, tombstone, rows);
    return Ok(Project(consumed));
  }

  /**
   * The end of `runManyStatements` and the reading of its stream: the
   * tombstone is put after the queued rows, and the stream delivers exactly
   * those rows, in queue order.
   */
  method ReadStream(queue: RowQueue, tombstone: RowResult, ghost rows: seq<RowResult>) returns (consumed: seq<RowResult>)
    requires queue.items == rows && tombstone !in rows
    modifies queue
    ensures consumed == rows
  {
    queue.Put(tombstone);
    ghost var all := rows + [tombstone];
    assert queue.items == all;
    var split := new QueueSpliterator(queue, tombstone, false);
    assert split.entry == all[0] && queue.items == all[1..];
    UpToTombstone(rows, tombstone);
    if rows == [] {
      assert split.IsEnd();
    } else {
      assert [all[0]] + all[1..] == all;
      assert all[0] != tombstone;
    }
    assert split.Remaining() == rows;
    split.Drain();
    consumed := split.consumed;
  }
}
