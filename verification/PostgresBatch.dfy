/** The batch writer itself: delivery check, sort, grouping, chunks cut at repeated keys and at the
    parameter limit, statement execution with the per-row fallback, and the outcome of every row. */
module PostgresBatch {
  import opened Common
  import opened StringOrder
  import opened SqlInsert
  import opened PostgresUpsert

  datatype Strategy = Append | Upsert

  /** The delivery log as the destination sees it. A reliable store never fails a call. */
  class Store {
    var delivered: set<string>
    const reliable: bool

    constructor (reliable: bool)
      ensures delivered == {} && this.reliable == reliable
    {
      this.reliable, delivered := reliable, {};
    }

    method IsDelivered(id: string) returns (r: Option<bool>)
      ensures r.Some? ==> (r.value <==> id in delivered)
      ensures reliable ==> r.Some?
    {
      var fails := *;
      r := if fails && !reliable then None else Some(id in delivered);
    }

    method MarkDelivered(id: string) returns (ok: bool)
      modifies this
      ensures delivered == if ok then old(delivered) + {id} else old(delivered)
      ensures reliable ==> ok
    {
      var fails := *;
      ok := !fails || reliable;
      if ok {
        delivered := delivered + {id};
      }
    }
  }

  class LoadResult {
    var loaded: nat
    var skipped: nat
    var errors: seq<Row>
    ghost var landed: seq<Row>  // the rows counted in `loaded`

    ghost predicate Valid()
      reads this
    {
      loaded == |landed|
    }

    constructor ()
      ensures Valid() && landed == errors == [] && skipped == 0
    {
      loaded, skipped, errors, landed := 0, 0, [], [];
    }
  }

  /** What handling the rows `done` did to a result: each row landed or failed, once. */
  /** The ids of the rows that landed, and no others, have been marked delivered. */
  ghost predicate Marks(landed: seq<Row>, delivered: set<string>, landed': seq<Row>, delivered': set<string>) {
    landed <= landed' && delivered' == delivered + Ids(landed'[|landed|..])
  }

  lemma MarksNone(l: seq<Row>, d: set<string>)
    ensures Marks(l, d, l, d)
  {
  }

  lemma MarksOne(l: seq<Row>, d: set<string>, r: Row)
    ensures Marks(l, d, l + [r], d + {r.id})
  {
    assert (l + [r])[|l|..] == [r] && [r][0].id in Ids([r]);
  }

  lemma MarksThen(l: seq<Row>, d: set<string>, l1: seq<Row>, d1: set<string>, l2: seq<Row>, d2: set<string>)
    requires Marks(l, d, l1, d1) && Marks(l1, d1, l2, d2)
    ensures Marks(l, d, l2, d2)
  {
    var a, b := l1[|l|..], l2[|l1|..];
    assert l2[|l|..] == a + b;
    forall x ensures x in Ids(a + b) <==> x in Ids(a) || x in Ids(b) {
      if x in Ids(a) {
        var i :| 0 <= i < |a| && a[i].id == x;
        assert (a + b)[i].id == x;
      }
      if x in Ids(b) {
        var i :| 0 <= i < |b| && b[i].id == x;
        assert (a + b)[|a| + i].id == x;
      }
    }
  }

  ghost predicate Handled(landed: seq<Row>, errors: seq<Row>, landed': seq<Row>, errors': seq<Row>,
                          done: seq<Row>, mode: Mode, accepts: Record -> bool, reliable: bool) {
    && landed <= landed' && errors <= errors'
    && multiset(landed'[|landed|..]) + multiset(errors'[|errors|..]) == multiset(done)
    && (forall i :: |landed| <= i < |landed'| ==> accepts(landed'[i].data))
    && (reliable ==> forall i :: |errors| <= i < |errors'| ==> !Writable(mode, accepts, errors'[i]))
  }

  lemma HandledNone(l: seq<Row>, e: seq<Row>, mode: Mode, accepts: Record -> bool, reliable: bool)
    ensures Handled(l, e, l, e, [], mode, accepts, reliable)
  {
  }

  lemma HandledThen(l0: seq<Row>, e0: seq<Row>, l1: seq<Row>, e1: seq<Row>, l2: seq<Row>, e2: seq<Row>,
                    a: seq<Row>, b: seq<Row>, mode: Mode, accepts: Record -> bool, reliable: bool)
    requires Handled(l0, e0, l1, e1, a, mode, accepts, reliable) && Handled(l1, e1, l2, e2, b, mode, accepts, reliable)
    ensures Handled(l0, e0, l2, e2, a + b, mode, accepts, reliable)
  {
    Suffix(l0, l1, l2);
    Suffix(e0, e1, e2);
  }

  lemma Suffix(a: seq<Row>, b: seq<Row>, c: seq<Row>)
    requires a <= b <= c
    ensures c[|a|..] == b[|a|..] + c[|b|..] && multiset(c[|a|..]) == multiset(b[|a|..]) + multiset(c[|b|..])
    ensures forall i :: |a| <= i < |b| ==> c[i] == b[i]
  {
  }

  lemma HandledPermuted(l0: seq<Row>, e0: seq<Row>, l1: seq<Row>, e1: seq<Row>,
                        a: seq<Row>, b: seq<Row>, mode: Mode, accepts: Record -> bool, reliable: bool)
    requires Handled(l0, e0, l1, e1, a, mode, accepts, reliable) && multiset(a) == multiset(b)
    ensures Handled(l0, e0, l1, e1, b, mode, accepts, reliable)
  {
  }

  lemma HandledLanded(l: seq<Row>, e: seq<Row>, r: Row, mode: Mode, accepts: Record -> bool, reliable: bool)
    requires accepts(r.data)
    ensures Handled(l, e, l + [r], e, [r], mode, accepts, reliable)
  {
    assert (l + [r])[|l|..] == [r];
  }

  lemma HandledFailed(l: seq<Row>, e: seq<Row>, r: Row, mode: Mode, accepts: Record -> bool, reliable: bool)
    requires reliable ==> !Writable(mode, accepts, r)
    ensures Handled(l, e, l, e + [r], [r], mode, accepts, reliable)
  {
    assert (e + [r])[|e|..] == [r];
  }

  const PARAMETER_LIMIT := 65000
  const CHUNK_LIMIT := 1000

  /** A statement that the server can run: few enough rows and parameters, and no key twice. */
  ghost predicate Runnable(s: Sent) {
    |s.records| <= CHUNK_LIMIT && s.parameters <= PARAMETER_LIMIT && !AffectsTwice(s.conflict, s.records)
  }

  ghost predicate LogRunnable(log: seq<Sent>, log': seq<Sent>) {
    log <= log' && forall i :: |log| <= i < |log'| ==> Runnable(log'[i])
  }

  lemma LogThen(a: seq<Sent>, b: seq<Sent>, c: seq<Sent>)
    requires LogRunnable(a, b) && LogRunnable(b, c)
    ensures LogRunnable(a, c)
  {
    forall i | |a| <= i < |c| ensures Runnable(c[i]) {
      if i < |b| { assert c[i] == b[i]; }
    }
  }

  ghost predicate Narrow(rows: seq<Row>) { forall r :: r in rows ==> |r.data| <= PARAMETER_LIMIT }

  /** Every row with columns carries the match column, or there is only inserting. */
  ghost predicate Keyed(rows: seq<Row>, mode: Mode) {
    forall r :: r in rows && r.data.Keys != {} ==> Sendable(mode, r)
  }

  /** No two rows print the same key; this matters only when the statement can conflict. */
  ghost predicate NoRepeats(rows: seq<Row>, mode: Mode) {
    mode.matchOn != "" ==>
      forall i, j :: 0 <= i < j < |rows| ==> Repr(Column(rows[i].data, mode.matchOn)) != Repr(Column(rows[j].data,
                                                                                                     mode.matchOn))
  }

  lemma LogSame(a: seq<Sent>)
    ensures LogRunnable(a, a)
  {
  }

  lemma LogOne(a: seq<Sent>, s: Sent)
    requires Runnable(s)
    ensures LogRunnable(a, a + [s])
  {
  }

  lemma NotWritten(t: Table, mode: Mode, accepts: Record -> bool, rw: Row, cols: seq<string>)
    requires cols == Sorted(rw.data.Keys)
    ensures Sendable(mode, rw) <==>
      cols != [] && (mode.insertOnly || (mode.matchOn != "" && mode.matchOn in rw.data))
    ensures !Writable(mode, accepts, rw) ==> WriteOne(t, mode, accepts, rw) == t
    ensures !Sendable(mode, rw) || !accepts(rw.data) ==> !Writable(mode, accepts, rw)
  {
    if rw.data.Keys != {} {
      var k :| k in rw.data.Keys;
      assert k in cols;
    }
    if cols != [] {
      assert cols[0] in rw.data.Keys;
    }
  }

  /** The statement for one row that is not rejected beforehand does exactly what the row asks for. */
  lemma SingleStatement(t: Table, mode: Mode, accepts: Record -> bool, cols: seq<string>, rw: Row)
    requires cols == Sorted(rw.data.Keys) != [] && Sendable(mode, rw) && (mode.matchOn == "" ==> mode.insertOnly)
    ensures HasColumns(rw, cols) && |cols| == |rw.data|
    ensures accepts(rw.data) ==> InsertAll(t, ConflictFor(mode, cols), DataOf([rw])) == WriteOne(t, mode, accepts, rw)
    ensures !AffectsTwice(ConflictFor(mode, cols), DataOf([rw]))
    ensures (forall d :: d in DataOf([rw]) ==> accepts(d)) <==> accepts(rw.data)
    ensures Writable(mode, accepts, rw) <==> accepts(rw.data)
  {
    assert rw.data.Keys == set c | c in cols;
    AscendingSize(cols, rw.data.Keys);
    assert DataOf([rw]) == [rw.data];
    assert DataOf([rw])[0] in DataOf([rw]);
    if accepts(rw.data) {
      StatementIsInOrder(t, mode, accepts, cols, [rw]);
      assert [rw][..0] == [];
    }
  }

  /** The table, the outcomes and the statement log at one moment. */
  datatype Snap = Snap(table: Table, landed: seq<Row>, errors: seq<Row>, log: seq<Sent>)

  /** From `a` to `b` the rows `done` were handled; if they are keyed, the table is the one of writing them
      in order, and if they are narrow, every statement was runnable. */
  ghost predicate Written(a: Snap, b: Snap, done: seq<Row>, keyed: bool, narrow: bool,
                          mode: Mode, accepts: Record -> bool, reliable: bool) {
    && (keyed ==> b.table == WriteInOrder(a.table, mode, accepts, done))
    && Handled(a.landed, a.errors, b.landed, b.errors, done, mode, accepts, reliable)
    && (narrow ==> LogRunnable(a.log, b.log))
  }

  lemma WrittenThen(a: Snap, b: Snap, c: Snap, x: seq<Row>, y: seq<Row>, keyed: bool, narrow: bool,
                    keyed': bool, narrow': bool, mode: Mode, accepts: Record -> bool, reliable: bool)
    requires Written(a, b, x, keyed, narrow, mode, accepts, reliable)
    requires Written(b, c, y, keyed', narrow', mode, accepts, reliable) && (keyed ==> keyed') && (narrow ==> narrow')
    ensures Written(a, c, x + y, keyed, narrow, mode, accepts, reliable)
  {
    hide Handled, LogRunnable;
    WriteInOrderAppend(a.table, mode, accepts, x, y);
    HandledThen(a.landed, a.errors, b.landed, b.errors, c.landed, c.errors, x, y, mode, accepts, reliable);
    if narrow {
      LogThen(a.log, b.log, c.log);
    }
  }

  lemma WrittenWeaker(a: Snap, b: Snap, x: seq<Row>, keyed: bool, narrow: bool,
                      mode: Mode, accepts: Record -> bool, reliable: bool)
    requires Written(a, b, x, true, true, mode, accepts, reliable)
    ensures Written(a, b, x, keyed, narrow, mode, accepts, reliable)
  {
  }

  lemma WrittenNone(a: Snap, keyed: bool, narrow: bool, mode: Mode, accepts: Record -> bool, reliable: bool)
    ensures Written(a, a, [], keyed, narrow, mode, accepts, reliable)
  {
  }

  ghost function Printed(rows: seq<Row>, key: string): set<string> {
    set i | 0 <= i < |rows| :: Repr(Column(rows[i].data, key))
  }

  lemma NoRepeatsSnoc(chunk: seq<Row>, rw: Row, mode: Mode)
    requires NoRepeats(chunk, mode)
    requires mode.matchOn != "" ==> Repr(Column(rw.data, mode.matchOn)) !in Printed(chunk, mode.matchOn)
    ensures NoRepeats(chunk + [rw], mode)
    ensures Printed(chunk + [rw], mode.matchOn) == Printed(chunk, mode.matchOn) + {Repr(Column(rw.data, mode.matchOn))}
  {
    var all, k := chunk + [rw], mode.matchOn;
    assert all[|chunk|] == rw;
    forall i | 0 <= i < |chunk| ensures Repr(Column(all[i].data, k)) in Printed(chunk, k) {
      assert all[i] == chunk[i];
    }
    assert forall x :: x in Printed(all, k) ==> x in Printed(chunk, k) + {Repr(Column(rw.data, k))};
    forall x | x in Printed(chunk, k) ensures x in Printed(all, k) {
      var i :| 0 <= i < |chunk| && x == Repr(Column(chunk[i].data, k));
      assert all[i] == chunk[i];
    }
  }

  lemma NothingRepeats(mode: Mode)
    ensures NoRepeats([], mode) && Printed([], mode.matchOn) == {}
  {
  }

  lemma ColumnlessWritesNothing(a: Snap, rows: seq<Row>, narrow: bool, mode: Mode, accepts: Record -> bool,
                                reliable: bool)
    requires forall r :: r in rows ==> r.data.Keys == {}
    ensures Written(a, a.(errors := a.errors + rows), rows, true, narrow, mode, accepts, reliable)
  {
    var e := a.errors + rows;
    assert e[|a.errors|..] == rows && a.landed[|a.landed|..] == [];
    forall i | |a.errors| <= i < |e| ensures !Writable(mode, accepts, e[i]) { assert e[i] in rows; }
    UnsendableLeave(a.table, mode, accepts, rows);
  }

  lemma {:induction false} UnsendableLeave(t: Table, mode: Mode, accepts: Record -> bool, rows: seq<Row>)
    requires forall r :: r in rows ==> !Writable(mode, accepts, r)
    ensures WriteInOrder(t, mode, accepts, rows) == t
  {
    if rows != [] {
      assert rows[|rows| - 1] in rows;
      UnsendableLeave(t, mode, accepts, rows[..|rows| - 1]);
    }
  }

  function MaxChunk(cols: nat): (m: nat)
    requires cols >= 1
    ensures m >= 1
  {
    Max(1, Min(CHUNK_LIMIT, PARAMETER_LIMIT / cols))
  }

  /** Rows taken from a suffix of a prefix of the group belong to the group. */
  lemma KeyedPart(rows: seq<Row>, prefix: seq<Row>, chunk: seq<Row>, mode: Mode)
    requires prefix <= rows && |chunk| <= |prefix| && prefix[|prefix| - |chunk|..] == chunk
    ensures forall r :: r in chunk ==> r in rows
    ensures Keyed(rows, mode) ==> Keyed(chunk, mode)
  {
    forall r | r in chunk ensures r in rows {
      var i :| 0 <= i < |chunk| && chunk[i] == r;
      assert prefix[|prefix| - |chunk| + i] == r;
    }
  }

  /** rows * columns stays within the limit while a chunk is no longer than limit / columns. */
  lemma ChunkFits(n: nat, m: nat, cols: nat)
    requires cols >= 1 && n <= m == MaxChunk(cols)
    ensures n <= CHUNK_LIMIT && n * cols <= Max(PARAMETER_LIMIT, cols)
  {
    var q := PARAMETER_LIMIT / cols;
    Multiply(n, m, cols);
    Multiply(m, Max(1, q), cols);
    assert q * cols + PARAMETER_LIMIT % cols == PARAMETER_LIMIT;
  }

  lemma Multiply(n: nat, m: nat, c: nat)
    requires n <= m
    ensures n * c <= m * c
  {
  }

  lemma SignatureIs(r: Row)
    ensures Signature(r) == Sorted(r.data.Keys)
  {
  }

  lemma OneWritten(a: Snap, b: Snap, r: Row, narrow: bool, mode: Mode, accepts: Record -> bool, reliable: bool)
    requires b.table == WriteOne(a.table, mode, accepts, r)
    requires Handled(a.landed, a.errors, b.landed, b.errors, [r], mode, accepts, reliable)
    requires narrow ==> LogRunnable(a.log, b.log)
    ensures Written(a, b, [r], true, narrow, mode, accepts, reliable)
  {
    assert [r][..0] == [];
  }

  lemma RegroupedNone(rows: seq<Row>)
    ensures Regrouped(rows, []) == []
  {
  }

  lemma RegroupedSnoc(rows: seq<Row>, order: seq<seq<string>>, n: nat)
    requires n < |order|
    ensures Regrouped(rows, order[..n + 1]) == Regrouped(rows, order[..n]) + GroupOf(rows, order[n])
  {
    assert order[..n + 1][..n] == order[..n];
  }

  lemma {:induction false} GroupMembers(rows: seq<Row>, sig: seq<string>)
    ensures forall r :: r in GroupOf(rows, sig) ==> r in rows && Signature(r) == sig
    ensures (forall r :: r in rows ==> Signature(r) != sig) ==> GroupOf(rows, sig) == []
  {
    if rows != [] {
      var init, r := rows[..|rows| - 1], rows[|rows| - 1];
      assert rows == init + [r];
      GroupMembers(init, sig);
      hide Signature;
    }
  }

  lemma GroupSnoc(rows: seq<Row>, r: Row, sig: seq<string>)
    ensures GroupOf(rows + [r], sig) == if Signature(r) == sig then GroupOf(rows, sig) + [r] else GroupOf(rows, sig)
  {
    assert (rows + [r])[..|rows|] == rows;
  }

  lemma GroupFacts(rows: seq<Row>, cols: seq<string>, mode: Mode)
    requires GroupOf(rows, cols) != []
    ensures Ascending(cols) && forall r :: r in GroupOf(rows, cols) ==> r.data.Keys == (set c | c in cols)
    ensures Keyed(rows, mode) ==> Keyed(GroupOf(rows, cols), mode)
    ensures Narrow(rows) ==> |cols| <= PARAMETER_LIMIT
  {
    GroupMembers(rows, cols);
    var r := GroupOf(rows, cols)[0];
    assert Signature(r) == cols && r in rows;
    AscendingSize(cols, r.data.Keys);
  }

  lemma RegroupedIsWritten(a: Snap, b: Snap, rows: seq<Row>, order: seq<seq<string>>, keyed: bool, narrow: bool,
                           mode: Mode, accepts: Record -> bool, reliable: bool)
    requires Covers(order, rows) && Written(a, b, Regrouped(rows, order), keyed, narrow, mode, accepts, reliable)
    ensures Written(a, b, rows, keyed && SameColumnsPerKey(rows, mode), narrow, mode, accepts, reliable)
  {
    hide Handled, LogRunnable;
    RegroupedPermutes(rows, order);
    HandledPermuted(a.landed, a.errors, b.landed, b.errors, Regrouped(rows, order), rows, mode, accepts, reliable);
    if keyed && SameColumnsPerKey(rows, mode) {
      RegroupedSameTable(a.table, mode, accepts, rows, order);
    }
  }

  lemma SortedIsWritten(a: Snap, b: Snap, rows: seq<Row>, mode: Mode, accepts: Record -> bool, reliable: bool)
    requires var sorted := SortRowsByKey(rows, mode.matchOn);
      Written(a, b, sorted, Keyed(sorted, mode) && SameColumnsPerKey(sorted, mode), Narrow(sorted), mode, accepts,
              reliable)
    ensures Written(a, b, rows, Keyed(rows, mode) && SameColumnsPerKey(rows, mode), Narrow(rows), mode, accepts,
                    reliable)
  {
    hide Handled, LogRunnable, Sendable, Key;
    var sorted := SortRowsByKey(rows, mode.matchOn);
    SortPermutes(rows, mode.matchOn);
    SortedSameTable(a.table, mode, accepts, rows);
    HandledPermuted(a.landed, a.errors, b.landed, b.errors, sorted, rows, mode, accepts, reliable);
    forall r ensures r in sorted <==> r in rows {
      assert r in multiset(sorted) <==> r in multiset(rows);
    }
  }

  lemma AllHandled(a: Snap, b: Snap, rows: seq<Row>, keyed: bool, mode: Mode, accepts: Record -> bool, reliable: bool)
    requires Written(a, b, rows, keyed, Narrow(rows), mode, accepts, reliable)
    ensures |b.landed| + |b.errors| == |a.landed| + |a.errors| + |rows|
  {
    var l, e := b.landed[|a.landed|..], b.errors[|a.errors|..];
    assert |multiset(l)| + |multiset(e)| == |multiset(l) + multiset(e)| == |multiset(rows)|;
  }

  lemma EmptyBatch(t: Table, mode: Mode, accepts: Record -> bool, batch: seq<Row>)
    requires batch == []
    ensures WriteInOrder(t, mode, accepts, batch) == t
  {
  }

  lemma Width(cols: seq<string>, r: Row)
    requires Ascending(cols) && r.data.Keys == set c | c in cols
    ensures |r.data| == |cols|
  {
    AscendingSize(cols, r.data.Keys);
  }

  /** A chunk as one statement: it is runnable, the server refuses it only for a bad row, and otherwise it
      writes what its rows ask for. */
  lemma WholeBatch(t: Table, mode: Mode, accepts: Record -> bool, cols: seq<string>, batch: seq<Row>)
    requires cols != [] && forall r :: r in batch ==> r.data.Keys == set c | c in cols
    requires !mode.insertOnly ==> NoRepeats(batch, mode)
    ensures !AffectsTwice(ConflictFor(mode, cols), DataOf(batch))
    ensures (forall d :: d in DataOf(batch) ==> accepts(d)) ==> forall r :: r in batch ==> accepts(r.data)
    ensures (forall d :: d in DataOf(batch) ==> accepts(d)) && Keyed(batch, mode) ==>
      InsertAll(t, ConflictFor(mode, cols), DataOf(batch)) == WriteInOrder(t, mode, accepts, batch)
  {
    var d := DataOf(batch);
    assert forall i :: 0 <= i < |batch| ==> d[i] == batch[i].data;
    if ConflictFor(mode, cols).DoUpdate? {
      forall i, j | 0 <= i < j < |d| ensures Column(d[i], mode.matchOn) != Column(d[j], mode.matchOn) {
        assert Repr(Column(batch[i].data, mode.matchOn)) != Repr(Column(batch[j].data, mode.matchOn));
      }
    }
    if forall x :: x in d ==> accepts(x) {
      forall r | r in batch ensures accepts(r.data) {
        var i :| 0 <= i < |batch| && batch[i] == r;
        assert d[i] in d;
      }
      if Keyed(batch, mode) {
        forall r | r in batch ensures Sendable(mode, r) { assert cols[0] in r.data; }
        if batch == [] {
        } else {
          assert batch[0] in batch;
          StatementIsInOrder(t, mode, accepts, cols, batch);
        }
      }
    }
  }

  /** The pending rows of a batch. */
  function ToWrite(strategy: Strategy, rows: seq<Row>, delivered: set<string>): seq<Row> {
    if rows == [] then []
    else
      var init, r := ToWrite(strategy, rows[..|rows| - 1], delivered), rows[|rows| - 1];
      if strategy.Append? || r.id !in delivered then init + [r] else init
  }

  /** The rows to be written are, in their order, those that are not delivered, or all of them when appending. */
  lemma {:induction false} ToWriteMeans(strategy: Strategy, rows: seq<Row>, delivered: set<string>)
    ensures ToWrite(strategy, rows, delivered) == Filter(rows, (r: Row) => strategy.Append? || r.id !in delivered)
  {
    if rows != [] {
      var init, r := rows[..|rows| - 1], rows[|rows| - 1];
      var p := (x: Row) => strategy.Append? || x.id !in delivered;
      ToWriteMeans(strategy, init, delivered);
      FilterAppend(init, [r], p);
      assert rows == init + [r] && [r][1..] == [];
    }
  }

  /** Either the batch takes the per-row path, or its rows carry the match column and those of one key have
      the same columns. */
  ghost predicate InOrderGuaranteed(pending: seq<Row>, mode: Mode) {
    |pending| <= 1 || ',' in mode.matchOn || (Keyed(pending, mode) && SameColumnsPerKey(pending, mode))
  }

  class Destination {
    const strategy: Strategy
    const matchOn: string
    const db: Db
    const store: Store

    constructor (strategy: Strategy, matchOn: string, db: Db, store: Store)
      ensures this.strategy == strategy && this.matchOn == matchOn && this.db == db && this.store == store
    {
      this.strategy, this.matchOn, this.db, this.store := strategy, matchOn, db, store;
    }

    ghost function Now(result: LoadResult): Snap
      reads db, result
    {
      Snap(db.table, result.landed, result.errors, db.log)
    }

    function Mode(): Mode { PostgresUpsert.Mode(matchOn, strategy.Append? && matchOn == "") }

    /** Builds and runs the statement of one row. */
    method ExecRow(rw: Row, cols: seq<string>) returns (o: Outcome)
      requires cols == Sorted(rw.data.Keys) && Sendable(Mode(), rw)
      modifies db
      ensures o.Executed? ==> db.table == WriteOne(old(db.table), Mode(), db.accepts, rw)
      ensures !o.Executed? ==> db.table == old(db.table)
      ensures !o.Fatal? ==> (o.Executed? <==> db.accepts(rw.data))
      ensures |rw.data| <= PARAMETER_LIMIT ==> LogRunnable(old(db.log), db.log)
    {
      hide Sendable, Writable, WriteOne, LogRunnable, ConflictFor, DataOf, AffectsTwice, InsertAll, Sorted;
      ghost var m := Mode();
      NotWritten(db.table, m, db.accepts, rw, cols);
      SingleStatement(db.table, m, db.accepts, cols, rw);
      if |rw.data| <= PARAMETER_LIMIT {
        LogOne(db.log, Sent(ConflictFor(m, cols), DataOf([rw]), |cols|));
      }
      var stmt, args := BuildMultiWriteSQL(Mode(), cols, [rw]);
      o := db.Exec(stmt, args);
    }

    /** One row: reject it here, or run its own statement and mark it delivered. */
    method WriteSingleRow(rw: Row, result: LoadResult) returns (fatal: bool)
      requires result.Valid()
      modifies db, store, result
      ensures result.Valid() && result.skipped == old(result.skipped)
      ensures Marks(old(result.landed), old(store.delivered), result.landed, store.delivered)
      ensures !fatal ==> db.table == WriteOne(old(db.table), Mode(), db.accepts, rw)
      ensures !fatal ==> Handled(old(result.landed), old(result.errors), result.landed, result.errors,
                                 [rw], Mode(), db.accepts, store.reliable)
      ensures |rw.data| <= PARAMETER_LIMIT ==> LogRunnable(old(db.log), db.log)
    {
      hide Sendable, Writable, WriteOne, Handled, LogRunnable, Sorted, Marks;
      MarksNone(result.landed, store.delivered);
      ghost var l, e, m := result.landed, result.errors, Mode();
      var cols := SortedKeys(rw.data.Keys);
      LogSame(db.log);
      NotWritten(db.table, m, db.accepts, rw, cols);
      if cols == [] || !(Mode().insertOnly || (matchOn != "" && matchOn in rw.data)) {
        HandledFailed(l, e, rw, m, db.accepts, store.reliable);
        result.errors := result.errors + [rw];
        return false;
      }
      var o := ExecRow(rw, cols);
      if o.Fatal? {
        return true;
      }
      if o.Refused? {
        HandledFailed(l, e, rw, m, db.accepts, store.reliable);
        result.errors := result.errors + [rw];
        return false;
      }
      fatal := false;
      Settle(rw, result);
    }

    /** Marks a written row delivered and counts it, or reports it when the store fails. */
    method Settle(rw: Row, result: LoadResult)
      requires result.Valid() && db.accepts(rw.data)
      modifies store, result
      ensures result.Valid() && result.skipped == old(result.skipped)
      ensures Marks(old(result.landed), old(store.delivered), result.landed, store.delivered)
      ensures Handled(old(result.landed), old(result.errors), result.landed, result.errors,
                      [rw], Mode(), db.accepts, store.reliable)
    {
      var ok := store.MarkDelivered(rw.id);
      if !ok {
        HandledFailed(result.landed, result.errors, rw, Mode(), db.accepts, store.reliable);
        result.errors := result.errors + [rw];
        MarksNone(result.landed, store.delivered);
        return;
      }
      MarksOne(result.landed, old(store.delivered), rw);
      HandledLanded(result.landed, result.errors, rw, Mode(), db.accepts, store.reliable);
      result.loaded, result.landed := result.loaded + 1, result.landed + [rw];
    }

    /** Builds and runs the statement of a chunk. */
    method ExecChunk(cols: seq<string>, batch: seq<Row>) returns (o: Outcome)
      requires cols != [] && |batch| <= CHUNK_LIMIT && |batch| * |cols| <= Max(PARAMETER_LIMIT, |cols|)
      requires forall r :: r in batch ==> r.data.Keys == (set c | c in cols)
      requires !Mode().insertOnly ==> NoRepeats(batch, Mode())
      modifies db
      ensures o.Executed? ==> forall r :: r in batch ==> db.accepts(r.data)
      ensures o.Executed? && Keyed(batch, Mode()) ==> db.table == WriteInOrder(old(db.table), Mode(), db.accepts, batch)
      ensures !o.Executed? ==> db.table == old(db.table)
      ensures |cols| <= PARAMETER_LIMIT ==> LogRunnable(old(db.log), db.log)
    {
      hide LogRunnable, ConflictFor, DataOf, AffectsTwice, InsertAll, WriteInOrder, NoRepeats, Keyed;
      ghost var m := Mode();
      WholeBatch(db.table, m, db.accepts, cols, batch);
      var stmt, args := BuildMultiWriteSQL(Mode(), cols, batch);
      if |cols| <= PARAMETER_LIMIT {
        LogOne(db.log, Sent(ConflictFor(m, cols), DataOf(batch), |args|));
      }
      o := db.Exec(stmt, args);
    }

    method SettleAll(batch: seq<Row>, result: LoadResult)
      requires result.Valid() && forall r :: r in batch ==> db.accepts(r.data)
      modifies store, result
      ensures result.Valid() && result.skipped == old(result.skipped)
      ensures Marks(old(result.landed), old(store.delivered), result.landed, store.delivered)
      ensures Handled(old(result.landed), old(result.errors), result.landed, result.errors,
                      batch, Mode(), db.accepts, store.reliable)
    {
      hide Handled, Marks;
      ghost var l, e, m, d := result.landed, result.errors, Mode(), store.delivered;
      MarksNone(l, d);
      HandledNone(l, e, m, db.accepts, store.reliable);
      assert batch[..0] == [];
      for i := 0 to |batch|
        invariant result.Valid() && result.skipped == old(result.skipped)
        invariant Handled(l, e, result.landed, result.errors, batch[..i], m, db.accepts, store.reliable)
        invariant Marks(l, d, result.landed, store.delivered)
      {
        ghost var l1, e1, d1 := result.landed, result.errors, store.delivered;
        assert batch[i] in batch;
        Settle(batch[i], result);
        MarksThen(l, d, l1, d1, result.landed, store.delivered);
        HandledThen(l, e, l1, e1, result.landed, result.errors, batch[..i], [batch[i]], m, db.accepts, store.reliable);
        assert batch[..i + 1] == batch[..i] + [batch[i]];
      }
      assert batch[..|batch|] == batch;
    }

    /** Runs one multi-row statement; when the server refuses it, writes its rows one at a time. */
    method Flush(cols: seq<string>, batch: seq<Row>, result: LoadResult) returns (fatal: bool)
      requires result.Valid() && cols != [] && |batch| <= CHUNK_LIMIT &&
        |batch| * |cols| <= Max(PARAMETER_LIMIT, |cols|)
      requires forall r :: r in batch ==> r.data.Keys == (set c | c in cols)
      requires Ascending(cols) && (!Mode().insertOnly ==> NoRepeats(batch, Mode()))
      modifies db, store, result
      ensures result.Valid() && result.skipped == old(result.skipped)
      ensures Marks(old(result.landed), old(store.delivered), result.landed, store.delivered)
      ensures !fatal ==> Written(old(Now(result)), Now(result), batch, Keyed(batch, Mode()), |cols| <= PARAMETER_LIMIT,
                                 Mode(), db.accepts, store.reliable)
    {
      hide Handled, LogRunnable, WriteInOrder, NoRepeats, Keyed, Ascending, Marks;
      fatal := false;
      MarksNone(result.landed, store.delivered);
      if batch == [] {
        EmptyBatch(db.table, Mode(), db.accepts, batch);
        HandledNone(result.landed, result.errors, Mode(), db.accepts, store.reliable);
        LogSame(db.log);
        return;
      }
      ghost var log0 := db.log;
      var o := ExecChunk(cols, batch);
      ghost var log1 := db.log;
      if o.Fatal? {
        fatal := true;
      } else if o.Refused? {
        fatal := FlushRows(cols, batch, result);
        if |cols| <= PARAMETER_LIMIT {
          LogThen(log0, log1, db.log);
        }
      } else {
        SettleAll(batch, result);
      }
    }

    method FlushRows(ghost cols: seq<string>, batch: seq<Row>, result: LoadResult) returns (fatal: bool)
      requires result.Valid() && Ascending(cols) && forall r :: r in batch ==> r.data.Keys == (set c | c in cols)
      modifies db, store, result
      ensures result.Valid() && result.skipped == old(result.skipped)
      ensures Marks(old(result.landed), old(store.delivered), result.landed, store.delivered)
      ensures !fatal ==> db.table == WriteInOrder(old(db.table), Mode(), db.accepts, batch)
      ensures !fatal ==> Handled(old(result.landed), old(result.errors), result.landed, result.errors,
                                 batch, Mode(), db.accepts, store.reliable)
      ensures |cols| <= PARAMETER_LIMIT ==> LogRunnable(old(db.log), db.log)
    {
      hide Sendable, Writable, WriteOne, Handled, LogRunnable, Sorted, Marks;
      ghost var l, e, m, log0, t0, d := result.landed, result.errors, Mode(), db.log, db.table, store.delivered;
      MarksNone(l, d);
      HandledNone(l, e, m, db.accepts, store.reliable);
      LogSame(log0);
      assert batch[..0] == [];
      for i := 0 to |batch|
        invariant result.Valid() && result.skipped == old(result.skipped)
        invariant db.table == WriteInOrder(t0, m, db.accepts, batch[..i])
        invariant Handled(l, e, result.landed, result.errors, batch[..i], m, db.accepts, store.reliable)
        invariant |cols| <= PARAMETER_LIMIT ==> LogRunnable(log0, db.log)
        invariant Marks(l, d, result.landed, store.delivered)
      {
        ghost var l1, e1, log1, d1 := result.landed, result.errors, db.log, store.delivered;
        assert batch[i] in batch;
        Width(cols, batch[i]);
        fatal := WriteSingleRow(batch[i], result);
        MarksThen(l, d, l1, d1, result.landed, store.delivered);
        if |cols| <= PARAMETER_LIMIT {
          LogThen(log0, log1, db.log);
        }
        if fatal {
          return;
        }
        HandledThen(l, e, l1, e1, result.landed, result.errors, batch[..i], [batch[i]], m, db.accepts, store.reliable);
        assert batch[..i + 1] == batch[..i] + [batch[i]] && batch[..i + 1][..i] == batch[..i];
      }
      assert batch[..|batch|] == batch;
      return false;
    }

    /** Rows without columns cannot be written at all. */
    method RejectColumnless(rows: seq<Row>, result: LoadResult)
      requires result.Valid() && forall r :: r in rows ==> r.data.Keys == {}
      modifies result
      ensures result.Valid() && result.skipped == old(result.skipped) && result.landed == old(result.landed)
      ensures Written(old(Now(result)), Now(result), rows, true, true, Mode(), db.accepts, store.reliable)
    {
      hide Written;
      ColumnlessWritesNothing(Now(result), rows, true, Mode(), db.accepts, store.reliable);
      assert rows[..0] == [];
      for i := 0 to |rows|
        invariant result.Valid() && result.skipped == old(result.skipped) && result.landed == old(result.landed)
        invariant result.errors == old(result.errors) + rows[..i]
      {
        result.errors := result.errors + [rows[i]];
        assert rows[..i + 1] == rows[..i] + [rows[i]];
      }
      assert rows[..|rows|] == rows;
    }

    /** Flush as one more step after the rows `done`. */
    method FlushAfter(cols: seq<string>, chunk: seq<Row>, maxChunk: nat, result: LoadResult, ghost before: Snap,
                      ghost done: seq<Row>, ghost keyed: bool) returns (fatal: bool)
      requires result.Valid() && Ascending(cols) && cols != [] && |chunk| <= maxChunk == MaxChunk(|cols|)
      requires (forall r :: r in chunk ==> r.data.Keys == (set c | c in cols)) && NoRepeats(chunk, Mode())
      requires keyed ==> Keyed(chunk, Mode())
      requires Written(before, Now(result), done, keyed, |cols| <= PARAMETER_LIMIT, Mode(), db.accepts, store.reliable)
      modifies db, store, result
      ensures result.Valid() && result.skipped == old(result.skipped)
      ensures Marks(old(result.landed), old(store.delivered), result.landed, store.delivered)
      ensures !fatal ==>
        Written(before, Now(result), done + chunk, keyed, |cols| <= PARAMETER_LIMIT, Mode(), db.accepts, store.reliable)
    {
      hide Written, NoRepeats, Keyed, Ascending, Marks;
      ghost var mid, m, narrow := Now(result), Mode(), |cols| <= PARAMETER_LIMIT;
      ChunkFits(|chunk|, maxChunk, |cols|);
      fatal := Flush(cols, chunk, result);
      if !fatal {
        WrittenThen(before, mid, Now(result), done, chunk, keyed, narrow, Keyed(chunk, m), narrow, m, db.accepts,
                    store.reliable);
      }
    }

    /** Cuts the rows of one group into chunks and writes them. */
    method WriteGroup(cols: seq<string>, rows: seq<Row>, result: LoadResult) returns (fatal: bool)
      requires result.Valid() && Ascending(cols) && forall r :: r in rows ==> r.data.Keys == (set c | c in cols)
      modifies db, store, result
      ensures result.Valid() && result.skipped == old(result.skipped)
      ensures Marks(old(result.landed), old(store.delivered), result.landed, store.delivered)
      ensures !fatal ==> Written(old(Now(result)), Now(result), rows, Keyed(rows, Mode()), |cols| <= PARAMETER_LIMIT,
                                 Mode(), db.accepts, store.reliable)
    {
      hide Written, NoRepeats, Printed, Repr, Ascending, MaxChunk, Keyed, Marks;
      ghost var l, d := result.landed, store.delivered;
      MarksNone(l, d);
      ghost var before, m, keyed, narrow := Now(result), Mode(), Keyed(rows, Mode()), |cols| <= PARAMETER_LIMIT;
      if cols == [] {
        RejectColumnless(rows, result);
        WrittenWeaker(before, Now(result), rows, keyed, narrow, m, db.accepts, store.reliable);
        return false;
      }
      var maxChunk := MaxChunk(|cols|);
      var chunk: seq<Row> := [];
      var seen: set<string> := {};
      ghost var done: seq<Row> := [];
      WrittenNone(before, keyed, narrow, m, db.accepts, store.reliable);
      NothingRepeats(m);
      for i := 0 to |rows|
        invariant result.Valid() && result.skipped == old(result.skipped)
        invariant rows[..i] == done + chunk && |chunk| < maxChunk
        invariant NoRepeats(chunk, m) && (m.matchOn != "" ==> seen == Printed(chunk, m.matchOn))
        invariant Written(before, Now(result), done, keyed, narrow, m, db.accepts, store.reliable)
        invariant Marks(l, d, result.landed, store.delivered)
      {
        ghost var l1, d1 := result.landed, store.delivered;
        var rw := rows[i];
        KeyedPart(rows, rows[..i], chunk, m);
        if !Mode().insertOnly && matchOn != "" {
          var key := Repr(Column(rw.data, matchOn));
          if key in seen {
            fatal := FlushAfter(cols, chunk, maxChunk, result, before, done, keyed);
            MarksThen(l, d, l1, d1, result.landed, store.delivered);
            if fatal {
              return;
            }
            done, chunk, seen := done + chunk, [], {};
            NothingRepeats(m);
          }
          seen := seen + {key};
        }
        NoRepeatsSnoc(chunk, rw, m);
        chunk := chunk + [rw];
        assert rows[..i + 1] == rows[..i] + [rw] == done + chunk;
        if |chunk| >= maxChunk {
          KeyedPart(rows, rows[..i + 1], chunk, m);
          ghost var l2, d2 := result.landed, store.delivered;
          fatal := FlushAfter(cols, chunk, maxChunk, result, before, done, keyed);
          MarksThen(l, d, l2, d2, result.landed, store.delivered);
          if fatal {
            return;
          }
          done, chunk, seen := done + chunk, [], {};
          NothingRepeats(m);
        }
      }
      assert rows[..|rows|] == rows;
      KeyedPart(rows, rows, chunk, m);
      ghost var l1, d1 := result.landed, store.delivered;
      fatal := FlushAfter(cols, chunk, maxChunk, result, before, done, keyed);
      MarksThen(l, d, l1, d1, result.landed, store.delivered);
    }

    /** Groups the pending rows by column set, in order of first appearance, and writes group after group. */
    method ChunkedWrite(pending: seq<Row>, result: LoadResult) returns (fatal: bool)
      requires result.Valid()
      modifies db, store, result
      ensures result.Valid() && result.skipped == old(result.skipped)
      ensures Marks(old(result.landed), old(store.delivered), result.landed, store.delivered)
      ensures !fatal ==> Written(old(Now(result)), Now(result), pending,
                                 Keyed(pending, Mode()) && SameColumnsPerKey(pending, Mode()), Narrow(pending),
                                 Mode(), db.accepts, store.reliable)
    {
      hide Written, Signature, GroupOf, Regrouped, Covers, Keyed, SameColumnsPerKey, Narrow, Marks;
      ghost var l, d := result.landed, store.delivered;
      MarksNone(l, d);
      ghost var before, m, keyed, narrow := Now(result), Mode(), Keyed(pending, Mode()), Narrow(pending);
      var groups, order := GroupRows(pending);
      WrittenNone(before, keyed, narrow, m, db.accepts, store.reliable);
      RegroupedNone(pending);
      assert order[..0] == [];
      for n := 0 to |order|
        invariant result.Valid() && result.skipped == old(result.skipped)
        invariant Written(before, Now(result), Regrouped(pending, order[..n]), keyed, narrow, m, db.accepts,
                          store.reliable)
        invariant Marks(l, d, result.landed, store.delivered)
      {
        ghost var mid, d1 := Now(result), store.delivered;
        var cols := order[n];
        var rows := groups[cols];
        GroupFacts(pending, cols, m);
        fatal := WriteGroup(cols, rows, result);
        MarksThen(l, d, mid.landed, d1, result.landed, store.delivered);
        if fatal {
          return;
        }
        WrittenThen(before, mid, Now(result), Regrouped(pending, order[..n]), rows, keyed, narrow,
                    Keyed(rows, m), |cols| <= PARAMETER_LIMIT, m, db.accepts, store.reliable);
        RegroupedSnoc(pending, order, n);
      }
      assert order[..|order|] == order;
      RegroupedIsWritten(before, Now(result), pending, order, keyed, narrow, m, db.accepts, store.reliable);
      fatal := false;
    }

    method GroupRows(pending: seq<Row>) returns (groups: map<seq<string>, seq<Row>>, order: seq<seq<string>>)
      ensures Covers(order, pending)
      ensures forall sig :: sig in order ==> sig in groups && groups[sig] == GroupOf(pending, sig) != []
    {
      hide Signature, Sorted, GroupOf;
      groups, order := map[], [];
      assert pending[..0] == [];
      for i := 0 to |pending|
        invariant Distinct(order) && forall sig :: sig in order <==> sig in groups
        invariant forall r :: r in pending[..i] ==> Signature(r) in order
        invariant forall sig :: sig in order ==> groups[sig] == GroupOf(pending[..i], sig) != []
      {
        var rw := pending[i];
        var cols := SortedKeys(rw.data.Keys);
        SignatureIs(rw);
        assert pending[..i + 1] == pending[..i] + [rw];
        forall sig ensures GroupOf(pending[..i + 1], sig) ==
          if sig == cols then GroupOf(pending[..i], sig) + [rw] else GroupOf(pending[..i], sig)
        {
          GroupSnoc(pending[..i], rw, sig);
        }
        if cols !in groups {
          GroupMembers(pending[..i], cols);
          groups := groups[cols := []];
          order := order + [cols];
        }
        groups := groups[cols := groups[cols] + [rw]];
      }
      assert pending[..|pending|] == pending;
    }

    method SortAndWrite(todo: seq<Row>, result: LoadResult) returns (fatal: bool)
      requires result.Valid()
      modifies db, store, result
      ensures result.Valid() && result.skipped == old(result.skipped)
      ensures Marks(old(result.landed), old(store.delivered), result.landed, store.delivered)
      ensures !fatal ==> Written(old(Now(result)), Now(result), todo,
                                 Keyed(todo, Mode()) && SameColumnsPerKey(todo, Mode()), Narrow(todo),
                                 Mode(), db.accepts, store.reliable)
    {
      hide Written, Keyed, SameColumnsPerKey, Narrow, Marks;
      ghost var before := Now(result);
      fatal := ChunkedWrite(SortRowsByKey(todo, matchOn), result);
      if !fatal {
        SortedIsWritten(before, Now(result), todo, Mode(), db.accepts, store.reliable);
      }
    }

    method WriteRows(todo: seq<Row>, result: LoadResult) returns (fatal: bool)
      requires result.Valid()
      modifies db, store, result
      ensures result.Valid() && result.skipped == old(result.skipped)
      ensures Marks(old(result.landed), old(store.delivered), result.landed, store.delivered)
      ensures !fatal ==> Written(old(Now(result)), Now(result), todo, true, Narrow(todo), Mode(), db.accepts,
                                 store.reliable)
    {
      hide Written, WriteOne, Handled, LogRunnable, Marks;
      ghost var l, d := result.landed, store.delivered;
      MarksNone(l, d);
      ghost var before, m, narrow := Now(result), Mode(), Narrow(todo);
      WrittenNone(before, true, narrow, m, db.accepts, store.reliable);
      assert todo[..0] == [];
      for i := 0 to |todo|
        invariant result.Valid() && result.skipped == old(result.skipped)
        invariant Written(before, Now(result), todo[..i], true, narrow, m, db.accepts, store.reliable)
        invariant Marks(l, d, result.landed, store.delivered)
      {
        ghost var mid, d1 := Now(result), store.delivered;
        assert todo[i] in todo;
        fatal := WriteSingleRow(todo[i], result);
        MarksThen(l, d, mid.landed, d1, result.landed, store.delivered);
        if fatal {
          return;
        }
        OneWritten(mid, Now(result), todo[i], narrow, m, db.accepts, store.reliable);
        WrittenThen(before, mid, Now(result), todo[..i], [todo[i]], true, narrow, true, narrow, m, db.accepts,
                    store.reliable);
        assert todo[..i + 1] == todo[..i] + [todo[i]];
      }
      assert todo[..|todo|] == todo;
      fatal := false;
    }

    /** The rows still to be written; delivered ones are skipped, unless the strategy does not check. */
    method CheckDelivered(rows: seq<Row>, result: LoadResult) returns (todo: seq<Row>)
      requires result.Valid()
      modifies result
      ensures result.Valid() && result.landed == old(result.landed)
      ensures result.skipped + |result.errors| + |todo| == old(result.skipped) + |old(result.errors)| + |rows|
      ensures store.reliable ==> todo == ToWrite(strategy, rows, store.delivered) && result.errors == old(result.errors)
    {
      todo := [];
      var i := 0;
      assert rows[..0] == [];
      while i < |rows|
        invariant 0 <= i <= |rows| && result.Valid() && result.landed == old(result.landed)
        invariant result.skipped + |result.errors| + |todo| == old(result.skipped) + |old(result.errors)| + i
        invariant store.reliable ==>
          todo == ToWrite(strategy, rows[..i], store.delivered) && result.errors == old(result.errors)
      {
        var rw := rows[i];
        assert rows[..i + 1][..i] == rows[..i];
        i := i + 1;
        if strategy.Upsert? {
          var delivered := store.IsDelivered(rw.id);
          if delivered.None? {
            result.errors := result.errors + [rw];
            continue;
          }
          if delivered.value {
            result.skipped := result.skipped + 1;
            continue;
          }
        }
        todo := todo + [rw];
      }
      assert rows[..|rows|] == rows;
    }

    /** Writes a batch. Every row is skipped, loaded or reported once; the table is the one of writing the
        pending rows one at a time in their order. */
    method InsertBatch(rows: seq<Row>, result: LoadResult) returns (fatal: bool, ghost pending: seq<Row>)
      requires result.Valid()
      modifies db, store, result
      ensures result.Valid()
      ensures Marks(old(result.landed), old(store.delivered), result.landed, store.delivered)
      ensures !fatal ==> (result.loaded + result.skipped + |result.errors|
        == old(result.loaded) + old(result.skipped) + |old(result.errors)| + |rows|)
      ensures store.reliable ==> pending == ToWrite(strategy, rows, old(store.delivered))
      ensures !fatal && InOrderGuaranteed(pending, Mode()) ==>
        db.table == WriteInOrder(old(db.table), Mode(), db.accepts, pending)
      ensures !fatal && store.reliable ==>
        Handled(old(result.landed), old(result.errors), result.landed, result.errors, pending, Mode(), db.accepts, true)
      ensures !fatal && Narrow(pending) ==> LogRunnable(old(db.log), db.log)
    {
      hide Handled, LogRunnable, Keyed, SameColumnsPerKey, Narrow, ToWrite, WriteInOrder, Marks;
      var todo := CheckDelivered(rows, result);
      pending := todo;
      ghost var before := Now(result);
      if |todo| > 1 && ',' !in matchOn {
        fatal := SortAndWrite(todo, result);
        if !fatal {
          AllHandled(before, Now(result), todo, Keyed(todo, Mode()) &&
            SameColumnsPerKey(todo, Mode()), Mode(), db.accepts, store.reliable);
        }
      } else {
        fatal := WriteRows(todo, result);
        if !fatal {
          AllHandled(before, Now(result), todo, true, Mode(), db.accepts, store.reliable);
        }
      }
    }
  }
}
