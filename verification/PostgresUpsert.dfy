/** Batch writes of the Postgres destination. Pending rows are sorted by match key, grouped by column set,
    cut into multi-row statements and written; refused statements fall back to one row at a time. The
    result is proved to be the one of writing the pending rows one at a time in their order. */
module PostgresUpsert {
  import opened Common
  import opened StringOrder
  import opened SqlInsert
  import Json

  datatype Row = Row(id: string, data: Record)

  function Ids(rows: seq<Row>): set<string> { set i | 0 <= i < |rows| :: rows[i].id }

  /** How rows are written: the trimmed match column, and whether there is only inserting. */
  datatype Mode = Mode(matchOn: string, insertOnly: bool)

  // ---------------------------------------------------------------- the reference: one row at a time

  function WithoutKey(cols: seq<string>, key: string): seq<string> { Filter(cols, c => c != key) }

  function ConflictFor(mode: Mode, cols: seq<string>): Conflict {
    if mode.insertOnly || mode.matchOn == "" then NoClause
    else if WithoutKey(cols, mode.matchOn) == [] then DoNothing(mode.matchOn)
    else DoUpdate(mode.matchOn, WithoutKey(cols, mode.matchOn))
  }

  function Key(mode: Mode, r: Row): Value {
    if mode.insertOnly then Null else Column(r.data, mode.matchOn)
  }

  /** An upsert of one record, in terms of the table alone. */
  function Merge(t: Table, mode: Mode, rec: Record): Table {
    var k := if mode.insertOnly then Null else Column(rec, mode.matchOn);
    if k == Null then t.(loose := t.loose + multiset{rec})
    else if k in t.keyed then t.(keyed := t.keyed[k := t.keyed[k] + (rec - {mode.matchOn})])
    else t.(keyed := t.keyed[k := rec])
  }

  /** Rows the per-row path sends to the server, as opposed to rejecting them itself. (A column without a
      name, which a row could carry, no table has.) */
  predicate Sendable(mode: Mode, r: Row) {
    r.data.Keys != {} && (mode.insertOnly || (mode.matchOn != "" && mode.matchOn in r.data))
  }

  predicate Writable(mode: Mode, accepts: Record -> bool, r: Row) { Sendable(mode, r) && accepts(r.data) }

  function WriteOne(t: Table, mode: Mode, accepts: Record -> bool, r: Row): Table {
    if Writable(mode, accepts, r) then Merge(t, mode, r.data) else t
  }

  /** Writing the rows one at a time, in order. */
  function WriteInOrder(t: Table, mode: Mode, accepts: Record -> bool, rows: seq<Row>): Table {
    if rows == [] then t
    else WriteOne(WriteInOrder(t, mode, accepts, rows[..|rows| - 1]), mode, accepts, rows[|rows| - 1])
  }

  lemma {:induction false} WriteInOrderAppend(t: Table, mode: Mode, accepts: Record -> bool, a: seq<Row>, b: seq<Row>)
    ensures WriteInOrder(t, mode, accepts, a + b) == WriteInOrder(WriteInOrder(t, mode, accepts, a), mode, accepts, b)
  {
    if b == [] {
      assert a + b == a;
    } else {
      var n := |b| - 1;
      assert (a + b)[..|a + b| - 1] == a + b[..n] && (a + b)[|a + b| - 1] == b[n];
      WriteInOrderAppend(t, mode, accepts, a, b[..n]);
    }
  }

  // ---------------------------------------------------------------- statements mean merges

  lemma InsertIsMerge(t: Table, mode: Mode, cols: seq<string>, rec: Record)
    requires (forall c :: c in cols <==> c in rec) && (mode.insertOnly || mode.matchOn in rec)
    requires mode.insertOnly || mode.matchOn != ""
    ensures InsertRecord(t, ConflictFor(mode, cols), rec) == Merge(t, mode, rec)
  {
    var k := mode.matchOn;
    if !mode.insertOnly {
      var set' := WithoutKey(cols, k);
      assert Assigned(rec, set') == rec - {k};
      if set' == [] && rec[k] in t.keyed {
        assert rec - {k} == map[];
        assert t.keyed[rec[k]] + map[] == t.keyed[rec[k]];
        assert t.keyed[rec[k] := t.keyed[rec[k]]] == t.keyed;
      }
    }
  }

  function DataOf(rows: seq<Row>): (d: seq<Record>)
    ensures |d| == |rows| && forall i :: 0 <= i < |rows| ==> d[i] == rows[i].data
  {
    seq(|rows|, i requires 0 <= i < |rows| => rows[i].data)
  }

  /** A multi-row statement over accepted rows leaves what the rows leave one at a time. */
  lemma {:induction false} StatementIsInOrder(
      t: Table, mode: Mode, accepts: Record -> bool, cols: seq<string>, rows: seq<Row>)
    requires cols != [] && forall r :: r in rows ==> accepts(r.data) && HasColumns(r, cols)
    requires forall r :: r in rows ==> mode.insertOnly || mode.matchOn in r.data
    requires mode.insertOnly || mode.matchOn != ""
    ensures InsertAll(t, ConflictFor(mode, cols), DataOf(rows)) == WriteInOrder(t, mode, accepts, rows)
  {
    if rows != [] {
      var n := |rows| - 1;
      assert DataOf(rows)[..n] == DataOf(rows[..n]);
      assert forall r :: r in rows[..n] ==> r in rows;
      StatementIsInOrder(t, mode, accepts, cols, rows[..n]);
      var r := rows[n];
      assert r in rows && cols[0] in r.data;
      InsertIsMerge(WriteInOrder(t, mode, accepts, rows[..n]), mode, cols, r.data);
    }
  }

  predicate HasColumns(r: Row, cols: seq<string>) { r.data.Keys == set c | c in cols }

  // ---------------------------------------------------------------- building the statement

  lemma TupleRecordSnoc(cols: seq<string>, j: nat, tuple: seq<nat>, args: seq<Value>, v: Value)
    requires j < |cols| && Resolvable(cols[..j], tuple, |args|)
    ensures Resolvable(cols[..j + 1], tuple + [|args| + 1], |args + [v]|)
    ensures TupleRecord(cols[..j + 1], tuple + [|args| + 1], args + [v]) ==
      TupleRecord(cols[..j], tuple, args)[cols[j] := v]
  {
    TupleRecordLonger(cols[..j], tuple, args, [v]);
    assert cols[..j + 1][..j] == cols[..j] && (tuple + [|args| + 1])[..j] == tuple;
  }

  /** The part of a record in some of its columns. */
  function Part(rec: Record, cols: seq<string>): Record { map c | c in cols && c in rec :: rec[c] }

  lemma PartSnoc(rec: Record, cols: seq<string>, j: nat)
    requires j < |cols| && forall c :: c in cols ==> c in rec
    ensures Part(rec, cols[..j + 1]) == Part(rec, cols[..j])[cols[j] := Column(rec, cols[j])]
  {
    assert cols[..j + 1] == cols[..j] + [cols[j]];
  }

  lemma PartOfAll(rec: Record, cols: seq<string>)
    ensures Part(rec, []) == map[]
    ensures rec.Keys == (set c | c in cols) ==> Part(rec, cols) == rec
  {
  }

  method AddTuple(cols: seq<string>, rw: Row, args: seq<Value>, ph: nat)
    returns (tuple: seq<nat>, args': seq<Value>, ph': nat)
    requires ph == |args| + 1 && HasColumns(rw, cols)
    ensures ph' == |args'| + 1 && |args'| == |args| + |cols| && args <= args'
    ensures Resolvable(cols, tuple, |args'|) && TupleRecord(cols, tuple, args') == rw.data
  {
    tuple, args', ph' := [], args, ph;
    PartOfAll(rw.data, cols);
    assert cols[..0] == [] && TupleRecord([], [], args) == map[];
    hide TupleRecord, Part, Column;
    for j := 0 to |cols|
      invariant ph' == |args'| + 1 && |args'| == |args| + j && args <= args'
      invariant Resolvable(cols[..j], tuple, |args'|)
      invariant TupleRecord(cols[..j], tuple, args') == Part(rw.data, cols[..j])
    {
      var c := cols[j];
      TupleRecordSnoc(cols, j, tuple, args', Column(rw.data, c));
      PartSnoc(rw.data, cols, j);
      hide Resolvable;
      tuple := tuple + [ph'];
      args' := args' + [Column(rw.data, c)];
      ph' := ph' + 1;
    }
    assert cols[..|cols|] == cols;
  }

  /** Placeholders are numbered row by row; the arguments follow the same order. */
  method BuildMultiWriteSQL(mode: Mode, cols: seq<string>, batch: seq<Row>) returns (stmt: Insert, args: seq<Value>)
    requires forall r :: r in batch ==> HasColumns(r, cols)
    ensures stmt.conflict == ConflictFor(mode, cols) && |args| == |batch| * |cols|
    ensures WellFormed(stmt, args) && Records(stmt, args) == DataOf(batch)
  {
    hide HasColumns, ConflictFor, Resolvable, TupleRecord;
    var tuples: seq<seq<nat>> := [];
    args := [];
    var ph := 1;
    for i := 0 to |batch|
      invariant |tuples| == i && ph == |args| + 1 && |args| == i * |cols|
      invariant forall r :: 0 <= r < i ==> Resolves(cols, tuples[r], args, batch[r].data)
    {
      ghost var before := args;
      assert batch[i] in batch;
      var tuple;
      tuple, args, ph := AddTuple(cols, batch[i], args, ph);
      forall r | 0 <= r < i ensures Resolves(cols, tuples[r], args, batch[r].data) {
        TupleRecordLonger(cols, tuples[r], before, args[|before|..]);
        assert before + args[|before|..] == args;
      }
      tuples := tuples + [tuple];
    }
    stmt := Insert(cols, tuples, ConflictFor(mode, cols));
    assert Records(stmt, args) == DataOf(batch);
  }

  ghost predicate Resolves(cols: seq<string>, tuple: seq<nat>, args: seq<Value>, rec: Record) {
    Resolvable(cols, tuple, |args|) && TupleRecord(cols, tuple, args) == rec
  }

  // ---------------------------------------------------------------- stable sort and grouping

  /** The printed form of a value. */
  function Repr(v: Value): string {
    match v case Null => "<nil>" case Int(n) => Json.IntText(n) case Str(s) => s
  }

  predicate LessValue(a: Value, b: Value) {
    if a.Int? && b.Int? then a.n < b.n
    else if a.Str? && b.Str? then Less(a.s, b.s)
    else Less(Repr(a), Repr(b))
  }

  /** Moves the row down past the rows that are greater. */
  function InsertSorted(rows: seq<Row>, r: Row, key: string): seq<Row> {
    if rows != [] && LessValue(Column(r.data, key), Column(rows[|rows| - 1].data, key)) then
      InsertSorted(rows[..|rows| - 1], r, key) + [rows[|rows| - 1]]
    else rows + [r]
  }

  /** The stable sort by match key. */
  function SortRowsByKey(rows: seq<Row>, key: string): seq<Row> {
    if rows == [] then [] else InsertSorted(SortRowsByKey(rows[..|rows| - 1], key), rows[|rows| - 1], key)
  }

  /** The rows of one key, in order. */
  function WithKey(rows: seq<Row>, mode: Mode, k: Value): seq<Row> {
    if rows == [] then []
    else WithKey(rows[..|rows| - 1], mode, k) + (if Key(mode, rows[|rows| - 1]) == k then [rows[|rows| - 1]] else [])
  }

  lemma {:induction false} WithKeyAppend(a: seq<Row>, b: seq<Row>, mode: Mode, k: Value)
    ensures WithKey(a + b, mode, k) == WithKey(a, mode, k) + WithKey(b, mode, k)
  {
    if b == [] {
      assert a + b == a;
    } else {
      var n := |b| - 1;
      assert (a + b)[..|a + b| - 1] == a + b[..n] && (a + b)[|a + b| - 1] == b[n];
      WithKeyAppend(a, b[..n], mode, k);
    }
  }

  lemma LessIrreflexive(v: Value)
    ensures !LessValue(v, v)
  {
    LessTotal(Repr(v), Repr(v));
    if v.Str? {
      LessTotal(v.s, v.s);
    }
  }

  lemma {:induction false} InsertSortedPermutes(rows: seq<Row>, r: Row, key: string)
    ensures multiset(InsertSorted(rows, r, key)) == multiset(rows) + multiset{r}
  {
    if rows != [] && LessValue(Column(r.data, key), Column(rows[|rows| - 1].data, key)) {
      var init, last := rows[..|rows| - 1], rows[|rows| - 1];
      assert rows == init + [last];
      InsertSortedPermutes(init, r, key);
      hide LessValue;
    }
  }

  lemma {:induction false} InsertSortedKeeps(rows: seq<Row>, r: Row, mode: Mode, k: Value)
    requires !mode.insertOnly
    ensures WithKey(InsertSorted(rows, r, mode.matchOn), mode, k) == WithKey(rows, mode, k) + WithKey([r], mode, k)
  {
    hide LessValue, WithKey;
    if rows != [] && LessValue(Key(mode, r), Key(mode, rows[|rows| - 1])) {
      var init, last := rows[..|rows| - 1], rows[|rows| - 1];
      LessIrreflexive(Key(mode, r));
      InsertSortedKeeps(init, r, mode, k);
      assert rows == init + [last];
      OneRow(r, mode, k);
      OneRow(last, mode, k);
      KeepsStep(init, InsertSorted(init, r, mode.matchOn), r, last, mode, k);
    } else {
      WithKeyAppend(rows, [r], mode, k);
    }
  }

  lemma KeepsStep(init: seq<Row>, moved: seq<Row>, r: Row, last: Row, mode: Mode, k: Value)
    requires WithKey(moved, mode, k) == WithKey(init, mode, k) + WithKey([r], mode, k)
    requires WithKey([r], mode, k) == [] || WithKey([last], mode, k) == []
    ensures WithKey(moved + [last], mode, k) == WithKey(init + [last], mode, k) + WithKey([r], mode, k)
  {
    hide WithKey;
    WithKeyAppend(moved, [last], mode, k);
    WithKeyAppend(init, [last], mode, k);
    Swap(WithKey(init, mode, k), WithKey([r], mode, k), WithKey([last], mode, k));
  }

  lemma Swap(a: seq<Row>, b: seq<Row>, c: seq<Row>)
    requires b == [] || c == []
    ensures a + b + c == a + c + b
  {
  }

  lemma OneRow(r: Row, mode: Mode, k: Value)
    ensures WithKey([r], mode, k) == if Key(mode, r) == k then [r] else []
  {
    assert [r][..0] == [];
  }

  /** The sort is a permutation that keeps the order of rows with equal keys. */
  lemma {:induction false} SortKeeps(rows: seq<Row>, mode: Mode, k: Value)
    requires !mode.insertOnly
    ensures WithKey(SortRowsByKey(rows, mode.matchOn), mode, k) == WithKey(rows, mode, k)
  {
    if rows != [] {
      var n := |rows| - 1;
      assert rows == rows[..n] + [rows[n]];
      SortKeeps(rows[..n], mode, k);
      InsertSortedKeeps(SortRowsByKey(rows[..n], mode.matchOn), rows[n], mode, k);
      WithKeyAppend(rows[..n], [rows[n]], mode, k);
    }
  }

  /** The keys are all numbers or all texts. */
  ghost predicate OneKind(rows: seq<Row>, key: string) {
    (forall r :: r in rows ==> Column(r.data, key).Int?) || (forall r :: r in rows ==> Column(r.data, key).Str?)
  }

  /** Numbers by size, texts by their bytes. */
  predicate Ordered(a: Value, b: Value) {
    (a.Int? && b.Int? && a.n <= b.n) || (a.Str? && b.Str? && (a.s == b.s || Less(a.s, b.s)))
  }

  ghost predicate InKeyOrder(rows: seq<Row>, key: string) {
    forall i, j :: 0 <= i < j < |rows| ==> Ordered(Column(rows[i].data, key), Column(rows[j].data, key))
  }

  lemma InKeyOrderSnoc(rows: seq<Row>, r: Row, key: string)
    ensures InKeyOrder(rows + [r], key) <==>
      InKeyOrder(rows, key) && forall x :: x in rows ==> Ordered(Column(x.data, key), Column(r.data, key))
  {
    var t := rows + [r];
    hide Ordered;
    if InKeyOrder(t, key) {
      forall i, j | 0 <= i < j < |rows| ensures Ordered(Column(rows[i].data, key), Column(rows[j].data, key)) {
        assert t[i] == rows[i] && t[j] == rows[j];
      }
      forall x | x in rows ensures Ordered(Column(x.data, key), Column(r.data, key)) {
        var i :| 0 <= i < |rows| && rows[i] == x;
        assert t[i] == x && t[|rows|] == r;
      }
    }
  }

  lemma {:induction false} InsertSortedInOrder(rows: seq<Row>, r: Row, key: string)
    requires OneKind(rows + [r], key) && InKeyOrder(rows, key)
    ensures InKeyOrder(InsertSorted(rows, r, key), key)
  {
    assert r in rows + [r] && forall x :: x in rows ==> x in rows + [r];
    hide Ordered;
    if rows == [] {
      InKeyOrderSnoc([], r, key);
      assert [] + [r] == [r];
    } else {
      var init, last := rows[..|rows| - 1], rows[|rows| - 1];
      assert rows == init + [last] && last in rows && forall x :: x in init ==> x in rows;
      InKeyOrderSnoc(init, last, key);
      if LessValue(Column(r.data, key), Column(last.data, key)) {
        var front := InsertSorted(init, r, key);
        assert forall x :: x in init + [r] ==> x in rows + [r];
        InsertSortedInOrder(init, r, key);
        InsertSortedPermutes(init, r, key);
        LessOrdered(Column(r.data, key), Column(last.data, key));
        forall x | x in front ensures Ordered(Column(x.data, key), Column(last.data, key)) {
          assert x == r || x in multiset(init) by { assert x in multiset(front); }
        }
        InKeyOrderSnoc(front, last, key);
      } else {
        forall x | x in rows ensures Ordered(Column(x.data, key), Column(r.data, key)) {
          Chain(Column(x.data, key), Column(last.data, key), Column(r.data, key));
        }
        InKeyOrderSnoc(rows, r, key);
      }
    }
  }

  lemma LessOrdered(a: Value, b: Value)
    requires LessValue(a, b) && ((a.Int? && b.Int?) || (a.Str? && b.Str?))
    ensures Ordered(a, b)
  {
  }

  lemma Chain(a: Value, b: Value, c: Value)
    requires (a == b || Ordered(a, b)) && !LessValue(c, b) && ((b.Int? && c.Int?) || (b.Str? && c.Str?))
    ensures Ordered(a, c)
  {
    if b.Str? {
      LessTotal(b.s, c.s);
      if a.s != b.s && b.s != c.s {
        LessTransitive(a.s, b.s, c.s);
      }
    }
  }

  /** Sorted rows are in the order of their keys. */
  lemma {:induction false} SortOrders(rows: seq<Row>, key: string)
    requires OneKind(rows, key)
    ensures InKeyOrder(SortRowsByKey(rows, key), key)
  {
    if rows != [] {
      var init, r := rows[..|rows| - 1], rows[|rows| - 1];
      assert forall x :: x in init ==> x in rows;
      SortOrders(init, key);
      SortPermutes(init, key);
      var front := SortRowsByKey(init, key);
      forall x | x in front + [r] ensures x in rows { assert x == r || x in multiset(front); }
      InsertSortedInOrder(front, r, key);
    }
  }

  ghost function Signature(r: Row): seq<string> { Sorted(r.data.Keys) }

  ghost function GroupOf(rows: seq<Row>, sig: seq<string>): seq<Row> {
    if rows == [] then []
    else GroupOf(rows[..|rows| - 1], sig) + (if Signature(rows[|rows| - 1]) == sig then [rows[|rows| - 1]] else [])
  }

  /** The groups, one after another. */
  ghost function Regrouped(rows: seq<Row>, order: seq<seq<string>>): seq<Row> {
    if order == [] then [] else Regrouped(rows, order[..|order| - 1]) + GroupOf(rows, order[|order| - 1])
  }

  ghost predicate Covers(order: seq<seq<string>>, rows: seq<Row>) {
    Distinct(order) && forall r :: r in rows ==> Signature(r) in order
  }

  lemma {:induction false} GroupCounts(rows: seq<Row>, sig: seq<string>, r: Row)
    ensures multiset(GroupOf(rows, sig))[r] == if Signature(r) == sig then multiset(rows)[r] else 0
  {
    if rows != [] {
      var n := |rows| - 1;
      assert rows == rows[..n] + [rows[n]];
      GroupCounts(rows[..n], sig, r);
    }
  }

  lemma {:induction false} RegroupedCounts(rows: seq<Row>, order: seq<seq<string>>, r: Row)
    requires Distinct(order)
    ensures multiset(Regrouped(rows, order))[r] == if Signature(r) in order then multiset(rows)[r] else 0
  {
    if order != [] {
      var n := |order| - 1;
      assert order == order[..n] + [order[n]] && order[n] !in order[..n];
      RegroupedCounts(rows, order[..n], r);
      GroupCounts(rows, order[n], r);
    }
  }

  lemma RegroupedPermutes(rows: seq<Row>, order: seq<seq<string>>)
    requires Covers(order, rows)
    ensures multiset(Regrouped(rows, order)) == multiset(rows)
  {
    forall r ensures multiset(Regrouped(rows, order))[r] == multiset(rows)[r] {
      RegroupedCounts(rows, order, r);
      if Signature(r) !in order {
        assert r !in rows;
      }
    }
  }

  /** Rows with the same non-null key have the same columns. */
  ghost predicate SameColumnsPerKey(rows: seq<Row>, mode: Mode) {
    forall r, q :: r in rows && q in rows && Key(mode, r) == Key(mode, q) != Null ==> r.data.Keys == q.data.Keys
  }

  lemma {:induction false} GroupWithKey(rows: seq<Row>, mode: Mode, k: Value, home: seq<string>, sig: seq<string>)
    requires forall r :: r in rows && Key(mode, r) == k ==> Signature(r) == home
    ensures WithKey(GroupOf(rows, sig), mode, k) == if sig == home then WithKey(rows, mode, k) else []
  {
    if rows != [] {
      var init, r := rows[..|rows| - 1], rows[|rows| - 1];
      assert rows == init + [r];
      GroupWithKey(init, mode, k, home, sig);
      OneRow(r, mode, k);
      WithKeyAppend(init, [r], mode, k);
      assert GroupOf(rows, sig) == if Signature(r) == sig then GroupOf(init, sig) + [r] else GroupOf(init, sig);
      assert r in rows;
      hide GroupOf, WithKey, Signature, Key;
      if Signature(r) == sig {
        WithKeyAppend(GroupOf(init, sig), [r], mode, k);
      }
    }
  }

  lemma {:induction false} RegroupedWithKey(rows: seq<Row>, mode: Mode, k: Value, home: seq<string>,
                                            order: seq<seq<string>>)
    requires Distinct(order) && forall r :: r in rows && Key(mode, r) == k ==> Signature(r) == home
    ensures WithKey(Regrouped(rows, order), mode, k) == if home in order then WithKey(rows, mode, k) else []
  {
    if order != [] {
      var n := |order| - 1;
      assert order == order[..n] + [order[n]] && order[n] !in order[..n];
      RegroupedWithKey(rows, mode, k, home, order[..n]);
      GroupWithKey(rows, mode, k, home, order[n]);
      WithKeyAppend(Regrouped(rows, order[..n]), GroupOf(rows, order[n]), mode, k);
    }
  }

  lemma {:induction false} WithKeyMembers(rows: seq<Row>, mode: Mode, k: Value)
    ensures WithKey(rows, mode, k) == [] <==> forall r :: r in rows ==> Key(mode, r) != k
  {
    if rows != [] {
      var n := |rows| - 1;
      assert rows == rows[..n] + [rows[n]];
      WithKeyMembers(rows[..n], mode, k);
    }
  }

  /** Grouping keeps, for every key, the rows of that key in their order. */
  lemma RegroupedKeepsKeys(rows: seq<Row>, mode: Mode, k: Value, order: seq<seq<string>>)
    requires Covers(order, rows) && SameColumnsPerKey(rows, mode) && k != Null
    ensures WithKey(Regrouped(rows, order), mode, k) == WithKey(rows, mode, k)
  {
    WithKeyMembers(rows, mode, k);
    if r :| r in rows && Key(mode, r) == k {
      RegroupedWithKey(rows, mode, k, Signature(r), order);
    } else {
      RegroupedPermutes(rows, order);
      WithKeyMembers(Regrouped(rows, order), mode, k);
      assert forall q :: q in Regrouped(rows, order) ==> q in multiset(Regrouped(rows, order));
    }
  }

  // ---------------------------------------------------------------- the order across keys does not matter

  function At(t: Table, k: Value): Option<Record> { if k in t.keyed then Some(t.keyed[k]) else None }

  function KeyStep(before: Option<Record>, mode: Mode, accepts: Record -> bool, r: Row): Option<Record> {
    if !Writable(mode, accepts, r) then before
    else if before.None? then Some(r.data)
    else Some(before.value + (r.data - {mode.matchOn}))
  }

  /** The record of one key after its rows have been written. */
  function KeyAfter(before: Option<Record>, mode: Mode, accepts: Record -> bool, rows: seq<Row>): Option<Record> {
    if rows == [] then before
    else KeyStep(KeyAfter(before, mode, accepts, rows[..|rows| - 1]), mode, accepts, rows[|rows| - 1])
  }

  lemma OneActsPerKey(t: Table, mode: Mode, accepts: Record -> bool, r: Row, k: Value)
    requires k != Null
    ensures At(WriteOne(t, mode, accepts, r), k) ==
      if Key(mode, r) == k then KeyStep(At(t, k), mode, accepts, r) else At(t, k)
  {
  }

  lemma {:induction false} WriteActsPerKey(t: Table, mode: Mode, accepts: Record -> bool, rows: seq<Row>, k: Value)
    requires k != Null
    ensures At(WriteInOrder(t, mode, accepts, rows), k) == KeyAfter(At(t, k), mode, accepts, WithKey(rows, mode, k))
  {
    if rows != [] {
      var init, r := rows[..|rows| - 1], rows[|rows| - 1];
      WriteActsPerKey(t, mode, accepts, init, k);
      OneActsPerKey(WriteInOrder(t, mode, accepts, init), mode, accepts, r, k);
      var own := WithKey(init, mode, k);
      assert (own + [r])[..|own|] == own && own + [] == own;
      hide WriteOne, KeyStep, Key, At;
    }
  }

  /** The null-keyed records the rows add. */
  function LooseOf(mode: Mode, accepts: Record -> bool, rows: seq<Row>): multiset<Record> {
    if rows == [] then multiset{}
    else LooseOf(mode, accepts, rows[..|rows| - 1]) + LooseOne(mode, accepts, rows[|rows| - 1])
  }

  function LooseOne(mode: Mode, accepts: Record -> bool, r: Row): multiset<Record> {
    if Writable(mode, accepts, r) && Key(mode, r) == Null then multiset{r.data} else multiset{}
  }

  lemma OneAddsLoose(t: Table, mode: Mode, accepts: Record -> bool, r: Row)
    ensures WriteOne(t, mode, accepts, r).loose == t.loose + LooseOne(mode, accepts, r)
    ensures At(WriteOne(t, mode, accepts, r), Null) == At(t, Null)
  {
  }

  lemma {:induction false} WriteAddsLoose(t: Table, mode: Mode, accepts: Record -> bool, rows: seq<Row>)
    ensures WriteInOrder(t, mode, accepts, rows).loose == t.loose + LooseOf(mode, accepts, rows)
    ensures At(WriteInOrder(t, mode, accepts, rows), Null) == At(t, Null)
  {
    if rows != [] {
      var init, r := rows[..|rows| - 1], rows[|rows| - 1];
      WriteAddsLoose(t, mode, accepts, init);
      OneAddsLoose(WriteInOrder(t, mode, accepts, init), mode, accepts, r);
      hide WriteOne, LooseOne, At;
    }
  }

  lemma {:induction false} LooseAppend(mode: Mode, accepts: Record -> bool, a: seq<Row>, b: seq<Row>)
    ensures LooseOf(mode, accepts, a + b) == LooseOf(mode, accepts, a) + LooseOf(mode, accepts, b)
  {
    if b == [] {
      assert a + b == a;
    } else {
      var n := |b| - 1;
      assert (a + b)[..|a + b| - 1] == a + b[..n] && (a + b)[|a + b| - 1] == b[n];
      LooseAppend(mode, accepts, a, b[..n]);
      hide LooseOne;
    }
  }

  lemma LooseTakeOut(mode: Mode, accepts: Record -> bool, rows: seq<Row>, i: nat)
    requires i < |rows|
    ensures LooseOf(mode, accepts, rows) ==
      LooseOf(mode, accepts, rows[..i] + rows[i + 1..]) + LooseOf(mode, accepts, [rows[i]])
  {
    hide *;
    var a, x, c := rows[..i], [rows[i]], rows[i + 1..];
    assert rows == (a + x) + c;
    LooseAppend(mode, accepts, a + x, c);
    LooseAppend(mode, accepts, a, x);
    LooseAppend(mode, accepts, a, c);
  }

  lemma TakenOut(b: seq<Row>, i: nat)
    requires i < |b|
    ensures multiset(b[..i] + b[i + 1..]) == multiset(b) - multiset{b[i]}
  {
    assert b == b[..i] + [b[i]] + b[i + 1..];
  }

  lemma Locate(a: seq<Row>, b: seq<Row>) returns (i: nat)
    requires a != [] && multiset(a) == multiset(b)
    ensures i < |b| && b[i] == a[0] && multiset(a[1..]) == multiset(b[..i] + b[i + 1..])
  {
    i := Member(a[0], a, b);
    TakenOut(b, i);
    HeadOut(a);
  }

  lemma Member(x: Row, a: seq<Row>, b: seq<Row>) returns (i: nat)
    requires x in a && multiset(a) == multiset(b)
    ensures i < |b| && b[i] == x
  {
    assert x in multiset(b);
    i :| 0 <= i < |b| && b[i] == x;
  }

  lemma HeadOut(a: seq<Row>)
    requires a != []
    ensures multiset(a[1..]) == multiset(a) - multiset{a[0]}
  {
    assert a == [a[0]] + a[1..];
  }

  lemma {:induction false} LoosePermutes(mode: Mode, accepts: Record -> bool, a: seq<Row>, b: seq<Row>)
    requires multiset(a) == multiset(b)
    ensures LooseOf(mode, accepts, a) == LooseOf(mode, accepts, b)
    decreases |a|
  {
    hide *;
    if a == [] {
      assert |b| == |multiset(b)| == |multiset(a)| == 0;
    } else {
      var i := Locate(a, b);
      LoosePermutes(mode, accepts, a[1..], b[..i] + b[i + 1..]);
      LooseTakeOut(mode, accepts, b, i);
      assert a == [a[0]] + a[1..];
      LooseAppend(mode, accepts, [a[0]], a[1..]);
    }
  }

  /** Two write orders that keep, for every non-null key, the rows of that key in the same order leave the
      same table. */
  lemma OrderAcrossKeysIrrelevant(t: Table, mode: Mode, accepts: Record -> bool, a: seq<Row>, b: seq<Row>)
    requires multiset(a) == multiset(b)
    requires forall k :: k != Null ==> WithKey(a, mode, k) == WithKey(b, mode, k)
    ensures WriteInOrder(t, mode, accepts, a) == WriteInOrder(t, mode, accepts, b)
  {
    var x, y := WriteInOrder(t, mode, accepts, a), WriteInOrder(t, mode, accepts, b);
    WriteAddsLoose(t, mode, accepts, a);
    WriteAddsLoose(t, mode, accepts, b);
    LoosePermutes(mode, accepts, a, b);
    forall k ensures At(x, k) == At(y, k) {
      if k != Null {
        WriteActsPerKey(t, mode, accepts, a, k);
        WriteActsPerKey(t, mode, accepts, b, k);
      }
    }
    SameAt(x, y);
  }

  lemma SameAt(x: Table, y: Table)
    requires forall k :: At(x, k) == At(y, k)
    ensures x.keyed == y.keyed
  {
    forall k ensures k in x.keyed <==> k in y.keyed { assert At(x, k) == At(y, k); }
    forall k | k in x.keyed ensures x.keyed[k] == y.keyed[k] { assert At(x, k) == At(y, k); }
  }

  /** The multi-row path writes the groups one after another; that is writing the rows in their order. */
  lemma RegroupedSameTable(t: Table, mode: Mode, accepts: Record -> bool, rows: seq<Row>, order: seq<seq<string>>)
    requires Covers(order, rows) && SameColumnsPerKey(rows, mode)
    ensures WriteInOrder(t, mode, accepts, Regrouped(rows, order)) == WriteInOrder(t, mode, accepts, rows)
  {
    RegroupedPermutes(rows, order);
    forall k | k != Null ensures WithKey(Regrouped(rows, order), mode, k) == WithKey(rows, mode, k) {
      RegroupedKeepsKeys(rows, mode, k, order);
    }
    OrderAcrossKeysIrrelevant(t, mode, accepts, Regrouped(rows, order), rows);
  }

  lemma {:induction false} SortPermutes(rows: seq<Row>, key: string)
    ensures multiset(SortRowsByKey(rows, key)) == multiset(rows)
  {
    if rows != [] {
      var n := |rows| - 1;
      assert rows == rows[..n] + [rows[n]];
      SortPermutes(rows[..n], key);
      InsertSortedPermutes(SortRowsByKey(rows[..n], key), rows[n], key);
    }
  }

  lemma SortedSameTable(t: Table, mode: Mode, accepts: Record -> bool, rows: seq<Row>)
    ensures WriteInOrder(t, mode, accepts, SortRowsByKey(rows, mode.matchOn)) == WriteInOrder(t, mode, accepts, rows)
  {
    var sorted := SortRowsByKey(rows, mode.matchOn);
    SortPermutes(rows, mode.matchOn);
    forall k | k != Null ensures WithKey(sorted, mode, k) == WithKey(rows, mode, k) {
      if mode.insertOnly {
        WithKeyMembers(sorted, mode, k);
        WithKeyMembers(rows, mode, k);
      } else {
        SortKeeps(rows, mode, k);
      }
    }
    OrderAcrossKeysIrrelevant(t, mode, accepts, sorted, rows);
  }

  // ---------------------------------------------------------------- where the two paths part

  /** For an accepted row the statement of the multi-row path does what the per-row path does exactly when
      the row carries the match column (or there is only inserting). */
  lemma PathsAgreeIffKeyed(t: Table, mode: Mode, accepts: Record -> bool, cols: seq<string>, r: Row)
    requires cols != [] && HasColumns(r, cols) && accepts(r.data)
    ensures InsertRecord(t, ConflictFor(mode, cols), r.data) == WriteOne(t, mode, accepts, r) <==> Sendable(mode, r)
  {
    assert cols[0] in r.data;
    if Sendable(mode, r) {
      InsertIsMerge(t, mode, cols, r.data);
    } else {
      assert (t.loose + multiset{r.data})[r.data] == t.loose[r.data] + 1;
    }
  }

  predicate Unconstrained(rec: Record) { true }

  /** Whatever the table: a row is not written when it has no columns, or is to be merged without a match column, one
      that
      is configured and one that it carries; every other row that the table accepts is. */
  lemma UnwrittenIff(mode: Mode, r: Row)
    ensures (forall t :: WriteOne(t, mode, Unconstrained, r) == t) <==>
      r.data == map[] || (!mode.insertOnly && (mode.matchOn == "" || mode.matchOn !in r.data))
  {
    assert r.data == map[] <==> r.data.Keys == {};
    if WriteOne(EMPTY, mode, Unconstrained, r) == EMPTY {
      assert EMPTY.loose[r.data] == 0;
      assert (EMPTY.loose + multiset{r.data})[r.data] == 1;
    }
  }

  /** Without equal columns per key the grouping can change which write comes last. */
  lemma MixedColumnsReorder() returns (mode: Mode, rows: seq<Row>, order: seq<seq<string>>)
    ensures Covers(order, rows) && forall r :: r in rows ==> Sendable(mode, r)
    ensures WriteInOrder(Table(map[], multiset{}), mode, Unconstrained, Regrouped(rows, order))
      != WriteInOrder(Table(map[], multiset{}), mode, Unconstrained, rows)
  {
    var r1, r2, r3 := MixedRows();
    mode, rows, order := Mode("k", false), [r1, r2, r3], [Signature(r1), Signature(r2)];
    hide Signature, GroupOf, Regrouped, WriteInOrder;
    GroupOfThree(r1, r2, r3);
    RegroupedTwo(rows, Signature(r1), Signature(r2));
    assert [r1, r3] + [r2] == [r1, r3, r2];
    LastOfThree(Table(map[], multiset{}), mode, r1, r2, r3);
    LastOfThree(Table(map[], multiset{}), mode, r1, r3, r2);
  }

  lemma MixedRows() returns (r1: Row, r2: Row, r3: Row)
    ensures Signature(r1) == Signature(r3) != Signature(r2)
    ensures forall r :: r in {r1, r2, r3} ==> "k" in r.data && r.data["k"] == Int(7) && "a" in r.data
    ensures r2.data["a"] != r3.data["a"]
  {
    r1 := Row("1", map["k" := Int(7), "a" := Int(1)]);
    r2 := Row("2", map["k" := Int(7), "a" := Int(2), "b" := Int(2)]);
    r3 := Row("3", map["k" := Int(7), "a" := Int(3)]);
    assert r1.data.Keys == {"k", "a"} == r3.data.Keys;
    assert "b" in Signature(r2) && "b" !in Signature(r1);
  }

  lemma RegroupedTwo(rows: seq<Row>, a: seq<string>, b: seq<string>)
    ensures Regrouped(rows, [a, b]) == GroupOf(rows, a) + GroupOf(rows, b)
  {
    assert [a, b][..1] == [a] && [a][..0] == [];
    assert Regrouped(rows, [a]) == [] + GroupOf(rows, a);
  }

  lemma GroupOfThree(r1: Row, r2: Row, r3: Row)
    requires Signature(r1) == Signature(r3) != Signature(r2)
    ensures GroupOf([r1, r2, r3], Signature(r1)) == [r1, r3] && GroupOf([r1, r2, r3], Signature(r2)) == [r2]
  {
    var rows := [r1, r2, r3];
    assert rows[..2] == [r1, r2] && [r1, r2][..1] == [r1] && [r1][..0] == [];
    assert GroupOf([r1], Signature(r1)) == [r1] && GroupOf([r1], Signature(r2)) == [];
    assert GroupOf([r1, r2], Signature(r1)) == [r1] && GroupOf([r1, r2], Signature(r2)) == [r2];
  }

  lemma LastOfThree(t: Table, mode: Mode, a: Row, b: Row, c: Row)
    requires !mode.insertOnly && mode.matchOn == "k" && t.keyed == map[]
    requires forall r :: r in {a, b, c} ==> "k" in r.data && r.data["k"] == Int(7) && "a" in r.data
    ensures var t' := WriteInOrder(t, mode, Unconstrained, [a, b, c]);
      Int(7) in t'.keyed && "a" in t'.keyed[Int(7)] && t'.keyed[Int(7)]["a"] == c.data["a"]
  {
    var rows := [a, b, c];
    assert rows[..2] == [a, b] && [a, b][..1] == [a] && [a][..0] == [];
    var t1 := WriteOne(t, mode, Unconstrained, a);
    var t2 := WriteOne(t1, mode, Unconstrained, b);
    assert WriteInOrder(t, mode, Unconstrained, [a]) == t1 && WriteInOrder(t, mode, Unconstrained, [a, b]) == t2;
  }

  // ---------------------------------------------------------------- exactly when two write orders agree

  /** What the last written row that carries the column says. */
  function LastWritten(mode: Mode, accepts: Record -> bool, rows: seq<Row>, c: string): Option<Value> {
    if rows == [] then None
    else if Writable(mode, accepts, rows[|rows| - 1]) && c in rows[|rows| - 1].data then Some(rows[|rows| - 1].data[c])
    else LastWritten(mode, accepts, rows[..|rows| - 1], c)
  }

  /** Every key's last written value of every column but the match column is the same in both orders. */
  ghost predicate SameLastWrites(mode: Mode, accepts: Record -> bool, a: seq<Row>, b: seq<Row>) {
    forall k, c :: k != Null && c != mode.matchOn ==>
      LastWritten(mode, accepts, WithKey(a, mode, k), c) == LastWritten(mode, accepts, WithKey(b, mode, k), c)
  }

  function Cell(rec: Option<Record>, c: string): Option<Value> {
    if rec.Some? && c in rec.value then Some(rec.value[c]) else None
  }

  ghost predicate OfKey(rows: seq<Row>, mode: Mode, k: Value) { forall r :: r in rows ==> Key(mode, r) == k }

  ghost predicate AnyWritable(mode: Mode, accepts: Record -> bool, rows: seq<Row>) {
    exists r :: r in rows && Writable(mode, accepts, r)
  }

  lemma CellStep(before: Option<Record>, mode: Mode, accepts: Record -> bool, r: Row, k: Value, c: string)
    requires k != Null && Key(mode, r) == k
    ensures var after := KeyStep(before, mode, accepts, r);
      && (after.Some? <==> before.Some? || Writable(mode, accepts, r))
      && Cell(after, c) ==
         if !Writable(mode, accepts, r) then Cell(before, c)
         else if c == mode.matchOn then (if before.Some? then Cell(before, c) else Some(k))
         else if c in r.data then Some(r.data[c]) else Cell(before, c)
  {
  }

  /** The record of a key after its rows: its own match column, and the last written value of every other. */
  lemma {:induction false} CellAfter(before: Option<Record>, mode: Mode, accepts: Record -> bool, rows: seq<Row>,
                                     k: Value, c: string)
    requires k != Null && OfKey(rows, mode, k)
    ensures var after, last := KeyAfter(before, mode, accepts, rows), LastWritten(mode, accepts, rows, c);
      && (after.Some? <==> before.Some? || AnyWritable(mode, accepts, rows))
      && Cell(after, c) ==
         if c == mode.matchOn then
           (if before.Some? then Cell(before, c) else if AnyWritable(mode, accepts, rows) then Some(k) else None)
         else if last.Some? then last else Cell(before, c)
  {
    if rows != [] {
      var init, r := rows[..|rows| - 1], rows[|rows| - 1];
      assert rows == init + [r];
      assert Key(mode, r) == k && OfKey(init, mode, k) by { assert r in rows; }
      CellAfter(before, mode, accepts, init, k, c);
      CellStep(KeyAfter(before, mode, accepts, init), mode, accepts, r, k, c);
      assert AnyWritable(mode, accepts, rows) <==> AnyWritable(mode, accepts, init) || Writable(mode, accepts, r);
      hide KeyStep, Writable, Key;
    }
  }

  lemma SameCells(x: Option<Record>, y: Option<Record>)
    requires (x.Some? <==> y.Some?) && forall c :: Cell(x, c) == Cell(y, c)
    ensures x == y
  {
    if x.Some? {
      forall c ensures (c in x.value <==> c in y.value) && (c in x.value ==> x.value[c] == y.value[c]) {
        assert Cell(x, c) == Cell(y, c);
      }
      assert x.value == y.value;
    }
  }

  lemma {:induction false} WithKeyOfKey(rows: seq<Row>, mode: Mode, k: Value)
    ensures OfKey(WithKey(rows, mode, k), mode, k)
    ensures forall r :: r in WithKey(rows, mode, k) <==> r in rows && Key(mode, r) == k
  {
    if rows != [] {
      var n := |rows| - 1;
      assert rows == rows[..n] + [rows[n]];
      WithKeyOfKey(rows[..n], mode, k);
    }
  }

  lemma SameWritable(mode: Mode, accepts: Record -> bool, a: seq<Row>, b: seq<Row>, k: Value)
    requires multiset(a) == multiset(b)
    ensures AnyWritable(mode, accepts, WithKey(a, mode, k)) <==> AnyWritable(mode, accepts, WithKey(b, mode, k))
  {
    WithKeyOfKey(a, mode, k);
    WithKeyOfKey(b, mode, k);
    forall r ensures r in a <==> r in b { assert r in a <==> r in multiset(a); assert r in b <==> r in multiset(b); }
  }

  /** One key's record is the same after both orders, whatever it was, exactly when the last writes agree. */
  lemma SameRecord(mode: Mode, accepts: Record -> bool, a: seq<Row>, b: seq<Row>, k: Value, before: Option<Record>)
    requires multiset(a) == multiset(b) && k != Null
    requires forall c :: c != mode.matchOn ==>
      LastWritten(mode, accepts, WithKey(a, mode, k), c) == LastWritten(mode, accepts, WithKey(b, mode, k), c)
    ensures KeyAfter(before, mode, accepts, WithKey(a, mode, k)) == KeyAfter(before, mode, accepts, WithKey(b, mode, k))
  {
    var x, y := KeyAfter(before, mode, accepts, WithKey(a, mode, k)),
      KeyAfter(before, mode, accepts, WithKey(b, mode, k));
    WithKeyOfKey(a, mode, k);
    WithKeyOfKey(b, mode, k);
    SameWritable(mode, accepts, a, b, k);
    hide WithKey, KeyAfter, LastWritten, AnyWritable, OfKey, Cell;
    forall c ensures Cell(x, c) == Cell(y, c) && (x.Some? <==> y.Some?) {
      CellAfter(before, mode, accepts, WithKey(a, mode, k), k, c);
      CellAfter(before, mode, accepts, WithKey(b, mode, k), k, c);
    }
    CellAfter(before, mode, accepts, WithKey(a, mode, k), k, "");
    CellAfter(before, mode, accepts, WithKey(b, mode, k), k, "");
    SameCells(x, y);
  }

  const EMPTY := Table(map[], multiset{})

  lemma SameTableWhen(t: Table, mode: Mode, accepts: Record -> bool, a: seq<Row>, b: seq<Row>)
    requires multiset(a) == multiset(b) && SameLastWrites(mode, accepts, a, b)
    ensures WriteInOrder(t, mode, accepts, a) == WriteInOrder(t, mode, accepts, b)
  {
    var x, y := WriteInOrder(t, mode, accepts, a), WriteInOrder(t, mode, accepts, b);
    WriteAddsLoose(t, mode, accepts, a);
    WriteAddsLoose(t, mode, accepts, b);
    LoosePermutes(mode, accepts, a, b);
    hide WriteInOrder, LooseOf, At, KeyAfter;
    forall k ensures At(x, k) == At(y, k) {
      if k != Null {
        WriteActsPerKey(t, mode, accepts, a, k);
        WriteActsPerKey(t, mode, accepts, b, k);
        SameRecord(mode, accepts, a, b, k, At(t, k));
      }
    }
    SameAt(x, y);
  }

  lemma LastWritesShow(mode: Mode, accepts: Record -> bool, a: seq<Row>, k: Value, c: string)
    requires k != Null && c != mode.matchOn
    ensures Cell(At(WriteInOrder(EMPTY, mode, accepts, a), k), c) == LastWritten(mode, accepts, WithKey(a, mode, k), c)
  {
    WithKeyOfKey(a, mode, k);
    WriteActsPerKey(EMPTY, mode, accepts, a, k);
    CellAfter(None, mode, accepts, WithKey(a, mode, k), k, c);
    assert At(EMPTY, k) == None;
    hide WriteInOrder, KeyAfter, WithKey;
  }

  /** Whatever the table was, both orders leave the same one. */
  ghost predicate AlwaysSameTable(mode: Mode, accepts: Record -> bool, a: seq<Row>, b: seq<Row>) {
    forall t :: WriteInOrder(t, mode, accepts, a) == WriteInOrder(t, mode, accepts, b)
  }

  /** Two orders of the same rows leave every table alike exactly when, for every non-null key and every column
      other than the match column, the last written value is the same. */
  lemma SameTableIff(mode: Mode, accepts: Record -> bool, a: seq<Row>, b: seq<Row>)
    requires multiset(a) == multiset(b)
    ensures AlwaysSameTable(mode, accepts, a, b) <==> SameLastWrites(mode, accepts, a, b)
  {
    hide WriteInOrder, SameLastWrites;
    if SameLastWrites(mode, accepts, a, b) {
      forall t ensures WriteInOrder(t, mode, accepts, a) == WriteInOrder(t, mode, accepts, b) {
        SameTableWhen(t, mode, accepts, a, b);
      }
    }
    if AlwaysSameTable(mode, accepts, a, b) {
      EmptyTableShows(mode, accepts, a, b);
    }
  }

  lemma EmptyTableShows(mode: Mode, accepts: Record -> bool, a: seq<Row>, b: seq<Row>)
    requires WriteInOrder(EMPTY, mode, accepts, a) == WriteInOrder(EMPTY, mode, accepts, b)
    ensures SameLastWrites(mode, accepts, a, b)
  {
    hide WriteInOrder, LastWritten, WithKey;
    forall k, c | k != Null && c != mode.matchOn
      ensures LastWritten(mode, accepts, WithKey(a, mode, k), c) == LastWritten(mode, accepts, WithKey(b, mode, k), c)
    {
      LastWritesShow(mode, accepts, a, k, c);
      LastWritesShow(mode, accepts, b, k, c);
    }
  }

  /** The grouping of the multi-row path keeps every table's result exactly when it keeps the last writes. */
  lemma RegroupedSameTableIff(mode: Mode, accepts: Record -> bool, rows: seq<Row>, order: seq<seq<string>>)
    requires Covers(order, rows)
    ensures AlwaysSameTable(mode, accepts, Regrouped(rows, order), rows)
      <==> SameLastWrites(mode, accepts, Regrouped(rows, order), rows)
  {
    RegroupedPermutes(rows, order);
    SameTableIff(mode, accepts, Regrouped(rows, order), rows);
  }
}
