/** The INSERT statements the Postgres destination generates, with their meaning on a table. */
module SqlInsert {

  datatype Value = Null | Int(n: int) | Str(s: string)

  type Record = map<string, Value>

  datatype Conflict = NoClause | DoNothing(key: string) | DoUpdate(key: string, targets: seq<string>)

  /** INSERT (cols) VALUES tuples, each a list of placeholder numbers, and the conflict clause. */
  datatype Insert = Insert(cols: seq<string>, tuples: seq<seq<nat>>, conflict: Conflict)

  /** Records by the value of the unique key, and the bag of records that no key value identifies. */
  datatype Table = Table(keyed: map<Value, Record>, loose: multiset<Record>)

  function Column(rec: Record, c: string): Value { if c in rec then rec[c] else Null }

  function Assigned(rec: Record, cols: seq<string>): Record {
    map c | c in rec && c in cols :: rec[c]
  }

  function InsertRecord(t: Table, conflict: Conflict, rec: Record): Table {
    if conflict.NoClause? || Column(rec, conflict.key) == Null then t.(loose := t.loose + multiset{rec})
    else
      var k := Column(rec, conflict.key);
      if k !in t.keyed then t.(keyed := t.keyed[k := rec])
      else if conflict.DoNothing? then t
      else t.(keyed := t.keyed[k := t.keyed[k] + Assigned(rec, conflict.targets)])
  }

  function InsertAll(t: Table, conflict: Conflict, recs: seq<Record>): Table {
    if recs == [] then t
    else InsertRecord(InsertAll(t, conflict, recs[..|recs| - 1]), conflict, recs[|recs| - 1])
  }

  /** No two records share a key value; SQL nulls never do. */
  predicate DistinctKeys(recs: seq<Record>, key: string) {
    forall i, j :: 0 <= i < j < |recs| && Column(recs[i], key) != Null ==> Column(recs[i], key) != Column(recs[j], key)
  }

  /** ON CONFLICT DO UPDATE cannot affect one row twice in one statement. */
  predicate AffectsTwice(conflict: Conflict, recs: seq<Record>) {
    conflict.DoUpdate? && !DistinctKeys(recs, conflict.key)
  }

  predicate WellFormed(stmt: Insert, args: seq<Value>) {
    forall i :: 0 <= i < |stmt.tuples| ==> Resolvable(stmt.cols, stmt.tuples[i], |args|)
  }

  predicate Resolvable(cols: seq<string>, tuple: seq<nat>, n: nat) {
    |tuple| == |cols| && forall j :: 0 <= j < |tuple| ==> 1 <= tuple[j] <= n
  }

  /** The record of one tuple: every column gets the argument its placeholder numbers. */
  function TupleRecord(cols: seq<string>, tuple: seq<nat>, args: seq<Value>): Record
    requires Resolvable(cols, tuple, |args|)
  {
    if cols == [] then map[]
    else
      var n := |cols| - 1;
      TupleRecord(cols[..n], tuple[..n], args)[cols[n] := args[tuple[n] - 1]]
  }

  function Records(stmt: Insert, args: seq<Value>): seq<Record>
    requires WellFormed(stmt, args)
  {
    seq(|stmt.tuples|, i requires 0 <= i < |stmt.tuples| => TupleRecord(stmt.cols, stmt.tuples[i], args))
  }

  datatype Outcome = Executed | Refused | Fatal

  /** A statement as the server received it. */
  datatype Sent = Sent(conflict: Conflict, records: seq<Record>, parameters: nat)

  class Db {
    var table: Table
    ghost var log: seq<Sent>
    /** The constraints of the table on one record: types, checks, not-null columns. */
    const accepts: Record -> bool

    constructor (accepts: Record -> bool)
      ensures table == Table(map[], multiset{}) && log == [] && this.accepts == accepts
    {
      this.accepts, table, log := accepts, Table(map[], multiset{}), [];
    }

    /** A refused statement changes nothing; the connection can be lost at any statement. */
    method Exec(stmt: Insert, args: seq<Value>) returns (o: Outcome)
      requires WellFormed(stmt, args)
      modifies this
      ensures log == old(log) + [Sent(stmt.conflict, Records(stmt, args), |args|)]
      ensures o.Executed? ==> table == InsertAll(old(table), stmt.conflict, Records(stmt, args))
      ensures !o.Executed? ==> table == old(table)
      ensures o.Executed? || o.Refused? ==>
        (o.Executed? <==>
          !AffectsTwice(stmt.conflict, Records(stmt, args)) && forall r :: r in Records(stmt, args) ==> accepts(r))
    {
      var recs := Records(stmt, args);
      log := log + [Sent(stmt.conflict, recs, |args|)];
      var lost := *;
      if lost {
        return Fatal;
      }
      if AffectsTwice(stmt.conflict, recs) || exists r :: r in recs && !accepts(r) {
        return Refused;
      }
      table := InsertAll(table, stmt.conflict, recs);
      return Executed;
    }
  }

  lemma {:induction false} InsertAllAppend(t: Table, conflict: Conflict, a: seq<Record>, b: seq<Record>)
    ensures InsertAll(t, conflict, a + b) == InsertAll(InsertAll(t, conflict, a), conflict, b)
  {
    if b == [] {
      assert a + b == a;
    } else {
      var n := |b| - 1;
      assert (a + b)[..|a + b| - 1] == a + b[..n] && (a + b)[|a + b| - 1] == b[n];
      InsertAllAppend(t, conflict, a, b[..n]);
    }
  }

  lemma {:induction false} TupleRecordLonger(cols: seq<string>, tuple: seq<nat>, args: seq<Value>, more: seq<Value>)
    requires Resolvable(cols, tuple, |args|)
    ensures Resolvable(cols, tuple, |args + more|)
    ensures TupleRecord(cols, tuple, args + more) == TupleRecord(cols, tuple, args)
  {
    if cols != [] {
      var n := |cols| - 1;
      TupleRecordLonger(cols[..n], tuple[..n], args, more);
      assert (args + more)[tuple[n] - 1] == args[tuple[n] - 1];
    }
  }
}
