/** The engine over a destination that keeps a delivery log: operations are named by entity, action and
    fingerprint, and a named operation is loaded once for ever. What does the destination hold after a run? */
module Redelivery {
  import opened Common
  import opened Json
  import opened Diff
  import opened Decision
  import opened Fingerprint
  import opened Safety
  import opened EngineSpec
  import opened EngineRuns
  import opened EngineReruns

  datatype OpKey = OpKey(entity: string, action: string, fp: string)

  function OpOf(p: Pending): OpKey { OpKey(p.key, p.plan.action, p.fp) }

  /** The engine's store, the operations logged as delivered, and the last one accepted for each entity. */
  datatype World = World(store: Store, log: set<OpKey>, held: map<string, OpKey>)

  /** What the destination answers: skipped when logged, loaded otherwise. */
  function Answer(log: set<OpKey>, p: Pending): Outcome {
    if OpOf(p) in log then Returned(0, 1, 0) else Returned(1, 0, 0)
  }

  /** The answers of a run. Its operations are of different entities, so the log at the start decides. */
  ghost predicate Answers(log: set<OpKey>, pending: seq<Pending>, lucks: seq<Luck>) {
    |lucks| == |pending| && forall j :: 0 <= j < |pending| ==> lucks[j].outcome == Answer(log, pending[j])
  }

  /** The log and the held operations after some loads. */
  function Loaded(w: World, sent: seq<Pending>): World {
    if sent == [] then w
    else
      var before, p := Loaded(w, sent[..|sent| - 1]), sent[|sent| - 1];
      if OpOf(p) in before.log then before
      else before.(log := before.log + {OpOf(p)}, held := before.held[p.key := OpOf(p)])
  }

  function HeldOf(w: World, key: string): Option<OpKey> { if key in w.held then Some(w.held[key]) else None }

  lemma LoadedSnoc(w: World, sent: seq<Pending>, p: Pending)
    ensures var before := Loaded(w, sent);
      Loaded(w, sent + [p]) ==
      if OpOf(p) in before.log then before
      else before.(log := before.log + {OpOf(p)}, held := before.held[p.key := OpOf(p)])
  {
    assert (sent + [p])[..|sent|] == sent;
  }

  /** What one more delivery sends. */
  function Sends(sync: Sync, counts: Counts, p: Pending): seq<Pending> {
    if sync.hasDest && Allowed(sync.limits, p.plan.action, counts) then [p] else []
  }

  lemma SendsSnoc(sync: Sync, store: Store, pending: seq<Pending>, lucks: seq<Luck>)
    requires |lucks| == |pending| && pending != []
    ensures var n := |pending| - 1; var a := DeliverAll(sync, store, pending[..n], lucks[..n]);
      DeliverAll(sync, store, pending, lucks).sent == a.sent + Sends(sync, a.counts, pending[n])
  {
    var n := |pending| - 1;
    var a := DeliverAll(sync, store, pending[..n], lucks[..n]);
    assert DeliverAll(sync, store, pending, lucks) == DeliverOne(sync, a, pending[n], lucks[n]);
    hide DeliverAll;
  }

  /** What one more delivery changes for an operation of its own entity, and for those of others. */
  lemma LoadedStep(sync: Sync, w: World, pending: seq<Pending>, lucks: seq<Luck>, key: string, op: OpKey)
    requires |lucks| == |pending| && pending != [] && op.entity == key
    ensures var n := |pending| - 1;
      var a := DeliverAll(sync, w.store, pending[..n], lucks[..n]);
      var before, after := Loaded(w, a.sent), Loaded(w, DeliverAll(sync, w.store, pending, lucks).sent);
      var last := OpOf(pending[n]);
      && (op in after.log <==> op in before.log || (op == last && Sends(sync, a.counts, pending[n]) != []))
      && (pending[n].key != key || Sends(sync, a.counts, pending[n]) == [] ==>
        HeldOf(after, key) == HeldOf(before, key))
      && (pending[n].key == key && Sends(sync, a.counts, pending[n]) != [] ==>
          HeldOf(after, key) == if last in before.log then HeldOf(before, key) else Some(last))
  {
    hide DeliverAll, Loaded, Allowed;
    var n := |pending| - 1;
    var a := DeliverAll(sync, w.store, pending[..n], lucks[..n]);
    SendsSnoc(sync, w.store, pending, lucks);
    LoadedSnoc(w, a.sent, pending[n]);
    assert a.sent + [] == a.sent;
  }

  lemma NothingLoaded(sync: Sync, w: World)
    ensures Loaded(w, DeliverAll(sync, w.store, [], []).sent) == w
  {
  }

  /** Deliveries of other entities change neither what is held for an entity nor which of its operations are
      logged. */
  lemma {:induction false} OthersLoaded(sync: Sync, w: World, pending: seq<Pending>, lucks: seq<Luck>, key: string,
                                        op: OpKey)
    requires |lucks| == |pending| && (forall p :: p in pending ==> p.key != key) && op.entity == key
    ensures var after := Loaded(w, DeliverAll(sync, w.store, pending, lucks).sent);
      HeldOf(after, key) == HeldOf(w, key) && (op in after.log <==> op in w.log)
  {
    hide DeliverAll, Loaded;
    if pending == [] {
      NothingLoaded(sync, w);
    } else {
      var n := |pending| - 1;
      assert pending[n] in pending && forall p :: p in pending[..n] ==> p in pending;
      OthersLoaded(sync, w, pending[..n], lucks[..n], key, op);
      LoadedStep(sync, w, pending, lucks, key, op);
    }
  }

  /** The delivery was tried: there is a destination and no limit was in the way. */
  predicate Tried(sync: Sync, store: Store, pending: seq<Pending>, lucks: seq<Luck>, j: nat)
    requires |lucks| == |pending| && j < |pending|
  {
    sync.hasDest && Allowed(sync.limits, pending[j].plan.action, Before(sync, store, pending, lucks, j).counts)
  }

  lemma {:induction false} LoadedOne(sync: Sync, w: World, pending: seq<Pending>, lucks: seq<Luck>, j: nat)
    requires |lucks| == |pending| && j < |pending| && PendingKeysDistinct(pending)
    ensures var p := pending[j];
      var after := Loaded(w, DeliverAll(sync, w.store, pending, lucks).sent);
      if Tried(sync, w.store, pending, lucks, j)
      then OpOf(p) in after.log
           && HeldOf(after, p.key) == (if OpOf(p) in w.log then HeldOf(w, p.key) else Some(OpOf(p)))
      else (OpOf(p) in after.log <==> OpOf(p) in w.log) && HeldOf(after, p.key) == HeldOf(w, p.key)
    decreases |pending|
  {
    hide DeliverAll, Loaded, Allowed;
    var n := |pending| - 1;
    LoadedStep(sync, w, pending, lucks, pending[j].key, OpOf(pending[j]));
    if j == n {
      OthersLoaded(sync, w, pending[..n], lucks[..n], pending[n].key, OpOf(pending[n]));
    } else {
      assert pending[..n][..j] == pending[..j] && lucks[..n][..j] == lucks[..j];
      LoadedOne(sync, w, pending[..n], lucks[..n], j);
    }
  }

  /** After a run that tried to deliver an entity, the destination holds what was decided iff that operation had not
      been logged, or was the last one accepted for the entity anyway. */
  lemma HeldIff(sync: Sync, w: World, pending: seq<Pending>, lucks: seq<Luck>, j: nat)
    requires |lucks| == |pending| && j < |pending| && PendingKeysDistinct(pending) &&
      Tried(sync, w.store, pending, lucks, j)
    ensures var op := OpOf(pending[j]);
      HeldOf(Loaded(w, DeliverAll(sync, w.store, pending, lucks).sent), pending[j].key) == Some(op)
      <==> op !in w.log || HeldOf(w, pending[j].key) == Some(op)
  {
    LoadedOne(sync, w, pending, lucks, j);
  }

  // ---------------------------------------------------------------- whole runs

  ghost predicate ProperRun(sync: Sync, w: World, run: Run) {
    && Proper(sync, w.store, run) && sync.hasDest
    && Answers(w.log, DecideAll(sync, w.store, run.rows, run.xs).pending[..|run.lucks|], run.lucks)
  }

  ghost function AfterRun(sync: Sync, w: World, run: Run): World
    requires ProperRun(sync, w, run)
  {
    var a := Delivering(sync, w.store, run);
    Loaded(w, a.sent).(store := a.store)
  }

  ghost predicate AllProperRuns(sync: Sync, w: World, runs: seq<Run>)
    decreases |runs|, 0
  {
    runs == [] ||
    var n := |runs| - 1;
    AllProperRuns(sync, w, runs[..n]) && ProperRun(sync, AfterRuns(sync, w, runs[..n]), runs[n])
  }

  ghost function AfterRuns(sync: Sync, w: World, runs: seq<Run>): World
    requires AllProperRuns(sync, w, runs)
    decreases |runs|, 1
  {
    if runs == [] then w else AfterRun(sync, AfterRuns(sync, w, runs[..|runs| - 1]), runs[|runs| - 1])
  }

  /** The row asks for an operation that is logged, while the destination holds another one for the entity. */
  ghost predicate Stuck(sync: Sync, w: World, data: Payload, key: string, op: OpKey) {
    && KeyOf(sync, data) == Some(key) && op.entity == key && op in w.log && HeldOf(w, key) != Some(op)
    && forall x: Reading :: x.stateRead && x.unread == {} ==>
         DecideRow(sync, w.store, data, x).Pends? && OpOf(DecideRow(sync, w.store, data, x).p) == op
  }

  /** The action and the fingerprint do not depend on the clock, and on the entity's own state only. */
  lemma SameOperation(sync: Sync, store: Store, later: Store, data: Payload, x: Reading, y: Reading)
    requires x.stateRead && x.unread == {} && y.stateRead && y.unread == {} && DecideRow(sync, store, data, x).Pends?
    requires StateOf(later, KeyOf(sync, data).value) == StateOf(store, KeyOf(sync, data).value)
    requires forall rule :: (KeyOf(sync, data).value, rule) in later.fired <==>
      (KeyOf(sync, data).value, rule) in store.fired
    ensures DecideRow(sync, later, data, y).Pends? && OpOf(DecideRow(sync, later, data, y).p) ==
      OpOf(DecideRow(sync, store, data, x).p)
  {
    var key, mapped := KeyOf(sync, data).value, Mapped(data, sync.mapping);
    var c, d := CaseOf(sync, store, key, mapped, x), CaseOf(sync, later, key, mapped, y);
    assert forall name :: c.fired(name) == d.fired(name);
    SameAction(sync.decisions, c, d);
    AllAnswered(sync.decisions, c);
  }

  /** A logged operation is answered with a skip: nothing is saved and nothing marked. */
  lemma LoggedLeavesAlone(sync: Sync, a: Progress, p: Pending, luck: Luck)
    requires luck.outcome == Returned(0, 1, 0) && sync.hasDest
    ensures SavedStatus(sync, a, p, luck).None? && !KeptMarks(sync, a, p, luck)
  {
  }

  lemma StuckEntity(sync: Sync, w: World, run: Run, data: Payload, key: string, op: OpKey, i: nat)
    requires ProperRun(sync, w, run) && AllRead(run.xs) && i < |run.rows| && run.rows[i] == data &&
      Stuck(sync, w, data, key, op)
    ensures var after := AfterRun(sync, w, run);
      && StateOf(after.store, key) == StateOf(w.store, key) && HeldOf(after, key) == HeldOf(w, key) && op in after.log
      && forall rule :: (key, rule) in after.store.fired <==> (key, rule) in w.store.fired
  {
    if run.passes {
      var all := DecideAll(sync, w.store, run.rows, run.xs).pending;
      var pending, v := all[..|run.lucks|], DecideRow(sync, w.store, data, run.xs[i]);
      DistinctRowsDistinctPending(sync, w.store, run.rows, run.xs);
      PendsItsKey(sync, w.store, data, run.xs[i]);
      if v.p in pending {
        var j :| 0 <= j < |pending| && pending[j] == v.p;
        hide DecideAll, DecideRow, DeliverAll, Loaded;
        LoadedOne(sync, w, pending, run.lucks, j);
        LoggedLeavesAlone(sync, Before(sync, w.store, pending, run.lucks, j), v.p, run.lucks[j]);
        RunLeaves(sync, w.store, pending, run.lucks, j, "");
        forall rule ensures (key, rule) in DeliverAll(sync, w.store, pending, run.lucks).store.fired <==>
          (key, rule) in w.store.fired {
          RunLeaves(sync, w.store, pending, run.lucks, j, rule);
        }
      } else {
        forall p | p in pending ensures p.key != key {
          var j := PendingFromRow(sync, w.store, run.rows, run.xs, p);
          assert j != i;
        }
        hide DecideAll, DecideRow, DeliverAll, Loaded;
        OthersLoaded(sync, w, pending, run.lucks, key, op);
        forall rule ensures (key, rule) in DeliverAll(sync, w.store, pending, run.lucks).store.fired <==>
          (key, rule) in w.store.fired {
          OthersKeepTheirState(sync, w.store, pending, run.lucks, key, rule);
        }
        OthersKeepTheirState(sync, w.store, pending, run.lucks, key, "");
      }
    }
  }

  lemma StuckKept(sync: Sync, w: World, run: Run, data: Payload, key: string, op: OpKey)
    requires ProperRun(sync, w, run) && AllRead(run.xs) && data in run.rows && Stuck(sync, w, data, key, op)
    ensures Stuck(sync, AfterRun(sync, w, run), data, key, op)
  {
    var i :| 0 <= i < |run.rows| && run.rows[i] == data;
    StuckEntity(sync, w, run, data, key, op, i);
    var after := AfterRun(sync, w, run);
    hide AfterRun, DecideRow, ProperRun;
    forall x: Reading | x.stateRead && x.unread == {}
      ensures DecideRow(sync, after.store, data, x).Pends? && OpOf(DecideRow(sync, after.store, data, x).p) == op
    {
      SameOperation(sync, w.store, after.store, data, x, x);
    }
  }

  /** As long as the row stays as it is, the operation is decided on in every run and never reaches the destination
      again. */
  lemma {:induction false} StuckForEver(sync: Sync, w: World, runs: seq<Run>, data: Payload, key: string, op: OpKey)
    requires AllProperRuns(sync, w, runs) && Stuck(sync, w, data, key, op)
    requires forall run :: run in runs ==> AllRead(run.xs) && data in run.rows
    ensures Stuck(sync, AfterRuns(sync, w, runs), data, key, op)
  {
    if runs != [] {
      var n := |runs| - 1;
      assert runs[n] in runs && forall run :: run in runs[..n] ==> run in runs;
      StuckForEver(sync, w, runs[..n], data, key, op);
      StuckKept(sync, AfterRuns(sync, w, runs[..n]), runs[n], data, key, op);
    }
  }

  // ---------------------------------------------------------------- there and back again

  /** The delivery of the payload of a row. */
  ghost function Upsert(data: Payload): OpKey
    requires KeyOf(WHEN_CHANGED, data).Some?
  {
    OpKey(KeyOf(WHEN_CHANGED, data).value, "upsert", FingerprintOf(WHEN_CHANGED, data))
  }

  /** The stored fingerprint is not the one of the row. */
  ghost predicate Changed(store: Store, data: Payload)
    requires KeyOf(WHEN_CHANGED, data).Some?
  {
    FpOf(StateOf(store, KeyOf(WHEN_CHANGED, data).value)) != FingerprintOf(WHEN_CHANGED, data)
  }

  lemma ChangedPends(store: Store, data: Payload, x: Reading)
    requires KeyOf(WHEN_CHANGED, data).Some? && Changed(store, data) && x.stateRead
    ensures var v := DecideRow(WHEN_CHANGED, store, data, x); v.Pends? && OpOf(v.p) == Upsert(data)
  {
    var c := CaseOf(WHEN_CHANGED, store, KeyOf(WHEN_CHANGED, data).value, Mapped(data, []), x);
    assert EvalWhen(Plainly, CHANGED, c.input);
    assert Decides(WHEN_CHANGED.decisions, c, 0) && Answered(WHEN_CHANGED.decisions, c, 1);
    ByDecider(WHEN_CHANGED.decisions, c, 0, Some(PlanOf(WHEN_CHANGED.decisions, c, WHEN_CHANGED.decisions.rules[0])));
  }

  /** A run over one row in which nothing goes wrong. */
  function RunOf(data: Payload, x: Reading): Run {
    Run([data], [x], true, [Luck(Returned(1, 0, 0), true, true, true)])
  }

  /** A changed row whose delivery is not logged is delivered, stored and held. */
  lemma FreshRun(w: World, data: Payload, x: Reading)
    requires KeyOf(WHEN_CHANGED, data).Some? && Changed(w.store, data) && x.stateRead && Upsert(data) !in w.log
    ensures ProperRun(WHEN_CHANGED, w, RunOf(data, x))
    ensures var after := AfterRun(WHEN_CHANGED, w, RunOf(data, x)); var key := KeyOf(WHEN_CHANGED, data).value;
      && FpOf(StateOf(after.store, key)) == FingerprintOf(WHEN_CHANGED, data)
      && after.log == w.log + {Upsert(data)} && HeldOf(after, key) == Some(Upsert(data))
  {
    var run := RunOf(data, x);
    var luck := run.lucks[0];
    ChangedPends(w.store, data, x);
    PendsItsKey(WHEN_CHANGED, w.store, data, x);
    OneDecision(WHEN_CHANGED, w.store, data, x);
    var p := DecideRow(WHEN_CHANGED, w.store, data, x).p;
    hide DecideRow, DecideAll, DeliverAll, DeliverOne, KeyOf, FingerprintOf, Loaded;
    assert DecideAll(WHEN_CHANGED, w.store, run.rows, run.xs).pending == [p];
    SingleRow(WHEN_CHANGED, data);
    OneDelivery(WHEN_CHANGED, w.store, p, luck);
    OneSent(w, p, luck);
  }

  lemma SingleRow(sync: Sync, data: Payload)
    ensures KeysDistinct(sync, [data])
  {
  }

  lemma OneSent(w: World, p: Pending, luck: Luck)
    requires luck == Luck(Returned(1, 0, 0), true, true, true) && OpOf(p) !in w.log
    ensures var a := DeliverOne(WHEN_CHANGED, Started(w.store), p, luck);
      && FpOf(StateOf(a.store, p.key)) == p.fp
      && Loaded(w, a.sent) == w.(log := w.log + {OpOf(p)}, held := w.held[p.key := OpOf(p)])
  {
    LoadedSnoc(w, [], p);
    assert [] + [p] == [p];
    StepLeaves(WHEN_CHANGED, Started(w.store), p, luck);
  }

  const EMPTY := World(NOTHING, {}, map[])

  /** A payload, then another one, then the first again: after two runs without any failure the third asks for an
      operation that is logged, and the destination keeps the second payload. */
  lemma ThereAndBack(a: Payload, b: Payload, key: string, x: Reading, y: Reading)
    requires KeyOf(WHEN_CHANGED, a) == Some(key) && KeyOf(WHEN_CHANGED, b) == Some(key) && x.stateRead && y.stateRead
    requires FingerprintOf(WHEN_CHANGED, a) != FingerprintOf(WHEN_CHANGED, b)
    ensures AllProperRuns(WHEN_CHANGED, EMPTY, [RunOf(a, x), RunOf(b, y)])
    ensures var w := AfterRuns(WHEN_CHANGED, EMPTY, [RunOf(a, x), RunOf(b, y)]);
      HeldOf(w, key) == Some(Upsert(b)) && Stuck(WHEN_CHANGED, w, a, key, Upsert(a))
  {
    FirstPayload(a, key, x);
    var w1 := AfterRun(WHEN_CHANGED, EMPTY, RunOf(a, x));
    hide AfterRun, ProperRun, KeyOf, FingerprintOf, DecideRow, Stuck, AfterRuns, AllProperRuns;
    FreshRun(w1, b, y);
    TwoRuns(EMPTY, RunOf(a, x), RunOf(b, y));
    BackIsStuck(AfterRun(WHEN_CHANGED, w1, RunOf(b, y)), a, b, key);
  }

  lemma FirstPayload(a: Payload, key: string, x: Reading)
    requires KeyOf(WHEN_CHANGED, a) == Some(key) && x.stateRead
    ensures ProperRun(WHEN_CHANGED, EMPTY, RunOf(a, x))
    ensures var after := AfterRun(WHEN_CHANGED, EMPTY, RunOf(a, x));
      FpOf(StateOf(after.store, key)) == FingerprintOf(WHEN_CHANGED, a) && after.log == {Upsert(a)}
  {
    hide AfterRun, ProperRun, KeyOf, DecideRow;
    FingerprintIsText(WHEN_CHANGED, a);
    FreshRun(EMPTY, a, x);
  }

  lemma BackIsStuck(w: World, a: Payload, b: Payload, key: string)
    requires KeyOf(WHEN_CHANGED, a) == Some(key) && KeyOf(WHEN_CHANGED, b) == Some(key)
    requires FingerprintOf(WHEN_CHANGED, a) != FingerprintOf(WHEN_CHANGED, b)
    requires FpOf(StateOf(w.store, key)) == FingerprintOf(WHEN_CHANGED, b)
    requires Upsert(a) in w.log && HeldOf(w, key) == Some(Upsert(b))
    ensures Stuck(WHEN_CHANGED, w, a, key, Upsert(a))
  {
    hide KeyOf, FingerprintOf, DecideRow;
    forall z: Reading | z.stateRead && z.unread == {}
      ensures DecideRow(WHEN_CHANGED, w.store, a, z).Pends? &&
        OpOf(DecideRow(WHEN_CHANGED, w.store, a, z).p) == Upsert(a)
    {
      ChangedPends(w.store, a, z);
    }
  }

  lemma TwoRuns(w: World, first: Run, second: Run)
    requires ProperRun(WHEN_CHANGED, w, first) && ProperRun(WHEN_CHANGED, AfterRun(WHEN_CHANGED, w, first), second)
    ensures AllProperRuns(WHEN_CHANGED, w, [first, second])
    ensures AfterRuns(WHEN_CHANGED, w, [first, second]) ==
      AfterRun(WHEN_CHANGED, AfterRun(WHEN_CHANGED, w, first), second)
  {
    hide ProperRun, AfterRun;
    assert [first, second][..1] == [first] && [first][..0] == [];
    assert AllProperRuns(WHEN_CHANGED, w, []);
    assert AllProperRuns(WHEN_CHANGED, w, [first]);
  }

  /** Two such payloads. */
  lemma SamplePayloads()
    ensures KeyOf(WHEN_CHANGED, A) == Some("k") == KeyOf(WHEN_CHANGED, B)
    ensures FingerprintOf(WHEN_CHANGED, A) != FingerprintOf(WHEN_CHANGED, B)
  {
    hide FingerprintOf;
    DifferentFingerprints();
  }

  const A: Payload := map["id" := Str("k"), "v" := Str("a")]
  const B: Payload := map["id" := Str("k"), "v" := Str("b")]

  lemma DifferentFingerprints()
    ensures FingerprintOf(WHEN_CHANGED, A) != FingerprintOf(WHEN_CHANGED, B)
  {
    hide PreHash;
    FingerprintsAgree(A, B, [], []);
    assert Hashed("v", [], []) && !SameField(A, B, "v");
    assert ExcludedBy([]) + [] == [];
  }
}
