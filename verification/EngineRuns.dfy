/** Several runs of the engine over one store: they converge, and once-rules fire once. */
module EngineRuns {
  import opened Common
  import opened Diff
  import opened Decision
  import opened EngineSpec

  /** No entity occurs in two rows of an extraction. */
  ghost predicate KeysDistinct(sync: Sync, rows: seq<Payload>) {
    forall i, j :: 0 <= i < j < |rows| && KeyOf(sync, rows[i]).Some? ==> KeyOf(sync, rows[i]) != KeyOf(sync, rows[j])
  }

  ghost predicate PendingKeysDistinct(pending: seq<Pending>) {
    forall i, j :: 0 <= i < j < |pending| ==> pending[i].key != pending[j].key
  }

  ghost function Row(sync: Sync, store: Store, rows: seq<Payload>, xs: seq<Reading>, i: nat): Verdict
    requires |xs| == |rows| && i < |rows|
  {
    DecideRow(sync, store, rows[i], xs[i])
  }

  /** What is pending comes from the rows. */
  lemma {:induction false} PendingFromRow(sync: Sync, store: Store, rows: seq<Payload>, xs: seq<Reading>, p: Pending)
    returns (i: nat)
    requires |xs| == |rows| && p in DecideAll(sync, store, rows, xs).pending
    ensures i < |rows| && Row(sync, store, rows, xs, i) == Pends(p) && KeyOf(sync, rows[i]) == Some(p.key)
  {
    var n := |rows| - 1;
    var before := DecideAll(sync, store, rows[..n], xs[..n]).pending;
    if p in before {
      i := PendingFromRow(sync, store, rows[..n], xs[..n], p);
    } else {
      i := n;
    }
  }

  lemma {:induction false} RowIsPending(sync: Sync, store: Store, rows: seq<Payload>, xs: seq<Reading>, i: nat)
    requires |xs| == |rows| && i < |rows| && Row(sync, store, rows, xs, i).Pends?
    ensures Row(sync, store, rows, xs, i).p in DecideAll(sync, store, rows, xs).pending
  {
    hide DecideAll, DecideRow;
    var n := |rows| - 1;
    DecideAllSnoc(sync, store, rows, xs);
    if i < n {
      assert rows[..n][i] == rows[i] && xs[..n][i] == xs[i];
      RowIsPending(sync, store, rows[..n], xs[..n], i);
    } else {
      assert DecideRow(sync, store, rows[n], xs[n]).Pends?;
    }
  }

  lemma {:induction false} DistinctRowsDistinctPending(sync: Sync, store: Store, rows: seq<Payload>, xs: seq<Reading>)
    requires |xs| == |rows| && KeysDistinct(sync, rows)
    ensures PendingKeysDistinct(DecideAll(sync, store, rows, xs).pending)
  {
    if rows != [] {
      var n := |rows| - 1;
      DistinctRowsDistinctPending(sync, store, rows[..n], xs[..n]);
      var before := DecideAll(sync, store, rows[..n], xs[..n]).pending;
      var v := DecideRow(sync, store, rows[n], xs[n]);
      hide DecideAll, DecideRow;
      if v.Pends? {
        forall q | q in before ensures Some(q.key) != KeyOf(sync, rows[n]) {
          var i := PendingFromRow(sync, store, rows[..n], xs[..n], q);
          assert rows[..n][i] == rows[i];
        }
        PendsItsKey(sync, store, rows[n], xs[n]);
      }
      DecideAllSnoc(sync, store, rows, xs);
    }
  }

  lemma PendsItsKey(sync: Sync, store: Store, data: Payload, x: Reading)
    requires DecideRow(sync, store, data, x).Pends?
    ensures var p := DecideRow(sync, store, data, x).p;
      && KeyOf(sync, data) == Some(p.key) && p.mapped == Mapped(data, sync.mapping)
      && p.fp == FingerprintOf(sync, p.mapped) && x.stateRead
  {
  }

  lemma DecideAllSnoc(sync: Sync, store: Store, rows: seq<Payload>, xs: seq<Reading>)
    requires |xs| == |rows| && rows != []
    ensures var n := |rows| - 1; var v := DecideRow(sync, store, rows[n], xs[n]);
      DecideAll(sync, store, rows, xs).pending ==
      DecideAll(sync, store, rows[..n], xs[..n]).pending + if v.Pends? then [v.p] else []
  {
  }

  // ---------------------------------------------------------------- what deliveries do to one entity

  lemma StepLeavesOthers(sync: Sync, a: Progress, p: Pending, luck: Luck, key: string, rule: string)
    requires p.key != key
    ensures var b := DeliverOne(sync, a, p, luck);
      StateOf(b.store, key) == StateOf(a.store, key) && ((key, rule) in b.store.fired <==> (key, rule) in a.store.fired)
  {
  }

  lemma {:induction false} OthersKeepTheirState(sync: Sync, store: Store, pending: seq<Pending>, lucks: seq<Luck>,
                                                key: string, rule: string)
    requires |lucks| == |pending| && forall p :: p in pending ==> p.key != key
    ensures var b := DeliverAll(sync, store, pending, lucks).store;
      StateOf(b, key) == StateOf(store, key) && ((key, rule) in b.fired <==> (key, rule) in store.fired)
  {
    if pending != [] {
      var n := |pending| - 1;
      assert pending[n] in pending;
      OthersKeepTheirState(sync, store, pending[..n], lucks[..n], key, rule);
      StepLeavesOthers(sync, DeliverAll(sync, store, pending[..n], lucks[..n]), pending[n], lucks[n], key, rule);
      hide DeliverOne;
    }
  }

  lemma StepDelivers(sync: Sync, a: Progress, p: Pending, luck: Luck)
    ensures var b := DeliverOne(sync, a, p, luck);
      b.delivered == a.delivered
      || (b.delivered == a.delivered + [p]
          && (!sync.dryRun && luck.saved ==> StateOf(b.store, p.key) == Some(NewState(p, "success"))))
  {
  }

  lemma {:induction false} DeliveredAtMost(sync: Sync, store: Store, pending: seq<Pending>, lucks: seq<Luck>)
    requires |lucks| == |pending|
    ensures |DeliverAll(sync, store, pending, lucks).delivered| <= |pending|
  {
    if pending != [] {
      var n := |pending| - 1;
      DeliveredAtMost(sync, store, pending[..n], lucks[..n]);
      StepDelivers(sync, DeliverAll(sync, store, pending[..n], lucks[..n]), pending[n], lucks[n]);
      hide DeliverOne;
    }
  }

  /** When everything pending was delivered and saved, the store holds the new state of each of its entities. */
  lemma {:induction false} DeliveredStates(sync: Sync, store: Store, pending: seq<Pending>, lucks: seq<Luck>, i: nat)
    requires |lucks| == |pending| && i < |pending| && PendingKeysDistinct(pending) && !sync.dryRun
    requires |DeliverAll(sync, store, pending, lucks).delivered| == |pending| && forall l :: l in lucks ==> l.saved
    ensures StateOf(DeliverAll(sync, store, pending, lucks).store, pending[i].key) ==
      Some(NewState(pending[i], "success"))
  {
    var n := |pending| - 1;
    var a := DeliverAll(sync, store, pending[..n], lucks[..n]);
    assert DeliverAll(sync, store, pending, lucks) == DeliverOne(sync, a, pending[n], lucks[n]);
    hide DeliverAll, DeliverOne, NewState;
    DeliveredAtMost(sync, store, pending[..n], lucks[..n]);
    StepDelivers(sync, a, pending[n], lucks[n]);
    assert lucks[n] in lucks && forall l :: l in lucks[..n] ==> l in lucks;
    if i < n {
      DeliveredStates(sync, store, pending[..n], lucks[..n], i);
      StepLeavesOthers(sync, a, pending[n], lucks[n], pending[i].key, "");
    }
  }

  // ---------------------------------------------------------------- convergence

  predicate AllRead(xs: seq<Reading>) { forall i :: 0 <= i < |xs| ==> xs[i].stateRead && xs[i].unread == {} }

  /** The default is to skip, and no rule holds for an entity that is known and unchanged. */
  ghost predicate Settles(cfg: Config) {
    OrDefault(cfg, "") == "skip" && forall rule :: rule in cfg.rules ==> !HoldsStill(rule.when)
  }

  /** An entity whose stored state is what the row says now is skipped. */
  lemma UnchangedIsSkipped(sync: Sync, store: Store, data: Payload, x: Reading, p: Pending)
    requires Settles(sync.decisions) && x.stateRead && x.unread == {} && KeyOf(sync, data) == Some(p.key)
    requires p.mapped == Mapped(data, sync.mapping) && p.fp == FingerprintOf(sync, p.mapped)
    requires StateOf(store, p.key) == Some(NewState(p, "success"))
    ensures DecideRow(sync, store, data, x).Skips?
  {
    var c := CaseOf(sync, store, p.key, p.mapped, x);
    NoDifferenceToItself(sync.show, p.mapped);
    assert c.input == STILL;
    StillGetsDefault(sync.decisions, c, Evaluation(sync.decisions, c));
    assert Answered(sync.decisions, c, |sync.decisions.rules|);
    AllAnswered(sync.decisions, c);
  }

  lemma AllAnswered(cfg: Config, c: Case)
    requires forall name :: c.fired(name).Some?
    ensures Evaluation(cfg, c).Some?
  {
  }

  /** A row that was skipped is skipped again when nothing about its entity was written. */
  lemma SkippedAgain(sync: Sync, store: Store, later: Store, data: Payload, x: Reading, y: Reading)
    requires x.stateRead && x.unread == {} && y.stateRead && y.unread == {} && DecideRow(sync, store, data, x).Skips?
    requires KeyOf(sync, data).Some? ==>
      StateOf(later, KeyOf(sync, data).value) == StateOf(store, KeyOf(sync, data).value)
    requires KeyOf(sync, data).Some? ==>
      forall rule :: (KeyOf(sync, data).value, rule) in later.fired <==> (KeyOf(sync, data).value, rule) in store.fired
    ensures DecideRow(sync, later, data, y).Skips?
  {
    var key := KeyOf(sync, data);
    if key.Some? {
      var mapped := Mapped(data, sync.mapping);
      var c, d := CaseOf(sync, store, key.value, mapped, x), CaseOf(sync, later, key.value, mapped, y);
      assert forall name :: c.fired(name) == d.fired(name);
      SameAction(sync.decisions, c, d);
      AllAnswered(sync.decisions, c);
    }
  }

  /** After a run in which every decided delivery was made and saved, each row is skipped. */
  lemma RowSettles(sync: Sync, store: Store, rows: seq<Payload>, xs: seq<Reading>, lucks: seq<Luck>, y: Reading, i: nat)
    requires |xs| == |rows| && i < |rows| && AllRead(xs) && y.stateRead && y.unread == {}
    requires KeysDistinct(sync, rows) && Settles(sync.decisions) && !sync.dryRun
    requires var pending := DecideAll(sync, store, rows, xs).pending;
      |lucks| == |pending| && |DeliverAll(sync, store, pending, lucks).delivered| == |pending|
    requires forall l :: l in lucks ==> l.saved
    ensures DecideRow(sync, DeliverAll(sync, store, DecideAll(sync, store, rows, xs).pending, lucks).store, rows[i],
                      y).Skips?
  {
    hide DeliverAll, DecideAll, DecideRow, KeyOf, FingerprintOf, NewState;
    var pending := DecideAll(sync, store, rows, xs).pending;
    var later := DeliverAll(sync, store, pending, lucks).store;
    var v := DecideRow(sync, store, rows[i], xs[i]);
    DistinctRowsDistinctPending(sync, store, rows, xs);
    if v.Pends? {
      RowIsPending(sync, store, rows, xs, i);
      PendsItsKey(sync, store, rows[i], xs[i]);
      var j :| 0 <= j < |pending| && pending[j] == v.p;
      DeliveredStates(sync, store, pending, lucks, j);
      UnchangedIsSkipped(sync, later, rows[i], y, v.p);
    } else {
      NotErrs(sync, store, rows[i], xs[i]);
      if KeyOf(sync, rows[i]).Some? {
        var key := KeyOf(sync, rows[i]).value;
        forall p | p in pending ensures p.key != key {
          var j := PendingFromRow(sync, store, rows, xs, p);
          assert i != j;
        }
        forall rule ensures (key, rule) in later.fired <==> (key, rule) in store.fired {
          OthersKeepTheirState(sync, store, pending, lucks, key, rule);
        }
        OthersKeepTheirState(sync, store, pending, lucks, key, "");
      }
      SkippedAgain(sync, store, later, rows[i], xs[i], y);
    }
  }

  lemma NotErrs(sync: Sync, store: Store, data: Payload, x: Reading)
    requires x.stateRead && x.unread == {}
    ensures !DecideRow(sync, store, data, x).Errs?
  {
    var key := KeyOf(sync, data);
    if key.Some? {
      AllAnswered(sync.decisions, CaseOf(sync, store, key.value, Mapped(data, sync.mapping), x));
    }
  }

  lemma {:induction false} AllSkipped(sync: Sync, store: Store, rows: seq<Payload>, ys: seq<Reading>)
    requires |ys| == |rows| && forall i :: 0 <= i < |rows| ==> DecideRow(sync, store, rows[i], ys[i]).Skips?
    ensures var d := DecideAll(sync, store, rows, ys); d.pending == [] && d.errored == 0 && d.skipped == |rows|
  {
    if rows != [] {
      AllSkipped(sync, store, rows[..|rows| - 1], ys[..|rows| - 1]);
      hide DecideRow;
    }
  }

  /** Convergence: when a run made and saved every delivery it decided on, a second run over the same rows
      skips them all, loads nothing and leaves the store as it is. */
  lemma SecondRunIsQuiet(sync: Sync, store: Store, rows: seq<Payload>, xs: seq<Reading>, lucks: seq<Luck>,
                         ys: seq<Reading>)
    requires |xs| == |rows| == |ys| && AllRead(xs) && AllRead(ys)
    requires KeysDistinct(sync, rows) && Settles(sync.decisions) && !sync.dryRun
    requires var pending := DecideAll(sync, store, rows, xs).pending;
      |lucks| == |pending| && |DeliverAll(sync, store, pending, lucks).delivered| == |pending|
    requires forall l :: l in lucks ==> l.saved
    ensures var later := DeliverAll(sync, store, DecideAll(sync, store, rows, xs).pending, lucks).store;
      var d := DecideAll(sync, later, rows, ys);
      d.skipped == |rows| && d.errored == 0 && d.pending == [] &&
        DeliverAll(sync, later, d.pending, []) == Started(later)
  {
    var later := DeliverAll(sync, store, DecideAll(sync, store, rows, xs).pending, lucks).store;
    forall i | 0 <= i < |rows| ensures DecideRow(sync, later, rows[i], ys[i]).Skips? {
      RowSettles(sync, store, rows, xs, lucks, ys[i], i);
    }
    AllSkipped(sync, later, rows, ys);
  }

  /** Rules without negation, and without an `all` of missing entries only, settle. */
  lemma PlainRulesSettle(cfg: Config)
    requires (cfg.defaultAction == "" || cfg.defaultAction == "skip") && forall rule :: rule in cfg.rules ==>
      Plain(rule.when)
    ensures Settles(cfg)
  {
    forall rule | rule in cfg.rules ensures !HoldsStill(rule.when) { PlainNeverHoldsStill(rule.when); }
  }

  /** With a rule that does hold for unchanged entities as the only one, a complete row of a known and unchanged
      entity is decided for delivery once more. */
  lemma HoldingStillNeverSettles(sync: Sync, store: Store, data: Payload, x: Reading, p: Pending, rule: Rule)
    requires sync.decisions.rules == [rule] && HoldsStill(rule.when) && !rule.once && rule.action !in {"", "skip"}
    requires x.stateRead && KeyOf(sync, data) == Some(p.key)
    requires p.mapped == Mapped(data, sync.mapping) && p.fp == FingerprintOf(sync, p.mapped)
    requires StateOf(store, p.key) == Some(NewState(p, "success"))
    ensures DecideRow(sync, store, data, x).Pends?
  {
    var c := CaseOf(sync, store, p.key, p.mapped, x);
    NoDifferenceToItself(sync.show, p.mapped);
    assert c.input == STILL;
    StillMeans(sync.show, rule.when);
    assert Decides(sync.decisions, c, 0) && Answered(sync.decisions, c, 1);
    ByDecider(sync.decisions, c, 0, Some(PlanOf(sync.decisions, c, rule)));
  }

  // ---------------------------------------------------------------- once-rules

  /** One run: what was extracted and read, whether the gates let it deliver, and the deliveries it got to. */
  datatype Run = Run(rows: seq<Payload>, xs: seq<Reading>, passes: bool, lucks: seq<Luck>)

  /** The run is possible on the store. */
  ghost predicate Possible(sync: Sync, store: Store, run: Run) {
    |run.xs| == |run.rows| && |run.lucks| <= |DecideAll(sync, store, run.rows, run.xs).pending|
  }

  /** And it has distinct entities. */
  ghost predicate Proper(sync: Sync, store: Store, run: Run) {
    Possible(sync, store, run) && KeysDistinct(sync, run.rows)
  }

  /** Its firing marks are kept. */
  ghost predicate KeepsMarks(run: Run) { forall l :: l in run.lucks ==> l.marked }

  ghost function Delivering(sync: Sync, store: Store, run: Run): Progress
    requires Possible(sync, store, run)
  {
    if run.passes then DeliverAll(sync, store, DecideAll(sync, store, run.rows, run.xs).pending[..|run.lucks|],
                                  run.lucks)
    else Started(store)
  }

  ghost predicate AllProper(sync: Sync, store: Store, runs: seq<Run>)
    decreases |runs|, 0
  {
    runs == [] || (AllProper(sync, store, runs[..|runs| - 1])
                   && Proper(sync, History(sync, store, runs[..|runs| - 1]), runs[|runs| - 1]))
  }

  ghost function History(sync: Sync, store: Store, runs: seq<Run>): Store
    requires AllProper(sync, store, runs)
    decreases |runs|, 1
  {
    if runs == [] then store
    else Delivering(sync, History(sync, store, runs[..|runs| - 1]), runs[|runs| - 1]).store
  }

  function Firing(p: Pending, key: string, rule: string): nat {
    if p.key == key && rule in p.plan.triggered then 1 else 0
  }

  /** Successful deliveries of an entity that a rule triggered. */
  function FiringsIn(delivered: seq<Pending>, key: string, rule: string): nat {
    if delivered == [] then 0
    else FiringsIn(delivered[..|delivered| - 1], key, rule) + Firing(delivered[|delivered| - 1], key, rule)
  }

  ghost function FiringsOver(sync: Sync, store: Store, runs: seq<Run>, key: string, rule: string): nat
    requires AllProper(sync, store, runs)
  {
    if runs == [] then 0
    else
      var before := runs[..|runs| - 1];
      FiringsOver(sync, store, before, key, rule)
      + FiringsIn(Delivering(sync, History(sync, store, before), runs[|runs| - 1]).delivered, key, rule)
  }

  function One(b: bool): nat { if b then 1 else 0 }

  /** All rules of this name fire once. */
  ghost predicate OnceRule(cfg: Config, name: string) {
    forall rule :: rule in cfg.rules && rule.name == name ==> rule.once
  }

  /** A decided delivery was triggered by a once-rule only if that had not fired for its entity. */
  lemma PendingHadNotFired(sync: Sync, store: Store, data: Payload, x: Reading, name: string)
    requires DecideRow(sync, store, data, x).Pends? && OnceRule(sync.decisions, name)
    requires name in DecideRow(sync, store, data, x).p.plan.triggered
    ensures var p := DecideRow(sync, store, data, x).p;
      (p.key, name) !in store.fired && (p.key, name) in OnceTriggered(sync, p)
  {
    var p := DecideRow(sync, store, data, x).p;
    var c := CaseOf(sync, store, p.key, p.mapped, x);
    TriggeredHadNotFired(sync.decisions, c, p.plan, name);
    var rule :| rule in sync.decisions.rules && rule.name == name;
    assert rule.once;
  }

  lemma StepFires(sync: Sync, a: Progress, p: Pending, luck: Luck, rule: string)
    requires !sync.dryRun && luck.marked && (rule in p.plan.triggered ==> (p.key, rule) in OnceTriggered(sync, p))
    ensures var b := DeliverOne(sync, a, p, luck);
      || (b.delivered == a.delivered && b.store.fired == a.store.fired)
      || (b.delivered == a.delivered + [p]
          && ((p.key, rule) in b.store.fired <==> (p.key, rule) in a.store.fired || rule in p.plan.triggered))
  {
  }

  lemma FiringsSnoc(delivered: seq<Pending>, p: Pending, key: string, rule: string)
    ensures FiringsIn(delivered + [p], key, rule) == FiringsIn(delivered, key, rule) + Firing(p, key, rule)
  {
    assert (delivered + [p])[..|delivered|] == delivered;
  }

  /** Within a run, a once-rule fires for an entity exactly when it becomes marked. */
  lemma {:induction false} FiringsAreMarks(sync: Sync, store: Store, pending: seq<Pending>, lucks: seq<Luck>,
                                           key: string, rule: string)
    requires |lucks| == |pending| && PendingKeysDistinct(pending) && !sync.dryRun && forall l :: l in lucks ==> l.marked
    requires forall p :: p in pending && rule in p.plan.triggered ==>
      (p.key, rule) !in store.fired && (p.key, rule) in OnceTriggered(sync, p)
    ensures var a := DeliverAll(sync, store, pending, lucks);
      FiringsIn(a.delivered, key, rule) + One((key, rule) in store.fired) == One((key, rule) in a.store.fired)
  {
    if pending != [] {
      var n := |pending| - 1;
      var p, a := pending[n], DeliverAll(sync, store, pending[..n], lucks[..n]);
      assert p in pending && lucks[n] in lucks;
      assert forall l :: l in lucks[..n] ==> l in lucks;
      assert forall q :: q in pending[..n] ==> q in pending;
      FiringsAreMarks(sync, store, pending[..n], lucks[..n], key, rule);
      StepFires(sync, a, p, lucks[n], rule);
      FiringsSnoc(a.delivered, p, key, rule);
      if p.key == key {
        OthersKeepTheirState(sync, store, pending[..n], lucks[..n], key, rule);
      } else {
        StepLeavesOthers(sync, a, p, lucks[n], key, rule);
      }
      hide DeliverOne, OnceTriggered;
    }
  }

  lemma RunFirings(sync: Sync, store: Store, run: Run, key: string, rule: string)
    requires Proper(sync, store, run) && KeepsMarks(run) && OnceRule(sync.decisions, rule) && !sync.dryRun
    ensures var a := Delivering(sync, store, run);
      FiringsIn(a.delivered, key, rule) + One((key, rule) in store.fired) == One((key, rule) in a.store.fired)
  {
    var all := DecideAll(sync, store, run.rows, run.xs).pending;
    var pending := all[..|run.lucks|];
    DistinctRowsDistinctPending(sync, store, run.rows, run.xs);
    forall p | p in pending && rule in p.plan.triggered
      ensures (p.key, rule) !in store.fired && (p.key, rule) in OnceTriggered(sync, p)
    {
      var i := PendingFromRow(sync, store, run.rows, run.xs, p);
      PendingHadNotFired(sync, store, run.rows[i], run.xs[i], rule);
    }
    FiringsAreMarks(sync, store, pending, run.lucks, key, rule);
  }

  /** Over any sequence of real runs, a once-rule triggers at most one successful delivery of an entity: exactly
      one when the pair becomes marked, none when it was marked before. */
  lemma {:induction false} OnceRulesFireOnce(sync: Sync, store: Store, runs: seq<Run>, key: string, rule: string)
    requires AllProper(sync, store, runs) && OnceRule(sync.decisions, rule) && !sync.dryRun
    requires forall run :: run in runs ==> KeepsMarks(run)
    ensures FiringsOver(sync, store, runs, key, rule) + One((key, rule) in store.fired)
      == One((key, rule) in History(sync, store, runs).fired)
  {
    if runs != [] {
      var before := runs[..|runs| - 1];
      assert runs[|runs| - 1] in runs && forall run :: run in before ==> run in runs;
      OnceRulesFireOnce(sync, store, before, key, rule);
      RunFirings(sync, History(sync, store, before), runs[|runs| - 1], key, rule);
      hide Delivering, DecideAll;
    }
  }

  lemma DeliverAllSnoc(sync: Sync, store: Store, pending: seq<Pending>, lucks: seq<Luck>, p: Pending, luck: Luck)
    requires |lucks| == |pending|
    ensures DeliverAll(sync, store, pending + [p], lucks + [luck]) ==
      DeliverOne(sync, DeliverAll(sync, store, pending, lucks), p, luck)
    ensures DeliverAll(sync, store, [], []) == Started(store)
  {
    hide DeliverOne;
    assert (pending + [p])[..|pending|] == pending && (lucks + [luck])[..|pending|] == lucks;
  }

  lemma Unlimited(sync: Sync, a: Progress, p: Pending, luck: Luck)
    requires luck.outcome == Returned(1, 0, 0) && sync.hasDest
    requires sync.limits.maxCreates <= 0 && sync.limits.maxUpdates <= 0 && sync.limits.maxDeletes <= 0
    ensures DeliverOne(sync, a, p, luck).delivered == a.delivered + [p]
  {
  }

  lemma TwoDeliveries(sync: Sync, store: Store, p: Pending, q: Pending, luck: Luck)
    requires luck.outcome == Returned(1, 0, 0) && sync.hasDest
    requires sync.limits.maxCreates <= 0 && sync.limits.maxUpdates <= 0 && sync.limits.maxDeletes <= 0
    ensures DeliverAll(sync, store, [p, q], [luck, luck]).delivered == [p, q]
  {
    hide DeliverAll, DeliverOne;
    DeliverAllSnoc(sync, store, [], [], p, luck);
    DeliverAllSnoc(sync, store, [p], [luck], q, luck);
    assert [] + [p] == [p] && [] + [luck] == [luck] && [p] + [q] == [p, q] && [luck] + [luck] == [luck, luck];
    Unlimited(sync, Started(store), p, luck);
    Unlimited(sync, DeliverAll(sync, store, [p], [luck]), q, luck);
  }

  lemma OneDecision(sync: Sync, store: Store, data: Payload, x: Reading)
    ensures DecideAll(sync, store, [data], [x]) == Noted(UNDECIDED, DecideRow(sync, store, data, x), KeyOf(sync, data))
  {
    assert [data][..0] == [] && [x][..0] == [];
    assert DecideAll(sync, store, [], []) == UNDECIDED;
    hide DecideRow, KeyOf;
  }

  lemma TwoDecisions(sync: Sync, store: Store, a: Payload, b: Payload, x: Reading)
    requires DecideRow(sync, store, a, x).Pends? && DecideRow(sync, store, b, x).Pends?
    ensures DecideAll(sync, store, [a, b], [x, x]).pending ==
      [DecideRow(sync, store, a, x).p, DecideRow(sync, store, b, x).p]
  {
    assert DecideAll(sync, store, [], []).pending == [];
    hide DecideAll, DecideRow;
    DecideAllSnoc(sync, store, [a, b], [x, x]);
    DecideAllSnoc(sync, store, [a], [x]);
    assert [a, b][..1] == [a] && [x, x][..1] == [x] && [a][..0] == [] && [x][..0] == [];
  }

  /** Distinct entities are needed: two rows of one entity that both decide for a once-rule both deliver it. */
  lemma RepeatedEntityFiresTwice(sync: Sync, store: Store, a: Payload, b: Payload, x: Reading, rule: string, luck: Luck)
    requires DecideRow(sync, store, a, x).Pends? && DecideRow(sync, store, b, x).Pends? &&
      KeyOf(sync, a) == KeyOf(sync, b)
    requires luck.outcome == Returned(1, 0, 0) && sync.hasDest
    requires sync.limits.maxCreates <= 0 && sync.limits.maxUpdates <= 0 && sync.limits.maxDeletes <= 0
    requires rule in DecideRow(sync, store, a, x).p.plan.triggered &&
      rule in DecideRow(sync, store, b, x).p.plan.triggered
    ensures var pending := DecideAll(sync, store, [a, b], [x, x]).pending;
      |pending| == 2
      && FiringsIn(DeliverAll(sync, store, pending, [luck, luck]).delivered, DecideRow(sync, store, a, x).p.key,
                   rule) == 2
  {
    hide DecideAll, DecideRow, DeliverAll, KeyOf;
    var p, q := DecideRow(sync, store, a, x).p, DecideRow(sync, store, b, x).p;
    PendsItsKey(sync, store, a, x);
    PendsItsKey(sync, store, b, x);
    TwoDecisions(sync, store, a, b, x);
    TwoDeliveries(sync, store, p, q, luck);
    FiringsSnoc([], p, p.key, rule);
    FiringsSnoc([p], q, p.key, rule);
    assert [] + [p] == [p] && [p] + [q] == [p, q];
  }
}
