/** What a second run does about deliveries of the first, row by row, and entities that are decided on again and
    again. */
module EngineReruns {
  import opened Common
  import opened Json
  import opened Diff
  import opened Decision
  import opened Fingerprint
  import opened Safety
  import opened EngineSpec
  import opened EngineRuns

  // ---------------------------------------------------------------- what one delivery leaves in the store

  /** The status under which a delivery saved the entity's state, if it did. */
  function SavedStatus(sync: Sync, a: Progress, p: Pending, luck: Luck): Option<string> {
    if sync.dryRun || !Allowed(sync.limits, p.plan.action, a.counts) then None
    else if !sync.hasDest then (if luck.saved then Some("success") else None)
    else match luck.outcome
      case Failed(_, _) => if luck.savedFailed then Some("failed") else None
      case Returned(l, s, e) =>
        if l == 0 && s > 0 && e == 0 then None
        else if !(e > 0 && l == 0) && luck.saved then Some("success")
        else if e > 0 && luck.savedFailed then Some("failed") else None
  }

  /** The delivery succeeded and its firing marks were kept. */
  predicate KeptMarks(sync: Sync, a: Progress, p: Pending, luck: Luck) {
    && !sync.dryRun && Allowed(sync.limits, p.plan.action, a.counts) && luck.marked
    && (sync.hasDest ==> luck.outcome.Returned? && (luck.outcome.loaded > 0 || luck.outcome == Returned(0, 0, 0)))
  }

  lemma StepLeaves(sync: Sync, a: Progress, p: Pending, luck: Luck)
    ensures var b, status := DeliverOne(sync, a, p, luck), SavedStatus(sync, a, p, luck);
      StateOf(b.store, p.key) == if status.Some? then Some(NewState(p, status.value)) else StateOf(a.store, p.key)
    ensures DeliverOne(sync, a, p, luck).store.fired ==
      a.store.fired + if KeptMarks(sync, a, p, luck) then OnceTriggered(sync, p) else {}
  {
  }

  /** The progress before delivery `j`. */
  function Before(sync: Sync, store: Store, pending: seq<Pending>, lucks: seq<Luck>, j: nat): Progress
    requires |lucks| == |pending| && j <= |pending|
  {
    DeliverAll(sync, store, pending[..j], lucks[..j])
  }

  /** With distinct entities, what a run leaves of an entity is what its one delivery left. */
  lemma {:induction false} RunLeaves(sync: Sync, store: Store, pending: seq<Pending>, lucks: seq<Luck>, j: nat,
                                     rule: string)
    requires |lucks| == |pending| && j < |pending| && PendingKeysDistinct(pending)
    ensures var p, a, b := pending[j], Before(sync, store, pending, lucks, j), DeliverAll(sync, store, pending, lucks);
      && StateOf(b.store, p.key) ==
         (if SavedStatus(sync, a, p, lucks[j]).Some? then Some(NewState(p, SavedStatus(sync, a, p, lucks[j]).value))
          else StateOf(store, p.key))
      && ((p.key, rule) in b.store.fired <==>
          ((p.key, rule) in store.fired || (KeptMarks(sync, a, p, lucks[j]) &&
            (p.key, rule) in OnceTriggered(sync, p))))
    decreases |pending|
  {
    var n := |pending| - 1;
    var a := DeliverAll(sync, store, pending[..n], lucks[..n]);
    if j == n {
      OthersKeepTheirState(sync, store, pending[..n], lucks[..n], pending[n].key, rule);
      StepLeaves(sync, a, pending[n], lucks[n]);
      hide DeliverOne, SavedStatus, KeptMarks, OnceTriggered, NewState;
    } else {
      hide SavedStatus, KeptMarks, OnceTriggered, NewState;
      assert pending[..n][..j] == pending[..j] && lucks[..n][..j] == lucks[..j];
      RunLeaves(sync, store, pending[..n], lucks[..n], j, rule);
      StepLeavesOthers(sync, a, pending[n], lucks[n], pending[j].key, rule);
      hide DeliverOne;
    }
  }

  // ---------------------------------------------------------------- the second run, row by row

  /** An entity whose stored state was saved for what the row says now is skipped, whatever the status. */
  lemma SavedIsSkipped(sync: Sync, store: Store, data: Payload, x: Reading, p: Pending, status: string)
    requires Settles(sync.decisions) && x.stateRead && x.unread == {} && KeyOf(sync, data) == Some(p.key)
    requires p.mapped == Mapped(data, sync.mapping) && p.fp == FingerprintOf(sync, p.mapped)
    requires StateOf(store, p.key) == Some(NewState(p, status))
    ensures DecideRow(sync, store, data, x).Skips?
  {
    var c := CaseOf(sync, store, p.key, p.mapped, x);
    NoDifferenceToItself(sync.show, p.mapped);
    assert c.input == STILL;
    StillGetsDefault(sync.decisions, c, Evaluation(sync.decisions, c));
    AllAnswered(sync.decisions, c);
  }

  /** Only the entity's own state and firings matter for what is decided about a row. */
  lemma SameVerdictKind(sync: Sync, store: Store, later: Store, data: Payload, x: Reading, y: Reading)
    requires x.stateRead && x.unread == {} && y.stateRead && y.unread == {} && KeyOf(sync, data).Some?
    requires StateOf(later, KeyOf(sync, data).value) == StateOf(store, KeyOf(sync, data).value)
    requires forall rule :: (KeyOf(sync, data).value, rule) in later.fired <==>
      (KeyOf(sync, data).value, rule) in store.fired
    ensures DecideRow(sync, later, data, y).Pends? <==> DecideRow(sync, store, data, x).Pends?
  {
    var key, mapped := KeyOf(sync, data).value, Mapped(data, sync.mapping);
    var c, d := CaseOf(sync, store, key, mapped, x), CaseOf(sync, later, key, mapped, y);
    assert forall name :: c.fired(name) == d.fired(name);
    SameAction(sync.decisions, c, d);
    AllAnswered(sync.decisions, c);
  }

  /** Delivery `j` saved no state and, should its firing marks have been kept all the same, its row is still decided
      on with them. */
  ghost predicate StillOwed(sync: Sync, store: Store, pending: seq<Pending>, lucks: seq<Luck>, j: nat, data: Payload,
                            y: Reading)
    requires |lucks| == |pending| && j < |pending|
  {
    var p, a := pending[j], Before(sync, store, pending, lucks, j);
    && SavedStatus(sync, a, p, lucks[j]).None?
    && (KeptMarks(sync, a, p, lucks[j]) ==>
          DecideRow(sync, store.(fired := store.fired + OnceTriggered(sync, p)), data, y).Pends?)
  }

  /** A kept mark of a triggered name keeps the rule from applying. */
  predicate Silenced(rule: Rule, triggered: seq<string>) { rule.once && rule.name in triggered }

  /** Rule `j` is the first to apply that is not silenced, and it asks for a delivery. */
  ghost predicate NextRule(cfg: Config, c: Case, triggered: seq<string>, j: int) {
    && 0 <= j < |cfg.rules| && Applies(c, cfg.rules[j]) && !Silenced(cfg.rules[j], triggered)
    && OrDefault(cfg, cfg.rules[j].action) != "skip"
    && forall h :: 0 <= h < j && Applies(c, cfg.rules[h]) ==> Silenced(cfg.rules[h], triggered)
  }

  lemma MarkedApplies(sync: Sync, store: Store, p: Pending, y: Reading, rule: Rule)
    requires y.unread == {} && rule in sync.decisions.rules
    ensures var marked := store.(fired := store.fired + OnceTriggered(sync, p));
      Applies(CaseOf(sync, marked, p.key, p.mapped, y), rule) <==>
        Applies(CaseOf(sync, store, p.key, p.mapped, y), rule) && !Silenced(rule, p.plan.triggered)
  {
    hide EvalWhen, FingerprintOf;
  }

  /** With the firing marks kept and no state saved, the row is decided on by the first rule that applies and is not
      silenced, if there is one that asks for a delivery. */
  lemma MarkedThoughIff(sync: Sync, store: Store, data: Payload, x: Reading, y: Reading)
    requires DecideRow(sync, store, data, x).Pends? && y.stateRead && y.unread == {} && Settles(sync.decisions)
    ensures var p := DecideRow(sync, store, data, x).p;
      DecideRow(sync, store.(fired := store.fired + OnceTriggered(sync, p)), data, y).Pends? <==>
        exists j :: NextRule(sync.decisions, CaseOf(sync, store, p.key, p.mapped, y), p.plan.triggered, j)
  {
    var p, cfg := DecideRow(sync, store, data, x).p, sync.decisions;
    var marked := store.(fired := store.fired + OnceTriggered(sync, p));
    var c, d := CaseOf(sync, store, p.key, p.mapped, y), CaseOf(sync, marked, p.key, p.mapped, y);
    AllAnswered(cfg, d);
    forall h | 0 <= h < |cfg.rules|
      ensures Applies(d, cfg.rules[h]) <==> Applies(c, cfg.rules[h]) && !Silenced(cfg.rules[h], p.plan.triggered)
    {
      MarkedApplies(sync, store, p, y, cfg.rules[h]);
    }
    hide CaseOf, Applies, Silenced, OnceTriggered, FingerprintOf, Evaluation;
    NextDecides(cfg, c, d, p.plan.triggered);
  }

  lemma NextDecides(cfg: Config, c: Case, d: Case, triggered: seq<string>)
    requires Evaluation(cfg, d).Some? && OrDefault(cfg, "") == "skip"
    requires forall h :: 0 <= h < |cfg.rules| ==>
      (Applies(d, cfg.rules[h]) <==> Applies(c, cfg.rules[h]) && !Silenced(cfg.rules[h], triggered))
    ensures Evaluation(cfg, d).value.action != "skip" <==> exists j :: NextRule(cfg, c, triggered, j)
  {
    hide Applies, Silenced;
    assert forall j :: NextRule(cfg, c, triggered, j) ==> Decides(cfg, d, j);
    if i :| Decides(cfg, d, i) {
      ByDecider(cfg, d, i, if Answered(cfg, d, i + 1) then Some(PlanOf(cfg, d, cfg.rules[i])) else None);
      forall j | NextRule(cfg, c, triggered, j) ensures i == j { DecidesOnce(cfg, d, i, j); }
      assert OrDefault(cfg, cfg.rules[i].action) != "skip" ==> NextRule(cfg, c, triggered, i);
    }
  }

  /** A row decided on in the first run, as delivery `j`, is decided on again in the second iff it is still owed:
      of failed loads, limits, skips by the destination and successes only what was saved counts. */
  lemma DecidedAgainIff(sync: Sync, store: Store, data: Payload, x: Reading, pending: seq<Pending>, lucks: seq<Luck>,
                        j: nat, y: Reading)
    requires DecideRow(sync, store, data, x).Pends? && x.unread == {} && y.stateRead && y.unread == {}
    requires |lucks| == |pending| && j < |pending| && pending[j] == DecideRow(sync, store, data, x).p
    requires PendingKeysDistinct(pending) && Settles(sync.decisions)
    ensures DecideRow(sync, DeliverAll(sync, store, pending, lucks).store, data, y).Pends? <==>
      StillOwed(sync, store, pending, lucks, j, data, y)
  {
    var p, a := pending[j], Before(sync, store, pending, lucks, j);
    var later := DeliverAll(sync, store, pending, lucks).store;
    PendsItsKey(sync, store, data, x);
    RunLeaves(sync, store, pending, lucks, j, "");
    forall rule
      ensures (p.key, rule) in later.fired <==>
        ((p.key, rule) in store.fired || (KeptMarks(sync, a, p, lucks[j]) && (p.key, rule) in OnceTriggered(sync, p)))
    {
      RunLeaves(sync, store, pending, lucks, j, rule);
    }
    hide DeliverAll, DecideRow, SavedStatus, KeptMarks, OnceTriggered, Before;
    var status := SavedStatus(sync, a, p, lucks[j]);
    if status.Some? {
      SavedIsSkipped(sync, later, data, y, p, status.value);
    } else if KeptMarks(sync, a, p, lucks[j]) {
      SameVerdictKind(sync, store.(fired := store.fired + OnceTriggered(sync, p)), later, data, y, y);
    } else {
      SameVerdictKind(sync, store, later, data, x, y);
    }
  }

  /** The same for whole runs, wherever they stop: in the second run a row is decided on iff it was in the first and
      is still owed, or was not got to. */
  lemma SecondRunRow(sync: Sync, store: Store, rows: seq<Payload>, xs: seq<Reading>, lucks: seq<Luck>, y: Reading,
                     i: nat)
    requires |xs| == |rows| && i < |rows| && AllRead(xs) && y.stateRead && y.unread == {}
    requires KeysDistinct(sync, rows) && Settles(sync.decisions)
    requires |lucks| <= |DecideAll(sync, store, rows, xs).pending|
    ensures var pending := DecideAll(sync, store, rows, xs).pending[..|lucks|];
      var later, v := DeliverAll(sync, store, pending, lucks).store, DecideRow(sync, store, rows[i], xs[i]);
      && !DecideRow(sync, later, rows[i], y).Errs?
      && (v.Skips? ==> DecideRow(sync, later, rows[i], y).Skips?)
      && (v.Pends? && v.p !in pending ==> DecideRow(sync, later, rows[i], y).Pends?)
      && (v.Pends? ==> forall j :: 0 <= j < |pending| && pending[j] == v.p ==>
            (DecideRow(sync, later, rows[i], y).Pends? <==> StillOwed(sync, store, pending, lucks, j, rows[i], y)))
  {
    var all := DecideAll(sync, store, rows, xs).pending;
    var pending := all[..|lucks|];
    var later, v := DeliverAll(sync, store, pending, lucks).store, DecideRow(sync, store, rows[i], xs[i]);
    DistinctRowsDistinctPending(sync, store, rows, xs);
    NotErrs(sync, later, rows[i], y);
    NotErrs(sync, store, rows[i], xs[i]);
    if v.Pends? && v.p in pending {
      forall j | 0 <= j < |pending| && pending[j] == v.p
        ensures DecideRow(sync, later, rows[i], y).Pends? <==> StillOwed(sync, store, pending, lucks, j, rows[i], y)
      {
        DecidedAgainIff(sync, store, rows[i], xs[i], pending, lucks, j, y);
      }
    } else if KeyOf(sync, rows[i]).Some? {
      var key := KeyOf(sync, rows[i]).value;
      forall p | p in pending ensures p.key != key {
        var j := PendingFromRow(sync, store, rows, xs, p);
        assert i != j || v == Pends(p);
      }
      forall rule ensures (key, rule) in later.fired <==> (key, rule) in store.fired {
        OthersKeepTheirState(sync, store, pending, lucks, key, rule);
      }
      OthersKeepTheirState(sync, store, pending, lucks, key, "");
      hide DeliverAll, DecideAll;
      SameVerdictKind(sync, store, later, rows[i], xs[i], y);
    }
  }

  // ---------------------------------------------------------------- a failed delivery is not tried again

  /** Strings as they are, everything else as nothing. */
  function Plainly(v: Json): string { if v.Str? then v.s else "<nil>" }

  const CHANGED := When(false, true, None, [], [], [], None)

  /** Deliver an entity whenever its fingerprint has changed; no limits, entities by `id`. */
  const WHEN_CHANGED :=
    Sync(Plainly, [], [], "id", [], [], Config("", [Rule("changed", CHANGED, false, "upsert", map[])]),
         Limits(0, 0, 0, 0.0, [], map[]), false, true)

  const NOTHING := Store(map[], {})

  lemma ChangedDecides(data: Payload, x: Reading)
    requires KeyOf(WHEN_CHANGED, data).Some? && x.stateRead
    ensures DecideRow(WHEN_CHANGED, NOTHING, data, x).Pends? &&
      DecideRow(WHEN_CHANGED, NOTHING, data, x).p.plan.action == "upsert"
  {
    var mapped := Mapped(data, []);
    var c := CaseOf(WHEN_CHANGED, NOTHING, KeyOf(WHEN_CHANGED, data).value, mapped, x);
    FingerprintIsText(WHEN_CHANGED, mapped);
    assert EvalWhen(Plainly, CHANGED, c.input);
    assert Decides(WHEN_CHANGED.decisions, c, 0) && Answered(WHEN_CHANGED.decisions, c, 1);
    ByDecider(WHEN_CHANGED.decisions, c, 0, Some(PlanOf(WHEN_CHANGED.decisions, c, WHEN_CHANGED.decisions.rules[0])));
  }

  lemma FingerprintIsText(sync: Sync, mapped: Payload)
    ensures FingerprintOf(sync, mapped) != ""
  {
  }

  /** A new entity is decided on, its load fails, and the failed state is saved with the new fingerprint: the next
      run sees no change and skips it. */
  lemma FailedIsNotRetried(data: Payload, x: Reading, y: Reading)
    requires KeyOf(WHEN_CHANGED, data).Some?
    requires x.stateRead && x.unread == {} && y.stateRead && y.unread == {}
    ensures var v := DecideRow(WHEN_CHANGED, NOTHING, data, x);
      v.Pends? &&
      var later := DeliverAll(WHEN_CHANGED, NOTHING, [v.p], [Luck(Failed(0, 0), true, false, false)]);
      later.errored == 1 && later.delivered == [] && DecideRow(WHEN_CHANGED, later.store, data, y).Skips?
  {
    ChangedDecides(data, x);
    var v, luck := DecideRow(WHEN_CHANGED, NOTHING, data, x), Luck(Failed(0, 0), true, false, false);
    PendsItsKey(WHEN_CHANGED, NOTHING, data, x);
    OneDelivery(WHEN_CHANGED, NOTHING, v.p, luck);
    StepLeaves(WHEN_CHANGED, Started(NOTHING), v.p, luck);
    StillChanged();
    hide DecideRow, DeliverAll, KeyOf;
    var later := DeliverAll(WHEN_CHANGED, NOTHING, [v.p], [luck]);
    assert SavedStatus(WHEN_CHANGED, Started(NOTHING), v.p, luck) == Some("failed");
    SavedIsSkipped(WHEN_CHANGED, later.store, data, y, v.p, "failed");
  }

  lemma OneDelivery(sync: Sync, store: Store, p: Pending, luck: Luck)
    ensures DeliverAll(sync, store, [p], [luck]) == DeliverOne(sync, Started(store), p, luck)
  {
    DeliverAllSnoc(sync, store, [], [], p, luck);
    assert [] + [p] == [p] && [] + [luck] == [luck];
    hide DeliverAll, DeliverOne;
  }

  lemma StillChanged()
    ensures Settles(WHEN_CHANGED.decisions)
  {
  }

  /** Such an entity. */
  lemma SampleRow()
    ensures KeyOf(WHEN_CHANGED, map["id" := Str("k")]) == Some("k")
  {
  }

  // ---------------------------------------------------------------- fields that do not count

  /** With the rule that delivers changed entities, an entity stored for row `a` is decided on at row `b` exactly when
      the mapped rows differ in a field that is not hidden from the fingerprint. */
  lemma OnlyShownFieldsCount(sync: Sync, store: Store, a: Payload, b: Payload, key: string, x: Reading)
    requires sync.decisions == WHEN_CHANGED.decisions && KeyOf(sync, b) == Some(key) && x.stateRead
    requires key in store.states && store.states[key].fp == FingerprintOf(sync, Mapped(a, sync.mapping))
    ensures !DecideRow(sync, store, b, x).Errs?
    ensures DecideRow(sync, store, b, x).Pends? <==>
      exists k :: !Hides(sync, k) && !SameField(Mapped(a, sync.mapping), Mapped(b, sync.mapping), k)
  {
    var cfg, c := sync.decisions, CaseOf(sync, store, key, Mapped(b, sync.mapping), x);
    SameFingerprintIff(sync, Mapped(a, sync.mapping), Mapped(b, sync.mapping));
    OneRule(c);
    hide FingerprintOf, Hides, SameField, Mapped, KeyOf, Evaluation;
  }

  lemma OneRule(c: Case)
    ensures Evaluation(WHEN_CHANGED.decisions, c).Some?
    ensures Evaluation(WHEN_CHANGED.decisions, c).value.action ==
      if c.input.fingerprintChanged then "upsert" else "skip"
  {
    var cfg := WHEN_CHANGED.decisions;
    assert EvalWhen(c.show, CHANGED, c.input) <==> c.input.fingerprintChanged;
    assert Answered(cfg, c, 1);
    if c.input.fingerprintChanged {
      assert Decides(cfg, c, 0);
      ByDecider(cfg, c, 0, Some(PlanOf(cfg, c, cfg.rules[0])));
    }
  }

  /** The time of the last touch is delivered under another name and does not count as a change. */
  const TOUCHING := WHEN_CHANGED.(mapping := [Mapping("id", "id", false), Mapping("updated_at", "last_modified", true)])

  lemma TouchIsSkipped(store: Store, t: Json, u: Json, x: Reading)
    requires x.stateRead && "k" in store.states
    requires var a := map["id" := Str("k"), "updated_at" := t];
      store.states["k"].fp == FingerprintOf(TOUCHING, Mapped(a, TOUCHING.mapping))
    ensures DecideRow(TOUCHING, store, map["id" := Str("k"), "updated_at" := u], x).Skips?
  {
    var a, b := map["id" := Str("k"), "updated_at" := t], map["id" := Str("k"), "updated_at" := u];
    var m := TOUCHING.mapping;
    assert KeyOf(TOUCHING, b) == Some("k");
    OnlyShownFieldsCount(TOUCHING, store, a, b, "k", x);
    hide DecideRow, FingerprintOf;
    forall k | !Hides(TOUCHING, k) ensures SameField(Mapped(a, m), Mapped(b, m), k) {
      assert m[1].excluded && m[1].dest == "last_modified";
      TouchMapped(t);
      TouchMapped(u);
    }
  }

  lemma TouchMapped(t: Json)
    ensures Mapped(map["id" := Str("k"), "updated_at" := t], TOUCHING.mapping)
      == map["id" := Str("k"), "last_modified" := t]
  {
    var a, m := map["id" := Str("k"), "updated_at" := t], TOUCHING.mapping;
    assert m[..1][..0] == [] && m[..1][0] == m[0];
    assert MappedBy(a, []) == map[];
    assert MappedBy(a, m[..1]) == map["id" := Str("k")];
    assert MappedBy(a, m) == MappedBy(a, m[..1])["last_modified" := t];
  }

  // ---------------------------------------------------------------- entities decided on in every run

  /** The stored state says what the row says. */
  ghost predicate StoredAs(sync: Sync, store: Store, key: string, data: Payload) {
    var es := StateOf(store, key);
    es.Some? && es.value.payload == Mapped(data, sync.mapping) && es.value.fp == FingerprintOf(sync, es.value.payload)
  }

  /** The only rule holds for unchanged entities and asks for a delivery. */
  ghost predicate AlwaysDelivers(cfg: Config) {
    |cfg.rules| == 1 && HoldsStill(cfg.rules[0].when) && !cfg.rules[0].once && cfg.rules[0].action !in {"", "skip"}
  }

  lemma DecidedThough(sync: Sync, store: Store, data: Payload, x: Reading, key: string)
    requires AlwaysDelivers(sync.decisions) && x.stateRead && KeyOf(sync, data) == Some(key) &&
      StoredAs(sync, store, key, data)
    ensures DecideRow(sync, store, data, x).Pends?
  {
    var rule := sync.decisions.rules[0];
    var mapped := Mapped(data, sync.mapping);
    var c := CaseOf(sync, store, key, mapped, x);
    NoDifferenceToItself(sync.show, mapped);
    assert c.input == STILL;
    StillMeans(sync.show, rule.when);
    assert Decides(sync.decisions, c, 0) && Answered(sync.decisions, c, 1);
    ByDecider(sync.decisions, c, 0, Some(PlanOf(sync.decisions, c, rule)));
  }

  lemma RunKeepsStored(sync: Sync, store: Store, run: Run, data: Payload, key: string)
    requires Proper(sync, store, run) && data in run.rows && KeyOf(sync, data) == Some(key) &&
      StoredAs(sync, store, key, data)
    ensures StoredAs(sync, Delivering(sync, store, run).store, key, data)
  {
    var all := DecideAll(sync, store, run.rows, run.xs).pending;
    var pending := all[..|run.lucks|];
    var i :| 0 <= i < |run.rows| && run.rows[i] == data;
    DistinctRowsDistinctPending(sync, store, run.rows, run.xs);
    if p :| p in pending && p.key == key {
      var j :| 0 <= j < |pending| && pending[j] == p;
      var r := PendingFromRow(sync, store, run.rows, run.xs, p);
      assert r == i;
      PendsItsKey(sync, store, data, run.xs[i]);
      hide DecideAll, DeliverAll, DecideRow, SavedStatus, KeptMarks, FingerprintOf, KeyOf;
      RunLeaves(sync, store, pending, run.lucks, j, "");
    } else {
      OthersKeepTheirState(sync, store, pending, run.lucks, key, "");
    }
  }

  /** Run after run: while the row stays as it is, its entity is decided on again, whatever becomes of the
      deliveries. */
  lemma {:induction false} DecidedInEveryRun(sync: Sync, store: Store, runs: seq<Run>, data: Payload, x: Reading,
                                             key: string)
    requires AllProper(sync, store, runs) && AlwaysDelivers(sync.decisions) && KeyOf(sync, data) == Some(key) &&
      x.stateRead
    requires StoredAs(sync, store, key, data) && forall run :: run in runs ==> data in run.rows
    ensures StoredAs(sync, History(sync, store, runs), key, data)
    ensures DecideRow(sync, History(sync, store, runs), data, x).Pends?
  {
    if runs != [] {
      var before := runs[..|runs| - 1];
      assert runs[|runs| - 1] in runs && forall run :: run in before ==> run in runs;
      DecidedInEveryRun(sync, store, before, data, x, key);
      RunKeepsStored(sync, History(sync, store, before), runs[|runs| - 1], data, key);
    }
    hide DecideRow, Delivering, StoredAs, AlwaysDelivers;
    DecidedThough(sync, History(sync, store, runs), data, x, key);
  }
}
