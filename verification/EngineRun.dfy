/** The engine itself: the two loops of a run, the gates between them, and the store they use, proved to be the
    folds of the specification. */
module EngineRun {
  import opened Common
  import opened Json
  import opened Diff
  import opened Decision
  import opened Safety
  import opened EngineSpec

  class StateStore {
    var states: map<string, EntityState>
    var fired: set<(string, string)>

    function Value(): Store
      reads this
    {
      Store(states, fired)
    }

    constructor ()
      ensures Value() == Store(map[], {})
    {
      states, fired := map[], {};
    }

    method GetEntityState(key: string) returns (r: Option<Option<EntityState>>)
      ensures r.Some? ==> r.value == StateOf(Value(), key)
    {
      var fails := *;
      r := if fails then None else Some(if key in states then Some(states[key]) else None);
    }

    /** Asked for one rule of one entity at a time; each lookup can fail. */
    method HasRuleFired(key: string) returns (unread: set<string>, answers: string -> Option<bool>)
      ensures answers == Firings(Value(), key, unread)
    {
      unread := *;
      answers := Firings(Value(), key, unread);
    }

    method SaveEntityState(key: string, es: EntityState) returns (ok: bool)
      modifies this
      ensures Value() == if ok then Store(old(states)[key := es], old(fired)) else old(Value())
    {
      ok := *;
      if ok {
        states := states[key := es];
      }
    }

    method MarkRuleFired(key: string, rule: string) returns (ok: bool)
      modifies this
      ensures Value() == if ok then Store(old(states), old(fired) + {(key, rule)}) else old(Value())
    {
      ok := *;
      if ok {
        fired := fired + {(key, rule)};
      }
    }
  }

  method HasAllRequired(data: Payload, required: seq<string>) returns (ok: bool)
    ensures ok <==> HasRequired(data, required)
  {
    for i := 0 to |required|
      invariant forall f :: f in required[..i] ==> f in data && data[f] != Null
    {
      if required[i] !in data || data[required[i]] == Null {
        return false;
      }
    }
    assert required[..|required|] == required;
    return true;
  }

  method ApplyMapping(data: Payload, mapping: seq<Mapping>) returns (out: Payload)
    ensures out == Mapped(data, mapping)
    ensures mapping == [] ==> out == data
    ensures mapping != [] ==> forall d :: d in out <==> exists i :: Feeds(data, mapping, i, d)
    ensures mapping != [] ==> forall d, i :: LastFeeds(data, mapping, i, d) ==>
      d in out && out[d] == data[mapping[i].source]
  {
    if mapping == [] {
      return data;
    }
    out := map[];
    assert mapping[..0] == [];
    for i := 0 to |mapping|
      invariant out == MappedBy(data, mapping[..i])
    {
      assert mapping[..i + 1][..i] == mapping[..i];
      if mapping[i].source in data {
        out := out[mapping[i].dest := data[mapping[i].source]];
      }
    }
    assert mapping[..|mapping|] == mapping;
    forall d ensures d in out <==> exists i :: Feeds(data, mapping, i, d) { MappingMeans(data, mapping, d); }
    forall d, i | LastFeeds(data, mapping, i, d) ensures d in out && out[d] == data[mapping[i].source] {
      MappingMeans(data, mapping, d);
    }
  }

  method ExcludedFields(sync: Sync) returns (fields: seq<string>)
    ensures fields == ExcludedBy(sync.mapping) + sync.exclude
  {
    fields := [];
    assert sync.mapping[..0] == [];
    for i := 0 to |sync.mapping|
      invariant fields == ExcludedBy(sync.mapping[..i])
    {
      assert sync.mapping[..i + 1][..i] == sync.mapping[..i];
      if sync.mapping[i].excluded {
        fields := fields + [sync.mapping[i].dest];
      }
    }
    assert sync.mapping[..|sync.mapping|] == sync.mapping;
    fields := fields + sync.exclude;
  }

  /** One more row in which these fields changed. */
  function OneMoreChange(counts: map<string, nat>, fields: set<string>): map<string, nat> {
    map f | f in counts.Keys + fields :: (if f in counts then counts[f] else 0) + if f in fields then 1 else 0
  }

  lemma ChangeCountsSnoc(pending: seq<Pending>, p: Pending)
    ensures ChangeCounts(pending + [p]) == OneMoreChange(ChangeCounts(pending), p.changed)
  {
    assert (pending + [p])[..|pending|] == pending;
  }

  method CountChanges(counts: map<string, nat>, fields: set<string>) returns (out: map<string, nat>)
    ensures out == OneMoreChange(counts, fields)
  {
    out := counts;
    var todo := fields;
    while todo != {}
      invariant todo <= fields
      invariant out == OneMoreChange(counts, fields - todo)
      decreases todo
    {
      var f :| f in todo;
      todo := todo - {f};
      out := out[f := (if f in out then out[f] else 0) + 1];
    }
  }

  method CountPending(sync: Sync, pending: seq<Pending>) returns (counts: RunCounts)
    ensures counts.Value() == PendingCounts(pending) && fresh(counts)
  {
    counts := new RunCounts();
    assert pending[..0] == [];
    for i := 0 to |pending|
      invariant fresh(counts) && counts.Value() == PendingCounts(pending[..i])
    {
      assert pending[..i + 1][..i] == pending[..i];
      Record(pending[i].plan.action, counts);
    }
    assert pending[..|pending|] == pending;
  }

  class Engine {
    const sync: Sync
    const store: StateStore

    constructor (sync: Sync, store: StateStore)
      ensures this.sync == sync && this.store == store
    {
      this.sync, this.store := sync, store;
    }

    /** Decides on one row. */
    method Decide(data: Payload, excluded: seq<string>) returns (v: Verdict, key: Option<string>, ghost x: Reading)
      requires excluded == ExcludedBy(sync.mapping) + sync.exclude
      ensures v == DecideRow(sync, store.Value(), data, x) && key == KeyOf(sync, data)
    {
      x := Reading(true, {}, "");
      var complete := HasAllRequired(data, sync.required);
      if !complete {
        return Skips, None, x;
      }
      var mapped := ApplyMapping(data, sync.mapping);
      var k := sync.show(Field(data, sync.entityKey));
      if k == "" || k == "<nil>" {
        return Skips, None, x;
      }
      key := Some(k);
      var es := store.GetEntityState(k);
      if es.None? {
        return Errs, key, Reading(false, {}, "");
      }
      var fp := Fingerprint.Of(Fingerprint.FpFields(mapped, sync.included), excluded);
      var changes := Compute(sync.show, PayloadOf(es.value), mapped);
      var unread, answers := store.HasRuleFired(k);
      var now: string := *;
      x := Reading(true, unread, now);
      var c := Case(sync.show, Input(es.value.None?, fp != FpOf(es.value), changes), now, answers);
      var plan := Evaluate(sync.decisions, c);
      assert c == CaseOf(sync, store.Value(), k, mapped, x);
      if plan.None? {
        return Errs, key, x;
      }
      if plan.value.action == "skip" {
        return Skips, key, x;
      }
      v := Pends(Pending(k, mapped, fp, es.value, plan.value, changes.Keys));
    }

    /** The first loop: nothing is delivered and nothing is written. A cancelled run stops reading rows. */
    method DecideRows(rows: seq<Payload>)
      returns (d: Decided, changes: map<string, nat>, extracted: nat, canceled: bool, ghost xs: seq<Reading>)
      ensures extracted <= |rows| && (!canceled ==> extracted == |rows|) && |xs| == extracted
      ensures d == DecideAll(sync, store.Value(), rows[..extracted], xs) && changes == ChangeCounts(d.pending)
    {
      var excluded := ExcludedFields(sync);
      d, changes, extracted, canceled, xs := UNDECIDED, map[], 0, false, [];
      assert rows[..0] == [];
      DecideNone(sync, store.Value());
      assert ChangeCounts([]) == map[];
      hide DecideAll, DecideRow, ChangeCounts;
      while extracted < |rows|
        invariant extracted <= |rows| && |xs| == extracted && !canceled
        invariant d == DecideAll(sync, store.Value(), rows[..extracted], xs) && changes == ChangeCounts(d.pending)
      {
        canceled := *;
        if canceled {
          return;
        }
        var v, key;
        ghost var x;
        v, key, x := Decide(rows[extracted], excluded);
        DecideSnoc(sync, store.Value(), rows, extracted, xs, x);
        if v.Pends? {
          ChangeCountsSnoc(d.pending, v.p);
          changes := CountChanges(changes, v.p.changed);
        }
        d := Noted(d, v, key);
        xs := xs + [x];
        extracted := extracted + 1;
      }
      assert rows[..extracted] == rows;
    }

    /** The destination: what one load reports is up to it. */
    method Load(p: Pending) returns (o: Outcome)
    {
      o := *;
    }

    method Save(p: Pending, status: string) returns (ok: bool)
      modifies store
      ensures store.Value() == Saved(sync, old(store.Value()), p, status, ok)
    {
      ok := true;
      if !sync.dryRun {
        ok := store.SaveEntityState(p.key, NewState(p, status));
      }
    }

    /** Marks every triggered rule that fires once; a mark can be lost. */
    method MarkFired(p: Pending) returns (ghost kept: set<(string, string)>)
      modifies store
      ensures kept <= OnceTriggered(sync, p)
      ensures store.Value() ==
        if sync.dryRun then old(store.Value()) else old(store.Value()).(fired := old(store.fired) + kept)
    {
      kept := {};
      if sync.dryRun {
        return;
      }
      var triggered := p.plan.triggered;
      for i := 0 to |triggered|
        invariant kept <= OnceTriggered(sync, p)
        invariant store.Value() == old(store.Value()).(fired := old(store.fired) + kept)
      {
        for j := 0 to |sync.decisions.rules|
          invariant kept <= OnceTriggered(sync, p)
          invariant store.Value() == old(store.Value()).(fired := old(store.fired) + kept)
        {
          var rule := sync.decisions.rules[j];
          if rule.name == triggered[i] && rule.once {
            var ok := store.MarkRuleFired(p.key, rule.name);
            if ok {
              assert rule in sync.decisions.rules && rule.name in triggered;
              assert old(store.fired) + kept + {(p.key, rule.name)} == old(store.fired) + (kept + {(p.key, rule.name)});
              kept := kept + {(p.key, rule.name)};
            }
          }
        }
      }
    }

    method Succeed(p: Pending, stats: RunStats) returns (ghost luck: Luck)
      requires |p.plan.triggered| <= 1
      modifies store, stats, stats.counts
      ensures forall o, f :: Now(stats) == Succeeded(sync, old(Now(stats)), p, Luck(o, f, luck.saved, luck.marked))
    {
      var saved := Save(p, "success");
      ghost var kept := MarkFired(p);
      OneMark(sync, p, kept);
      luck := Luck(Returned(1, 0, 0), true, saved, kept == OnceTriggered(sync, p));
      Record(p.plan.action, stats.counts);
      stats.delivered := stats.delivered + [p];
    }

    ghost function Now(stats: RunStats): Progress
      reads store, stats, stats.counts
    {
      Progress(store.Value(), stats.counts.Value(), stats.loaded, stats.skipped, stats.errored, stats.sent,
               stats.delivered)
    }

    /** Every reported row error counts and saves the failed state; one save that is kept is enough. */
    method SaveFailures(p: Pending, errors: nat, stats: RunStats) returns (saved: bool)
      modifies store, stats
      ensures Now(stats) == old(Now(stats)).(errored := old(stats.errored) + errors,
                                             store := Saved(sync, old(store.Value()), p, "failed", saved))
      ensures errors == 0 ==> !saved
    {
      saved := false;
      for i := 0 to errors
        invariant Now(stats) == old(Now(stats)).(errored := old(stats.errored) + i,
                                                 store := Saved(sync, old(store.Value()), p, "failed", saved))
        invariant i == 0 ==> !saved
      {
        stats.errored := stats.errored + 1;
        var ok := Save(p, "failed");
        saved := saved || ok;
      }
    }

    /** One decided delivery. */
    method Deliver(p: Pending, stats: RunStats) returns (ghost luck: Luck)
      requires |p.plan.triggered| <= 1
      modifies store, stats, stats.counts
      ensures Now(stats) == DeliverOne(sync, old(Now(stats)), p, luck)
    {
      luck := Luck(Returned(1, 0, 0), true, true, true);
      var allowed := Allow(sync.limits, p.plan.action, stats.counts);
      if !allowed {
        stats.skipped := stats.skipped + 1;
        return;
      }
      if !sync.hasDest {
        stats.loaded := stats.loaded + 1;
        luck := Succeed(p, stats);
        return;
      }
      var o := Load(p);
      stats.sent := stats.sent + [p];
      stats.loaded, stats.skipped := stats.loaded + o.loaded, stats.skipped + o.skipped;
      if o.Failed? {
        stats.errored := stats.errored + 1;
        var saved := Save(p, "failed");
        luck := Luck(o, saved, true, true);
        return;
      }
      if o.loaded == 0 && o.skipped > 0 && o.errors == 0 {
        luck := Luck(o, true, true, true);
        return;
      }
      hide Saved, Marked;
      var savedFailed := SaveFailures(p, o.errors, stats);
      luck := Luck(o, savedFailed, true, true);
      if o.errors > 0 && o.loaded == 0 {
        return;
      }
      luck := Succeed(p, stats);
      luck := luck.(outcome := o, savedFailed := savedFailed);
    }

    /** The second loop. A cancelled run stops before a delivery. */
    method DeliverRows(pending: seq<Pending>, canceled: bool, stats: RunStats) returns (ghost lucks: seq<Luck>)
      requires Now(stats) == Started(store.Value()) && forall p :: p in pending ==> |p.plan.triggered| <= 1
      modifies store, stats, stats.counts
      ensures |lucks| <= |pending| && (canceled ==> lucks == [])
      ensures Now(stats) == DeliverAll(sync, old(store.Value()), pending[..|lucks|], lucks)
    {
      ghost var store0 := store.Value();
      lucks := [];
      DeliverNone(sync, store0);
      assert pending[..0] == [];
      hide DeliverAll, DeliverOne;
      for i := 0 to |pending|
        invariant |lucks| == i && (canceled ==> i == 0)
        invariant Now(stats) == DeliverAll(sync, store0, pending[..i], lucks)
      {
        var stop := *;
        if canceled || stop {
          return;
        }
        assert pending[i] in pending;
        ghost var luck := Deliver(pending[i], stats);
        DeliverSnoc(sync, store0, pending, i, lucks, luck);
        lucks := lucks + [luck];
      }
    }

    /** A run: decide, pass the gates or stop with nothing delivered and nothing written, deliver. `hash` and
        `provided` are the snapshot hash and what the operator gave. */
    method RunOnce(rows: seq<Payload>, hash: Counts -> string, provided: string)
      returns (passed: bool, stats: RunStats, d: Decided, extracted: nat, ghost xs: seq<Reading>,
               ghost lucks: seq<Luck>)
      modifies store
      ensures fresh(stats) && fresh(stats.counts) && extracted <= |rows| && |xs| == extracted
      ensures d == DecideAll(sync, old(store.Value()), rows[..extracted], xs)
      ensures passed <==> GatesPass(sync, extracted, d.pending, provided == hash(PendingCounts(d.pending)))
      ensures !passed ==> Now(stats) == Started(old(store.Value()))
      ensures passed ==>
        |lucks| <= |d.pending| && Now(stats) == DeliverAll(sync, old(store.Value()), d.pending[..|lucks|], lucks)
    {
      stats := new RunStats();
      lucks := [];
      var changes, canceled;
      d, changes, extracted, canceled, xs := DecideRows(rows);
      passed := CheckFieldRatios(sync.limits, changes, extracted);
      if !passed {
        return;
      }
      var pendingCounts := CountPending(sync, d.pending);
      var needed := ApprovalRequired(sync.limits, pendingCounts);
      if needed && provided != hash(Counts(pendingCounts.creates, pendingCounts.updates, pendingCounts.deletes)) {
        passed := false;
        return;
      }
      OneTriggeredEach(sync, store.Value(), rows[..extracted], xs);
      lucks := DeliverRows(d.pending, canceled, stats);
    }
  }

  lemma DeliverNone(sync: Sync, store: Store)
    ensures DeliverAll(sync, store, [], []) == Started(store)
  {
  }

  lemma DeliverSnoc(sync: Sync, store: Store, pending: seq<Pending>, n: nat, lucks: seq<Luck>, luck: Luck)
    requires n < |pending| && |lucks| == n
    ensures DeliverAll(sync, store, pending[..n + 1], lucks + [luck]) ==
      DeliverOne(sync, DeliverAll(sync, store, pending[..n], lucks), pending[n], luck)
  {
    assert pending[..n + 1][..n] == pending[..n] && (lucks + [luck])[..n] == lucks;
  }

  lemma {:induction false} OneTriggeredEach(sync: Sync, store: Store, rows: seq<Payload>, xs: seq<Reading>)
    requires |xs| == |rows|
    ensures forall p :: p in DecideAll(sync, store, rows, xs).pending ==> |p.plan.triggered| <= 1
  {
    if rows != [] {
      var n := |rows| - 1;
      OneTriggeredEach(sync, store, rows[..n], xs[..n]);
      OneTriggered(sync, store, rows[n], xs[n]);
      hide DecideRow;
    }
  }

  lemma OneTriggered(sync: Sync, store: Store, data: Payload, x: Reading)
    ensures DecideRow(sync, store, data, x).Pends? ==> |DecideRow(sync, store, data, x).p.plan.triggered| <= 1
  {
  }

  class RunStats {
    var loaded: nat
    var skipped: nat
    var errored: nat
    const counts: RunCounts
    ghost var sent: seq<Pending>
    ghost var delivered: seq<Pending>

    constructor ()
      ensures loaded == skipped == errored == 0 && sent == delivered == [] && counts.Value() == NONE && fresh(counts)
    {
      counts := new RunCounts();
      loaded, skipped, errored, sent, delivered := 0, 0, 0, [], [];
    }
  }

  /** With one triggered rule there is one mark, which is kept or lost. */
  lemma OneMark(sync: Sync, p: Pending, kept: set<(string, string)>)
    requires |p.plan.triggered| <= 1 && kept <= OnceTriggered(sync, p)
    ensures kept == {} || kept == OnceTriggered(sync, p)
  {
    if m :| m in kept {
      forall n | n in OnceTriggered(sync, p) ensures n == m {
        assert n.1 in p.plan.triggered && m.1 in p.plan.triggered;
      }
    }
  }

  lemma DecideNone(sync: Sync, store: Store)
    ensures DecideAll(sync, store, [], []) == UNDECIDED
  {
  }

  lemma DecideSnoc(sync: Sync, store: Store, rows: seq<Payload>, n: nat, xs: seq<Reading>, x: Reading)
    requires n < |rows| && |xs| == n
    ensures DecideAll(sync, store, rows[..n + 1], xs + [x]) ==
      Noted(DecideAll(sync, store, rows[..n], xs), DecideRow(sync, store, rows[n], x), KeyOf(sync, rows[n]))
  {
    assert rows[..n + 1][..n] == rows[..n] && (xs + [x])[..n] == xs;
  }
}
