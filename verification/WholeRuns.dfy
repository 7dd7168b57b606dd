/** Limits and approval over a whole run, the delivery loop and then the sweep. The sweep counts its deletes from zero
    again and asks for no approval: when does the run as a whole keep what is configured? */
module WholeRuns {
  import opened Common
  import opened Diff
  import opened Decision
  import opened Safety
  import opened EngineSpec
  import opened EngineRuns
  import opened EntityHistory
  import M = MissingSweep

  /** The sweep has the engine's delete limit and its destination. */
  predicate Shared(sync: Sync, cfg: M.Config) {
    cfg.maxDeletes == sync.limits.maxDeletes && cfg.hasDest == sync.hasDest
  }

  predicate MayDelete(cfg: M.Config) { cfg.action.Delete? && cfg.allowDestructive && cfg.hasDest }

  /** What is left of `n` under a limit, if there is one. */
  function Capped(limit: int, n: nat): nat { if 0 < limit < n then limit else n }

  // ---------------------------------------------------------------- deletes of a sweep

  function DueIn(cfg: M.Config, seen: set<string>, rows: map<string, M.Entity>, keys: seq<string>): set<string> {
    set k | k in keys && k in rows && k !in seen && rows[k].missing + 1 >= M.Threshold(cfg)
  }

  function Deletable(cfg: M.Config, seen: set<string>, rows: map<string, M.Entity>, keys: seq<string>): nat {
    if MayDelete(cfg) then |DueIn(cfg, seen, rows, keys)| else 0
  }

  lemma DeletableSnoc(cfg: M.Config, seen: set<string>, rows: map<string, M.Entity>, keys: seq<string>)
    requires keys != [] && Distinct(keys) && keys[|keys| - 1] in rows
    ensures var n := |keys| - 1;
      Deletable(cfg, seen, rows, keys) == Deletable(cfg, seen, rows, keys[..n])
        + if MayDelete(cfg) && keys[n] !in seen && rows[keys[n]].missing + 1 >= M.Threshold(cfg) then 1 else 0
  {
    var n := |keys| - 1;
    var k := keys[n];
    assert forall x :: x in keys <==> x in keys[..n] || x == k;
    assert k !in keys[..n];
    var before := DueIn(cfg, seen, rows, keys[..n]);
    assert DueIn(cfg, seen, rows, keys) ==
      if k !in seen && rows[k].missing + 1 >= M.Threshold(cfg) then before + {k} else before;
  }

  lemma VisitDeletes(cfg: M.Config, seen: set<string>, a: M.Progress, k: string, luck: M.Luck)
    requires k in a.rows
    ensures var b := M.Visit(cfg, seen, a, k, luck);
      var due := MayDelete(cfg) && k !in seen && a.rows[k].missing + 1 >= M.Threshold(cfg);
      var asked := due && !(0 < cfg.maxDeletes <= a.deleted);
      && b.deleted == a.deleted + (if asked && luck.loaded then 1 else 0)
      && M.DeleteRequests(b.requests) == M.DeleteRequests(a.requests) + if asked then 1 else 0
  {
    var v := M.Judge(cfg, a.rows[k].missing + 1, a.deleted);
    if k !in seen && M.Requests(cfg, k, v) != [] {
      M.DeleteRequestsSnoc(a.requests, M.Requests(cfg, k, v)[0]);
      assert M.Requests(cfg, k, v) == [M.Requests(cfg, k, v)[0]];
    } else {
      assert a.requests + [] == a.requests;
    }
  }

  /** A sweep deletes at most what is due, within the limit, and just that when every load succeeds. It requests a
      delete exactly when one is due. */
  lemma {:induction false} SweepDeletes(cfg: M.Config, seen: set<string>, rows: map<string, M.Entity>,
                                        keys: seq<string>, lucks: seq<M.Luck>)
    requires |lucks| == |keys| && (forall k :: k in keys ==> k in rows) && Distinct(keys)
    ensures var b := M.VisitAll(cfg, seen, M.Progress(rows, 0, []), keys, lucks);
      var n := Deletable(cfg, seen, rows, keys);
      && b.deleted <= Capped(cfg.maxDeletes, n)
      && ((forall l :: l in lucks ==> l.loaded) ==> b.deleted == Capped(cfg.maxDeletes, n))
      && (M.DeleteRequests(b.requests) > 0 <==> n > 0)
  {
    if keys != [] {
      var n := |keys| - 1;
      var a := M.VisitAll(cfg, seen, M.Progress(rows, 0, []), keys[..n], lucks[..n]);
      SweepDeletes(cfg, seen, rows, keys[..n], lucks[..n]);
      M.OthersUntouched(cfg, seen, M.Progress(rows, 0, []), keys[..n], lucks[..n], keys[n]);
      DeletableSnoc(cfg, seen, rows, keys);
      VisitDeletes(cfg, seen, a, keys[n], lucks[n]);
      assert lucks[n] in lucks && forall l :: l in lucks[..n] ==> l in lucks;
      hide M.Visit, Deletable, MayDelete, M.Threshold;
    }
  }

  // ---------------------------------------------------------------- deliveries of the engine

  /** Every kind within its limit. */
  function CappedCounts(l: Limits, c: Counts): Counts {
    Counts(Capped(l.maxCreates, c.creates), Capped(l.maxUpdates, c.updates), Capped(l.maxDeletes, c.deletes))
  }

  const BEST := Luck(Returned(1, 0, 0), true, true, true)

  lemma BestStep(sync: Sync, a: Progress, p: Pending, c: Counts)
    requires a.counts == CappedCounts(sync.limits, c)
    ensures DeliverOne(sync, a, p, BEST).counts == CappedCounts(sync.limits, Recorded(p.plan.action, c))
  {
  }

  /** When every load succeeds, what is pending is delivered as far as the limits let it. */
  lemma {:induction false} BestDeliveries(sync: Sync, store: Store, pending: seq<Pending>)
    ensures DeliverAll(sync, store, pending, seq(|pending|, _ => BEST)).counts
      == CappedCounts(sync.limits, PendingCounts(pending))
  {
    if pending != [] {
      var n := |pending| - 1;
      assert seq(|pending|, _ => BEST)[..n] == seq(|pending[..n]|, _ => BEST);
      BestDeliveries(sync, store, pending[..n]);
      BestStep(sync, DeliverAll(sync, store, pending[..n], seq(n, _ => BEST)), pending[n], PendingCounts(pending[..n]));
      hide DeliverOne;
    }
  }

  lemma DeliveriesCapped(sync: Sync, store: Store, pending: seq<Pending>, lucks: seq<Luck>)
    requires |lucks| <= |pending|
    ensures AtMost(DeliverAll(sync, store, pending[..|lucks|], lucks).counts,
                   CappedCounts(sync.limits, PendingCounts(pending)))
  {
    CountsAreBounded(sync, store, pending[..|lucks|], lucks);
    PendingCountsGrow(pending, |lucks|);
    hide DeliverAll, PendingCounts;
  }

  // ---------------------------------------------------------------- whole runs

  /** The rows that were extracted and how the store answered, and whether what is pending was approved. */
  datatype Extract = Extract(rows: seq<Payload>, xs: seq<Reading>, approved: bool)

  /** A possible run over an extraction. */
  ghost predicate RunsOver(sync: Sync, store: Store, x: Extract, w: Whole) {
    PossibleWhole(sync, store, w) && w.run.rows == x.rows && w.run.xs == x.xs && w.approved == x.approved
  }

  ghost function PendingOf(sync: Sync, store: Store, x: Extract): seq<Pending>
    requires |x.xs| == |x.rows|
  {
    DecideAll(sync, store, x.rows, x.xs).pending
  }

  ghost predicate Passes(sync: Sync, store: Store, x: Extract)
    requires |x.xs| == |x.rows|
  {
    GatesPass(sync, |x.rows|, PendingOf(sync, store, x), x.approved)
  }

  /** Deletes that are pending. */
  ghost function D(sync: Sync, store: Store, x: Extract): nat
    requires |x.xs| == |x.rows|
  {
    PendingCounts(PendingOf(sync, store, x)).deletes
  }

  /** Stored entities that were not extracted and whose delete is due, when the sweep may delete. */
  ghost function E(sync: Sync, cfg: M.Config, store: Store, x: Extract): nat
    requires |x.xs| == |x.rows|
  {
    if MayDelete(cfg) then |Due(cfg, DecideAll(sync, store, x.rows, x.xs).seen, store.states)| else 0
  }

  function Due(cfg: M.Config, seen: set<string>, states: map<string, EntityState>): set<string> {
    set k | k in states && k !in seen && states[k].missing + 1 >= M.Threshold(cfg)
  }

  /** What a run delivered, with the deletes of its sweep. */
  ghost function CountsOf(sync: Sync, cfg: M.Config, store: Store, w: Whole): Counts
    requires PossibleWhole(sync, store, w)
  {
    var c := Delivering(sync, store, w.run).counts;
    c.(deletes := c.deletes + Sweep(sync, cfg, store, w).deleted)
  }

  /** The most a run over the extraction can deliver. */
  ghost function Most(sync: Sync, cfg: M.Config, store: Store, x: Extract): Counts
    requires |x.xs| == |x.rows|
  {
    var c := CappedCounts(sync.limits, PendingCounts(PendingOf(sync, store, x)));
    c.(deletes := c.deletes + Capped(cfg.maxDeletes, E(sync, cfg, store, x)))
  }

  /** What is due was due before the delivery loop. */
  lemma DueBefore(sync: Sync, cfg: M.Config, store: Store, run: Run, keys: seq<string>)
    requires Possible(sync, store, run)
    ensures var seen, states := Seen(sync, store, run), Delivering(sync, store, run).store.states;
      && DueIn(cfg, seen, Views(states), keys) <= Due(cfg, seen, store.states)
      && ((forall k :: k in keys <==> k in states) ==>
            DueIn(cfg, seen, Views(states), keys) == Due(cfg, seen, store.states))
  {
    var seen, states := Seen(sync, store, run), Delivering(sync, store, run).store.states;
    forall k | k !in seen ensures k in states <==> k in store.states
      ensures k in states ==> states[k] == store.states[k]
    {
      UnseenUntouched(sync, store, run, k);
      assert StateOf(Delivering(sync, store, run).store, k) == StateOf(store, k);
    }
    hide Seen, Delivering;
  }

  /** No run over the extraction delivers more than the most. */
  lemma AtMostMost(sync: Sync, cfg: M.Config, store: Store, x: Extract, w: Whole)
    requires Shared(sync, cfg) && RunsOver(sync, store, x, w)
    ensures AtMost(CountsOf(sync, cfg, store, w), Most(sync, cfg, store, x))
  {
    var seen, states := Seen(sync, store, w.run), Delivering(sync, store, w.run).store.states;
    var keys := w.keys[..|w.lucks|];
    DistinctPrefix(w.keys, |w.lucks|);
    SweepDeletes(cfg, seen, Views(states), keys, w.lucks);
    DueBefore(sync, cfg, store, w.run, keys);
    SubsetSize(DueIn(cfg, seen, Views(states), keys), Due(cfg, seen, store.states));
    DeliveriesCapped(sync, store, PendingOf(sync, store, x), w.run.lucks);
    hide DeliverAll, DecideAll, PendingCounts, M.VisitAll, GatesPass;
  }

  lemma DistinctPrefix(keys: seq<string>, n: nat)
    requires Distinct(keys) && n <= |keys|
    ensures Distinct(keys[..n])
  {
  }

  lemma {:induction false} SubsetSize(a: set<string>, b: set<string>)
    requires a <= b
    ensures |a| <= |b|
    decreases a
  {
    if k :| k in a {
      SubsetSize(a - {k}, b - {k});
    }
  }

  lemma {:induction false} SomeListing(s: set<string>) returns (keys: seq<string>)
    ensures Distinct(keys) && forall k :: k in keys <==> k in s
    decreases s
  {
    if k :| k in s {
      var rest := SomeListing(s - {k});
      keys := rest + [k];
      DistinctSnoc(rest, k);
    } else {
      keys := [];
    }
  }

  /** Some run does deliver the most, sweeping completely. */
  lemma MostHappens(sync: Sync, cfg: M.Config, store: Store, x: Extract) returns (w: Whole)
    requires Shared(sync, cfg) && |x.xs| == |x.rows| && Passes(sync, store, x)
    ensures RunsOver(sync, store, x, w) && Sweeps(w) && |w.lucks| == |w.keys|
    ensures CountsOf(sync, cfg, store, w) == Most(sync, cfg, store, x)
  {
    var run := BestRun(sync, store, x);
    var states := Delivering(sync, store, run).store.states;
    var keys := SomeListing(states.Keys);
    w := Whole(run, x.approved, false, keys, seq(|keys|, _ => M.Luck(true, true)));
    BestSweep(sync, cfg, store, run, keys, w.lucks);
    assert keys[..|w.lucks|] == keys;
    hide Delivering, DecideAll, PendingCounts, M.VisitAll, GatesPass, Capped;
  }

  lemma BestRun(sync: Sync, store: Store, x: Extract) returns (run: Run)
    requires |x.xs| == |x.rows|
    ensures run.rows == x.rows && run.xs == x.xs && run.passes && |run.lucks| == |PendingOf(sync, store, x)|
    ensures Possible(sync, store, run)
    ensures Delivering(sync, store, run).counts == CappedCounts(sync.limits, PendingCounts(PendingOf(sync, store, x)))
  {
    var pending := PendingOf(sync, store, x);
    run := Run(x.rows, x.xs, true, seq(|pending|, _ => BEST));
    assert pending[..|pending|] == pending;
    BestDeliveries(sync, store, pending);
    hide DeliverAll, DecideAll, PendingCounts;
  }

  lemma BestSweep(sync: Sync, cfg: M.Config, store: Store, run: Run, keys: seq<string>, lucks: seq<M.Luck>)
    requires Possible(sync, store, run) && Distinct(keys) && |lucks| == |keys| && forall l :: l in lucks ==> l.loaded
    requires forall k :: k in keys <==> k in Delivering(sync, store, run).store.states
    ensures var states := Delivering(sync, store, run).store.states;
      M.VisitAll(cfg, Seen(sync, store, run), M.Progress(Views(states), 0, []), keys, lucks).deleted
      == Capped(cfg.maxDeletes, if MayDelete(cfg) then |Due(cfg, Seen(sync, store, run), store.states)| else 0)
  {
    SweepDeletes(cfg, Seen(sync, store, run), Views(Delivering(sync, store, run).store.states), keys, lucks);
    DueBefore(sync, cfg, store, run, keys);
    hide Delivering, Seen, M.VisitAll, Capped, Due, DueIn;
  }

  // ---------------------------------------------------------------- the delete limit

  /** No run over the extraction deletes more than the limit. */
  ghost predicate KeepsDeleteLimit(sync: Sync, cfg: M.Config, store: Store, x: Extract) {
    forall w :: RunsOver(sync, store, x, w) ==> CountsOf(sync, cfg, store, w).deletes <= sync.limits.maxDeletes
  }

  /** The delivery loop and the sweep each keep the limit. Together they do exactly when the smaller of limit and
      pending deletes and the smaller of limit and due deletes do, or a gate stops the run. */
  lemma KeepsDeleteLimitIff(sync: Sync, cfg: M.Config, store: Store, x: Extract)
    requires Shared(sync, cfg) && |x.xs| == |x.rows| && sync.limits.maxDeletes > 0
    ensures var l := sync.limits.maxDeletes;
      KeepsDeleteLimit(sync, cfg, store, x) <==>
      !Passes(sync, store, x) || Min(l, D(sync, store, x)) + Min(l, E(sync, cfg, store, x)) <= l
  {
    hide PossibleWhole, CountsOf, D, E, Passes;
    MostDeletes(sync, cfg, store, x);
    if Passes(sync, store, x) {
      var w := MostHappens(sync, cfg, store, x);
      forall v | RunsOver(sync, store, x, v)
        ensures CountsOf(sync, cfg, store, v).deletes <= Most(sync, cfg, store, x).deletes
      {
        AtMostMost(sync, cfg, store, x, v);
      }
    } else {
      forall v | RunsOver(sync, store, x, v) ensures CountsOf(sync, cfg, store, v).deletes == 0 {
        StoppedCounts(sync, cfg, store, x, v);
      }
    }
  }

  lemma MostDeletes(sync: Sync, cfg: M.Config, store: Store, x: Extract)
    requires Shared(sync, cfg) && |x.xs| == |x.rows| && sync.limits.maxDeletes > 0
    ensures Most(sync, cfg, store, x).deletes ==
      Min(sync.limits.maxDeletes, D(sync, store, x)) + Min(sync.limits.maxDeletes, E(sync, cfg, store, x))
  {
  }

  lemma StoppedCounts(sync: Sync, cfg: M.Config, store: Store, x: Extract, w: Whole)
    requires RunsOver(sync, store, x, w) && !Passes(sync, store, x)
    ensures CountsOf(sync, cfg, store, w) == NONE
  {
  }

  // ---------------------------------------------------------------- approval

  /** No run over the extraction delivers, sweep included, what would need approval. */
  ghost predicate KeepsApproval(sync: Sync, cfg: M.Config, store: Store, x: Extract) {
    forall w :: RunsOver(sync, store, x, w) ==> !NeedsApproval(sync.limits, CountsOf(sync, cfg, store, w))
  }

  /** Without approval that is so exactly when no delete is due or deletes do not always need approval, and the most
      that can be delivered, due deletes included, is not over the threshold; or when a gate stops the run. */
  lemma KeepsApprovalIff(sync: Sync, cfg: M.Config, store: Store, x: Extract)
    requires Shared(sync, cfg) && |x.xs| == |x.rows| && !x.approved
    ensures KeepsApproval(sync, cfg, store, x) <==>
      || !Passes(sync, store, x)
      || ((E(sync, cfg, store, x) == 0 || !Named(sync.limits, "delete"))
          && (sync.limits.approvalAbove > 0.0 ==>
                Total(Most(sync, cfg, store, x)) as real <= sync.limits.approvalAbove))
  {
    if Passes(sync, store, x) {
      MostNeedsApproval(sync, cfg, store, x);
      var w := MostHappens(sync, cfg, store, x);
      hide PossibleWhole, CountsOf, E, Passes, Most, NeedsApproval;
      forall v | RunsOver(sync, store, x, v) && NeedsApproval(sync.limits, CountsOf(sync, cfg, store, v))
        ensures NeedsApproval(sync.limits, Most(sync, cfg, store, x))
      {
        AtMostMost(sync, cfg, store, x, v);
        ApprovalIsMonotone(sync.limits, CountsOf(sync, cfg, store, v), Most(sync, cfg, store, x));
      }
    } else {
      hide PossibleWhole, CountsOf, E, Passes, Most, NeedsApproval;
      forall v | RunsOver(sync, store, x, v) ensures !NeedsApproval(sync.limits, CountsOf(sync, cfg, store, v)) {
        StoppedCounts(sync, cfg, store, x, v);
        NothingNeedsNone(sync.limits);
      }
    }
  }

  lemma NothingNeedsNone(l: Limits)
    ensures !NeedsApproval(l, NONE)
  {
  }

  lemma MostNeedsApproval(sync: Sync, cfg: M.Config, store: Store, x: Extract)
    requires Shared(sync, cfg) && |x.xs| == |x.rows| && !x.approved && Passes(sync, store, x)
    ensures NeedsApproval(sync.limits, Most(sync, cfg, store, x)) <==>
      || (E(sync, cfg, store, x) > 0 && Named(sync.limits, "delete"))
      || (sync.limits.approvalAbove > 0.0 && Total(Most(sync, cfg, store, x)) as real > sync.limits.approvalAbove)
  {
    hide PendingOf, E, Named;
  }

  /** Some approval is configured that deletes can need. */
  predicate GuardsDeletes(l: Limits) { Named(l, "delete") || l.approvalAbove > 0.0 }

  /** A sweep of the whole listing requests a delete exactly when one is due: with approval configured for deletes and
      none given, no delete goes out exactly when none is due. */
  lemma DeleteRequestedIff(sync: Sync, cfg: M.Config, store: Store, x: Extract, w: Whole)
    requires Shared(sync, cfg) && RunsOver(sync, store, x, w) && Sweeps(w) && |w.lucks| == |w.keys|
    ensures M.DeleteRequests(Sweep(sync, cfg, store, w).requests) > 0 <==> E(sync, cfg, store, x) > 0
    ensures (GuardsDeletes(sync.limits) ==> M.DeleteRequests(Sweep(sync, cfg, store, w).requests) == 0) <==>
      !GuardsDeletes(sync.limits) || E(sync, cfg, store, x) == 0
  {
    var seen, states := Seen(sync, store, w.run), Delivering(sync, store, w.run).store.states;
    assert w.keys[..|w.lucks|] == w.keys;
    SweepDeletes(cfg, seen, Views(states), w.keys, w.lucks);
    DueBefore(sync, cfg, store, w.run, w.keys);
    hide DeliverAll, DecideAll, PendingCounts, M.VisitAll, GatesPass, GuardsDeletes;
  }

  // ---------------------------------------------------------------- such runs

  const SWEEPING := M.Config(1, M.Delete, true, 0, [], true)

  /** Deletes always need approval. */
  const ASKING := IDLE.(limits := IDLE.limits.(approvalFor := ["delete"]))

  /** Nothing is extracted, so nothing is pending and the gates pass without approval; the sweep then requests the
      delete of the only stored entity. */
  lemma UnapprovedDelete(store: Store, key: string)
    requires store.states.Keys == {key}
    ensures Named(ASKING.limits, "delete") && GatesPass(ASKING, 0, [], false)
    ensures PossibleWhole(ASKING, store, Only(key)) && !Only(key).approved
    ensures Sweep(ASKING, SWEEPING, store, Only(key)).requests == [M.DeleteRow(key)]
  {
    assert "delete" in ASKING.limits.approvalFor && Lower("delete") == "delete";
    NothingExtracted(ASKING, store, key);
    assert PendingCounts([]) == NONE;
    OneDelete(Views(store.states), key);
    assert Only(key).keys[..1] == [key];
    hide Delivering, Seen, ProperWhole, M.VisitAll, Views;
  }

  lemma OneDelete(rows: map<string, M.Entity>, key: string)
    requires key in rows && rows[key].missing >= 0
    ensures M.VisitAll(SWEEPING, {}, M.Progress(rows, 0, []), [key], [M.Luck(true, true)]).requests ==
      [M.DeleteRow(key)]
  {
    assert [key][..0] == [] && [M.Luck(true, true)][..0] == [];
    assert M.VisitAll(SWEEPING, {}, M.Progress(rows, 0, []), [], []) == M.Progress(rows, 0, []);
  }

  /** At most one delete a run; everything that is extracted is deleted. */
  const LIMITED := IDLE.(decisions := Config("delete", []), limits := IDLE.limits.(maxDeletes := 1))

  /** One row to delete and one entity that is gone: two deletes. */
  lemma LimitPassedTwice(store: Store, data: Payload, x: Reading, key: string) returns (w: Whole)
    requires x.stateRead && KeyOf(LIMITED, data).Some? && KeyOf(LIMITED, data) != Some(key) &&
      store.states.Keys == {key}
    ensures PossibleWhole(LIMITED, store, w) && w.run.rows == [data] && LIMITED.limits.maxDeletes == 1
    ensures CountsOf(LIMITED, SWEEPING.(maxDeletes := 1), store, w).deletes == 2
  {
    var e, cfg := Extract([data], [x], false), SWEEPING.(maxDeletes := 1);
    OnePendingDelete(store, data, x);
    var seen := DecideAll(LIMITED, store, [data], [x]).seen;
    assert Due(cfg, seen, store.states) == {key};
    assert E(LIMITED, cfg, store, e) == 1;
    hide DecideAll, Delivering, KeyOf;
    w := MostHappens(LIMITED, cfg, store, e);
  }

  lemma OnePendingDelete(store: Store, data: Payload, x: Reading)
    requires x.stateRead && KeyOf(LIMITED, data).Some?
    ensures var d := DecideAll(LIMITED, store, [data], [x]);
      && d.seen == {KeyOf(LIMITED, data).value} && PendingCounts(d.pending) == Counts(0, 0, 1)
      && GatesPass(LIMITED, 1, d.pending, false)
  {
    hide *;
    DeleteDecided(store, data, x);
    OneDecision(LIMITED, store, data, x);
    var v := DecideRow(LIMITED, store, data, x);
    OneNoted(v, KeyOf(LIMITED, data));
    OneCounted(v.p);
    Ungated(1, [v.p]);
  }

  lemma OneNoted(v: Verdict, key: Option<string>)
    requires v.Pends? && key.Some?
    ensures Noted(UNDECIDED, v, key).pending == [v.p] && Noted(UNDECIDED, v, key).seen == {key.value}
  {
  }

  lemma Ungated(extracted: nat, pending: seq<Pending>)
    ensures GatesPass(LIMITED, extracted, pending, false)
  {
    hide PendingCounts, ChangeCounts;
  }

  lemma OneCounted(p: Pending)
    requires p.plan.action == "delete"
    ensures PendingCounts([p]) == Counts(0, 0, 1)
  {
    assert [p][..0] == [] && PendingCounts([]) == NONE;
  }

  lemma DeleteDecided(store: Store, data: Payload, x: Reading)
    requires x.stateRead && KeyOf(LIMITED, data).Some?
    ensures var v := DecideRow(LIMITED, store, data, x); v.Pends? && v.p.plan.action == "delete"
  {
    var c := CaseOf(LIMITED, store, KeyOf(LIMITED, data).value, Mapped(data, []), x);
    hide CaseOf, KeyOf;
    assert !exists i :: Decides(LIMITED.decisions, c, i);
  }
}
