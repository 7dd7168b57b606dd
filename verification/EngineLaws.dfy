/** What a run counts and stores, said of its rows and deliveries one by one. */
module EngineLaws {
  import opened Common
  import opened Json
  import opened Diff
  import opened Decision
  import opened Safety
  import opened EngineSpec
  import opened EngineRuns
  import opened EngineReruns

  // ---------------------------------------------------------------- one row

  /** The row lacks a required field or has it null, or its key prints as nothing. */
  ghost predicate Incomplete(sync: Sync, data: Payload) {
    || (exists f :: f in sync.required && (f !in data || data[f] == Null))
    || sync.show(if sync.entityKey in data then data[sync.entityKey] else Null) in {"", "<nil>"}
  }

  /** What becomes of a row: incomplete ones are skipped before the store is asked; a store failure is an error; and the
      evaluation of the rules decides about the others. */
  lemma RowMeans(sync: Sync, store: Store, data: Payload, x: Reading)
    ensures Incomplete(sync, data) ==> DecideRow(sync, store, data, x).Skips? && KeyOf(sync, data) == None
    ensures !Incomplete(sync, data) ==>
      var key := sync.show(if sync.entityKey in data then data[sync.entityKey] else Null);
      var plan := Evaluation(sync.decisions, CaseOf(sync, store, key, Mapped(data, sync.mapping), x));
      var v := DecideRow(sync, store, data, x);
      && KeyOf(sync, data) == Some(key)
      && (v.Errs? <==> !x.stateRead || plan.None?)
      && (v.Skips? <==> x.stateRead && plan.Some? && plan.value.action == "skip")
      && (v.Pends? ==> v.p.key == key && v.p.plan == plan.value && v.p.mapped == Mapped(data, sync.mapping))
  {
    hide Evaluation, Mapped, FingerprintOf;
  }

  // ---------------------------------------------------------------- the deciding loop

  ghost function Verdicts(sync: Sync, store: Store, rows: seq<Payload>, xs: seq<Reading>): seq<Verdict>
    requires |xs| == |rows|
  {
    seq(|rows|, i requires 0 <= i < |rows| => DecideRow(sync, store, rows[i], xs[i]))
  }

  /** Skipped, errored and pending rows are counted as such, and the seen entities are those of the rows. */
  lemma {:induction false} RowsCounted(sync: Sync, store: Store, rows: seq<Payload>, xs: seq<Reading>)
    requires |xs| == |rows|
    ensures var d, vs := DecideAll(sync, store, rows, xs), Verdicts(sync, store, rows, xs);
      && d.skipped == Tally(vs, (v: Verdict) => v.Skips?)
      && d.errored == Tally(vs, (v: Verdict) => v.Errs?)
      && |d.pending| == Tally(vs, (v: Verdict) => v.Pends?)
  {
    hide *;
    var vs := Verdicts(sync, store, rows, xs);
    if rows == [] {
      NoRows(sync, store);
      TallyNone(vs, (v: Verdict) => v.Skips?);
      TallyNone(vs, (v: Verdict) => v.Errs?);
      TallyNone(vs, (v: Verdict) => v.Pends?);
    } else {
      var n := |rows| - 1;
      var v, init := DecideRow(sync, store, rows[n], xs[n]), Verdicts(sync, store, rows[..n], xs[..n]);
      RowsCounted(sync, store, rows[..n], xs[..n]);
      LastRow(sync, store, rows, xs);
      NotedCounts(DecideAll(sync, store, rows[..n], xs[..n]), v, KeyOf(sync, rows[n]));
      TallySnoc(init, v, (v: Verdict) => v.Skips?);
      TallySnoc(init, v, (v: Verdict) => v.Errs?);
      TallySnoc(init, v, (v: Verdict) => v.Pends?);
    }
  }

  lemma NoRows(sync: Sync, store: Store)
    ensures DecideAll(sync, store, [], []) == Decided(0, 0, [], {}) && Verdicts(sync, store, [], []) == []
  {
  }

  lemma LastRow(sync: Sync, store: Store, rows: seq<Payload>, xs: seq<Reading>)
    requires |xs| == |rows| && rows != []
    ensures var n := |rows| - 1;
      var v := DecideRow(sync, store, rows[n], xs[n]);
      && Verdicts(sync, store, rows, xs) == Verdicts(sync, store, rows[..n], xs[..n]) + [v]
      && DecideAll(sync, store, rows, xs) == Noted(DecideAll(sync, store, rows[..n], xs[..n]), v, KeyOf(sync, rows[n]))
  {
    hide DecideRow, KeyOf, Noted;
  }

  lemma NotedCounts(a: Decided, v: Verdict, key: Option<string>)
    ensures var b := Noted(a, v, key);
      && b.skipped == a.skipped + (if v.Skips? then 1 else 0) && b.errored == a.errored + (if v.Errs? then 1 else 0)
      && |b.pending| == |a.pending| + (if v.Pends? then 1 else 0)
  {
  }

  /** The seen entities are those of the rows. */
  lemma {:induction false} SeenMeans(sync: Sync, store: Store, rows: seq<Payload>, xs: seq<Reading>, key: string)
    requires |xs| == |rows|
    ensures key in DecideAll(sync, store, rows, xs).seen <==> exists row :: row in rows && KeyOf(sync, row) == Some(key)
  {
    hide DecideRow, KeyOf;
    if rows != [] {
      var n := |rows| - 1;
      assert rows == rows[..n] + [rows[n]];
      SeenMeans(sync, store, rows[..n], xs[..n], key);
    }
  }

  // ---------------------------------------------------------------- what is pending

  function OfKind(actions: set<string>): Pending -> bool { (p: Pending) => p.plan.action in actions }

  /** Creates and upserts, updates, and deletes are counted by kind, and nothing else. */
  lemma {:induction false} PendingCounted(pending: seq<Pending>)
    ensures PendingCounts(pending) ==
      Counts(Tally(pending, OfKind({"create", "upsert"})), Tally(pending, OfKind({"update"})),
             Tally(pending, OfKind({"delete"})))
  {
    if pending == [] {
      TallyNone(pending, OfKind({"create", "upsert"}));
      TallyNone(pending, OfKind({"update"}));
      TallyNone(pending, OfKind({"delete"}));
    } else {
      var init, p := pending[..|pending| - 1], pending[|pending| - 1];
      PendingCounted(init);
      assert pending == init + [p];
      hide Tally;
      TallySnoc(init, p, OfKind({"create", "upsert"}));
      TallySnoc(init, p, OfKind({"update"}));
      TallySnoc(init, p, OfKind({"delete"}));
    }
  }

  function Changing(f: string): Pending -> bool { (p: Pending) => f in p.changed }

  /** Each field is counted in the deliveries that change it. */
  lemma {:induction false} ChangesCounted(pending: seq<Pending>, f: string)
    ensures (if f in ChangeCounts(pending) then ChangeCounts(pending)[f] else 0) == Tally(pending, Changing(f))
  {
    if pending == [] {
      TallyNone(pending, Changing(f));
    } else {
      var init, p := pending[..|pending| - 1], pending[|pending| - 1];
      ChangesCounted(init, f);
      assert pending == init + [p];
      TallySnoc(init, p, Changing(f));
      hide Tally;
    }
  }

  /** The ratio gate holds a run back when some field changes in more of the extracted rows than its share. */
  lemma RatioGate(sync: Sync, extracted: nat, pending: seq<Pending>)
    ensures RatioExceeded(sync.limits, ChangeCounts(pending), extracted) <==>
      && extracted > 0
      && exists f :: f in sync.limits.ratios
           && Tally(pending, Changing(f)) as real > sync.limits.ratios[f] * extracted as real
  {
    hide ChangeCounts, Tally;
    if extracted > 0 {
      forall f | f in sync.limits.ratios
        ensures var n := if f in ChangeCounts(pending) then ChangeCounts(pending)[f] else 0;
          && n == Tally(pending, Changing(f))
          && (n as real / extracted as real > sync.limits.ratios[f] <==>
                n as real > sync.limits.ratios[f] * extracted as real)
      {
        ChangesCounted(pending, f);
        Share(Tally(pending, Changing(f)) as real, extracted as real, sync.limits.ratios[f]);
      }
    }
  }

  lemma Share(n: real, total: real, limit: real)
    requires total > 0.0
    ensures n / total > limit <==> n > limit * total
  {
    assert n / total * total == n;
    if n / total > limit {
      Larger(n / total - limit, total);
      assert (n / total - limit) * total == n - limit * total;
    } else {
      NotLarger(limit - n / total, total);
      assert (limit - n / total) * total == limit * total - n;
    }
  }

  lemma Larger(a: real, b: real)
    requires a > 0.0 && b > 0.0
    ensures a * b > 0.0
  {
  }

  lemma NotLarger(a: real, b: real)
    requires a >= 0.0 && b > 0.0
    ensures a * b >= 0.0
  {
  }

  // ---------------------------------------------------------------- the delivery loop

  datatype Fate = Held | Refused | Repeated | Made

  /** Held back by a limit, refused with an error, answered as delivered already, or made. */
  function FateOf(sync: Sync, a: Progress, p: Pending, luck: Luck): Fate {
    if !Allowed(sync.limits, p.plan.action, a.counts) then Held
    else if !sync.hasDest then Made
    else match luck.outcome
      case Failed(_, _) => Refused
      case Returned(_, s, e) => if e > 0 then Refused else if s > 0 then Repeated else Made
  }

  function Fates(sync: Sync, store: Store, pending: seq<Pending>, lucks: seq<Luck>): seq<Fate>
    requires |lucks| == |pending|
  {
    seq(|pending|, i requires 0 <= i < |pending| =>
      FateOf(sync, Before(sync, store, pending, lucks, i), pending[i], lucks[i]))
  }

  ghost predicate OneEach(lucks: seq<Luck>) { forall i :: 0 <= i < |lucks| ==> OneOutcome(lucks[i].outcome) }

  /** When each load reports one outcome for its row, deliveries that were made are counted as loaded, refused ones as
      errored, and those held back or repeated as skipped. */
  lemma {:induction false} DeliveriesCounted(sync: Sync, store: Store, pending: seq<Pending>, lucks: seq<Luck>)
    requires |lucks| == |pending| && OneEach(lucks)
    ensures var a, fates := DeliverAll(sync, store, pending, lucks), Fates(sync, store, pending, lucks);
      && a.loaded == Tally(fates, (f: Fate) => f.Made?) == |a.delivered|
      && a.errored == Tally(fates, (f: Fate) => f.Refused?)
      && a.skipped == Tally(fates, (f: Fate) => f.Held? || f.Repeated?)
  {
    var fates := Fates(sync, store, pending, lucks);
    if pending == [] {
      TallyNone(fates, (f: Fate) => f.Made?);
      TallyNone(fates, (f: Fate) => f.Refused?);
      TallyNone(fates, (f: Fate) => f.Held? || f.Repeated?);
    } else {
      var n := |pending| - 1;
      DeliveriesCounted(sync, store, pending[..n], lucks[..n]);
      FatesSnoc(sync, store, pending, lucks);
      var a, init := DeliverAll(sync, store, pending[..n], lucks[..n]), Fates(sync, store, pending[..n], lucks[..n]);
      OneFate(sync, a, pending[n], lucks[n]);
      assert DeliverAll(sync, store, pending, lucks) == DeliverOne(sync, a, pending[n], lucks[n]);
      hide DeliverOne, DeliverAll, FateOf, Fates, Tally;
      var fate := FateOf(sync, a, pending[n], lucks[n]);
      TallySnoc(init, fate, (f: Fate) => f.Made?);
      TallySnoc(init, fate, (f: Fate) => f.Refused?);
      TallySnoc(init, fate, (f: Fate) => f.Held? || f.Repeated?);
    }
  }

  lemma FatesSnoc(sync: Sync, store: Store, pending: seq<Pending>, lucks: seq<Luck>)
    requires |lucks| == |pending| && pending != []
    ensures var n := |pending| - 1;
      Fates(sync, store, pending, lucks) == Fates(sync, store, pending[..n], lucks[..n])
        + [FateOf(sync, DeliverAll(sync, store, pending[..n], lucks[..n]), pending[n], lucks[n])]
  {
    hide DeliverAll, FateOf;
    var n := |pending| - 1;
    forall i | 0 <= i < n
      ensures Before(sync, store, pending[..n], lucks[..n], i) == Before(sync, store, pending, lucks, i)
    {
      assert pending[..n][..i] == pending[..i] && lucks[..n][..i] == lucks[..i];
    }
  }

  lemma OneFate(sync: Sync, a: Progress, p: Pending, luck: Luck)
    requires OneOutcome(luck.outcome)
    ensures var b, fate := DeliverOne(sync, a, p, luck), FateOf(sync, a, p, luck);
      && b.loaded == a.loaded + (if fate.Made? then 1 else 0)
      && b.errored == a.errored + (if fate.Refused? then 1 else 0)
      && b.skipped == a.skipped + (if fate.Held? || fate.Repeated? then 1 else 0)
      && |b.delivered| == |a.delivered| + (if fate.Made? then 1 else 0)
  {
    hide Allowed, Saved, Marked;
  }

  // ---------------------------------------------------------------- what a chain of saves stores

  /** Each delivery was decided on the state that the one before it saved. */
  ghost predicate Chained(ps: seq<Pending>) {
    if ps == [] then true
    else
      var n := |ps| - 1;
      Chained(ps[..n]) && ps[n].previous == if n == 0 then None else Some(NewState(ps[n - 1], "success"))
  }

  /** The last delivery of the chain that remembers the name. */
  ghost predicate LastRemembers(ps: seq<Pending>, i: int, name: string) {
    0 <= i < |ps| && name in ps[i].plan.remember
    && forall j :: i < j < |ps| ==> name !in ps[j].plan.remember
  }

  /** The state at the end of a chain of successful deliveries of an entity: the version counts them, payload and
      fingerprint are those of the last, and previous payload and fingerprint those of the one before. */
  lemma {:induction false} ChainStores(ps: seq<Pending>)
    requires ps != [] && Chained(ps)
    ensures var n := |ps| - 1; var es := NewState(ps[n], "success");
      && es.version == |ps| && es.missing == 0 && es.lastStatus == "success" && es.lastDecision == ps[n].plan.action
      && es.fp == ps[n].fp && es.payload == ps[n].mapped
      && es.previousFp == (if n == 0 then "" else ps[n - 1].fp)
      && es.previousPayload == (if n == 0 then map[] else ps[n - 1].mapped)
  {
    var n := |ps| - 1;
    if n > 0 {
      assert ps[..n][n - 1] == ps[n - 1];
      ChainStores(ps[..n]);
    }
  }

  /** Every name ever remembered has the value of the last delivery that remembers it. */
  lemma {:induction false} ChainRemembers(ps: seq<Pending>, name: string)
    requires ps != [] && Chained(ps)
    ensures var es := NewState(ps[|ps| - 1], "success");
      && (name in es.remembered <==> exists i :: LastRemembers(ps, i, name))
      && forall i :: LastRemembers(ps, i, name) ==>
           name in es.remembered && es.remembered[name] == ps[i].plan.remember[name]
  {
    var n := |ps| - 1;
    var init, last := ps[..n], ps[n];
    RemembersSnoc(ps, name);
    if n > 0 {
      assert init[n - 1] == ps[n - 1];
      ChainRemembers(init, name);
    }
    hide LastRemembers, Chained;
    if name in last.plan.remember {
      assert LastRemembers(ps, n, name);
    }
  }

  lemma RemembersSnoc(ps: seq<Pending>, name: string)
    requires ps != []
    ensures var n := |ps| - 1;
      forall i :: LastRemembers(ps, i, name) <==>
        if name in ps[n].plan.remember then i == n else LastRemembers(ps[..n], i, name)
    ensures var init := ps[..|ps| - 1]; forall i :: LastRemembers(init, i, name) ==> 0 <= i < |init| && init[i] == ps[i]
    ensures forall i :: LastRemembers(ps, i, name) ==> 0 <= i < |ps| && name in ps[i].plan.remember
  {
    var n := |ps| - 1;
    assert forall j :: 0 <= j < n ==> ps[..n][j] == ps[j];
  }
}
