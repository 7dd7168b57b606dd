/** A run of the engine as two folds: deciding over the rows, then delivering what was decided. What the source,
    the store and the destination answer is given from outside, row by row. */
module EngineSpec {
  import opened Common
  import opened Json
  import opened Diff
  import opened Decision
  import opened Safety
  import Fingerprint

  datatype Mapping = Mapping(source: string, dest: string, excluded: bool)

  datatype Sync = Sync(show: Json -> string, required: seq<string>, mapping: seq<Mapping>, entityKey: string,
                       included: seq<string>, exclude: seq<string>, decisions: Config, limits: Limits,
                       dryRun: bool, hasDest: bool)

  datatype EntityState = EntityState(fp: string, previousFp: string, payload: Payload, previousPayload: Payload,
                                     remembered: map<string, string>, lastDecision: string, lastStatus: string,
                                     version: nat, missing: nat)

  /** Entity states by key, and the once-rules that have fired for a key. */
  datatype Store = Store(states: map<string, EntityState>, fired: set<(string, string)>)

  /** A delivery that was decided on. */
  datatype Pending = Pending(key: string, mapped: Payload, fp: string, previous: Option<EntityState>, plan: Plan,
                             changed: set<string>)

  // ---------------------------------------------------------------- one row

  function Mapped(data: Payload, mapping: seq<Mapping>): Payload {
    if mapping == [] then data else MappedBy(data, mapping)
  }

  /** Later entries for one destination field override earlier ones. */
  function MappedBy(data: Payload, mapping: seq<Mapping>): Payload {
    if mapping == [] then map[]
    else
      var m, before := mapping[|mapping| - 1], MappedBy(data, mapping[..|mapping| - 1]);
      if m.source in data then before[m.dest := data[m.source]] else before
  }

  /** Entry `i` gives destination field `d` a value: its source field is there. */
  predicate Feeds(data: Payload, mapping: seq<Mapping>, i: int, d: string) {
    0 <= i < |mapping| && mapping[i].dest == d && mapping[i].source in data
  }

  /** Entry `i` is the last one that does. */
  ghost predicate LastFeeds(data: Payload, mapping: seq<Mapping>, i: int, d: string) {
    Feeds(data, mapping, i, d) && forall j :: Feeds(data, mapping, j, d) ==> j <= i
  }

  lemma FeedsSnoc(data: Payload, mapping: seq<Mapping>, d: string)
    requires mapping != []
    ensures var n := |mapping| - 1;
      forall i :: Feeds(data, mapping, i, d) <==>
        Feeds(data, mapping[..n], i, d) || (i == n && mapping[n].dest == d && mapping[n].source in data)
    ensures forall i :: Feeds(data, mapping[..|mapping| - 1], i, d) ==>
      0 <= i < |mapping| - 1 && mapping[..|mapping| - 1][i] == mapping[i]
  {
  }

  /** A destination field is there iff some entry feeds it, and holds the source value of the last such entry. */
  lemma {:induction false} MappingMeans(data: Payload, mapping: seq<Mapping>, d: string)
    ensures d in MappedBy(data, mapping) <==> exists i :: Feeds(data, mapping, i, d)
    ensures forall i :: LastFeeds(data, mapping, i, d) ==>
      d in MappedBy(data, mapping) && MappedBy(data, mapping)[d] == data[mapping[i].source]
    ensures d in MappedBy(data, mapping) ==> exists i :: LastFeeds(data, mapping, i, d)
  {
    if mapping != [] {
      var n := |mapping| - 1;
      var init, m := mapping[..n], mapping[n];
      FeedsSnoc(data, mapping, d);
      assert MappedBy(data, mapping) ==
        if m.source in data then MappedBy(data, init)[m.dest := data[m.source]] else MappedBy(data, init);
      MappingMeans(data, init, d);
      hide Feeds, MappedBy;
      if m.source in data && m.dest == d {
        assert Feeds(data, mapping, n, d);
        forall i | LastFeeds(data, mapping, i, d) ensures i == n { }
        assert LastFeeds(data, mapping, n, d);
      } else {
        assert forall i :: Feeds(data, mapping, i, d) <==> Feeds(data, init, i, d);
        assert forall i :: LastFeeds(data, mapping, i, d) <==> LastFeeds(data, init, i, d);
      }
    }
  }

  function ExcludedBy(mapping: seq<Mapping>): seq<string> {
    if mapping == [] then []
    else
      var m := mapping[|mapping| - 1];
      ExcludedBy(mapping[..|mapping| - 1]) + if m.excluded then [m.dest] else []
  }

  ghost function FingerprintOf(sync: Sync, mapped: Payload): string {
    Fingerprint.PreHash(Fingerprint.FpFields(mapped, sync.included), ExcludedBy(sync.mapping) + sync.exclude)
  }

  /** The sync keeps field `k` of the mapped payload out of the fingerprint: it is not among the included ones, it is
      excluded by name, or a mapping entry that is excluded writes it. */
  ghost predicate Hides(sync: Sync, k: string) {
    || (sync.included != [] && k !in sync.included) || k in sync.exclude
    || exists i :: 0 <= i < |sync.mapping| && sync.mapping[i].excluded && sync.mapping[i].dest == k
  }

  lemma {:induction false} ExcludedMeans(mapping: seq<Mapping>, k: string)
    ensures k in ExcludedBy(mapping) <==> exists i :: 0 <= i < |mapping| && mapping[i].excluded && mapping[i].dest == k
  {
    if mapping != [] {
      var n := |mapping| - 1;
      ExcludedMeans(mapping[..n], k);
      assert forall i :: 0 <= i < n ==> mapping[..n][i] == mapping[i];
    }
  }

  /** Two mapped payloads have one fingerprint exactly when they agree on every field that is not hidden. */
  lemma SameFingerprintIff(sync: Sync, a: Payload, b: Payload)
    ensures FingerprintOf(sync, a) == FingerprintOf(sync, b) <==>
      forall k :: !Hides(sync, k) ==> Fingerprint.SameField(a, b, k)
  {
    Fingerprint.FingerprintsAgree(a, b, sync.included, ExcludedBy(sync.mapping) + sync.exclude);
    hide Fingerprint.PreHash, Fingerprint.SameField;
    forall k ensures Fingerprint.Hashed(k, sync.included, ExcludedBy(sync.mapping) + sync.exclude) <==>
      !Hides(sync, k) {
      ExcludedMeans(sync.mapping, k);
    }
  }

  /** Rows whose mapped payloads differ in hidden fields only are seen as changed or unchanged alike. */
  lemma SameChange(sync: Sync, store: Store, key: string, a: Payload, b: Payload, x: Reading)
    requires forall k :: !Hides(sync, k) ==> Fingerprint.SameField(Mapped(a, sync.mapping), Mapped(b, sync.mapping), k)
    ensures CaseOf(sync, store, key, Mapped(a, sync.mapping), x).input.fingerprintChanged
      == CaseOf(sync, store, key, Mapped(b, sync.mapping), x).input.fingerprintChanged
  {
    SameFingerprintIff(sync, Mapped(a, sync.mapping), Mapped(b, sync.mapping));
    hide FingerprintOf, Mapped;
  }

  predicate HasRequired(data: Payload, required: seq<string>) {
    forall f :: f in required ==> f in data && data[f] != Null
  }

  /** The entity of a row that is complete and has a key. */
  function KeyOf(sync: Sync, data: Payload): Option<string> {
    var key := sync.show(Field(data, sync.entityKey));
    if !HasRequired(data, sync.required) || key == "" || key == "<nil>" then None else Some(key)
  }

  function StateOf(store: Store, key: string): Option<EntityState> {
    if key in store.states then Some(store.states[key]) else None
  }

  function PayloadOf(es: Option<EntityState>): Payload { if es.Some? then es.value.payload else map[] }

  function FpOf(es: Option<EntityState>): string { if es.Some? then es.value.fp else "" }

  /** What the store does for a row while deciding, the rules whose firings it fails to look up, and the time. */
  datatype Reading = Reading(stateRead: bool, unread: set<string>, now: string)

  function Firings(store: Store, key: string, unread: set<string>): string -> Option<bool> {
    name => if name in unread then None else Some((key, name) in store.fired)
  }

  ghost function CaseOf(sync: Sync, store: Store, key: string, mapped: Payload, x: Reading): Case {
    var es := StateOf(store, key);
    Case(sync.show,
         Input(es.None?, FingerprintOf(sync, mapped) != FpOf(es), Difference(sync.show, PayloadOf(es), mapped)),
         x.now, Firings(store, key, x.unread))
  }

  datatype Verdict = Skips | Errs | Pends(p: Pending)

  ghost function DecideRow(sync: Sync, store: Store, data: Payload, x: Reading): Verdict {
    var key := KeyOf(sync, data);
    if key.None? then Skips
    else if !x.stateRead then Errs
    else
      var mapped := Mapped(data, sync.mapping);
      var c := CaseOf(sync, store, key.value, mapped, x);
      var plan := Evaluation(sync.decisions, c);
      if plan.None? then Errs
      else if plan.value.action == "skip" then Skips
      else Pends(Pending(key.value, mapped, FingerprintOf(sync, mapped), StateOf(store, key.value), plan.value,
                         c.input.changes.Keys))
  }

  // ---------------------------------------------------------------- deciding

  datatype Decided = Decided(skipped: nat, errored: nat, pending: seq<Pending>, seen: set<string>)

  function Noted(a: Decided, v: Verdict, key: Option<string>): Decided {
    var seen := if key.Some? then a.seen + {key.value} else a.seen;
    match v
    case Skips => a.(skipped := a.skipped + 1, seen := seen)
    case Errs => a.(errored := a.errored + 1, seen := seen)
    case Pends(p) => a.(pending := a.pending + [p], seen := seen)
  }

  const UNDECIDED := Decided(0, 0, [], {})

  ghost function DecideAll(sync: Sync, store: Store, rows: seq<Payload>, xs: seq<Reading>): Decided
    requires |xs| == |rows|
  {
    if rows == [] then UNDECIDED
    else
      var n := |rows| - 1;
      Noted(DecideAll(sync, store, rows[..n], xs[..n]), DecideRow(sync, store, rows[n], xs[n]), KeyOf(sync, rows[n]))
  }

  function PendingCounts(pending: seq<Pending>): Counts {
    if pending == [] then NONE
    else Recorded(pending[|pending| - 1].plan.action, PendingCounts(pending[..|pending| - 1]))
  }

  /** In how many decided deliveries each field changed. */
  function ChangeCounts(pending: seq<Pending>): map<string, nat> {
    if pending == [] then map[]
    else
      var before, p := ChangeCounts(pending[..|pending| - 1]), pending[|pending| - 1];
      map f | f in before.Keys + p.changed ::
        (if f in before then before[f] else 0) + if f in p.changed then 1 else 0
  }

  // ---------------------------------------------------------------- delivering

  /** What a load of one row reports: an error with partial counts, or counts. */
  datatype Outcome = Failed(loaded: nat, skipped: nat) | Returned(loaded: nat, skipped: nat, errors: nat)

  /** What happens to a delivery: the load, and whether the store keeps the state after a failure, the state after
      a success, and the firing. */
  datatype Luck = Luck(outcome: Outcome, savedFailed: bool, saved: bool, marked: bool)

  datatype Progress = Progress(store: Store, counts: Counts, loaded: nat, skipped: nat, errored: nat,
                               sent: seq<Pending>, delivered: seq<Pending>)

  function Started(store: Store): Progress { Progress(store, NONE, 0, 0, 0, [], []) }

  function NewState(p: Pending, status: string): EntityState {
    EntityState(p.fp, FpOf(p.previous), p.mapped, PayloadOf(p.previous),
                (if p.previous.Some? then p.previous.value.remembered else map[]) + p.plan.remember,
                p.plan.action, status, if p.previous.Some? then p.previous.value.version + 1 else 1, 0)
  }

  function Saved(sync: Sync, store: Store, p: Pending, status: string, ok: bool): Store {
    if sync.dryRun || !ok then store else store.(states := store.states[p.key := NewState(p, status)])
  }

  /** The triggered rules that some rule of the same name declares to fire once. */
  function OnceTriggered(sync: Sync, p: Pending): set<(string, string)> {
    set rule | rule in sync.decisions.rules && rule.once && rule.name in p.plan.triggered :: (p.key, rule.name)
  }

  function Marked(sync: Sync, store: Store, p: Pending, ok: bool): Store {
    if sync.dryRun || !ok then store else store.(fired := store.fired + OnceTriggered(sync, p))
  }

  function Succeeded(sync: Sync, a: Progress, p: Pending, luck: Luck): Progress {
    a.(store := Marked(sync, Saved(sync, a.store, p, "success", luck.saved), p, luck.marked),
       counts := Recorded(p.plan.action, a.counts), delivered := a.delivered + [p])
  }

  function DeliverOne(sync: Sync, a: Progress, p: Pending, luck: Luck): Progress {
    if !Allowed(sync.limits, p.plan.action, a.counts) then a.(skipped := a.skipped + 1)
    else if !sync.hasDest then Succeeded(sync, a.(loaded := a.loaded + 1), p, luck)
    else
      var b := a.(sent := a.sent + [p], loaded := a.loaded + luck.outcome.loaded,
                  skipped := a.skipped + luck.outcome.skipped);
      match luck.outcome
      case Failed(_, _) => b.(errored := b.errored + 1, store := Saved(sync, b.store, p, "failed", luck.savedFailed))
      case Returned(l, s, e) =>
        if l == 0 && s > 0 && e == 0 then b
        else
          var d := if e > 0 then b.(errored := b.errored + e,
                                    store := Saved(sync, b.store, p, "failed", luck.savedFailed)) else b;
          if e > 0 && l == 0 then d else Succeeded(sync, d, p, luck)
  }

  function DeliverAll(sync: Sync, store: Store, pending: seq<Pending>, lucks: seq<Luck>): Progress
    requires |lucks| == |pending|
  {
    if pending == [] then Started(store)
    else
      var n := |pending| - 1;
      DeliverOne(sync, DeliverAll(sync, store, pending[..n], lucks[..n]), pending[n], lucks[n])
  }

  // ---------------------------------------------------------------- a whole run

  /** The gates between the phases: the field ratios, then the approval for what is pending. */
  ghost predicate GatesPass(sync: Sync, extracted: nat, pending: seq<Pending>, approved: bool) {
    && !RatioExceeded(sync.limits, ChangeCounts(pending), extracted)
    && (NeedsApproval(sync.limits, PendingCounts(pending)) ==> approved)
  }

  // ---------------------------------------------------------------- accounting

  /** By how much a load reports more than one outcome for its one row. */
  function Excess(o: Outcome): int {
    match o
    case Failed(l, s) => l + s
    case Returned(l, s, e) => l + s + e - 1
  }

  /** The surplus of all loads made. */
  function Surplus(sync: Sync, store: Store, pending: seq<Pending>, lucks: seq<Luck>): int
    requires |lucks| == |pending|
  {
    if pending == [] then 0
    else
      var n := |pending| - 1;
      var a := DeliverAll(sync, store, pending[..n], lucks[..n]);
      Surplus(sync, store, pending[..n], lucks[..n])
      + if sync.hasDest && Allowed(sync.limits, pending[n].plan.action, a.counts) then Excess(lucks[n].outcome) else 0
  }

  lemma {:induction false} DecisionsAccounted(sync: Sync, store: Store, rows: seq<Payload>, xs: seq<Reading>)
    requires |xs| == |rows|
    ensures var d := DecideAll(sync, store, rows, xs); d.skipped + d.errored + |d.pending| == |rows|
  {
    if rows != [] {
      var n := |rows| - 1;
      DecisionsAccounted(sync, store, rows[..n], xs[..n]);
    }
  }

  lemma {:induction false} DeliveriesAccounted(sync: Sync, store: Store, pending: seq<Pending>, lucks: seq<Luck>)
    requires |lucks| == |pending|
    ensures var a := DeliverAll(sync, store, pending, lucks);
      a.loaded + a.skipped + a.errored == |pending| + Surplus(sync, store, pending, lucks)
  {
    if pending != [] {
      var n := |pending| - 1;
      DeliveriesAccounted(sync, store, pending[..n], lucks[..n]);
    }
  }

  /** One outcome for the one row of a load. */
  predicate OneOutcome(o: Outcome) { Excess(o) == 0 }

  lemma {:induction false} NoSurplus(sync: Sync, store: Store, pending: seq<Pending>, lucks: seq<Luck>)
    requires |lucks| == |pending| && (sync.hasDest ==> forall i :: 0 <= i < |lucks| ==> OneOutcome(lucks[i].outcome))
    ensures Surplus(sync, store, pending, lucks) == 0
  {
    if pending != [] {
      NoSurplus(sync, store, pending[..|pending| - 1], lucks[..|pending| - 1]);
    }
  }

  /** Every extracted row is loaded, skipped or errored, exactly once, when every load gives one outcome; a run
      that stops after `done` deliveries leaves the others uncounted. */
  lemma RowsAreConserved(sync: Sync, store: Store, rows: seq<Payload>, xs: seq<Reading>, done: nat, lucks: seq<Luck>)
    requires |xs| == |rows| && done <= |DecideAll(sync, store, rows, xs).pending| && |lucks| == done
    requires sync.hasDest ==> forall i :: 0 <= i < |lucks| ==> OneOutcome(lucks[i].outcome)
    ensures var d := DecideAll(sync, store, rows, xs); var a := DeliverAll(sync, store, d.pending[..done], lucks);
      |rows| == a.loaded + (d.skipped + a.skipped) + (d.errored + a.errored) + (|d.pending| - done)
  {
    var d := DecideAll(sync, store, rows, xs);
    DecisionsAccounted(sync, store, rows, xs);
    DeliveriesAccounted(sync, store, d.pending[..done], lucks);
    NoSurplus(sync, store, d.pending[..done], lucks);
  }

  predicate CountedAction(action: string) { !KindOf(action).Uncounted? }

  lemma {:induction false} CountsAreDeliveries(sync: Sync, store: Store, pending: seq<Pending>, lucks: seq<Luck>)
    requires |lucks| == |pending| && forall i :: 0 <= i < |pending| ==> CountedAction(pending[i].plan.action)
    requires sync.hasDest ==> forall i :: 0 <= i < |lucks| ==> OneOutcome(lucks[i].outcome)
    ensures var a := DeliverAll(sync, store, pending, lucks); Total(a.counts) == a.loaded == |a.delivered|
  {
    if pending != [] {
      var n := |pending| - 1;
      var a := DeliverAll(sync, store, pending[..n], lucks[..n]);
      CountsAreDeliveries(sync, store, pending[..n], lucks[..n]);
      CountedStep(sync, a, pending[n], lucks[n]);
      assert DeliverAll(sync, store, pending, lucks) == DeliverOne(sync, a, pending[n], lucks[n]);
      hide DeliverOne, DeliverAll, CountedAction, OneOutcome, Total;
    }
  }

  lemma CountedStep(sync: Sync, a: Progress, p: Pending, luck: Luck)
    requires CountedAction(p.plan.action) && (sync.hasDest ==> OneOutcome(luck.outcome))
    ensures var b := DeliverOne(sync, a, p, luck);
      Total(b.counts) - Total(a.counts) == b.loaded - a.loaded == |b.delivered| - |a.delivered|
  {
    hide Saved, Marked, Allowed;
  }

  lemma StepIsBounded(sync: Sync, a: Progress, p: Pending, luck: Luck, pending: Counts)
    requires Within(sync.limits, a.counts) && AtMost(a.counts, pending)
    ensures var c := DeliverOne(sync, a, p, luck).counts;
      Within(sync.limits, c) && AtMost(c, Recorded(p.plan.action, pending))
  {
    var c := DeliverOne(sync, a, p, luck).counts;
    assert c == a.counts || (c == Recorded(p.plan.action, a.counts) && Allowed(sync.limits, p.plan.action, a.counts));
    hide DeliverOne;
    if c != a.counts {
      RecordKeepsLimits(sync.limits, p.plan.action, a.counts);
    }
  }

  /** Per kind, the delivery loop delivers no more than the limit allows and than was pending. */
  lemma {:induction false} CountsAreBounded(sync: Sync, store: Store, pending: seq<Pending>, lucks: seq<Luck>)
    requires |lucks| == |pending|
    ensures var c := DeliverAll(sync, store, pending, lucks).counts;
      Within(sync.limits, c) && AtMost(c, PendingCounts(pending))
  {
    if pending != [] {
      var n := |pending| - 1;
      CountsAreBounded(sync, store, pending[..n], lucks[..n]);
      StepIsBounded(sync, DeliverAll(sync, store, pending[..n], lucks[..n]), pending[n], lucks[n],
                    PendingCounts(pending[..n]));
      hide DeliverOne, Recorded, Within, AtMost;
    }
  }

  lemma {:induction false} PendingCountsGrow(pending: seq<Pending>, n: nat)
    requires n <= |pending|
    ensures AtMost(PendingCounts(pending[..n]), PendingCounts(pending))
    decreases |pending|
  {
    if n == |pending| {
      assert pending[..n] == pending;
    } else {
      assert pending[..|pending| - 1][..n] == pending[..n];
      PendingCountsGrow(pending[..|pending| - 1], n);
    }
  }

  /** After the gates passed without approval, the delivery loop never delivers what would need approval, wherever it
      stops. The sweep that follows is not gated. */
  lemma NothingUnapproved(sync: Sync, store: Store, extracted: nat, pending: seq<Pending>, done: nat, lucks: seq<Luck>)
    requires done <= |pending| && |lucks| == done && GatesPass(sync, extracted, pending, false)
    ensures !NeedsApproval(sync.limits, DeliverAll(sync, store, pending[..done], lucks).counts)
  {
    CountsAreBounded(sync, store, pending[..done], lucks);
    PendingCountsGrow(pending, done);
    var c := DeliverAll(sync, store, pending[..done], lucks).counts;
    hide DeliverAll, PendingCounts;
    if NeedsApproval(sync.limits, c) {
      ApprovalIsMonotone(sync.limits, c, PendingCounts(pending));
    }
  }
}
