/** One entity over many whole runs, the engine and then the sweep: what its missing counter counts. */
module EntityHistory {
  import opened Common
  import opened Diff
  import opened Decision
  import opened Safety
  import opened EngineSpec
  import opened EngineRuns
  import opened EngineReruns
  import M = MissingSweep

  // ---------------------------------------------------------------- the engine and then the sweep

  /** The part of the entity states that the sweep works on. */
  function Views(states: map<string, EntityState>): map<string, M.Entity> {
    map k | k in states :: M.Entity(states[k].missing, states[k].lastDecision, "")
  }

  function Restored(states: map<string, EntityState>, entities: map<string, M.Entity>): map<string, EntityState> {
    map k | k in states && k in entities ::
      states[k].(missing := Max(0, entities[k].missing), lastDecision := entities[k].decision)
  }

  /** A run of the engine, whether its pending deliveries were approved and whether it was cancelled before the
      sweep, and the listing and luck of the sweep. */
  datatype Whole = Whole(run: Run, approved: bool, canceled: bool, keys: seq<string>, lucks: seq<M.Luck>)

  /** The run sweeps: neither a gate nor a cancellation stops it. */
  predicate Sweeps(w: Whole) { w.run.passes && !w.canceled }

  /** The gates decide whether it delivers, it delivers everything unless cancelled, and its sweep treats each entity
      at most once, all of them unless a listing fails. */
  ghost predicate PossibleWhole(sync: Sync, store: Store, w: Whole) {
    && Possible(sync, store, w.run)
    && (var pending := DecideAll(sync, store, w.run.rows, w.run.xs).pending;
        && (w.run.passes <==> GatesPass(sync, |w.run.rows|, pending, w.approved))
        && (Sweeps(w) ==> |w.run.lucks| == |pending|))
    && Distinct(w.keys) && (forall k :: k in w.keys <==> k in Delivering(sync, store, w.run).store.states)
    && |w.lucks| <= |w.keys| && (!Sweeps(w) ==> w.lucks == [])
  }

  /** The entities are distinct, and a sweep lists every entity and saves. */
  ghost predicate ProperWhole(sync: Sync, store: Store, w: Whole) {
    && PossibleWhole(sync, store, w) && Proper(sync, store, w.run)
    && (Sweeps(w) ==> |w.lucks| == |w.keys|) && (forall l :: l in w.lucks ==> l.saved)
  }

  ghost function Seen(sync: Sync, store: Store, run: Run): set<string>
    requires |run.xs| == |run.rows|
  {
    DecideAll(sync, store, run.rows, run.xs).seen
  }

  /** What the sweep leaves and has sent. */
  ghost function Sweep(sync: Sync, cfg: M.Config, store: Store, w: Whole): M.Progress
    requires PossibleWhole(sync, store, w)
  {
    var states := Delivering(sync, store, w.run).store.states;
    M.VisitAll(cfg, Seen(sync, store, w.run), M.Progress(Views(states), 0, []), w.keys[..|w.lucks|], w.lucks)
  }

  ghost function AfterWhole(sync: Sync, cfg: M.Config, store: Store, w: Whole): Store
    requires PossibleWhole(sync, store, w)
  {
    var after := Delivering(sync, store, w.run).store;
    if Sweeps(w) then after.(states := Restored(after.states, Sweep(sync, cfg, store, w).rows)) else after
  }

  // ---------------------------------------------------------------- what a run is to one entity

  datatype Event = Stopped | Away | Kept | Saved

  /** Not swept, and not extracted either; not extracted by a run that sweeps; extracted but no state saved; or a
      state saved. */
  ghost function EventOf(sync: Sync, store: Store, w: Whole, key: string): Event
    requires PossibleWhole(sync, store, w)
  {
    if !w.run.passes then Stopped
    else if key !in Seen(sync, store, w.run) then (if w.canceled then Stopped else Away)
    else if StateOf(Delivering(sync, store, w.run).store, key) == StateOf(store, key) then Kept
    else Saved
  }

  predicate Deletes(cfg: M.Config, c: nat) {
    cfg.action.Delete? && cfg.allowDestructive && c + 1 >= M.Threshold(cfg)
  }

  /** The counter after a run, with no delete limit. */
  function Counted(cfg: M.Config, c: nat, e: Event): nat {
    match e
    case Stopped => c
    case Kept => c
    case Saved => 0
    case Away => if Deletes(cfg, c) then 0 else c + 1
  }

  lemma {:induction false} KeysAreSeen(sync: Sync, store: Store, rows: seq<Payload>, xs: seq<Reading>, i: nat,
                                       key: string)
    requires |xs| == |rows| && i < |rows| && KeyOf(sync, rows[i]) == Some(key)
    ensures key in DecideAll(sync, store, rows, xs).seen
  {
    var n := |rows| - 1;
    hide DecideRow, KeyOf;
    if i < n {
      KeysAreSeen(sync, store, rows[..n], xs[..n], i, key);
    }
  }

  /** The engine leaves the states of entities it did not see alone. */
  lemma UnseenUntouched(sync: Sync, store: Store, run: Run, key: string)
    requires Possible(sync, store, run) && key !in Seen(sync, store, run)
    ensures StateOf(Delivering(sync, store, run).store, key) == StateOf(store, key)
  {
    if run.passes {
      var pending := DecideAll(sync, store, run.rows, run.xs).pending[..|run.lucks|];
      forall p | p in pending ensures p.key != key {
        var i := PendingFromRow(sync, store, run.rows, run.xs, p);
        KeysAreSeen(sync, store, run.rows, run.xs, i, p.key);
      }
      OthersKeepTheirState(sync, store, pending, run.lucks, key, "");
    }
  }

  /** A state the engine saves starts counting again. */
  lemma SavedStartsAgain(sync: Sync, store: Store, run: Run, key: string)
    requires Proper(sync, store, run)
    ensures var after := StateOf(Delivering(sync, store, run).store, key);
      after == StateOf(store, key) || (after.Some? && after.value.missing == 0)
  {
    if run.passes {
      var pending := DecideAll(sync, store, run.rows, run.xs).pending[..|run.lucks|];
      DistinctRowsDistinctPending(sync, store, run.rows, run.xs);
      if p :| p in pending && p.key == key {
        var j :| 0 <= j < |pending| && pending[j] == p;
        RunLeaves(sync, store, pending, run.lucks, j, "");
        hide DecideAll, DeliverAll;
      } else {
        OthersKeepTheirState(sync, store, pending, run.lucks, key, "");
      }
    }
  }

  /** The entity in a complete sweep, whatever the limit. */
  lemma SweptAfterSome(sync: Sync, cfg: M.Config, store: Store, w: Whole, key: string) returns (deleted: nat)
    requires ProperWhole(sync, store, w) && Sweeps(w) && key in Delivering(sync, store, w.run).store.states
    ensures var views, rows := Views(Delivering(sync, store, w.run).store.states), Sweep(sync, cfg, store, w).rows;
      key in rows && rows[key] ==
        if key in Seen(sync, store, w.run) then views[key]
        else M.Updated(views[key], M.Judge(cfg, views[key].missing + 1, deleted))
  {
    var views, seen := Views(Delivering(sync, store, w.run).store.states), Seen(sync, store, w.run);
    assert w.keys[..|w.lucks|] == w.keys;
    var i :| 0 <= i < |w.keys| && w.keys[i] == key;
    assert w.lucks[i] in w.lucks;
    M.EachTreatedOnce(cfg, seen, M.Progress(views, 0, []), w.keys, w.lucks, i);
    deleted := M.VisitAll(cfg, seen, M.Progress(views, 0, []), w.keys[..i], w.lucks[..i]).deleted;
  }

  /** And without one. */
  lemma SweptEntity(sync: Sync, cfg: M.Config, store: Store, w: Whole, key: string)
    requires ProperWhole(sync, store, w) && Sweeps(w) && cfg.maxDeletes <= 0
    requires key in Delivering(sync, store, w.run).store.states
    ensures var views, rows := Views(Delivering(sync, store, w.run).store.states), Sweep(sync, cfg, store, w).rows;
      key in rows && rows[key] ==
        if key in Seen(sync, store, w.run) then views[key]
        else M.Updated(views[key], M.Judge(cfg, views[key].missing + 1, 0))
  {
    var deleted := SweptAfterSome(sync, cfg, store, w, key);
    hide ProperWhole, Delivering, Seen, Sweep;
  }

  /** The sweep's move of one counter. */
  lemma SweepCounts(cfg: M.Config, es: EntityState)
    requires cfg.maxDeletes <= 0
    ensures Max(0, M.Updated(M.Entity(es.missing, es.lastDecision, ""), M.Judge(cfg, es.missing + 1, 0)).missing) ==
      Counted(cfg, es.missing, Away)
  {
  }

  lemma RestoredEntity(sync: Sync, cfg: M.Config, store: Store, w: Whole, key: string)
    requires ProperWhole(sync, store, w) && cfg.maxDeletes <= 0 && Sweeps(w)
    requires key in Delivering(sync, store, w.run).store.states
    ensures var before, after := Delivering(sync, store, w.run).store.states, AfterWhole(sync, cfg, store, w).states;
      key in after && after[key].missing ==
        if key in Seen(sync, store, w.run) then before[key].missing else Counted(cfg, before[key].missing, Away)
  {
    SweptEntity(sync, cfg, store, w, key);
    SweepCounts(cfg, Delivering(sync, store, w.run).store.states[key]);
    hide Delivering, Seen, Sweep, Counted, M.Updated, M.Judge;
  }

  /** One whole run moves the counter as its event says. */
  lemma RunCounts(sync: Sync, cfg: M.Config, store: Store, w: Whole, key: string)
    requires ProperWhole(sync, store, w) && cfg.maxDeletes <= 0 && key in store.states
    ensures var after := AfterWhole(sync, cfg, store, w);
      key in after.states && after.states[key].missing == Counted(cfg, store.states[key].missing,
                                                                  EventOf(sync, store, w, key))
  {
    IsProper(sync, store, w);
    hide Seen, Sweep, ProperWhole, PossibleWhole, Delivering, Possible, KeysDistinct, AfterWhole;
    StoppedDeliversNothing(sync, store, w.run);
    WithoutSweep(sync, cfg, store, w);
    SavedStartsAgain(sync, store, w.run, key);
    if key !in Seen(sync, store, w.run) {
      UnseenUntouched(sync, store, w.run, key);
    }
    assert key in Delivering(sync, store, w.run).store.states;
    if Sweeps(w) {
      RestoredEntity(sync, cfg, store, w, key);
    }
  }

  lemma WithoutSweep(sync: Sync, cfg: M.Config, store: Store, w: Whole)
    requires PossibleWhole(sync, store, w)
    ensures var before, after := Delivering(sync, store, w.run).store, AfterWhole(sync, cfg, store, w);
      if Sweeps(w) then after.states.Keys <= before.states.Keys else after == before
  {
    hide Delivering, Sweep, PossibleWhole;
  }

  lemma StoppedDeliversNothing(sync: Sync, store: Store, run: Run)
    requires Possible(sync, store, run)
    ensures !run.passes ==> Delivering(sync, store, run).store == store
  {
  }

  lemma IsProper(sync: Sync, store: Store, w: Whole)
    requires ProperWhole(sync, store, w)
    ensures PossibleWhole(sync, store, w) && Proper(sync, store, w.run)
  {
  }

  // ---------------------------------------------------------------- histories

  ghost predicate AllProperWhole(sync: Sync, cfg: M.Config, store: Store, ws: seq<Whole>)
    decreases |ws|, 0
  {
    ws == [] ||
    var n := |ws| - 1;
    AllProperWhole(sync, cfg, store, ws[..n]) && ProperWhole(sync, AfterAll(sync, cfg, store, ws[..n]), ws[n])
  }

  ghost function AfterAll(sync: Sync, cfg: M.Config, store: Store, ws: seq<Whole>): Store
    requires AllProperWhole(sync, cfg, store, ws)
    decreases |ws|, 1
  {
    if ws == [] then store else AfterWhole(sync, cfg, AfterAll(sync, cfg, store, ws[..|ws| - 1]), ws[|ws| - 1])
  }

  ghost function Events(sync: Sync, cfg: M.Config, store: Store, ws: seq<Whole>, key: string): (es: seq<Event>)
    requires AllProperWhole(sync, cfg, store, ws)
    ensures |es| == |ws|
  {
    if ws == [] then []
    else
      var n := |ws| - 1;
      Events(sync, cfg, store, ws[..n], key) + [EventOf(sync, AfterAll(sync, cfg, store, ws[..n]), ws[n], key)]
  }

  function CountedAll(cfg: M.Config, c: nat, es: seq<Event>): nat {
    if es == [] then c else Counted(cfg, CountedAll(cfg, c, es[..|es| - 1]), es[|es| - 1])
  }

  /** Over any history of whole runs the stored counter is what the events of the entity count. */
  lemma {:induction false} HistoryCounts(sync: Sync, cfg: M.Config, store: Store, ws: seq<Whole>, key: string)
    requires AllProperWhole(sync, cfg, store, ws) && cfg.maxDeletes <= 0 && key in store.states
    ensures var after := AfterAll(sync, cfg, store, ws);
      key in after.states
      && after.states[key].missing == CountedAll(cfg, store.states[key].missing, Events(sync, cfg, store, ws, key))
  {
    if ws != [] {
      var n := |ws| - 1;
      HistoryCounts(sync, cfg, store, ws[..n], key);
      RunCounts(sync, cfg, AfterAll(sync, cfg, store, ws[..n]), ws[n], key);
      CountedSnoc(cfg, store.states[key].missing, Events(sync, cfg, store, ws[..n], key),
                  EventOf(sync, AfterAll(sync, cfg, store, ws[..n]), ws[n], key));
      hide AfterWhole, EventOf, Counted, CountedAll, ProperWhole;
    }
  }

  lemma CountedSnoc(cfg: M.Config, c: nat, es: seq<Event>, e: Event)
    ensures CountedAll(cfg, c, es + [e]) == Counted(cfg, CountedAll(cfg, c, es), e)
  {
    assert (es + [e])[..|es|] == es;
  }

  // ---------------------------------------------------------------- what the counter counts

  function Aways(es: seq<Event>): nat {
    if es == [] then 0 else Aways(es[..|es| - 1]) + if es[|es| - 1].Away? then 1 else 0
  }

  /** Consecutive absences at the end; runs that neither saw the entity nor swept do not interrupt them. */
  function Streak(es: seq<Event>): nat {
    if es == [] then 0
    else match es[|es| - 1]
      case Away => Streak(es[..|es| - 1]) + 1
      case Stopped => Streak(es[..|es| - 1])
      case _ => 0
  }

  /** The events since the counter was last set to zero, by a save or a delete. */
  function SinceReset(cfg: M.Config, es: seq<Event>): seq<Event> {
    if es == [] then []
    else
      var init, e := es[..|es| - 1], es[|es| - 1];
      if e.Saved? || (e.Away? && Deletes(cfg, CountedAll(cfg, 0, init))) then [] else SinceReset(cfg, init) + [e]
  }

  lemma AwaysSnoc(es: seq<Event>, e: Event)
    ensures Aways(es + [e]) == Aways(es) + if e.Away? then 1 else 0
  {
    assert (es + [e])[..|es|] == es;
  }

  lemma StreakSnoc(es: seq<Event>, e: Event)
    ensures Streak(es + [e]) == match e case Away => Streak(es) + 1 case Stopped => Streak(es) case _ => 0
  {
    assert (es + [e])[..|es|] == es;
  }

  /** The counter is the number of absences since the last save or delete, consecutive or not. */
  lemma {:induction false} CounterIsAways(cfg: M.Config, es: seq<Event>)
    ensures CountedAll(cfg, 0, es) == Aways(SinceReset(cfg, es))
    ensures forall e :: e in SinceReset(cfg, es) ==> !e.Saved?
  {
    if es != [] {
      var init, e := es[..|es| - 1], es[|es| - 1];
      CounterIsAways(cfg, init);
      AwaysSnoc(SinceReset(cfg, init), e);
    }
  }

  /** An absence is followed by a reappearance that saved nothing. */
  ghost predicate ReappearedAfterAway(es: seq<Event>) {
    exists i, j :: 0 <= i < j < |es| && es[i].Away? && es[j].Kept?
  }

  lemma ReappearedSnoc(es: seq<Event>, e: Event)
    ensures ReappearedAfterAway(es + [e]) <==> ReappearedAfterAway(es) || (e.Kept? && Aways(es) > 0)
  {
    var t := es + [e];
    assert t[|es|] == e && forall i :: 0 <= i < |es| ==> t[i] == es[i];
    AwaysPositive(es);
    if ReappearedAfterAway(t) && !ReappearedAfterAway(es) {
      var i, j :| 0 <= i < j < |t| && t[i].Away? && t[j].Kept?;
      assert j == |es| && es[i].Away?;
    }
    if ReappearedAfterAway(es) {
      var i, j :| 0 <= i < j < |es| && es[i].Away? && es[j].Kept?;
      assert t[i].Away? && t[j].Kept?;
    }
    if e.Kept? && Aways(es) > 0 {
      var i :| 0 <= i < |es| && es[i].Away?;
      assert t[i].Away? && t[|es|].Kept?;
    }
  }

  lemma {:induction false} AwaysPositive(es: seq<Event>)
    ensures Aways(es) > 0 <==> exists i :: 0 <= i < |es| && es[i].Away?
  {
    if es != [] {
      var init, e := es[..|es| - 1], es[|es| - 1];
      AwaysPositive(init);
      assert forall i :: 0 <= i < |init| ==> init[i] == es[i];
      if i :| 0 <= i < |es| && es[i].Away? {
        assert i == |init| || init[i].Away?;
      }
      if e.Away? {
        assert es[|init|].Away?;
      } else if Aways(init) > 0 {
        var i :| 0 <= i < |init| && init[i].Away?;
        assert es[i].Away?;
      }
    }
  }

  lemma {:induction false} AwaysAreStreakIff(es: seq<Event>)
    requires forall e :: e in es ==> !e.Saved?
    ensures Streak(es) <= Aways(es)
    ensures Streak(es) == Aways(es) <==> !ReappearedAfterAway(es)
  {
    if es != [] {
      var init, e := es[..|es| - 1], es[|es| - 1];
      assert es == init + [e] && e in es && forall x :: x in init ==> x in es;
      AwaysAreStreakIff(init);
      AwaysSnoc(init, e);
      StreakSnoc(init, e);
      ReappearedSnoc(init, e);
      hide Streak, Aways, ReappearedAfterAway;
    }
  }

  /** The counter equals the streak of absences the entity is in exactly when, since the last save or delete, it did
      not reappear after an absence without being saved. */
  lemma CounterIsStreakIff(cfg: M.Config, es: seq<Event>)
    ensures CountedAll(cfg, 0, es) == Streak(SinceReset(cfg, es)) <==> !ReappearedAfterAway(SinceReset(cfg, es))
  {
    CounterIsAways(cfg, es);
    AwaysAreStreakIff(SinceReset(cfg, es));
  }

  /** Away, back but skipped, away again: with a threshold of two the entity is deleted after one absence, having been
      seen one run ago. */
  lemma DeletedAfterOneAbsence(cfg: M.Config)
    requires cfg.action.Delete? && cfg.allowDestructive && cfg.afterRuns == 2
    ensures CountedAll(cfg, 0, [Away, Kept]) == 1 && Deletes(cfg, 1) && Streak([Away, Kept, Away]) == 1
    ensures CountedAll(cfg, 0, [Away, Kept, Away]) == 0
  {
    assert [Away, Kept, Away][..2] == [Away, Kept] && [Away, Kept][..1] == [Away] && [Away][..0] == [];
    assert CountedAll(cfg, 0, [Away]) == 1;
    assert Streak([Away, Kept]) == 0;
  }

  // ---------------------------------------------------------------- such a history

  /** No rules: everything is skipped. */
  const IDLE := WHEN_CHANGED.(decisions := Config("", []))

  function Only(key: string): Whole { Whole(Run([], [], true, []), false, false, [key], [M.Luck(true, true)]) }

  function With(data: Payload, key: string): Whole {
    Whole(Run([data], [Reading(true, {}, "")], true, []), false, false, [key], [M.Luck(true, true)])
  }

  lemma IdleSkips(store: Store, data: Payload)
    ensures DecideRow(IDLE, store, data, Reading(true, {}, "")).Skips?
  {
  }

  /** A run that extracts nothing. Every gate lets it pass. */
  lemma NothingExtracted(sync: Sync, store: Store, key: string)
    requires store.states.Keys == {key}
    ensures ProperWhole(sync, store, Only(key)) && Delivering(sync, store, Only(key).run) == Started(store)
    ensures Seen(sync, store, Only(key).run) == {} && EventOf(sync, store, Only(key), key) == Away
  {
    var w := Only(key);
    assert DecideAll(sync, store, [], []) == UNDECIDED;
    assert DeliverAll(sync, store, [], []) == Started(store);
    assert UNDECIDED.pending[..0] == [] && PendingCounts([]) == NONE;
    assert Delivering(sync, store, w.run) == Started(store);
    assert key in w.keys;
    hide Delivering;
  }

  lemma OnlyEntity(cfg: M.Config, store: Store, key: string)
    requires store.states.Keys == {key} && cfg.maxDeletes <= 0 && ProperWhole(IDLE, store, Only(key))
    requires Delivering(IDLE, store, Only(key).run) == Started(store) && Seen(IDLE, store, Only(key).run) == {}
    ensures var after := AfterWhole(IDLE, cfg, store, Only(key)).states;
      after.Keys == {key} && (Deletes(cfg, store.states[key].missing) ==> after[key].lastDecision == "delete")
  {
    SweptEntity(IDLE, cfg, store, Only(key), key);
    hide Delivering, Sweep, ProperWhole, PossibleWhole;
  }

  /** A run that extracts the entity and skips it. */
  lemma ExtractedAndSkipped(cfg: M.Config, store: Store, data: Payload, key: string)
    requires store.states.Keys == {key} && cfg.maxDeletes <= 0 && KeyOf(IDLE, data) == Some(key)
    ensures ProperWhole(IDLE, store, With(data, key)) && EventOf(IDLE, store, With(data, key), key) == Kept
    ensures AfterWhole(IDLE, cfg, store, With(data, key)).states.Keys == {key}
  {
    var w := With(data, key);
    var d := DecideAll(IDLE, store, [data], w.run.xs);
    IdleSkips(store, data);
    OneDecision(IDLE, store, data, w.run.xs[0]);
    assert w.run.xs == [w.run.xs[0]] && DeliverAll(IDLE, store, [], []) == Started(store);
    hide DecideRow, DecideAll, DeliverAll, KeyOf;
    assert d == Noted(UNDECIDED, Skips, Some(key));
    assert d.pending[..0] == [];
    assert Delivering(IDLE, store, w.run) == Started(store);
    assert key in w.keys;
    StillOne(cfg, store, w, key);
    hide Delivering, Sweep, AfterWhole;
  }

  lemma StillOne(cfg: M.Config, store: Store, w: Whole, key: string)
    requires ProperWhole(IDLE, store, w) && Sweeps(w) && store.states.Keys == {key} && cfg.maxDeletes <= 0
    requires Delivering(IDLE, store, w.run) == Started(store)
    ensures AfterWhole(IDLE, cfg, store, w).states.Keys == {key}
  {
    SweptEntity(IDLE, cfg, store, w, key);
    hide Delivering, Sweep, ProperWhole, PossibleWhole, Seen;
  }

  /** Whole runs in which an entity is extracted one run before a single absence deletes it. */
  lemma SeenThenDeleted(cfg: M.Config, store: Store, data: Payload, key: string)
    returns (w1: Whole, w2: Whole, w3: Whole)
    requires cfg.action.Delete? && cfg.allowDestructive && cfg.afterRuns == 2 && cfg.maxDeletes <= 0
    requires store.states.Keys == {key} && store.states[key].missing == 0 && KeyOf(IDLE, data) == Some(key)
    ensures ProperWhole(IDLE, store, w1) && EventOf(IDLE, store, w1, key) == Away
    ensures var s1 := AfterWhole(IDLE, cfg, store, w1);
      ProperWhole(IDLE, s1, w2) && EventOf(IDLE, s1, w2, key) == Kept &&
      var s2 := AfterWhole(IDLE, cfg, s1, w2);
      ProperWhole(IDLE, s2, w3) && EventOf(IDLE, s2, w3, key) == Away &&
      var s3 := AfterWhole(IDLE, cfg, s2, w3);
      key in s3.states && s3.states[key].lastDecision == "delete" && s3.states[key].missing == 0
  {
    w1, w2, w3 := Only(key), With(data, key), Only(key);
    hide ProperWhole, PossibleWhole, AfterWhole, EventOf, KeyOf, Delivering, Seen;
    NothingExtracted(IDLE, store, key);
    IsProper(IDLE, store, w1);
    OnlyEntity(cfg, store, key);
    RunCounts(IDLE, cfg, store, w1, key);
    var s1 := AfterWhole(IDLE, cfg, store, w1);
    ExtractedAndSkipped(cfg, s1, data, key);
    IsProper(IDLE, s1, w2);
    RunCounts(IDLE, cfg, s1, w2, key);
    var s2 := AfterWhole(IDLE, cfg, s1, w2);
    NothingExtracted(IDLE, s2, key);
    IsProper(IDLE, s2, w3);
    OnlyEntity(cfg, s2, key);
    RunCounts(IDLE, cfg, s2, w3, key);
  }

  // ---------------------------------------------------------------- dry runs

  /** A dry run of the engine writes nothing. */
  lemma {:induction false} DryRunWritesNothing(sync: Sync, store: Store, pending: seq<Pending>, lucks: seq<Luck>)
    requires |lucks| == |pending| && sync.dryRun
    ensures DeliverAll(sync, store, pending, lucks).store == store
  {
    if pending != [] {
      DryRunWritesNothing(sync, store, pending[..|pending| - 1], lucks[..|lucks| - 1]);
    }
  }

  lemma DryRunDelivers(sync: Sync, store: Store, run: Run)
    requires Possible(sync, store, run) && sync.dryRun
    ensures Delivering(sync, store, run).store == store
  {
    if run.passes {
      DryRunWritesNothing(sync, store, DecideAll(sync, store, run.rows, run.xs).pending[..|run.lucks|], run.lucks);
    }
  }

  /** Its sweep does: the counter of an entity that was not extracted moves as in a real run. */
  lemma DryRunSweeps(sync: Sync, cfg: M.Config, store: Store, w: Whole, key: string)
    requires ProperWhole(sync, store, w) && cfg.maxDeletes <= 0 && key in store.states && sync.dryRun
    requires Sweeps(w) && key !in Seen(sync, store, w.run)
    ensures Delivering(sync, store, w.run).store == store
    ensures var c, after := store.states[key].missing, AfterWhole(sync, cfg, store, w);
      key in after.states && after.states[key].missing == if Deletes(cfg, c) then 0 else c + 1
  {
    RunCounts(sync, cfg, store, w, key);
    DryRunDelivers(sync, store, w.run);
    hide Seen, Sweep, AfterWhole;
  }

  /** What the sweep makes of the state of an absent entity is what it was. */
  predicate AsItWas(cfg: M.Config, es: EntityState) {
    es.missing == 0 && es.lastDecision == "delete" && Deletes(cfg, 0)
  }

  lemma UpdatedAsItWas(cfg: M.Config, es: EntityState, deleted: nat)
    ensures var v := M.Updated(M.Entity(es.missing, es.lastDecision, ""), M.Judge(cfg, es.missing + 1, deleted));
      var same := es.(missing := Max(0, v.missing), lastDecision := v.decision) == es;
      (same ==> AsItWas(cfg, es)) && (cfg.maxDeletes <= 0 ==> (same <==> AsItWas(cfg, es)))
  {
  }

  lemma DryRunEntity(sync: Sync, cfg: M.Config, store: Store, w: Whole, k: string)
    requires ProperWhole(sync, store, w) && Sweeps(w) && Delivering(sync, store, w.run).store == store &&
      k in store.states
    ensures var after, seen := AfterWhole(sync, cfg, store, w).states, k in Seen(sync, store, w.run);
      && k in after
      && (after[k] == store.states[k] ==> seen || AsItWas(cfg, store.states[k]))
      && (seen || (cfg.maxDeletes <= 0 && AsItWas(cfg, store.states[k])) ==> after[k] == store.states[k])
  {
    IsProper(sync, store, w);
    hide Delivering, Sweep, Seen, ProperWhole, PossibleWhole;
    var deleted := SweptAfterSome(sync, cfg, store, w, k);
    UpdatedAsItWas(cfg, store.states[k], deleted);
    hide M.Updated, M.Judge, AsItWas;
  }

  /** A dry run leaves the states as they are only when it does not sweep or has extracted every stored entity, but
      those it would delete again at once. Without a delete limit it is so exactly then. */
  lemma DryRunKeepsStatesIff(sync: Sync, cfg: M.Config, store: Store, w: Whole)
    requires ProperWhole(sync, store, w) && sync.dryRun
    ensures var same := AfterWhole(sync, cfg, store, w).states == store.states;
      var kept := !Sweeps(w) || forall k :: k in store.states ==>
        k in Seen(sync, store, w.run) || AsItWas(cfg, store.states[k]);
      (same ==> kept) && (cfg.maxDeletes <= 0 ==> (same <==> kept))
    ensures (forall k :: k in store.states ==> k in Seen(sync, store, w.run)) ==>
      AfterWhole(sync, cfg, store, w).states == store.states
  {
    IsProper(sync, store, w);
    DryRunDelivers(sync, store, w.run);
    WithoutSweep(sync, cfg, store, w);
    hide Delivering, Seen, ProperWhole, PossibleWhole, AsItWas, Proper, AfterWhole;
    if Sweeps(w) {
      var after := AfterWhole(sync, cfg, store, w).states;
      forall k | k in store.states
        ensures k in after
        ensures after[k] == store.states[k] ==> k in Seen(sync, store, w.run) || AsItWas(cfg, store.states[k])
        ensures k in Seen(sync, store, w.run) || (cfg.maxDeletes <= 0 && AsItWas(cfg, store.states[k])) ==>
          after[k] == store.states[k]
      {
        DryRunEntity(sync, cfg, store, w, k);
      }
    }
  }

  /** A dry run in which nothing is extracted writes the counter of the only stored entity. */
  lemma DryRunCountsAway(cfg: M.Config, store: Store, key: string)
    requires store.states.Keys == {key} && store.states[key].missing == 0 && cfg.afterRuns > 1 && cfg.maxDeletes <= 0
    ensures ProperWhole(DRY, store, Only(key)) && DRY.dryRun
    ensures var after := AfterWhole(DRY, cfg, store, Only(key)).states; key in after && after[key].missing == 1
  {
    NothingExtracted(DRY, store, key);
    DryRunSweeps(DRY, cfg, store, Only(key), key);
  }

  const DRY := IDLE.(dryRun := true)
}
