/** Exactly which extractions let a once-rule fire twice in one run. */
module EngineOnce {
  import opened Common
  import opened Json
  import opened Diff
  import opened Decision
  import opened Safety
  import opened EngineSpec
  import opened EngineRuns
  import opened EngineReruns

  /** The rows have the same entities under both configurations. */
  ghost predicate SameEntities(a: Sync, b: Sync) {
    a.show == b.show && a.required == b.required && a.entityKey == b.entityKey
  }

  /** A run over given rows: everything else about it. */
  datatype Setting = Setting(sync: Sync, store: Store, xs: seq<Reading>, lucks: seq<Luck>)

  ghost predicate IsSetting(sync: Sync, rows: seq<Payload>, s: Setting) {
    && SameEntities(sync, s.sync) && |s.xs| == |rows|
    && |s.lucks| <= |DecideAll(s.sync, s.store, rows, s.xs).pending|
  }

  ghost function Delivered(rows: seq<Payload>, s: Setting): seq<Pending>
    requires |s.xs| == |rows| && |s.lucks| <= |DecideAll(s.sync, s.store, rows, s.xs).pending|
  {
    DeliverAll(s.sync, s.store, DecideAll(s.sync, s.store, rows, s.xs).pending[..|s.lucks|], s.lucks).delivered
  }

  /** Whatever the rules, the store, and the luck: no once-rule triggers two deliveries of an entity in the run. */
  ghost predicate NeverTwice(sync: Sync, rows: seq<Payload>) {
    forall s, key, rule :: IsSetting(sync, rows, s) && OnceRule(s.sync.decisions, rule) ==>
      FiringsIn(Delivered(rows, s), key, rule) <= 1
  }

  // ---------------------------------------------------------------- distinct entities suffice

  lemma StepDelivered(sync: Sync, a: Progress, p: Pending, luck: Luck)
    ensures var b := DeliverOne(sync, a, p, luck); b.delivered == a.delivered || b.delivered == a.delivered + [p]
  {
  }

  lemma {:induction false} FiringsBounded(sync: Sync, store: Store, pending: seq<Pending>, lucks: seq<Luck>,
                                          key: string, rule: string)
    requires |lucks| == |pending| && PendingKeysDistinct(pending)
    ensures FiringsIn(DeliverAll(sync, store, pending, lucks).delivered, key, rule) <= 1
    ensures (forall p :: p in pending ==> p.key != key) ==>
      FiringsIn(DeliverAll(sync, store, pending, lucks).delivered, key, rule) == 0
  {
    if pending != [] {
      var n := |pending| - 1;
      var a, p := DeliverAll(sync, store, pending[..n], lucks[..n]), pending[n];
      FiringsBounded(sync, store, pending[..n], lucks[..n], key, rule);
      StepDelivered(sync, a, p, lucks[n]);
      FiringsSnoc(a.delivered, p, key, rule);
      assert p in pending && forall q :: q in pending[..n] ==> q in pending;
      assert p.key == key ==> forall q :: q in pending[..n] ==> q.key != key;
      hide DeliverOne, FiringsIn;
    }
  }

  lemma SameKeyOf(a: Sync, b: Sync, data: Payload)
    requires SameEntities(a, b)
    ensures KeyOf(a, data) == KeyOf(b, data)
  {
  }

  lemma DistinctNeverTwice(sync: Sync, rows: seq<Payload>)
    requires KeysDistinct(sync, rows)
    ensures NeverTwice(sync, rows)
  {
    forall s, key, rule | IsSetting(sync, rows, s) && OnceRule(s.sync.decisions, rule)
      ensures FiringsIn(Delivered(rows, s), key, rule) <= 1
    {
      forall data: Payload ensures KeyOf(sync, data) == KeyOf(s.sync, data) { SameKeyOf(sync, s.sync, data); }
      DistinctRowsDistinctPending(s.sync, s.store, rows, s.xs);
      FiringsBounded(s.sync, s.store, DecideAll(s.sync, s.store, rows, s.xs).pending[..|s.lucks|], s.lucks, key, rule);
    }
  }

  // ---------------------------------------------------------------- and are needed

  const FIRST_SEEN := When(true, false, None, [], [], [], None)

  const WELCOME := Rule("welcome", FIRST_SEEN, true, "upsert", map[])

  /** Deliver an entity once, when it is first seen; no limits. */
  function Welcoming(sync: Sync): Sync {
    sync.(decisions := Config("", [WELCOME]), limits := Limits(0, 0, 0, 0.0, [], map[]), dryRun := false,
          hasDest := true)
  }

  const READ := Reading(true, {}, "")

  const LOADED := Luck(Returned(1, 0, 0), false, true, true)

  lemma WelcomeDecides(sync: Sync, data: Payload)
    ensures var v := DecideRow(Welcoming(sync), NOTHING, data, READ);
      if KeyOf(sync, data).None? then v.Skips?
      else v.Pends? && v.p.key == KeyOf(sync, data).value && v.p.plan.triggered == ["welcome"]
  {
    var s := Welcoming(sync);
    SameKeyOf(sync, s, data);
    if KeyOf(sync, data).Some? {
      var c := CaseOf(s, NOTHING, KeyOf(sync, data).value, Mapped(data, s.mapping), READ);
      assert EvalWhen(s.show, FIRST_SEEN, c.input);
      assert Decides(s.decisions, c, 0) && Answered(s.decisions, c, 1);
      ByDecider(s.decisions, c, 0, Some(PlanOf(s.decisions, c, WELCOME)));
    }
  }

  /** How many rows an entity has. */
  function RowsOf(sync: Sync, rows: seq<Payload>, key: string): nat {
    if rows == [] then 0
    else RowsOf(sync, rows[..|rows| - 1], key) + if KeyOf(sync, rows[|rows| - 1]) == Some(key) then 1 else 0
  }

  lemma {:induction false} WelcomePending(sync: Sync, rows: seq<Payload>, xs: seq<Reading>, key: string)
    requires |xs| == |rows| && forall x :: x in xs ==> x == READ
    ensures FiringsIn(DecideAll(Welcoming(sync), NOTHING, rows, xs).pending, key, "welcome") == RowsOf(sync, rows, key)
  {
    if rows != [] {
      var n := |rows| - 1;
      var before := DecideAll(Welcoming(sync), NOTHING, rows[..n], xs[..n]).pending;
      assert xs[n] in xs && forall x :: x in xs[..n] ==> x in xs;
      WelcomePending(sync, rows[..n], xs[..n], key);
      WelcomeDecides(sync, rows[n]);
      DecideAllSnoc(Welcoming(sync), NOTHING, rows, xs);
      hide DecideAll, DecideRow, KeyOf, FiringsIn, Welcoming;
      var v := DecideRow(Welcoming(sync), NOTHING, rows[n], xs[n]);
      if v.Pends? {
        FiringsSnoc(before, v.p, key, "welcome");
      } else {
        assert before + [] == before;
      }
    }
  }

  lemma {:induction false} AllDelivered(sync: Sync, pending: seq<Pending>, lucks: seq<Luck>)
    requires |lucks| == |pending| && forall l :: l in lucks ==> l == LOADED
    ensures DeliverAll(Welcoming(sync), NOTHING, pending, lucks).delivered == pending
  {
    if pending != [] {
      var n := |pending| - 1;
      assert lucks[n] in lucks && forall l :: l in lucks[..n] ==> l in lucks;
      AllDelivered(sync, pending[..n], lucks[..n]);
      Unlimited(Welcoming(sync), DeliverAll(Welcoming(sync), NOTHING, pending[..n], lucks[..n]), pending[n], lucks[n]);
      assert pending[..n] + [pending[n]] == pending;
      hide DeliverOne;
    }
  }

  lemma {:induction false} TwoRows(sync: Sync, rows: seq<Payload>, i: int, j: int, key: string)
    requires 0 <= i < |rows| && KeyOf(sync, rows[i]) == Some(key)
    ensures RowsOf(sync, rows, key) >= 1
    ensures i < j < |rows| && KeyOf(sync, rows[j]) == Some(key) ==> RowsOf(sync, rows, key) >= 2
  {
    var n := |rows| - 1;
    hide KeyOf;
    if i < n {
      TwoRows(sync, rows[..n], i, j, key);
    }
  }

  /** The welcoming run over the rows: everything is read, loaded and kept. */
  lemma WelcomeRun(sync: Sync, rows: seq<Payload>, key: string) returns (s: Setting)
    ensures IsSetting(sync, rows, s) && OnceRule(s.sync.decisions, "welcome") && WELCOME in s.sync.decisions.rules
    ensures FiringsIn(Delivered(rows, s), key, "welcome") == RowsOf(sync, rows, key)
  {
    var xs := seq(|rows|, _ => READ);
    var pending := DecideAll(Welcoming(sync), NOTHING, rows, xs).pending;
    var lucks := seq(|pending|, _ => LOADED);
    s := Setting(Welcoming(sync), NOTHING, xs, lucks);
    WelcomePending(sync, rows, xs, key);
    AllDelivered(sync, pending, lucks);
    hide DecideAll, DeliverAll;
    assert pending[..|lucks|] == pending;
  }

  /** In a run over given rows a once-rule fires at most once for an entity, whatever else is so, exactly when no
      entity has two rows. */
  lemma NeverTwiceIff(sync: Sync, rows: seq<Payload>)
    ensures NeverTwice(sync, rows) <==> KeysDistinct(sync, rows)
  {
    if KeysDistinct(sync, rows) {
      DistinctNeverTwice(sync, rows);
    } else {
      var i, j :| 0 <= i < j < |rows| && KeyOf(sync, rows[i]).Some? && KeyOf(sync, rows[i]) == KeyOf(sync, rows[j]);
      var key := KeyOf(sync, rows[i]).value;
      TwoRows(sync, rows, i, j, key);
      var s := WelcomeRun(sync, rows, key);
      hide IsSetting, Delivered, FiringsIn, RowsOf;
      assert FiringsIn(Delivered(rows, s), key, "welcome") >= 2;
    }
  }

  const BY_ID := WHEN_CHANGED.(decisions := Config("", []))

  /** Two rows of one entity that differ in another field: the welcome is delivered twice. */
  lemma WelcomedTwice() returns (s: Setting)
    ensures var rows := [map["id" := Str("k"), "n" := Int(1)], map["id" := Str("k"), "n" := Int(2)]];
      && IsSetting(BY_ID, rows, s) && OnceRule(s.sync.decisions, "welcome") && WELCOME in s.sync.decisions.rules
      && FiringsIn(Delivered(rows, s), "k", "welcome") == 2
  {
    var rows := [map["id" := Str("k"), "n" := Int(1)], map["id" := Str("k"), "n" := Int(2)]];
    s := WelcomeRun(BY_ID, rows, "k");
    assert KeyOf(BY_ID, rows[0]) == KeyOf(BY_ID, rows[1]) == Some("k");
    assert rows[..1] == [rows[0]] && [rows[0]][..0] == [];
    assert RowsOf(BY_ID, [rows[0]], "k") == 1;
    assert RowsOf(BY_ID, rows, "k") == 2;
  }
}
