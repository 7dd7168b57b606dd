/** The delivery log and its batch buffer, as a protocol over whole histories of runs: gate aborts, commits,
    failed commits and crashes at any point. How often can one operation reach the destination? */
module DeliveryProtocol {
  import opened Common

  datatype Phase = Idle | Deciding | Delivering

  /** The committed log, the buffer of the running batch, operations sent but not yet marked, everything the
      destination ever reported accepted, and the marks that were lost. */
  datatype World = World(phase: Phase, log: set<string>, seen: set<string>, flight: set<string>,
                         sent: multiset<string>, lost: multiset<string>)

  const FRESH := World(Idle, {}, {}, {}, multiset{}, multiset{})

  datatype Step =
    | Begin | Abort | Pass
    | Send(key: string) | Mark(key: string)
    | Commit | CommitFails(applied: bool)
    | Crash

  predicate Enabled(w: World, s: Step) {
    match s
    case Begin => w.phase.Idle?
    case Abort => w.phase.Deciding?
    case Pass => w.phase.Deciding?
    case Send(k) => w.phase.Delivering? && k !in w.log && k !in w.seen && k !in w.flight
    case Mark(k) => k in w.flight
    case Commit => w.phase.Delivering? && w.flight == {}
    case CommitFails(_) => w.phase.Delivering? && w.flight == {}
    case Crash => true
  }

  function Next(w: World, s: Step): World {
    match s
    case Begin => w.(phase := Deciding, seen := {})
    case Abort => w.(phase := Idle, seen := {}, lost := w.lost + multiset(w.seen))
    case Pass => w.(phase := Delivering)
    case Send(k) => w.(sent := w.sent + multiset{k}, flight := w.flight + {k})
    case Mark(k) => w.(flight := w.flight - {k}, seen := w.seen + {k})
    case Commit => w.(phase := Idle, log := w.log + w.seen, seen := {})
    case CommitFails(applied) =>
      if applied then w.(phase := Idle, log := w.log + w.seen, seen := {})
      else w.(phase := Idle, seen := {}, lost := w.lost + multiset(w.seen))
    case Crash =>
      w.(phase := Idle, seen := {}, flight := {}, lost := w.lost + multiset(w.seen) + multiset(w.flight))
  }

  function After(w: World, trace: seq<Step>): World {
    if trace == [] then w else Next(After(w, trace[..|trace| - 1]), trace[|trace| - 1])
  }

  ghost predicate Possible(w: World, trace: seq<Step>) {
    forall i :: 0 <= i < |trace| ==> Enabled(After(w, trace[..i]), trace[i])
  }

  lemma PossibleInit(w: World, trace: seq<Step>, n: nat)
    requires Possible(w, trace) && n <= |trace|
    ensures Possible(w, trace[..n])
  {
    forall i | 0 <= i < n ensures Enabled(After(w, trace[..n][..i]), trace[..n][i]) {
      assert trace[..n][..i] == trace[..i];
    }
  }

  lemma AfterSnoc(w: World, trace: seq<Step>, s: Step)
    ensures After(w, trace + [s]) == Next(After(w, trace), s)
    ensures Possible(w, trace + [s]) <==> Possible(w, trace) && Enabled(After(w, trace), s)
  {
    var t := trace + [s];
    assert t[..|trace|] == trace;
    assert forall i :: 0 <= i < |trace| ==> t[..i] == trace[..i] && t[i] == trace[i];
    if Possible(w, t) {
      PossibleInit(w, t, |trace|);
      assert Enabled(After(w, t[..|trace|]), t[|trace|]);
    }
  }

  lemma {:induction false} AfterAppend(w: World, a: seq<Step>, b: seq<Step>)
    ensures After(w, a + b) == After(After(w, a), b)
    ensures Possible(w, a) && Possible(After(w, a), b) ==> Possible(w, a + b)
  {
    if b == [] {
      assert a + b == a;
    } else {
      var n := |b| - 1;
      AfterAppend(w, a, b[..n]);
      assert a + b == (a + b[..n]) + [b[n]] && b == b[..n] + [b[n]];
      AfterSnoc(w, a + b[..n], b[n]);
      AfterSnoc(After(w, a), b[..n], b[n]);
    }
  }

  lemma TwoSteps(w: World, s: Step, t: Step)
    ensures After(w, [s, t]) == Next(Next(w, s), t) && Losses([s, t]) == Losses([s]) + Losses([t])
    ensures Enabled(w, s) && Enabled(Next(w, s), t) ==> Possible(w, [s, t])
  {
    hide Next, Enabled;
    assert [s, t][..1] == [s] && [s][..0] == [] && [t][..0] == [];
    assert After(w, []) == w && After(w, [s]) == Next(After(w, [s][..0]), s);
    assert After(w, [s, t]) == Next(After(w, [s, t][..1]), t);
    assert Losses([s, t]) == Losses([s, t][..1]) + One(t.Crash? || t == CommitFails(false));
    assert forall i :: 0 <= i < 2 ==> [s, t][..i] == if i == 0 then [] else [s];
  }

  // ---------------------------------------------------------------- conservation

  function One(b: bool): nat { if b then 1 else 0 }

  /** Every accepted send of `k` is logged, buffered, in flight, or lost: exactly one of them, the first three
      at most once together, and between the gates and the commit only. */
  ghost predicate Accounted(w: World, k: string) {
    && w.sent[k] == One(k in w.log) + One(k in w.seen) + One(k in w.flight) + w.lost[k]
    && One(k in w.log) + One(k in w.seen) + One(k in w.flight) <= 1
    && (!w.phase.Delivering? ==> k !in w.seen && k !in w.flight)
  }

  lemma StepAccounted(w: World, s: Step, k: string)
    requires Accounted(w, k) && Enabled(w, s)
    ensures Accounted(Next(w, s), k)
    ensures Next(w, s).lost[k] <= w.lost[k] + One(s.Crash? || s == CommitFails(false))
  {
  }

  lemma {:induction false} Conservation(trace: seq<Step>, k: string)
    requires Possible(FRESH, trace)
    ensures Accounted(After(FRESH, trace), k)
  {
    if trace != [] {
      var n := |trace| - 1;
      PossibleInit(FRESH, trace, n);
      Conservation(trace[..n], k);
      StepAccounted(After(FRESH, trace[..n]), trace[n], k);
    }
  }

  /** The runs of a history that lost their batch. */
  function Losses(trace: seq<Step>): nat {
    if trace == [] then 0
    else Losses(trace[..|trace| - 1]) + One(trace[|trace| - 1].Crash? || trace[|trace| - 1] == CommitFails(false))
  }

  lemma {:induction false} LostAtMost(trace: seq<Step>, k: string)
    requires Possible(FRESH, trace)
    ensures After(FRESH, trace).lost[k] <= Losses(trace)
  {
    if trace != [] {
      var n := |trace| - 1;
      PossibleInit(FRESH, trace, n);
      LostAtMost(trace[..n], k);
      Conservation(trace[..n], k);
      StepAccounted(After(FRESH, trace[..n]), trace[n], k);
    }
  }

  /** An operation is accepted by the destination at most once more than runs lost their batch. */
  lemma SentAtMost(trace: seq<Step>, k: string)
    requires Possible(FRESH, trace)
    ensures After(FRESH, trace).sent[k] <= 1 + Losses(trace)
  {
    Conservation(trace, k);
    LostAtMost(trace, k);
  }

  /** Without a lost batch nothing is sent twice, and between runs the log is exactly what was sent. */
  lemma NoLossExactlyOnce(trace: seq<Step>, k: string)
    requires Possible(FRESH, trace) && Losses(trace) == 0
    ensures After(FRESH, trace).sent[k] <= 1
    ensures After(FRESH, trace).phase.Idle? ==> (k in After(FRESH, trace).log <==> After(FRESH, trace).sent[k] == 1)
  {
    Conservation(trace, k);
    LostAtMost(trace, k);
  }

  /** The log holds nothing that the destination did not accept. */
  lemma LoggedWasSent(trace: seq<Step>, k: string)
    requires Possible(FRESH, trace) && k in After(FRESH, trace).log
    ensures After(FRESH, trace).sent[k] >= 1
  {
    Conservation(trace, k);
  }

  /** A gate that stops a run rolls back an empty batch. */
  lemma AbortDiscardsNothing(trace: seq<Step>)
    requires Possible(FRESH, trace + [Abort])
    ensures After(FRESH, trace + [Abort]) == After(FRESH, trace).(phase := Idle)
  {
    AfterSnoc(FRESH, trace, Abort);
    var w := After(FRESH, trace);
    forall k ensures k !in w.seen { Conservation(trace, k); }
    assert w.seen == {};
  }

  /** A run that crashes after sending `k`, before marking it. */
  function LostRun(k: string): seq<Step> { [Begin, Pass, Send(k), Crash] }

  function LostRuns(k: string, n: nat): seq<Step> {
    if n == 0 then [] else LostRuns(k, n - 1) + LostRun(k)
  }

  /** The bound is reached: after `n` lost runs a good one sends the operation for the time `n + 1`. */
  lemma BoundIsReached(k: string, n: nat) returns (trace: seq<Step>)
    ensures Possible(FRESH, trace) && Losses(trace) == n && After(FRESH, trace).sent[k] == n + 1
  {
    var lost := LostRuns(k, n);
    LostRunsLose(k, n);
    var w := After(FRESH, lost);
    trace := lost + [Begin] + [Pass] + [Send(k)];
    AfterSnoc(FRESH, lost, Begin);
    AfterSnoc(FRESH, lost + [Begin], Pass);
    AfterSnoc(FRESH, lost + [Begin] + [Pass], Send(k));
    LossesSnoc(lost, Begin);
    LossesSnoc(lost + [Begin], Pass);
    LossesSnoc(lost + [Begin] + [Pass], Send(k));
  }

  lemma LossesSnoc(trace: seq<Step>, s: Step)
    ensures Losses(trace + [s]) == Losses(trace) + One(s.Crash? || s == CommitFails(false))
  {
    assert (trace + [s])[..|trace|] == trace;
  }

  lemma LostRunLoses(w: World, k: string)
    requires w.phase.Idle? && w.log == w.seen == w.flight == {}
    ensures Possible(w, LostRun(k)) && Losses(LostRun(k)) == 1
    ensures var w' := After(w, LostRun(k));
      w'.phase.Idle? && w'.log == w'.seen == w'.flight == {} && w'.sent == w.sent + multiset{k}
  {
    TwoSteps(w, Begin, Pass);
    var w2 := After(w, [Begin, Pass]);
    TwoSteps(w2, Send(k), Crash);
    AfterAppend(w, [Begin, Pass], [Send(k), Crash]);
    LossesAppend([Begin, Pass], [Send(k), Crash]);
    assert [Begin, Pass] + [Send(k), Crash] == LostRun(k);
    hide After, Possible;
  }

  lemma {:induction false} LossesAppend(a: seq<Step>, b: seq<Step>)
    ensures Losses(a + b) == Losses(a) + Losses(b)
  {
    if b == [] {
      assert a + b == a;
    } else {
      var n := |b| - 1;
      LossesAppend(a, b[..n]);
      assert a + b == (a + b[..n]) + [b[n]] && b == b[..n] + [b[n]];
      LossesSnoc(a + b[..n], b[n]);
      LossesSnoc(b[..n], b[n]);
    }
  }

  lemma {:induction false} LostRunsLose(k: string, n: nat)
    ensures Possible(FRESH, LostRuns(k, n)) && Losses(LostRuns(k, n)) == n
    ensures var w := After(FRESH, LostRuns(k, n));
      w.phase == Idle && w.log == w.seen == w.flight == {} && w.sent[k] == n
  {
    if n == 0 {
      assert After(FRESH, []) == FRESH;
    } else {
      hide After, Possible, Losses, LostRun, Next, Enabled;
      LostRunsLose(k, n - 1);
      var t := LostRuns(k, n - 1);
      LostRunLoses(After(FRESH, t), k);
      AfterAppend(FRESH, t, LostRun(k));
      LossesAppend(t, LostRun(k));
    }
  }

  // ---------------------------------------------------------------- the steps of one load

  /** Sending and marking operations one after the other. */
  function Sends(keys: seq<string>): seq<Step> {
    if keys == [] then [] else Sends(keys[..|keys| - 1]) + [Send(keys[|keys| - 1]), Mark(keys[|keys| - 1])]
  }

  lemma OneMore(sent: multiset<string>, seen: set<string>, init: seq<string>, k: string)
    ensures sent + multiset(init) + multiset{k} == sent + multiset(init + [k])
    ensures seen + SetOf(init) + {k} == seen + SetOf(init + [k])
    ensures sent + multiset([]) == sent && seen + SetOf([]) == seen
  {
    assert multiset(init + [k]) == multiset(init) + multiset{k};
    assert k in init + [k];
  }

  lemma NotMember(keys: seq<string>, k: string)
    ensures k in SetOf(keys) <==> k in keys
  {
  }

  lemma SendMark(w: World, k: string)
    requires w.phase.Delivering? && w.flight == {} && k !in w.log && k !in w.seen
    ensures Possible(w, [Send(k), Mark(k)])
    ensures After(w, [Send(k), Mark(k)]) == w.(sent := w.sent + multiset{k}, seen := w.seen + {k})
  {
    TwoSteps(w, Send(k), Mark(k));
    hide After, Possible;
    assert w.flight + {k} - {k} == {};
  }

  lemma {:induction false} SendsDo(w: World, keys: seq<string>)
    requires w.phase.Delivering? && w.flight == {} && Distinct(keys)
    requires forall k :: k in keys ==> k !in w.log && k !in w.seen
    ensures Possible(w, Sends(keys))
    ensures After(w, Sends(keys)) == w.(sent := w.sent + multiset(keys), seen := w.seen + SetOf(keys))
  {
    OneMore(w.sent, w.seen, [], "");
    hide SetOf;
    if keys != [] {
      var n := |keys| - 1;
      var k, init := keys[n], keys[..n];
      assert keys == init + [k] && k !in init && k in keys;
      assert Sends(keys) == Sends(init) + [Send(k), Mark(k)];
      hide After, Possible, Sends;
      SendsDo(w, init);
      var w1 := After(w, Sends(init));
      assert k !in w1.seen by { NotMember(init, k); }
      SendMark(w1, k);
      AfterAppend(w, Sends(init), [Send(k), Mark(k)]);
      OneMore(w.sent, w.seen, init, k);
    }
  }
}

/** The SQLite store with its batch buffer, the REST destination that checks, sends and marks, and the part of
    a run that uses them, proved to follow the protocol. */
module DeliveryLog {
  import opened Common
  import opened DeliveryProtocol

  class SqliteStore {
    var log: set<string>
    var batchSeen: Option<set<string>>
    var batchPending: seq<string>
    const reliable: bool

    /** The buffer lists each key of the running batch once, in the order they were marked. */
    ghost predicate Valid()
      reads this
    {
      && Distinct(batchPending)
      && (forall k :: k in batchPending <==> k in Seen())
      && (batchSeen.None? ==> batchPending == [])
    }

    ghost function Seen(): set<string>
      reads this
    {
      if batchSeen.Some? then batchSeen.value else {}
    }

    constructor (reliable: bool)
      ensures Valid() && log == {} && batchSeen == None && this.reliable == reliable
    {
      this.reliable, log, batchSeen, batchPending := reliable, {}, None, [];
    }

    /** After a crash only the database is left. */
    constructor Reopen(log: set<string>, reliable: bool)
      ensures Valid() && this.log == log && batchSeen == None && this.reliable == reliable
    {
      this.reliable, this.log, batchSeen, batchPending := reliable, log, None, [];
    }

    /** A key of the running batch is delivered already, without asking the database. */
    method IsDelivered(k: string) returns (r: Option<bool>)
      ensures r.Some? ==> (r.value <==> k in log || k in Seen())
      ensures reliable || k in Seen() ==> r.Some?
    {
      if batchSeen.Some? && k in batchSeen.value {
        return Some(true);
      }
      var fails := *;
      r := if fails && !reliable then None else Some(k in log);
    }

    /** In a batch, marking only fills the buffer and cannot fail. */
    method MarkDelivered(k: string) returns (ok: bool)
      requires Valid()
      modifies this
      ensures Valid() && (batchSeen.Some? <==> old(batchSeen).Some?)
      ensures old(batchSeen).Some? ==> ok && log == old(log) && Seen() == old(Seen()) + {k}
      ensures old(batchSeen).None? ==> log == (if ok then old(log) + {k} else old(log)) && (reliable ==> ok)
    {
      if batchSeen.Some? {
        if k in batchSeen.value {
          return true;
        }
        batchSeen := Some(batchSeen.value + {k});
        batchPending := batchPending + [k];
        return true;
      }
      var fails := *;
      ok := reliable || !fails;
      if ok {
        log := log + {k};
      }
    }

    method BeginBatch()
      modifies this
      ensures Valid() && log == old(log) && batchSeen == Some({})
    {
      batchPending, batchSeen := [], Some({});
    }

    /** One transaction inserts the whole buffer. The buffer is emptied first, so a failure loses it, unless
        the transaction was applied all the same. */
    method CommitBatch() returns (ok: bool)
      requires Valid()
      modifies this
      ensures Valid() && batchSeen == None
      ensures log == old(log) || log == old(log) + old(Seen())
      ensures ok ==> log == old(log) + old(Seen())
      ensures reliable ==> ok
    {
      var pending := batchPending;
      ghost var seen := Seen();
      batchPending, batchSeen := [], None;
      if pending == [] {
        assert seen == {};
        return true;
      }
      var applied, answered := *, *;
      if !applied && !reliable {
        return false;
      }
      var tx := log;
      for i := 0 to |pending|
        invariant tx == log + set k | k in pending[..i]
      {
        tx := tx + {pending[i]};
      }
      assert pending[..|pending|] == pending;
      log := tx;
      ok := answered || reliable;
    }

    method RollbackBatch()
      modifies this
      ensures Valid() && log == old(log) && batchSeen == None
    {
      batchPending, batchSeen := [], None;
    }
  }

  datatype Sent = Accepted | Rejected | Canceled

  class LoadResult {
    var loaded: nat
    var skipped: nat
    var errors: seq<string>

    constructor ()
      ensures loaded == skipped == 0 && errors == []
    {
      loaded, skipped, errors := 0, 0, [];
    }
  }

  /** The operations that are not delivered according to the log and the buffer. */
  ghost function Undelivered(keys: seq<string>, log: set<string>, seen: set<string>): seq<string> {
    if keys == [] then []
    else
      var n := |keys| - 1;
      Undelivered(keys[..n], log, seen) + if keys[n] in log || keys[n] in seen then [] else [keys[n]]
  }

  lemma {:induction false} UndeliveredAre(keys: seq<string>, log: set<string>, seen: set<string>)
    ensures forall k :: k in Undelivered(keys, log, seen) <==> k in keys && k !in log && k !in seen
    ensures Distinct(keys) ==> Distinct(Undelivered(keys, log, seen))
  {
    if keys != [] {
      var n := |keys| - 1;
      UndeliveredAre(keys[..n], log, seen);
      assert keys == keys[..n] + [keys[n]];
    }
  }

  /** Two rows of one load with one new operation key are both to be sent. */
  lemma RepeatedKeyIsSentTwice(k: string, log: set<string>, seen: set<string>)
    requires k !in log && k !in seen
    ensures multiset(Undelivered([k, k], log, seen))[k] == 2
  {
    assert [k, k][..1] == [k] && [k][..0] == [];
    assert Undelivered([k], log, seen) == [k];
    assert Undelivered([k, k], log, seen) == [k] + [k];
  }

  /** No undelivered key occurs twice. */
  ghost predicate NewKeysDistinct(keys: seq<string>, log: set<string>, seen: set<string>) {
    forall i, j :: 0 <= i < j < |keys| && keys[j] !in log && keys[j] !in seen ==> keys[i] != keys[j]
  }

  lemma NewKeysDistinctSnoc(keys: seq<string>, k: string, log: set<string>, seen: set<string>)
    ensures NewKeysDistinct(keys + [k], log, seen) <==>
      NewKeysDistinct(keys, log, seen) && (k in log || k in seen || k !in keys)
  {
    var t := keys + [k];
    assert t[|keys|] == k && forall i :: 0 <= i < |keys| ==> t[i] == keys[i];
    if NewKeysDistinct(t, log, seen) {
      forall i, j | 0 <= i < j < |keys| && keys[j] !in log && keys[j] !in seen ensures keys[i] != keys[j] {
        assert t[i] != t[j];
      }
      forall i | 0 <= i < |keys| && k !in log && k !in seen ensures keys[i] != k { assert t[i] != t[|keys|]; }
    }
  }

  /** What a load has to send repeats a key exactly when the load names an undelivered key twice. */
  lemma {:induction false} RepeatsIff(keys: seq<string>, log: set<string>, seen: set<string>)
    ensures Distinct(Undelivered(keys, log, seen)) <==> NewKeysDistinct(keys, log, seen)
    decreases |keys|
  {
    if keys != [] {
      var init, k := keys[..|keys| - 1], keys[|keys| - 1];
      assert keys == init + [k];
      UndeliveredSnoc(keys, log, seen);
      hide Undelivered, NewKeysDistinct, Distinct;
      RepeatsIff(init, log, seen);
      UndeliveredAre(init, log, seen);
      NewKeysDistinctSnoc(init, k, log, seen);
      DistinctSnoc(Undelivered(init, log, seen), k);
      assert Undelivered(init, log, seen) + [] == Undelivered(init, log, seen);
    }
  }

  lemma UndeliveredSnoc(keys: seq<string>, log: set<string>, seen: set<string>)
    requires keys != []
    ensures var n := |keys| - 1;
      Undelivered(keys, log, seen) == Undelivered(keys[..n], log, seen) + if keys[n] in log ||
        keys[n] in seen then [] else [keys[n]]
  {
  }

  /** The pending rows are accepted ones, failed ones, and the rest; the accepted ones were sent and marked. */
  ghost predicate Shared(pending: seq<string>, accepted: seq<string>, failed: multiset<string>, rest: multiset<string>,
                         sent0: multiset<string>, sent: multiset<string>, seen0: set<string>, seen: set<string>) {
    && multiset(pending) == multiset(accepted) + failed + rest
    && sent == sent0 + multiset(accepted) && seen == seen0 + SetOf(accepted)
  }

  lemma SharedNone(pending: seq<string>, sent: multiset<string>, seen: set<string>)
    ensures Shared(pending, [], multiset{}, multiset(pending), sent, sent, seen, seen)
  {
  }

  lemma SharedAll(pending: seq<string>, accepted: seq<string>, failed: multiset<string>,
                  sent0: multiset<string>, sent: multiset<string>, seen0: set<string>, seen: set<string>)
    requires Shared(pending, accepted, failed, multiset{}, sent0, sent, seen0, seen)
    ensures |accepted| + |failed| == |pending| && multiset(accepted) <= multiset(pending)
    ensures failed == multiset{} ==> multiset(accepted) == multiset(pending)
    ensures sent == sent0 + multiset(accepted) && seen == seen0 + SetOf(accepted)
  {
    assert multiset(pending) == multiset(accepted) + failed;
    assert |multiset(pending)| == |pending| && |multiset(accepted)| == |accepted|;
  }

  lemma SharedStep(pending: seq<string>, accepted: seq<string>, failed: multiset<string>, rest: multiset<string>,
                   sent0: multiset<string>, sent: multiset<string>, seen0: set<string>, seen: set<string>, k: string)
    requires Shared(pending, accepted, failed, rest, sent0, sent, seen0, seen) && k in rest
    ensures Shared(pending, accepted + [k], failed, rest - multiset{k}, sent0, sent + multiset{k}, seen0, seen + {k})
    ensures Shared(pending, accepted, failed + multiset{k}, rest - multiset{k}, sent0, sent, seen0, seen)
  {
    OneMore(sent0, seen0, accepted, k);
    assert multiset(accepted + [k]) == multiset(accepted) + multiset{k};
  }

  /** The endpoint, with everything it ever reported accepted. (A request that was reported rejected, or
      cancelled, may have arrived all the same.) A steady one accepts everything. */
  class RestDestination {
    ghost var sent: multiset<string>
    const steady: bool

    constructor (steady: bool)
      ensures sent == multiset{} && this.steady == steady
    {
      this.steady, sent := steady, multiset{};
    }

    method SendWithRetry(k: string) returns (r: Sent)
      modifies this
      ensures sent == if r.Accepted? then old(sent) + multiset{k} else old(sent)
      ensures steady ==> r.Accepted?
    {
      var fails, canceled := *, *;
      if fails && !steady {
        return if canceled then Canceled else Rejected;
      }
      sent := sent + multiset{k};
      r := Accepted;
    }

    /** First every row is checked. */
    method Check(keys: seq<string>, store: SqliteStore, result: LoadResult) returns (pending: seq<string>)
      modifies result
      ensures |pending| + result.skipped + |result.errors| == old(result.skipped) + |old(result.errors)| + |keys|
      ensures result.loaded == old(result.loaded)
      ensures forall k :: k in pending ==> k in keys && k !in store.log && k !in store.Seen()
      ensures Distinct(keys) ==> Distinct(pending)
      ensures store.reliable ==>
        pending == Undelivered(keys, store.log, store.Seen()) && result.errors == old(result.errors)
    {
      pending := [];
      var i := 0;
      while i < |keys|
        invariant 0 <= i <= |keys|
        invariant |pending| + result.skipped + |result.errors| == old(result.skipped) + |old(result.errors)| + i
        invariant result.loaded == old(result.loaded)
        invariant forall k :: k in pending ==> k in keys[..i] && k !in store.log && k !in store.Seen()
        invariant Distinct(keys) ==> Distinct(pending)
        invariant store.reliable ==>
          (pending == Undelivered(keys[..i], store.log, store.Seen())) && result.errors == old(result.errors)
      {
        assert keys[..i + 1][..i] == keys[..i];
        var k := keys[i];
        i := i + 1;
        var delivered := store.IsDelivered(k);
        if delivered.None? {
          result.errors := result.errors + [k];
          continue;
        }
        if delivered.value {
          result.skipped := result.skipped + 1;
          continue;
        }
        pending := pending + [k];
      }
      assert keys[..|keys|] == keys;
    }

    /** One row is sent and, when accepted, marked. */
    method SendOne(k: string, store: SqliteStore, result: LoadResult) returns (r: Sent)
      requires store.Valid() && store.batchSeen.Some?
      modifies this, store, result
      ensures store.Valid() && store.batchSeen.Some? && store.log == old(store.log)
      ensures sent == if r.Accepted? then old(sent) + multiset{k} else old(sent)
      ensures store.Seen() == if r.Accepted? then old(store.Seen()) + {k} else old(store.Seen())
      ensures result.loaded == old(result.loaded) + (if r.Accepted? then 1 else 0) &&
        result.skipped == old(result.skipped)
      ensures result.errors == if r.Rejected? then old(result.errors) + [k] else old(result.errors)
      ensures steady ==> r.Accepted?
    {
      r := SendWithRetry(k);
      if r.Rejected? {
        result.errors := result.errors + [k];
      }
      if r.Accepted? {
        var ok := store.MarkDelivered(k);
        result.loaded := result.loaded + 1;
      }
    }

    /** Then every pending row is sent and marked, in some order. Returns the accepted ones in that order. */
    method SendAll(pending: seq<string>, store: SqliteStore, result: LoadResult)
      returns (canceled: bool, ghost accepted: seq<string>)
      requires store.Valid() && store.batchSeen.Some?
      modifies this, store, result
      ensures store.Valid() && store.batchSeen.Some? && store.log == old(store.log)
      ensures sent == old(sent) + multiset(accepted) && multiset(accepted) <= multiset(pending)
      ensures store.Seen() == old(store.Seen()) + SetOf(accepted)
      ensures result.loaded == old(result.loaded) + |accepted| && result.skipped == old(result.skipped)
      ensures !canceled ==> |accepted| + |result.errors| == |old(result.errors)| + |pending|
      ensures steady ==> !canceled && multiset(accepted) == multiset(pending) && result.errors == old(result.errors)
    {
      var rest := multiset(pending);
      canceled, accepted := false, [];
      ghost var failed: multiset<string> := multiset{};
      ghost var sent0, seen0 := sent, store.Seen();
      SharedNone(pending, sent0, seen0);
      hide Shared, SetOf;
      while rest != multiset{}
        invariant store.Valid() && store.batchSeen.Some? && store.log == old(store.log)
        invariant Shared(pending, accepted, failed, rest, sent0, sent, seen0, store.Seen())
        invariant result.loaded == old(result.loaded) + |accepted| && result.skipped == old(result.skipped)
        invariant !canceled ==> |result.errors| == |old(result.errors)| + |failed|
        invariant steady ==> !canceled && failed == multiset{} && result.errors == old(result.errors)
        decreases |rest|
      {
        var k :| k in rest;
        SharedStep(pending, accepted, failed, rest, sent0, sent, seen0, store.Seen(), k);
        rest := rest - multiset{k};
        var r := SendOne(k, store, result);
        canceled := canceled || r.Canceled?;
        if r.Accepted? {
          accepted := accepted + [k];
        } else {
          failed := failed + multiset{k};
        }
      }
      SharedAll(pending, accepted, failed, sent0, sent, seen0, store.Seen());
    }

    /** Loads rows during a batch: every row is loaded, skipped or reported, unless the run is canceled. Rows with
        equal ids are all sent, since all are checked before the first is marked. */
    method Load(keys: seq<string>, store: SqliteStore, result: LoadResult)
      returns (canceled: bool, ghost accepted: seq<string>)
      requires store.Valid() && store.batchSeen.Some?
      modifies this, store, result
      ensures store.Valid() && store.batchSeen.Some? && store.log == old(store.log)
      ensures sent == old(sent) + multiset(accepted)
      ensures store.Seen() == old(store.Seen()) + SetOf(accepted)
      ensures forall k :: k in accepted ==> k in keys && k !in old(store.log) && k !in old(store.Seen())
      ensures Distinct(keys) ==> Distinct(accepted)
      ensures !canceled ==> (result.loaded + result.skipped + |result.errors|
        == old(result.loaded) + old(result.skipped) + |old(result.errors)| + |keys|)
      ensures result.loaded == old(result.loaded) + |accepted|
      ensures steady && store.reliable ==> !canceled
      ensures steady && store.reliable ==>
        multiset(accepted) == multiset(Undelivered(keys, old(store.log), old(store.Seen())))
      ensures steady && store.reliable ==>
        (Distinct(accepted) <==> Distinct(Undelivered(keys, old(store.log), old(store.Seen()))))
    {
      var pending := Check(keys, store, result);
      canceled, accepted := SendAll(pending, store, result);
      AmongPending(pending, accepted);
      if steady && store.reliable {
        AmongPending(accepted, pending);
      }
    }
  }

  lemma AmongPending(pending: seq<string>, accepted: seq<string>)
    requires multiset(accepted) <= multiset(pending)
    ensures forall k :: k in accepted ==> k in pending
    ensures Distinct(pending) ==> Distinct(accepted)
  {
    forall k | k in accepted ensures k in pending { assert k in multiset(accepted); }
    if Distinct(pending) && !Distinct(accepted) {
      var i, j :| 0 <= i < j < |accepted| && accepted[i] == accepted[j];
      TwiceInBag(accepted, i, j);
      OnceInBag(pending, accepted[i]);
      assert false;
    }
  }

  lemma TwiceInBag(s: seq<string>, i: nat, j: nat)
    requires i < j < |s| && s[i] == s[j]
    ensures multiset(s)[s[i]] >= 2
  {
    assert s == s[..j] + s[j..];
    assert s[..j][i] in multiset(s[..j]) && s[j..][0] in multiset(s[j..]);
  }

  lemma {:induction false} OnceInBag(s: seq<string>, k: string)
    requires Distinct(s)
    ensures multiset(s)[k] <= 1
  {
    if s != [] {
      var n := |s| - 1;
      OnceInBag(s[..n], k);
      assert s == s[..n] + [s[n]] && s[n] !in s[..n];
      assert k == s[n] ==> k !in multiset(s[..n]);
    }
  }

  lemma OneKey(k: string)
    ensures SetOf([k]) == {k} && multiset([k]) == multiset{k} && Distinct([k])
  {
  }

  /** The part of a run that opens the batch, passes the gates, delivers one operation at a time and commits. */
  class Engine {
    const store: SqliteStore
    const dest: RestDestination
    ghost var trace: seq<Step>  // all that happened since the first run

    ghost predicate Follows()
      reads this, store, dest
    {
      store.Valid() && Possible(FRESH, trace) && Reflects(After(FRESH, trace), store.log, store.batchSeen, dest.sent)
    }

    constructor (reliable: bool, steady: bool)
      ensures Follows() && trace == [] && fresh(store) && fresh(dest)
    {
      store := new SqliteStore(reliable);
      dest := new RestDestination(steady);
      trace := [];
    }

    /** A new process after the old one crashed anywhere. */
    constructor Restart(crashed: Engine)
      requires crashed.Follows()
      ensures Follows() && trace == crashed.trace + [Crash] && store.batchSeen == None
    {
      store := new SqliteStore.Reopen(crashed.store.log, crashed.store.reliable);
      dest, trace := crashed.dest, crashed.trace + [Crash];
      AfterSnoc(FRESH, crashed.trace, Crash);
    }

    /** One step that the store, or nothing, makes visible. */
    ghost method Happens(s: Step)
      requires store.Valid() && Possible(FRESH, trace) && Enabled(After(FRESH, trace), s)
      requires Reflects(Next(After(FRESH, trace), s), store.log, store.batchSeen, dest.sent)
      modifies this
      ensures Follows() && trace == old(trace) + [s] && After(FRESH, trace) == Next(After(FRESH, old(trace)), s)
    {
      AfterSnoc(FRESH, trace, s);
      trace := trace + [s];
    }

    method DeliverOne(k: string, result: LoadResult) returns (canceled: bool)
      requires Follows() && store.batchSeen.Some? && After(FRESH, trace).phase.Delivering?
      modifies this, store, dest, result
      ensures Follows() && store.batchSeen.Some? && After(FRESH, trace).phase.Delivering? && store.log == old(store.log)
      ensures old(trace) <= trace && Losses(trace) == Losses(old(trace)) && old(store.Seen()) <= store.Seen()
      ensures !canceled ==> (result.loaded + result.skipped + |result.errors|
        == old(result.loaded) + old(result.skipped) + |old(result.errors)| + 1)
      ensures dest.steady && store.reliable ==> !canceled && (k in store.log || k in store.Seen())
    {
      ghost var w := After(FRESH, trace);
      ghost var accepted;
      OneKey(k);
      UndeliveredAre([k], store.log, store.Seen());
      canceled, accepted := dest.Load([k], store, result);
      SendsDo(w, accepted);
      AfterAppend(FRESH, trace, Sends(accepted));
      SendsLoseNothing(accepted);
      LossesAppend(trace, Sends(accepted));
      trace := trace + Sends(accepted);
      if dest.steady && store.reliable && k !in old(store.log) && k !in old(store.Seen()) {
        assert k in multiset(accepted);
      }
    }

    /** A whole run. Whatever happens, it follows the protocol; a gate leaves no trace of the run; only a failed
        commit loses anything; with a steady endpoint and a reliable store every operation is logged. */
    method Run(keys: seq<string>, passes: bool, result: LoadResult)
      requires Follows() && store.batchSeen.None?
      modifies this, store, dest, result
      ensures Follows() && store.batchSeen.None? && old(trace) <= trace
      ensures Losses(trace) <= Losses(old(trace)) + 1 && (store.reliable ==> Losses(trace) == Losses(old(trace)))
      ensures !passes ==> store.log == old(store.log) && dest.sent == old(dest.sent)
      ensures passes && dest.steady && store.reliable ==> forall k :: k in keys ==> k in store.log
    {
      hide Possible, After, Losses;
      store.BeginBatch();
      LossesSnoc(trace, Begin);
      Happens(Begin);
      if !passes {
        store.RollbackBatch();
        LossesSnoc(trace, Abort);
        Happens(Abort);
        return;
      }
      LossesSnoc(trace, Pass);
      Happens(Pass);
      Deliver(keys, result);
      ghost var seen, log := store.Seen(), store.log;
      var ok := store.CommitBatch();
      ghost var how := if ok then Commit else CommitFails(store.log == log + seen);
      if !ok {
        store.RollbackBatch();
      }
      LossesSnoc(trace, how);
      Happens(how);
    }

    method Deliver(keys: seq<string>, result: LoadResult)
      requires Follows() && store.batchSeen.Some? && After(FRESH, trace).phase.Delivering?
      modifies this, store, dest, result
      ensures Follows() && store.batchSeen.Some? && After(FRESH, trace).phase.Delivering? && store.log == old(store.log)
      ensures old(trace) <= trace && Losses(trace) == Losses(old(trace))
      ensures dest.steady && store.reliable ==> forall k :: k in keys ==> k in store.log || k in store.Seen()
    {
      hide Possible, After, Losses;
      for i := 0 to |keys|
        invariant Follows() && store.batchSeen.Some? && After(FRESH, trace).phase.Delivering? &&
          store.log == old(store.log)
        invariant old(trace) <= trace && Losses(trace) == Losses(old(trace))
        invariant dest.steady && store.reliable ==> forall k :: k in keys[..i] ==> k in store.log || k in store.Seen()
      {
        var canceled := DeliverOne(keys[i], result);
        if canceled {
          return;
        }
      }
    }
  }

  /** The committed log, the buffer and the endpoint are those of the world, and nothing is in flight. */
  ghost predicate Reflects(w: World, log: set<string>, batch: Option<set<string>>, sent: multiset<string>) {
    && w.log == log && w.sent == sent && w.flight == {}
    && w.seen == (if batch.Some? then batch.value else {})
    && (w.phase.Idle? <==> batch.None?)
  }

  lemma {:induction false} SendsLoseNothing(keys: seq<string>)
    ensures Losses(Sends(keys)) == 0
  {
    if keys != [] {
      var n := |keys| - 1;
      SendsLoseNothing(keys[..n]);
      LossesAppend(Sends(keys[..n]), [Send(keys[n]), Mark(keys[n])]);
      LossesSnoc([Send(keys[n])], Mark(keys[n]));
      LossesSnoc([], Send(keys[n]));
      assert [Send(keys[n])] + [Mark(keys[n])] == [Send(keys[n]), Mark(keys[n])];
      assert [] + [Send(keys[n])] == [Send(keys[n])];
    }
  }
}
