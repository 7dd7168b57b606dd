/** The circuit breaker of the HTTP connectors, over every timed sequence of calls. */
module BreakerProtocol {
  import opened Common

  datatype State = Closed | Open | HalfOpen

  /** The breaker's fields, with the inner lock as a flag. */
  datatype Breaker = Breaker(state: State, failures: int, openedAt: int, inFlight: bool, locked: bool)

  datatype Config = Config(threshold: int, cooldown: int)

  const NEVER: int := 0

  const FRESH := Breaker(Closed, 0, NEVER, false, false)

  datatype Op = Allow(now: int) | Success(now: int) | Failure(now: int)

  function Probe(b: Breaker): (Breaker, bool) {
    if b.inFlight || b.locked then (b, false) else (b.(inFlight := true, locked := true), true)
  }

  function Released(b: Breaker): Breaker { if b.inFlight then b.(inFlight := false, locked := false) else b }

  /** The breaker after a call, and whether the call was a granted request. */
  function Step(cfg: Config, b: Breaker, op: Op): (Breaker, bool) {
    match op
    case Allow(now) =>
      (match b.state
       case Closed => (b, true)
       case Open =>
         if now - b.openedAt < cfg.cooldown then (b, false) else Probe(b.(state := HalfOpen, failures := 0))
       case HalfOpen => Probe(b))
    case Success(_) =>
      if b.state.HalfOpen? then (Released(b.(state := Closed, failures := 0, openedAt := NEVER)), false)
      else (b.(failures := 0), false)
    case Failure(now) =>
      (match b.state
       case HalfOpen => (Released(b.(state := Open, failures := cfg.threshold, openedAt := now)), false)
       case Closed =>
         if b.failures + 1 >= cfg.threshold then (b.(state := Open, failures := b.failures + 1, openedAt := now), false)
         else (b.(failures := b.failures + 1), false)
       case Open => (b.(openedAt := now), false))
  }

  function After(cfg: Config, trace: seq<Op>): Breaker {
    if trace == [] then FRESH else Step(cfg, After(cfg, trace[..|trace| - 1]), trace[|trace| - 1]).0
  }

  /** Whether call `i` is a granted request. */
  predicate Granted(cfg: Config, trace: seq<Op>, i: nat)
    requires i < |trace|
  {
    Step(cfg, After(cfg, trace[..i]), trace[i]).1
  }

  lemma AfterNext(cfg: Config, trace: seq<Op>, i: nat)
    requires i < |trace|
    ensures After(cfg, trace[..i + 1]) == Step(cfg, After(cfg, trace[..i]), trace[i]).0
  {
    assert trace[..i + 1][..i] == trace[..i];
  }

  /** Half-open is the same as a probe in flight and as the lock held; closed is below the threshold. */
  ghost predicate Sound(cfg: Config, b: Breaker) {
    && (b.state.HalfOpen? <==> b.inFlight) && (b.inFlight <==> b.locked)
    && 0 <= b.failures && (b.state.Closed? ==> b.failures < cfg.threshold)
  }

  lemma {:induction false} AlwaysSound(cfg: Config, trace: seq<Op>)
    requires cfg.threshold > 0
    ensures Sound(cfg, After(cfg, trace))
  {
    if trace != [] {
      AlwaysSound(cfg, trace[..|trace| - 1]);
    }
  }

  /** The failures recorded since the last recorded success. */
  function FailureStreak(trace: seq<Op>): nat {
    if trace == [] then 0
    else
      var before := FailureStreak(trace[..|trace| - 1]);
      match trace[|trace| - 1]
      case Allow(_) => before
      case Success(_) => 0
      case Failure(_) => before + 1
  }

  lemma {:induction false} ClosedCountsStreak(cfg: Config, trace: seq<Op>)
    requires cfg.threshold > 0 && After(cfg, trace).state.Closed?
    ensures After(cfg, trace).failures == FailureStreak(trace)
  {
    if trace != [] {
      var init := trace[..|trace| - 1];
      AlwaysSound(cfg, init);
      if After(cfg, init).state.Closed? {
        ClosedCountsStreak(cfg, init);
      }
    }
  }

  /** A closed breaker opens exactly at the failure that makes `threshold` in a row without a success. */
  lemma OpensIff(cfg: Config, trace: seq<Op>, op: Op)
    requires cfg.threshold > 0 && After(cfg, trace).state.Closed?
    ensures After(cfg, trace + [op]).state.Open? <==> op.Failure? && FailureStreak(trace + [op]) >= cfg.threshold
    ensures FailureStreak(trace + [op]) <= cfg.threshold
  {
    assert (trace + [op])[..|trace|] == trace;
    ClosedCountsStreak(cfg, trace);
    AlwaysSound(cfg, trace);
  }

  function LastFailure(trace: seq<Op>): Option<int> {
    if trace == [] then None
    else if trace[|trace| - 1].Failure? then Some(trace[|trace| - 1].now)
    else LastFailure(trace[..|trace| - 1])
  }

  lemma {:induction false} OpenSinceLastFailure(cfg: Config, trace: seq<Op>)
    requires cfg.threshold > 0 && After(cfg, trace).state.Open?
    ensures LastFailure(trace) == Some(After(cfg, trace).openedAt)
  {
    var init, op := trace[..|trace| - 1], trace[|trace| - 1];
    AlwaysSound(cfg, init);
    if !op.Failure? {
      OpenSinceLastFailure(cfg, init);
    }
  }

  ghost predicate Timed(trace: seq<Op>) { forall i, j :: 0 <= i < j < |trace| ==> trace[i].now <= trace[j].now }

  lemma {:induction false} LastFailureIsLatest(trace: seq<Op>, i: nat)
    requires Timed(trace) && i < |trace| && trace[i].Failure?
    ensures LastFailure(trace).Some? && trace[i].now <= LastFailure(trace).value
  {
    var n := |trace| - 1;
    if !trace[n].Failure? {
      assert trace[i] == trace[..n][i];
      LastFailureIsLatest(trace[..n], i);
    }
  }

  /** Outside closed, a request is granted only when every failure recorded so far is a cooldown ago. */
  lemma GrantsWaitForCooldown(cfg: Config, trace: seq<Op>, i: nat, j: nat)
    requires cfg.threshold > 0 && Timed(trace) && i < j < |trace|
    requires Granted(cfg, trace, j) && !After(cfg, trace[..j]).state.Closed? && trace[i].Failure?
    ensures trace[i].now + cfg.cooldown <= trace[j].now
  {
    AlwaysSound(cfg, trace[..j]);
    OpenSinceLastFailure(cfg, trace[..j]);
    assert trace[i] == trace[..j][i];
    LastFailureIsLatest(trace[..j], i);
  }

  lemma ProbeBlocks(cfg: Config, b: Breaker, op: Op)
    requires Sound(cfg, b) && b.state.HalfOpen? && op.Allow?
    ensures Step(cfg, b, op) == (b, false)
  {
  }

  lemma {:induction false} ProbeStaysUntilRecord(cfg: Config, trace: seq<Op>, i: nat, j: nat)
    requires cfg.threshold > 0 && i <= j <= |trace| && After(cfg, trace[..i]).state.HalfOpen?
    requires forall op :: op in trace[i..j] ==> op.Allow?
    ensures After(cfg, trace[..j]).state.HalfOpen?
  {
    hide After, Step, Sound;
    if i < j {
      assert trace[j - 1] == trace[i..j][j - 1 - i];
      assert forall op :: op in trace[i..j - 1] ==> op in trace[i..j];
      ProbeStaysUntilRecord(cfg, trace, i, j - 1);
      AfterNext(cfg, trace, j - 1);
      AlwaysSound(cfg, trace[..j - 1]);
      ProbeBlocks(cfg, After(cfg, trace[..j - 1]), trace[j - 1]);
    }
  }

  /** Between two requests granted outside closed, a result was recorded: one probe at a time. */
  lemma GrantsAreSeparated(cfg: Config, trace: seq<Op>, i: nat, j: nat)
    requires cfg.threshold > 0 && i < j < |trace| && Granted(cfg, trace, i) && Granted(cfg, trace, j)
    requires !After(cfg, trace[..i]).state.Closed? && !After(cfg, trace[..j]).state.Closed?
    ensures exists k :: i < k < j && !trace[k].Allow?
  {
    AlwaysSound(cfg, trace[..i]);
    AlwaysSound(cfg, trace[..j]);
    AfterNext(cfg, trace, i);
    hide After;
    if forall k :: i < k < j ==> trace[k].Allow? {
      assert forall op :: op in trace[i + 1..j] ==> op.Allow?;
      ProbeStaysUntilRecord(cfg, trace, i + 1, j);
      assert false;
    }
  }

  // ---------------------------------------------------------------- the state read off the trace

  /** The position behind the last recorded failure, 0 without one. */
  function Since(trace: seq<Op>): (n: nat)
    ensures n <= |trace| && (n > 0 ==> trace[n - 1].Failure?)
    ensures forall i :: n <= i < |trace| ==> !trace[i].Failure?
  {
    if trace == [] then 0
    else if trace[|trace| - 1].Failure? then |trace|
    else Since(trace[..|trace| - 1])
  }

  /** Call `a` asks for a request a cooldown after the last failure or later. */
  predicate DueAt(cfg: Config, trace: seq<Op>, a: int) {
    var n := Since(trace);
    0 < n <= a < |trace| && trace[a].Allow? && trace[n - 1].now + cfg.cooldown <= trace[a].now
  }

  ghost predicate Probed(cfg: Config, trace: seq<Op>) { exists a :: DueAt(cfg, trace, a) }

  /** A success was recorded after a due request. */
  ghost predicate Recovered(cfg: Config, trace: seq<Op>) {
    exists a, b :: DueAt(cfg, trace, a) && a < b < |trace| && trace[b].Success?
  }

  /** The last failure made `threshold` in a row, or came when requests were not free anyway. */
  ghost predicate Tripped(cfg: Config, trace: seq<Op>)
    decreases |trace|, 0
  {
    var n := Since(trace);
    n > 0 && (FailureStreak(trace[..n]) >= cfg.threshold || !Free(cfg, trace[..n - 1]))
  }

  /** Requests are free: nothing tripped the breaker, or it has recovered since. */
  ghost predicate Free(cfg: Config, trace: seq<Op>)
    decreases |trace|, 1
  {
    !Tripped(cfg, trace) || Recovered(cfg, trace)
  }

  lemma NotAFailure(cfg: Config, trace: seq<Op>, op: Op)
    requires !op.Failure?
    ensures var t := trace + [op];
      && (Tripped(cfg, t) <==> Tripped(cfg, trace))
      && (Probed(cfg, t) <==> Probed(cfg, trace) || DueAt(cfg, t, |trace|))
      && (Recovered(cfg, t) <==> Recovered(cfg, trace) || (op.Success? && Probed(cfg, trace)))
    ensures Since(trace + [op]) == Since(trace)
  {
    var t, n := trace + [op], Since(trace);
    assert t[..|trace|] == trace && Since(t) == n && t[..n] == trace[..n] && (n > 0 ==> t[..n - 1] == trace[..n - 1]);
    forall a ensures DueAt(cfg, t, a) <==> DueAt(cfg, trace, a) || (a == |trace| && DueAt(cfg, t, a)) {
      if 0 <= a < |trace| { assert t[a] == trace[a]; }
    }
    if a, b :| DueAt(cfg, trace, a) && a < b < |trace| && trace[b].Success? {
      assert DueAt(cfg, t, a) && t[b].Success?;
    }
    if a, b :| DueAt(cfg, t, a) && a < b < |t| && t[b].Success? {
      assert DueAt(cfg, trace, a) && (b < |trace| ==> trace[b].Success?);
    }
    if op.Success? && Probed(cfg, trace) {
      var a :| DueAt(cfg, trace, a);
      assert DueAt(cfg, t, a) && t[|trace|].Success?;
    }
  }

  lemma AFailure(cfg: Config, trace: seq<Op>, op: Op)
    requires op.Failure?
    ensures var t := trace + [op];
      && (Tripped(cfg, t) <==> FailureStreak(t) >= cfg.threshold || !Free(cfg, trace))
      && !Probed(cfg, t) && !Recovered(cfg, t) && Since(t) == |t|
  {
    var t := trace + [op];
    assert t[..|t|] == t && t[..|t| - 1] == trace;
  }

  /** The state of the breaker after any trace: closed when requests are free, half-open when one was let through since
      the last failure, and open otherwise. */
  lemma {:induction false} StateIff(cfg: Config, trace: seq<Op>)
    requires cfg.threshold > 0
    ensures StateAgrees(cfg, trace)
  {
    hide *;
    if trace == [] {
      AtFirst(cfg);
    } else {
      var n := |trace| - 1;
      assert trace == trace[..n] + [trace[n]];
      StateIff(cfg, trace[..n]);
      if trace[n].Failure? {
        StateAfterFailure(cfg, trace[..n], trace[n]);
      } else {
        StateAfterOther(cfg, trace[..n], trace[n]);
      }
    }
  }

  /** The state is what the trace says. */
  ghost predicate StateAgrees(cfg: Config, trace: seq<Op>) {
    && (After(cfg, trace).state.Closed? <==> Free(cfg, trace))
    && (After(cfg, trace).state.HalfOpen? <==> !Free(cfg, trace) && Probed(cfg, trace))
  }

  lemma AtFirst(cfg: Config)
    ensures StateAgrees(cfg, [])
  {
  }

  lemma StateAfterFailure(cfg: Config, trace: seq<Op>, op: Op)
    requires cfg.threshold > 0 && op.Failure? && StateAgrees(cfg, trace)
    ensures StateAgrees(cfg, trace + [op])
  {
    var b := After(cfg, trace);
    assert (trace + [op])[..|trace|] == trace && After(cfg, trace + [op]) == Step(cfg, b, op).0;
    assert FailureStreak(trace + [op]) == FailureStreak(trace) + 1;
    hide After, Tripped, Probed, Recovered, FailureStreak;
    AlwaysSound(cfg, trace);
    AFailure(cfg, trace, op);
    if b.state.Closed? {
      ClosedCountsStreak(cfg, trace);
    }
  }

  lemma StateAfterOther(cfg: Config, trace: seq<Op>, op: Op)
    requires cfg.threshold > 0 && !op.Failure? && StateAgrees(cfg, trace)
    ensures StateAgrees(cfg, trace + [op])
  {
    var b := After(cfg, trace);
    assert (trace + [op])[..|trace|] == trace && After(cfg, trace + [op]) == Step(cfg, b, op).0;
    hide After, Tripped, Probed, Recovered, FailureStreak;
    AlwaysSound(cfg, trace);
    NotAFailure(cfg, trace, op);
    OpenedAtFailure(cfg, trace);
    NeverProbed(cfg, trace);
  }

  lemma NeverProbed(cfg: Config, trace: seq<Op>)
    ensures (Probed(cfg, trace) || Tripped(cfg, trace)) ==> Since(trace) > 0
    ensures Recovered(cfg, trace) ==> Probed(cfg, trace)
  {
  }

  lemma OpenedAtFailure(cfg: Config, trace: seq<Op>)
    requires cfg.threshold > 0
    ensures After(cfg, trace).state.Open? ==>
      Since(trace) > 0 && After(cfg, trace).openedAt == trace[Since(trace) - 1].now
  {
    if After(cfg, trace).state.Open? {
      OpenSinceLastFailure(cfg, trace);
      LastFailureSince(trace);
    }
  }

  lemma {:induction false} LastFailureSince(trace: seq<Op>)
    ensures LastFailure(trace) == if Since(trace) == 0 then None else Some(trace[Since(trace) - 1].now)
  {
    if trace != [] && !trace[|trace| - 1].Failure? {
      LastFailureSince(trace[..|trace| - 1]);
    }
  }

  /** A request is granted exactly when requests are free, or when the last failure is a cooldown ago and no request was
      let through since. */
  lemma GrantedIff(cfg: Config, trace: seq<Op>, now: int)
    requires cfg.threshold > 0
    ensures !Free(cfg, trace) ==> LastFailure(trace).Some?
    ensures Granted(cfg, trace + [Allow(now)], |trace|) <==>
      Free(cfg, trace) || (!Probed(cfg, trace) && LastFailure(trace).value + cfg.cooldown <= now)
  {
    assert (trace + [Allow(now)])[..|trace|] == trace;
    StateIff(cfg, trace);
    AlwaysSound(cfg, trace);
    OpenedAtFailure(cfg, trace);
    LastFailureSince(trace);
    hide After, Probed, Recovered;
  }

  /** A success recorded while half-open closes the breaker, as good as new. */
  lemma SuccessCloses(cfg: Config, trace: seq<Op>, now: int)
    requires cfg.threshold > 0 && After(cfg, trace).state.HalfOpen?
    ensures After(cfg, trace + [Success(now)]) == FRESH
  {
    assert (trace + [Success(now)])[..|trace|] == trace;
    AlwaysSound(cfg, trace);
  }

  /** From then on every request is granted until `threshold` failures are recorded in a row. */
  lemma {:induction false} FreeUntilStreak(cfg: Config, trace: seq<Op>, more: seq<Op>, i: nat)
    requires cfg.threshold > 0 && After(cfg, trace).state.Closed? && i <= |more|
    requires forall k :: 0 <= k <= i ==> FailureStreak(trace + more[..k]) < cfg.threshold
    ensures After(cfg, trace + more[..i]).state.Closed?
    ensures i < |more| && more[i].Allow? ==> Granted(cfg, trace + more, |trace| + i)
  {
    if i > 0 {
      FreeUntilStreak(cfg, trace, more, i - 1);
      assert trace + more[..i] == (trace + more[..i - 1]) + [more[i - 1]];
      OpensIff(cfg, trace + more[..i - 1], more[i - 1]);
      ClosedOrOpen(cfg, trace + more[..i - 1], more[i - 1]);
    } else {
      assert trace + more[..0] == trace;
    }
    if i < |more| {
      assert (trace + more)[..|trace| + i] == trace + more[..i] && (trace + more)[|trace| + i] == more[i];
    }
    hide After, FailureStreak;
  }

  lemma ClosedOrOpen(cfg: Config, trace: seq<Op>, op: Op)
    requires After(cfg, trace).state.Closed?
    ensures !After(cfg, trace + [op]).state.HalfOpen?
  {
    assert (trace + [op])[..|trace|] == trace;
  }
}

/** The breaker object. */
module HttpCircuitBreaker {
  import opened BreakerProtocol

  class Mutex {
    var held: bool

    constructor ()
      ensures !held
    {
      held := false;
    }

    method TryLock() returns (ok: bool)
      modifies this
      ensures held && ok == !old(held)
    {
      ok := !held;
      held := true;
    }

    method Unlock()
      requires held
      modifies this
      ensures !held
    {
      held := false;
    }
  }

  class CircuitBreaker {
    const cfg: Config
    const halfOpenLock: Mutex
    var state: State
    var failures: int
    var openedAt: int
    var halfOpenInFlight: bool

    ghost function Value(): Breaker
      reads this, halfOpenLock
    {
      Breaker(state, failures, openedAt, halfOpenInFlight, halfOpenLock.held)
    }

    /** The lock is held while a probe is in flight, so it can be released. */
    ghost predicate Valid()
      reads this, halfOpenLock
    {
      halfOpenInFlight ==> halfOpenLock.held
    }

    constructor (threshold: int, cooldownMs: int)
      ensures Valid() && Value() == FRESH && fresh(halfOpenLock)
      ensures cfg == Config(threshold, if cooldownMs <= 0 then 30_000 else cooldownMs)
    {
      cfg := Config(threshold, if cooldownMs <= 0 then 30_000 else cooldownMs);
      halfOpenLock := new Mutex();
      state, failures, openedAt, halfOpenInFlight := Closed, 0, NEVER, false;
    }

    method TryProbe() returns (granted: bool)
      requires Valid()
      modifies this, halfOpenLock
      ensures Valid() && (Value(), granted) == Probe(old(Value()))
    {
      if halfOpenInFlight {
        return false;
      }
      var ok := halfOpenLock.TryLock();
      if !ok {
        return false;
      }
      halfOpenInFlight := true;
      return true;
    }

    method Allow(now: int) returns (granted: bool)
      requires Valid()
      modifies this, halfOpenLock
      ensures Valid() && (Value(), granted) == Step(cfg, old(Value()), Op.Allow(now))
    {
      match state
      case Closed =>
        granted := true;
      case Open =>
        if now - openedAt < cfg.cooldown {
          return false;
        }
        state, failures := HalfOpen, 0;
        granted := TryProbe();
      case HalfOpen =>
        granted := TryProbe();
    }

    method RecordSuccess(ghost now: int)
      requires Valid()
      modifies this, halfOpenLock
      ensures Valid() && Value() == Step(cfg, old(Value()), Success(now)).0
    {
      if state.HalfOpen? {
        state, failures, openedAt := Closed, 0, NEVER;
        ReleaseHalfOpen();
        return;
      }
      failures := 0;
    }

    method RecordFailure(now: int)
      requires Valid()
      modifies this, halfOpenLock
      ensures Valid() && Value() == Step(cfg, old(Value()), Failure(now)).0
    {
      match state
      case HalfOpen =>
        state, failures, openedAt := Open, cfg.threshold, now;
        ReleaseHalfOpen();
      case Closed =>
        failures := failures + 1;
        if failures >= cfg.threshold {
          state, openedAt := Open, now;
        }
      case Open =>
        openedAt := now;
    }

    method ReleaseHalfOpen()
      requires Valid()
      modifies this, halfOpenLock
      ensures Valid() && Value() == Released(old(Value()))
    {
      if halfOpenInFlight {
        halfOpenInFlight := false;
        halfOpenLock.Unlock();
      }
    }
  }

  /** A threshold of zero means no breaker at all. */
  method NewCircuitBreaker(threshold: int, cooldownMs: int) returns (cb: CircuitBreaker?)
    ensures cb == null <==> threshold == 0
    ensures cb != null ==> fresh(cb) && fresh(cb.halfOpenLock) && cb.Valid() && cb.Value() == FRESH
    ensures cb != null ==> cb.cfg == Config(threshold, if cooldownMs <= 0 then 30_000 else cooldownMs)
  {
    if threshold == 0 {
      return null;
    }
    cb := new CircuitBreaker(threshold, cooldownMs);
  }
}
