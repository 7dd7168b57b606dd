/** The run lock of a sync: reading the clock, deleting an expired row, inserting if there is none, and
    deleting without asking for the owner, interleaved in every way between processes that tick and crash. */
module RunLock {
  import opened Common

  type Process = nat

  datatype Lock = Lock(owner: Process, expires: int)

  /** How far a process is: before locking, with the clock read, with expired rows deleted, or running. */
  datatype Stage =
    | Idle
    | Captured(sync: string, now: int)
    | Cleaned(sync: string, now: int)
    | Holding(sync: string, expires: int)

  datatype System = System(clock: int, rows: map<string, Lock>, stages: map<Process, Stage>)

  /** Ten minutes. */
  const TTL: int := 600_000

  function At(s: System, p: Process): Stage { if p in s.stages then s.stages[p] else Idle }

  // ---------------------------------------------------------------- the three statements

  function DeleteExpired(rows: map<string, Lock>, sync: string, now: int): map<string, Lock> {
    if sync in rows && rows[sync].expires <= now then rows - {sync} else rows
  }

  function InsertOrIgnore(rows: map<string, Lock>, sync: string, lock: Lock): map<string, Lock> {
    if sync in rows then rows else rows[sync := lock]
  }

  // ---------------------------------------------------------------- interleavings

  datatype Step =
    | Tick(delay: nat)
    | Capture(p: Process, sync: string)
    | Clean(p: Process)
    | Insert(p: Process)
    | Unlock(p: Process)
    | Crash(p: Process)

  predicate Enabled(s: System, step: Step) {
    match step
    case Tick(_) => true
    case Capture(p, _) => At(s, p).Idle?
    case Clean(p) => At(s, p).Captured?
    case Insert(p) => At(s, p).Cleaned?
    case Unlock(p) => At(s, p).Holding?
    case Crash(p) => true
  }

  function Move(s: System, p: Process, rows: map<string, Lock>, stage: Stage): System {
    s.(rows := rows, stages := s.stages[p := stage])
  }

  function Next(s: System, step: Step): System
    requires Enabled(s, step)
  {
    match step
    case Tick(delay) => s.(clock := s.clock + delay)
    case Capture(p, sync) => Move(s, p, s.rows, Captured(sync, s.clock))
    case Clean(p) =>
      var Captured(sync, now) := At(s, p);
      Move(s, p, DeleteExpired(s.rows, sync, now), Cleaned(sync, now))
    case Insert(p) =>
      var Cleaned(sync, now) := At(s, p);
      Move(s, p, InsertOrIgnore(s.rows, sync, Lock(p, now + TTL)),
           if sync in s.rows then Idle else Holding(sync, now + TTL))
    case Unlock(p) => Move(s, p, s.rows - {At(s, p).sync}, Idle)
    case Crash(p) => Move(s, p, s.rows, Idle)
  }

  /** A run of the whole system, state by state. */
  ghost predicate IsRun(run: seq<System>, steps: seq<Step>) {
    && |run| == |steps| + 1
    && forall i :: 0 <= i < |steps| ==> Enabled(run[i], steps[i]) && run[i + 1] == Next(run[i], steps[i])
  }

  ghost predicate Exclusive(s: System) {
    forall p, q :: At(s, p).Holding? && At(s, q).Holding? && At(s, p).sync == At(s, q).sync ==> p == q
  }

  /** Every running process owns the row of its sync, and no captured time is in the future. */
  ghost predicate Owned(s: System) {
    && (forall p :: At(s, p).Holding? ==> At(s, p).sync in s.rows && s.rows[At(s, p).sync] == Lock(p, At(s, p).expires))
    && (forall p :: At(s, p).Captured? || At(s, p).Cleaned? ==> At(s, p).now <= s.clock)
  }

  lemma OwnedIsExclusive(s: System)
    requires Owned(s)
    ensures Exclusive(s)
  {
  }

  /** The step deletes, as expired, the row of a process that is still running. */
  predicate RemovesLive(s: System, step: Step)
    requires Enabled(s, step)
  {
    step.Clean? &&
    var Captured(sync, now) := At(s, step.p);
    && sync in s.rows && s.rows[sync].expires <= now
    && At(s, s.rows[sync].owner) == Holding(sync, s.rows[sync].expires)
  }

  lemma StageAfter(s: System, step: Step, q: Process)
    requires Enabled(s, step)
    ensures step.Tick? || q != step.p ==> At(Next(s, step), q) == At(s, q)
    ensures Next(s, step).clock >= s.clock
  {
  }

  /** Ownership is kept by a step exactly when the step does not delete the row of a running process. */
  lemma OwnedKeptIff(s: System, step: Step)
    requires Owned(s) && Enabled(s, step)
    ensures Owned(Next(s, step)) <==> !RemovesLive(s, step)
  {
    var s' := Next(s, step);
    if RemovesLive(s, step) {
      var o := s.rows[At(s, step.p).sync].owner;
      StageAfter(s, step, o);
      assert At(s', o).Holding? && At(s', o).sync !in s'.rows;
    } else {
      forall q | At(s', q).Holding?
        ensures At(s', q).sync in s'.rows && s'.rows[At(s', q).sync] == Lock(q, At(s', q).expires)
      {
        StageAfter(s, step, q);
        StillOwned(s, step, q);
      }
      forall q | At(s', q).Captured? || At(s', q).Cleaned? ensures At(s', q).now <= s'.clock {
        StageAfter(s, step, q);
      }
    }
  }

  lemma StillOwned(s: System, step: Step, q: Process)
    requires Owned(s) && Enabled(s, step) && !RemovesLive(s, step) && At(Next(s, step), q).Holding?
    ensures var h, rows := At(Next(s, step), q), Next(s, step).rows;
      h.sync in rows && rows[h.sync] == Lock(q, h.expires)
  {
    if step.Tick? || q != step.p {
      assert At(s, q).Holding?;
      if step.Clean? && At(s, step.p).sync == At(s, q).sync {
        assert s.rows[At(s, q).sync] == Lock(q, At(s, q).expires);
      } else if step.Unlock? {
        assert s.rows[At(s, step.p).sync].owner == step.p;
      }
    }
  }

  /** Every running process is before its expiry. */
  ghost predicate InTime(s: System) { forall p :: At(s, p).Holding? ==> s.clock < At(s, p).expires }

  lemma InTimeIsNotRemoved(s: System, step: Step)
    requires Owned(s) && InTime(s) && Enabled(s, step)
    ensures !RemovesLive(s, step)
  {
  }

  /** If every process is done before its lock expires, no two ever run the same sync together. */
  lemma {:induction false} MutualExclusion(run: seq<System>, steps: seq<Step>)
    requires IsRun(run, steps) && Owned(run[0])
    requires forall i :: 0 <= i < |run| ==> InTime(run[i])
    ensures forall i :: 0 <= i < |run| ==> Owned(run[i]) && Exclusive(run[i])
    decreases |steps|
  {
    if steps == [] {
      OwnedIsExclusive(run[0]);
    } else {
      var n := |steps| - 1;
      MutualExclusion(run[..n + 1], steps[..n]);
      var s := run[n];
      assert run[..n + 1][n] == s;
      InTimeIsNotRemoved(s, steps[n]);
      OwnedKeptIff(s, steps[n]);
      OwnedIsExclusive(run[n + 1]);
      forall i | 0 <= i <= n ensures Owned(run[i]) && Exclusive(run[i]) { assert run[i] == run[..n + 1][i]; }
    }
  }

  // ---------------------------------------------------------------- one attempt

  function Attempt(s: System, p: Process, sync: string): (s': System)
    requires At(s, p).Idle?
  {
    Next(Next(Next(s, Capture(p, sync)), Clean(p)), Insert(p))
  }

  /** An undisturbed attempt succeeds exactly when there is no lock or the lock has expired. */
  lemma AttemptSucceedsIff(s: System, p: Process, sync: string)
    requires At(s, p).Idle?
    ensures At(Attempt(s, p, sync), p) == Holding(sync, s.clock + TTL) <==>
      sync !in s.rows || s.rows[sync].expires <= s.clock
    ensures At(Attempt(s, p, sync), p).Idle? <==> sync in s.rows && s.clock < s.rows[sync].expires
  {
  }

  /** The lock of a crashed process can be taken once it has expired, and not before. */
  lemma CrashedLockIsTaken(s: System, q: Process, p: Process, sync: string, delay: nat)
    requires Owned(s) && At(s, q).Holding? && At(s, q).sync == sync && p != q && At(s, p).Idle?
    ensures var later := Next(Next(s, Crash(q)), Tick(delay));
      At(later, p).Idle? && (At(Attempt(later, p, sync), p).Holding? <==> At(s, q).expires <= s.clock + delay)
  {
    var later := Next(Next(s, Crash(q)), Tick(delay));
    assert later.rows == s.rows && At(later, p).Idle?;
    AttemptSucceedsIff(later, p, sync);
  }

  /** A second process gets in beside a holder exactly when the holder has outlived its lock; then the first
      to finish takes the other's lock away. */
  lemma OutlivingBreaksExclusion(s: System, q: Process, p: Process, sync: string)
    requires Owned(s) && At(s, q).Holding? && At(s, q).sync == sync && p != q && At(s, p).Idle?
    ensures var s' := Attempt(s, p, sync);
      && At(s', q) == At(s, q)
      && (At(s', p).Holding? <==> At(s, q).expires <= s.clock)
      && (At(s', p).Holding? ==>
           !Exclusive(s') && At(Next(s', Unlock(q)), p).Holding? && sync !in Next(s', Unlock(q)).rows)
  {
    AttemptSucceedsIff(s, p, sync);
    var s' := Attempt(s, p, sync);
    assert At(s', q) == At(s, q);
    assert At(s', p).Holding? ==> At(s', p).sync == At(s', q).sync;
  }

  /** Such a holder can occur: start, lock, and let the time to live go by. */
  lemma OutlivingHappens(sync: string)
    ensures var s := Next(Attempt(System(0, map[], map[]), 0, sync), Tick(TTL));
      Owned(s) && At(s, 0) == Holding(sync, s.clock) && At(s, 1).Idle?
  {
    var s0 := System(0, map[], map[]);
    AttemptSucceedsIff(s0, 0, sync);
    assert forall p :: p != 0 ==> At(Next(Attempt(s0, 0, sync), Tick(TTL)), p).Idle?;
  }

  // ---------------------------------------------------------------- the store's methods

  /** The lock table, and the clock as it was last read. */
  class SqliteLocks {
    var rows: map<string, Lock>
    var clock: int

    constructor ()
      ensures rows == map[] && clock == 0
    {
      rows, clock := map[], 0;
    }

    method Now() returns (now: int)
      modifies this`clock
      ensures old(clock) <= now == clock
    {
      var t: int := *;
      clock := Max(clock, t);
      now := clock;
    }

    method Delete(sync: string, now: int)
      modifies this`rows
      ensures rows == DeleteExpired(old(rows), sync, now)
    {
      if sync in rows && rows[sync].expires <= now {
        rows := rows - {sync};
      }
    }

    method InsertIgnore(sync: string, lock: Lock) returns (affected: nat)
      modifies this`rows
      ensures rows == InsertOrIgnore(old(rows), sync, lock) && affected == if sync in old(rows) then 0 else 1
    {
      if sync in rows {
        return 0;
      }
      rows := rows[sync := lock];
      affected := 1;
    }

    /** Undisturbed, this is an attempt: it succeeds exactly when there was no unexpired lock. */
    method LockRun(sync: string, owner: Process, ghost s: System) returns (ok: bool)
      requires s.rows == rows && s.clock == clock && At(s, owner).Idle?
      modifies this
      ensures old(clock) <= clock
      ensures var s' := Attempt(s.(clock := clock), owner, sync); rows == s'.rows && (ok <==> At(s', owner).Holding?)
      ensures ok <==> sync !in old(rows) || old(rows)[sync].expires <= clock
    {
      var now := Now();
      Delete(sync, now);
      var affected := InsertIgnore(sync, Lock(owner, now + TTL));
      AttemptSucceedsIff(s.(clock := clock), owner, sync);
      ok := affected != 0;
    }

    /** Whoever holds the lock of the sync loses it. */
    method UnlockRun(sync: string)
      modifies this`rows
      ensures rows == old(rows) - {sync}
    {
      rows := rows - {sync};
    }
  }
}
