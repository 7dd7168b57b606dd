/** Blast-radius limits of a run: counters, per-action limits, field ratios and the approval gate. */
module Safety {
  import opened Common

  datatype Counts = Counts(creates: nat, updates: nat, deletes: nat)

  const NONE := Counts(0, 0, 0)

  /** Limits of zero or less are off. */
  datatype Limits = Limits(maxCreates: int, maxUpdates: int, maxDeletes: int,
                           approvalAbove: real, approvalFor: seq<string>, ratios: map<string, real>)

  datatype Kind = Creating | Updating | Deleting | Uncounted

  function KindOf(action: string): Kind {
    if action == "create" || action == "upsert" then Creating
    else if action == "update" then Updating
    else if action == "delete" then Deleting
    else Uncounted
  }

  function Count(c: Counts, k: Kind): nat {
    match k case Creating => c.creates case Updating => c.updates case Deleting => c.deletes case Uncounted => 0
  }

  function Limit(l: Limits, k: Kind): int {
    match k
    case Creating => l.maxCreates
    case Updating => l.maxUpdates
    case Deleting => l.maxDeletes
    case Uncounted => 0
  }

  /** No limit of the action is reached. */
  predicate Allowed(l: Limits, action: string, c: Counts) {
    var k := KindOf(action);
    Limit(l, k) > 0 ==> Count(c, k) < Limit(l, k)
  }

  function Recorded(action: string, c: Counts): Counts {
    match KindOf(action)
    case Creating => c.(creates := c.creates + 1)
    case Updating => c.(updates := c.updates + 1)
    case Deleting => c.(deletes := c.deletes + 1)
    case Uncounted => c
  }

  function Total(c: Counts): nat { c.creates + c.updates + c.deletes }

  predicate Within(l: Limits, c: Counts) {
    && (l.maxCreates > 0 ==> c.creates <= l.maxCreates)
    && (l.maxUpdates > 0 ==> c.updates <= l.maxUpdates)
    && (l.maxDeletes > 0 ==> c.deletes <= l.maxDeletes)
  }

  predicate AtMost(a: Counts, b: Counts) { a.creates <= b.creates && a.updates <= b.updates && a.deletes <= b.deletes }

  /** The action is configured, in any case, as always needing approval. */
  predicate Named(l: Limits, action: string) { exists name :: name in l.approvalFor && Lower(name) == action }

  /** The total is over the threshold, or an action that always needs approval is among them. */
  predicate NeedsApproval(l: Limits, c: Counts) {
    || (l.approvalAbove > 0.0 && Total(c) as real > l.approvalAbove)
    || (Named(l, "delete") && c.deletes > 0)
    || (Named(l, "create") && c.creates > 0)
    || (Named(l, "update") && c.updates > 0)
  }

  /** Some field changed in a larger share of the rows than its limit. */
  predicate RatioExceeded(l: Limits, changed: map<string, nat>, total: nat) {
    && total > 0
    && exists f :: f in l.ratios && (if f in changed then changed[f] else 0) as real / total as real > l.ratios[f]
  }

  class RunCounts {
    var creates: nat
    var updates: nat
    var deletes: nat

    ghost function Value(): Counts
      reads this
    {
      Counts(creates, updates, deletes)
    }

    constructor ()
      ensures Value() == NONE
    {
      creates, updates, deletes := 0, 0, 0;
    }
  }

  method Allow(l: Limits, action: string, counts: RunCounts) returns (ok: bool)
    ensures ok <==> Allowed(l, action, counts.Value())
  {
    if action == "create" || action == "upsert" {
      return !(l.maxCreates > 0 && counts.creates >= l.maxCreates);
    }
    if action == "update" {
      return !(l.maxUpdates > 0 && counts.updates >= l.maxUpdates);
    }
    if action == "delete" {
      return !(l.maxDeletes > 0 && counts.deletes >= l.maxDeletes);
    }
    return true;
  }

  method Record(action: string, counts: RunCounts)
    modifies counts
    ensures counts.Value() == Recorded(action, old(counts.Value()))
  {
    if action == "create" || action == "upsert" {
      counts.creates := counts.creates + 1;
    } else if action == "update" {
      counts.updates := counts.updates + 1;
    } else if action == "delete" {
      counts.deletes := counts.deletes + 1;
    }
  }

  method CheckFieldRatios(l: Limits, changed: map<string, nat>, total: nat) returns (ok: bool)
    ensures ok <==> !RatioExceeded(l, changed, total)
  {
    if total == 0 || l.ratios == map[] {
      return true;
    }
    var todo := l.ratios.Keys;
    while todo != {}
      invariant todo <= l.ratios.Keys
      invariant forall f :: f in l.ratios && f !in todo ==>
        (if f in changed then changed[f] else 0) as real / total as real <= l.ratios[f]
      decreases todo
    {
      var f :| f in todo;
      todo := todo - {f};
      var n := if f in changed then changed[f] else 0;
      if n as real / total as real > l.ratios[f] {
        return false;
      }
    }
    return true;
  }

  method ApprovalRequired(l: Limits, counts: RunCounts) returns (needed: bool)
    ensures needed <==> NeedsApproval(l, counts.Value())
  {
    var total := counts.creates + counts.updates + counts.deletes;
    if l.approvalAbove > 0.0 && total as real > l.approvalAbove {
      return true;
    }
    for i := 0 to |l.approvalFor|
      invariant forall name :: name in l.approvalFor[..i] ==>
        && (Lower(name) == "delete" ==> counts.deletes == 0)
        && (Lower(name) == "create" ==> counts.creates == 0)
        && (Lower(name) == "update" ==> counts.updates == 0)
    {
      var action := Lower(l.approvalFor[i]);
      if action == "delete" && counts.deletes > 0 {
        return true;
      }
      if action == "create" && counts.creates > 0 {
        return true;
      }
      if action == "update" && counts.updates > 0 {
        return true;
      }
    }
    assert l.approvalFor[..|l.approvalFor|] == l.approvalFor;
    return false;
  }

  /** What is allowed before it is recorded stays within the limits. */
  lemma RecordKeepsLimits(l: Limits, action: string, c: Counts)
    requires Within(l, c) && Allowed(l, action, c)
    ensures Within(l, Recorded(action, c))
  {
  }

  /** Fewer deliveries never need approval that more did not. */
  lemma ApprovalIsMonotone(l: Limits, a: Counts, b: Counts)
    requires AtMost(a, b) && NeedsApproval(l, a)
    ensures NeedsApproval(l, b)
  {
  }
}
