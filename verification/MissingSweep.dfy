/** The sweep over entities that are missing from the source. It pages through a listing, newest first, with
    LIMIT and OFFSET while its own saves move entities to the front of that listing. */
module EntityListing {
  import opened Common

  /** Keys by their time of last save; no two saves have the same time. */
  type Stamps = map<string, int>

  ghost predicate Injective(stamps: Stamps) {
    forall a, b :: a in stamps && b in stamps && stamps[a] == stamps[b] ==> a == b
  }

  ghost predicate StampedBy(stamps: Stamps, t: int) { forall k :: k in stamps ==> stamps[k] <= t }

  ghost predicate NewestFirst(stamps: Stamps, keys: seq<string>) {
    && (forall k :: k in keys <==> k in stamps)
    && (forall i, j :: 0 <= i < j < |keys| ==> stamps[keys[i]] > stamps[keys[j]])
  }

  lemma {:induction false} NewestExists(stamps: Stamps, among: set<string>) returns (k: string)
    requires among <= stamps.Keys && among != {}
    ensures k in among && forall x :: x in among ==> stamps[x] <= stamps[k]
    decreases among
  {
    var x :| x in among;
    if among == {x} {
      k := x;
    } else {
      k := NewestExists(stamps, among - {x});
      if stamps[k] < stamps[x] {
        k := x;
      }
    }
  }

  lemma NewestInFront(stamps: Stamps, k: string, more: seq<string>)
    requires Injective(stamps) && k in stamps && NewestFirst(stamps - {k}, more)
    requires forall x :: x in stamps.Keys ==> stamps[x] <= stamps[k]
    ensures NewestFirst(stamps, [k] + more)
  {
    forall j | 0 <= j < |more| ensures stamps[k] > stamps[more[j]] {
      assert more[j] in stamps - {k};
    }
    assert forall x :: x in stamps <==> x == k || x in stamps - {k};
  }

  lemma {:induction false} ListingExists(stamps: Stamps) returns (keys: seq<string>)
    requires Injective(stamps)
    ensures NewestFirst(stamps, keys)
    decreases |stamps|
  {
    if stamps == map[] {
      keys := [];
    } else {
      var k := NewestExists(stamps, stamps.Keys);
      var rest := stamps - {k};
      assert stamps.Keys == rest.Keys + {k};
      assert Injective(rest);
      hide NewestFirst, Injective;
      var more := ListingExists(rest);
      NewestInFront(stamps, k, more);
      keys := [k] + more;
    }
  }

  lemma NewestFirstDistinct(stamps: Stamps, keys: seq<string>)
    requires NewestFirst(stamps, keys)
    ensures Distinct(keys)
  {
  }

  lemma SameHead(stamps: Stamps, a: seq<string>, b: seq<string>)
    requires NewestFirst(stamps, a) && NewestFirst(stamps, b)
    ensures a == [] <==> b == []
    ensures a != [] ==> a[0] == b[0]
  {
    assert a != [] ==> a[0] in b;
    assert b != [] ==> b[0] in a;
    if a != [] {
      var i :| 0 <= i < |b| && b[i] == a[0];
      var j :| 0 <= j < |a| && a[j] == b[0];
    }
  }

  lemma {:induction false} ListingUnique(stamps: Stamps, a: seq<string>, b: seq<string>)
    requires NewestFirst(stamps, a) && NewestFirst(stamps, b)
    ensures a == b
    decreases |a|
  {
    hide NewestFirst;
    SameHead(stamps, a, b);
    if a != [] {
      RestIsNewestFirst(stamps, a);
      RestIsNewestFirst(stamps, b);
      ListingUnique(stamps - {a[0]}, a[1..], b[1..]);
      assert a == [a[0]] + a[1..] && b == [b[0]] + b[1..];
    }
  }

  lemma RestIsNewestFirst(stamps: Stamps, keys: seq<string>)
    requires NewestFirst(stamps, keys) && keys != []
    ensures NewestFirst(stamps - {keys[0]}, keys[1..])
  {
    NewestFirstDistinct(stamps, keys);
    assert keys == [keys[0]] + keys[1..];
  }

  /** SELECT .. ORDER BY updated_at DESC. */
  ghost function Listing(stamps: Stamps): (keys: seq<string>)
    requires Injective(stamps)
    ensures NewestFirst(stamps, keys)
  {
    ListingExistsQ(stamps);
    var keys :| NewestFirst(stamps, keys);
    keys
  }

  lemma ListingExistsQ(stamps: Stamps)
    requires Injective(stamps)
    ensures exists keys :: NewestFirst(stamps, keys)
  {
    var keys := ListingExists(stamps);
  }

  /** The key at position `p` moved to the front. */
  function Moved(keys: seq<string>, p: nat): (moved: seq<string>)
    requires p < |keys|
    ensures |moved| == |keys| && moved[0] == keys[p] && moved[p + 1..] == keys[p + 1..]
    ensures forall i :: 0 < i < |keys| ==> moved[i] == keys[if i <= p then i - 1 else i]
    ensures forall k :: k in keys <==> k in moved
  {
    assert keys == keys[..p] + [keys[p]] + keys[p + 1..];
    [keys[p]] + keys[..p] + keys[p + 1..]
  }

  lemma InOrder(stamps: Stamps, keys: seq<string>, i: nat, j: nat)
    requires NewestFirst(stamps, keys) && i < |keys| && j < |keys|
    ensures keys[i] in stamps && keys[j] in stamps && (i < j ==> stamps[keys[i]] > stamps[keys[j]])
    ensures i != j ==> keys[i] != keys[j]
  {
  }

  lemma MovedInOrder(stamps: Stamps, keys: seq<string>, p: nat, now: int, i: nat, j: nat)
    requires NewestFirst(stamps, keys) && StampedBy(stamps, now - 1) && p < |keys| && i < j < |keys|
    ensures var saved, moved := stamps[keys[p] := now], Moved(keys, p);
      moved[i] in saved && moved[j] in saved && saved[moved[i]] > saved[moved[j]]
  {
    hide NewestFirst, Moved;
    var i', j' := if i <= p then i - 1 else i, if j <= p then j - 1 else j;
    assert Moved(keys, p)[j] == keys[j'];
    InOrder(stamps, keys, j', p);
    if i > 0 {
      assert Moved(keys, p)[i] == keys[i'];
      InOrder(stamps, keys, i', j');
      InOrder(stamps, keys, i', p);
    }
  }

  lemma MovedIsNewestFirst(stamps: Stamps, keys: seq<string>, p: nat, now: int)
    requires NewestFirst(stamps, keys) && StampedBy(stamps, now - 1) && p < |keys|
    ensures NewestFirst(stamps[keys[p] := now], Moved(keys, p))
  {
    hide Moved;
    forall i, j | 0 <= i < j < |keys|
      ensures stamps[keys[p] := now][Moved(keys, p)[i]] > stamps[keys[p] := now][Moved(keys, p)[j]]
    {
      MovedInOrder(stamps, keys, p, now, i, j);
    }
    assert keys[p] in stamps;
  }

  /** A save with a later stamp moves its entity to the front of the listing; what is behind it stays. */
  lemma SaveMovesToFront(stamps: Stamps, p: nat, now: int)
    requires Injective(stamps) && StampedBy(stamps, now - 1) && p < |Listing(stamps)|
    ensures var keys := Listing(stamps); var saved := stamps[keys[p] := now];
      && Injective(saved) && StampedBy(saved, now)
      && Listing(saved) == Moved(keys, p)
      && |Listing(saved)| == |keys| && Listing(saved)[p + 1..] == keys[p + 1..]
  {
    var keys := Listing(stamps);
    MovedIsNewestFirst(stamps, keys, p, now);
    hide NewestFirst;
    ListingUnique(stamps[keys[p] := now], Moved(keys, p), Listing(stamps[keys[p] := now]));
  }
}

/** What the sweep does to one entity, to a list of entities, and over several runs; and the paging loop. */
module MissingSweep {
  import opened Common
  import opened EntityListing

  datatype Action = Delete | ClearFields | Other

  datatype Config = Config(afterRuns: int, action: Action, allowDestructive: bool, maxDeletes: int,
                           fields: seq<string>, hasDest: bool)

  /** The part of an entity state that the sweep changes, and all the rest of it. */
  datatype Entity = Entity(missing: int, decision: string, rest: string)

  datatype Verdict = Waits | Blocked | Deletes | Clears | Counted

  datatype Request = DeleteRow(key: string) | ClearRow(key: string)

  /** Whether the load of an entity returned without an error, and whether its state was saved. */
  datatype Luck = Luck(loaded: bool, saved: bool)

  datatype Progress = Progress(rows: map<string, Entity>, deleted: nat, requests: seq<Request>)

  function Threshold(cfg: Config): (t: int)
    ensures t >= 1
  {
    if cfg.afterRuns <= 0 then 1 else cfg.afterRuns
  }

  function Judge(cfg: Config, missing: int, deleted: nat): Verdict {
    if missing < Threshold(cfg) then Waits
    else match cfg.action
      case Delete =>
        if !cfg.allowDestructive || (cfg.maxDeletes > 0 && deleted >= cfg.maxDeletes) then Blocked else Deletes
      case ClearFields => Clears
      case Other => Counted
  }

  function Updated(es: Entity, v: Verdict): Entity {
    match v
    case Deletes => es.(missing := 0, decision := "delete")
    case Clears => es.(missing := es.missing + 1, decision := "clear_fields")
    case _ => es.(missing := es.missing + 1)
  }

  function Requests(cfg: Config, k: string, v: Verdict): seq<Request> {
    if cfg.hasDest && v.Deletes? then [DeleteRow(k)]
    else if cfg.hasDest && v.Clears? && cfg.fields != [] then [ClearRow(k)]
    else []
  }

  function Visit(cfg: Config, seen: set<string>, a: Progress, k: string, luck: Luck): (b: Progress)
    requires k in a.rows
    ensures b.rows.Keys == a.rows.Keys
  {
    if k in seen then a
    else
      var v := Judge(cfg, a.rows[k].missing + 1, a.deleted);
      Progress(if luck.saved then a.rows[k := Updated(a.rows[k], v)] else a.rows,
               a.deleted + (if cfg.hasDest && v.Deletes? && luck.loaded then 1 else 0),
               a.requests + Requests(cfg, k, v))
  }

  function VisitAll(cfg: Config, seen: set<string>, a: Progress, keys: seq<string>, lucks: seq<Luck>): (b: Progress)
    requires |lucks| == |keys| && forall k :: k in keys ==> k in a.rows
    ensures b.rows.Keys == a.rows.Keys
  {
    if keys == [] then a
    else
      var n := |keys| - 1;
      Visit(cfg, seen, VisitAll(cfg, seen, a, keys[..n], lucks[..n]), keys[n], lucks[n])
  }

  lemma VisitAllSnoc(cfg: Config, seen: set<string>, a: Progress, keys: seq<string>, lucks: seq<Luck>, k: string,
                     luck: Luck)
    requires |lucks| == |keys| && k in a.rows && forall x :: x in keys ==> x in a.rows
    ensures VisitAll(cfg, seen, a, keys + [k], lucks + [luck]) ==
      Visit(cfg, seen, VisitAll(cfg, seen, a, keys, lucks), k, luck)
  {
    assert (keys + [k])[..|keys|] == keys && (lucks + [luck])[..|keys|] == lucks;
  }

  // ---------------------------------------------------------------- what a sweep promises

  lemma {:induction false} OthersUntouched(cfg: Config, seen: set<string>, a: Progress, keys: seq<string>,
                                           lucks: seq<Luck>, k: string)
    requires |lucks| == |keys| && (forall x :: x in keys ==> x in a.rows) && k in a.rows && (k !in keys || k in seen)
    ensures VisitAll(cfg, seen, a, keys, lucks).rows[k] == a.rows[k]
  {
    if keys != [] {
      var n := |keys| - 1;
      assert keys == keys[..n] + [keys[n]];
      OthersUntouched(cfg, seen, a, keys[..n], lucks[..n], k);
    }
  }

  /** Every listed entity is treated once, on its state before the sweep; a seen one keeps its state. */
  lemma {:induction false} EachTreatedOnce(cfg: Config, seen: set<string>, a: Progress, keys: seq<string>,
                                           lucks: seq<Luck>, i: nat)
    requires |lucks| == |keys| && (forall x :: x in keys ==> x in a.rows) && Distinct(keys) && i < |keys|
    ensures var before := VisitAll(cfg, seen, a, keys[..i], lucks[..i]);
      VisitAll(cfg, seen, a, keys, lucks).rows[keys[i]] ==
      if keys[i] in seen || !lucks[i].saved then a.rows[keys[i]]
      else Updated(a.rows[keys[i]], Judge(cfg, a.rows[keys[i]].missing + 1, before.deleted))
  {
    var n := |keys| - 1;
    if i == n {
      OthersUntouched(cfg, seen, a, keys[..n], lucks[..n], keys[n]);
    } else {
      assert keys[..n][..i] == keys[..i] && lucks[..n][..i] == lucks[..i];
      EachTreatedOnce(cfg, seen, a, keys[..n], lucks[..n], i);
    }
  }

  function DeleteRequests(requests: seq<Request>): nat {
    if requests == [] then 0
    else DeleteRequests(requests[..|requests| - 1]) + if requests[|requests| - 1].DeleteRow? then 1 else 0
  }

  lemma DeleteRequestsSnoc(rs: seq<Request>, r: Request)
    ensures DeleteRequests(rs + [r]) == DeleteRequests(rs) + if r.DeleteRow? then 1 else 0
  {
    assert (rs + [r])[..|rs|] == rs;
  }

  lemma VisitLimits(cfg: Config, seen: set<string>, a: Progress, k: string, luck: Luck)
    requires k in a.rows
    ensures var b := Visit(cfg, seen, a, k, luck);
      && a.deleted <= b.deleted <= a.deleted + 1
      && (cfg.maxDeletes > 0 && a.deleted <= cfg.maxDeletes ==> b.deleted <= cfg.maxDeletes)
      && b.deleted - a.deleted <= DeleteRequests(b.requests) - DeleteRequests(a.requests)
      && (luck.loaded ==> b.deleted - a.deleted == DeleteRequests(b.requests) - DeleteRequests(a.requests))
      && (!cfg.allowDestructive || !cfg.action.Delete? ==> DeleteRequests(b.requests) == DeleteRequests(a.requests))
  {
    if k !in seen {
      var v := Judge(cfg, a.rows[k].missing + 1, a.deleted);
      if Requests(cfg, k, v) != [] {
        DeleteRequestsSnoc(a.requests, Requests(cfg, k, v)[0]);
        assert Requests(cfg, k, v) == [Requests(cfg, k, v)[0]];
      } else {
        assert a.requests + [] == a.requests;
      }
    }
  }

  /** Successful deletes never pass the limit; each belongs to one request; when all loads succeed the limit
      holds for requests too; without the opt-in no delete is requested. */
  lemma {:induction false} DeletesLimited(cfg: Config, seen: set<string>, rows: map<string, Entity>,
                                          keys: seq<string>, lucks: seq<Luck>)
    requires |lucks| == |keys| && forall x :: x in keys ==> x in rows
    ensures var b := VisitAll(cfg, seen, Progress(rows, 0, []), keys, lucks);
      && (cfg.maxDeletes > 0 ==> b.deleted <= cfg.maxDeletes)
      && b.deleted <= DeleteRequests(b.requests)
      && ((forall l :: l in lucks ==> l.loaded) ==> b.deleted == DeleteRequests(b.requests))
      && (!cfg.allowDestructive || !cfg.action.Delete? ==> DeleteRequests(b.requests) == 0)
  {
    if keys != [] {
      var n := |keys| - 1;
      DeletesLimited(cfg, seen, rows, keys[..n], lucks[..n]);
      VisitLimits(cfg, seen, VisitAll(cfg, seen, Progress(rows, 0, []), keys[..n], lucks[..n]), keys[n], lucks[n]);
      hide Visit;
      assert lucks[n] in lucks && forall l :: l in lucks[..n] ==> l in lucks;
    }
  }

  /** An entity that stays away for `n` runs, with no limit in the way. */
  function Absent(cfg: Config, es: Entity, n: nat): Entity {
    if n == 0 then es
    else
      var before := Absent(cfg, es, n - 1);
      Updated(before, Judge(cfg, before.missing + 1, 0))
  }

  function Remainder(n: nat, t: int): nat
    requires t >= 1
  {
    n % t
  }

  /** With deletion allowed, an absent entity is deleted in exactly every run whose number the threshold
      divides, and its counter starts again. */
  lemma {:induction false} DeletedEveryThreshold(cfg: Config, es: Entity, n: nat)
    requires cfg.action.Delete? && cfg.allowDestructive && es.missing == 0
    ensures Absent(cfg, es, n).missing == Remainder(n, Threshold(cfg))
    ensures Judge(cfg, Absent(cfg, es, n).missing + 1, 0).Deletes? <==> Remainder(n + 1, Threshold(cfg)) == 0
  {
    var t := Threshold(cfg);
    assert Remainder(0, t) == 0;
    hide Remainder, Threshold;
    NextRemainder(n, t);
    if n > 0 {
      DeletedEveryThreshold(cfg, es, n - 1);
      NextRemainder(n - 1, t);
    }
  }

  lemma NextRemainder(n: nat, t: int)
    requires t >= 1
    ensures Remainder(n + 1, t) == if Remainder(n, t) == t - 1 then 0 else Remainder(n, t) + 1
    ensures 0 <= Remainder(n, t) < t
  {
    var q, r := n / t, n % t;
    var q', r' := (n + 1) / t, (n + 1) % t;
    assert n == q * t + r && n + 1 == q' * t + r';
    if r == t - 1 {
      assert (q + 1) * t == q * t + t;
      SameDivision(q + 1, 0, q', r', t);
    } else {
      SameDivision(q, r + 1, q', r', t);
    }
  }

  lemma SameDivision(q: int, r: int, q': int, r': int, t: int)
    requires q * t + r == q' * t + r' && 0 <= r < t && 0 <= r' < t
    ensures q == q' && r == r'
  {
    if q < q' {
      Larger(q, q', t);
    } else if q' < q {
      Larger(q', q, t);
    }
  }

  lemma {:induction false} Larger(a: int, b: int, t: int)
    requires a < b && t >= 0
    ensures a * t + t <= b * t
    decreases b - a
  {
    assert b * t == (b - 1) * t + t;
    if a < b - 1 {
      Larger(a, b - 1, t);
    }
  }

  /** Without deletion the counter only grows: its value is the number of runs away. */
  lemma {:induction false} CountedForever(cfg: Config, es: Entity, n: nat)
    requires !cfg.action.Delete? || !cfg.allowDestructive
    ensures Absent(cfg, es, n).missing == es.missing + n
  {
    if n > 0 {
      CountedForever(cfg, es, n - 1);
    }
  }

  // ---------------------------------------------------------------- the paging loop

  const PAGE_SIZE: nat := 500

  class EntityStore {
    var rows: map<string, Entity>
    var stamps: Stamps
    var clock: int

    /** Every row has its own stamp, none in the future. */
    ghost predicate Valid()
      reads this
    {
      rows.Keys == stamps.Keys && Injective(stamps) && StampedBy(stamps, clock)
    }

    constructor ()
      ensures Valid() && rows == map[]
    {
      rows, stamps, clock := map[], map[], 0;
    }

    /** A save stamps the row with a later time than any before. Its error is ignored by the sweep. */
    method SaveEntityState(k: string, es: Entity) returns (ok: bool)
      requires Valid()
      modifies this
      ensures Valid() && rows == if ok then old(rows)[k := es] else old(rows)
      ensures stamps == if ok then old(stamps)[k := clock] else old(stamps)
      ensures StampedBy(old(stamps), clock - 1)
    {
      var now: int := *;
      clock := Max(clock + 1, now);
      ok := *;
      if ok {
        rows, stamps := rows[k := es], stamps[k := clock];
      }
    }

    /** The newest key among some. */
    method Newest(among: set<string>) returns (k: string)
      requires Valid() && among <= stamps.Keys && among != {}
      ensures k in among && forall x :: x in among ==> stamps[x] <= stamps[k]
    {
      k :| k in among;
      var rest := among - {k};
      while rest != {}
        invariant rest < among && k in among
        invariant forall x :: x in among && x !in rest ==> stamps[x] <= stamps[k]
        decreases rest
      {
        var x :| x in rest;
        if stamps[k] < stamps[x] {
          k := x;
        }
        rest := rest - {x};
      }
    }

    method Order() returns (keys: seq<string>)
      requires Valid()
      ensures keys == Listing(stamps)
    {
      keys := [];
      var rest := stamps.Keys;
      while rest != {}
        invariant rest <= stamps.Keys
        invariant forall k :: k in keys <==> k in stamps && k !in rest
        invariant forall i, j :: 0 <= i < j < |keys| ==> stamps[keys[i]] > stamps[keys[j]]
        invariant forall i, x :: 0 <= i < |keys| && x in rest ==> stamps[keys[i]] > stamps[x]
        decreases rest
      {
        var k := Newest(rest);
        rest := rest - {k};
        keys := keys + [k];
      }
      ListingUnique(stamps, keys, Listing(stamps));
    }

    /** LIMIT and OFFSET over the listing; the query can fail. Without a positive limit a hundred rows are asked
        for. */
    method ListEntityStates(limit: int, offset: nat) returns (page: Option<seq<(string, Entity)>>)
      requires Valid()
      ensures page.Some? ==> IsPage(page.value, rows, Listing(stamps), if limit <= 0 then 100 else limit, offset)
    {
      var limit := if limit <= 0 then 100 else limit;
      var fails := *;
      if fails {
        return None;
      }
      var keys := Order();
      var i: nat := offset;
      var out: seq<(string, Entity)> := [];
      while i < |keys| && i < offset + limit
        invariant offset <= i && |out| == i - offset && (i <= Min(|keys|, offset + limit) || i == offset)
        invariant forall j :: 0 <= j < |out| ==>
          out[j].0 == keys[offset + j] && out[j].0 in rows && out[j].1 == rows[out[j].0]
      {
        assert keys[i] in keys;
        out := out + [(keys[i], rows[keys[i]])];
        i := i + 1;
      }
      page := Some(out);
    }
  }

  ghost predicate IsPage(page: seq<(string, Entity)>, rows: map<string, Entity>, keys: seq<string>, limit: nat,
                         offset: nat) {
    && |page| == Max(0, Min(limit, |keys| - offset))
    && forall i :: 0 <= i < |page| ==>
         page[i].0 == keys[offset + i] && page[i].0 in rows && page[i].1 == rows[page[i].0]
  }

  lemma PageEntry(page: seq<(string, Entity)>, rows: map<string, Entity>, keys: seq<string>, limit: nat, offset: nat,
                  i: nat)
    requires IsPage(page, rows, keys, limit, offset) && i < |page|
    ensures offset + i < |keys| && page[i].0 == keys[offset + i] && page[i].0 in rows && page[i].1 == rows[page[i].0]
  {
  }

  /** After `p` visits: the entities visited are the first `p` of the listing at the start of the sweep, they
      were treated in that order, and the rest of the listing is as it was. */
  ghost predicate Swept(cfg: Config, seen: set<string>, rows0: map<string, Entity>, keys: seq<string>, p: nat,
                        lucks: seq<Luck>, a: Progress, now: seq<string>) {
    && p == |lucks| <= |keys| == |now| && now[p..] == keys[p..] && Distinct(keys)
    && (forall k :: k in keys <==> k in rows0)
    && a == VisitAll(cfg, seen, Progress(rows0, 0, []), keys[..p], lucks)
  }

  /** `b` comes from treating the first entities of the listing `keys` of `rows`, once each. */
  ghost predicate IsSweep(cfg: Config, seen: set<string>, rows: map<string, Entity>, keys: seq<string>,
                          lucks: seq<Luck>, b: Progress) {
    && |lucks| <= |keys| && Distinct(keys) && (forall k :: k in keys <==> k in rows)
    && b == VisitAll(cfg, seen, Progress(rows, 0, []), keys[..|lucks|], lucks)
  }

  /** What a complete sweep with successful saves did to any stored entity. */
  lemma CompleteSweep(cfg: Config, seen: set<string>, rows: map<string, Entity>, keys: seq<string>, lucks: seq<Luck>,
                      b: Progress, k: string)
    requires IsSweep(cfg, seen, rows, keys, lucks, b) && |lucks| == |keys| && (forall l :: l in lucks ==> l.saved) &&
      k in rows
    ensures b.rows.Keys == rows.Keys && b.rows[k].rest == rows[k].rest
    ensures k in seen ==> b.rows[k] == rows[k]
    ensures k !in seen ==>
      b.rows[k].missing == rows[k].missing + 1 || (b.rows[k].missing == 0 && b.rows[k].decision == "delete")
    ensures k !in seen && rows[k].missing + 1 < Threshold(cfg) ==> b.rows[k] == rows[k].(missing := rows[k].missing + 1)
    ensures k !in seen && rows[k].missing + 1 >= Threshold(cfg) ==>
      (cfg.action.Delete? && cfg.allowDestructive && cfg.maxDeletes <= 0 ==>
        b.rows[k] == rows[k].(missing := 0, decision := "delete"))
  {
    hide VisitAll, Updated, Judge, Threshold;
    var i :| 0 <= i < |keys| && keys[i] == k;
    assert keys[..|lucks|] == keys;
    EachTreatedOnce(cfg, seen, Progress(rows, 0, []), keys, lucks, i);
    assert lucks[i] in lucks;
    UpdatedMeans(cfg, rows[k], VisitAll(cfg, seen, Progress(rows, 0, []), keys[..i], lucks[..i]).deleted);
  }

  lemma UpdatedMeans(cfg: Config, es: Entity, deleted: nat)
    ensures var u := Updated(es, Judge(cfg, es.missing + 1, deleted));
      && u.rest == es.rest && (u.missing == es.missing + 1 || (u.missing == 0 && u.decision == "delete"))
      && (es.missing + 1 < Threshold(cfg) ==> u == es.(missing := es.missing + 1))
      && (es.missing + 1 >= Threshold(cfg) && cfg.action.Delete? && cfg.allowDestructive && cfg.maxDeletes <= 0 ==>
            u == es.(missing := 0, decision := "delete"))
  {
  }

  /** How often a request is made. */
  function Times(requests: seq<Request>, q: Request): nat { multiset(requests)[q] }

  /** What the sweep did about one entity: its state, and how often its delete and its clearing were requested. */
  datatype Treatment = Treatment(state: Entity, deletes: nat, clears: nat)

  lemma VisitRequests(cfg: Config, seen: set<string>, a: Progress, k: string, luck: Luck, q: Request)
    requires k in a.rows
    ensures Times(Visit(cfg, seen, a, k, luck).requests, q) == Times(a.requests, q)
      + if k in seen then 0 else Times(Requests(cfg, k, Judge(cfg, a.rows[k].missing + 1, a.deleted)), q)
    ensures a.deleted <= Visit(cfg, seen, a, k, luck).deleted
  {
    hide Requests, Judge;
  }

  lemma RequestsOfKey(cfg: Config, k: string, v: Verdict, q: Request)
    ensures q.key != k ==> Times(Requests(cfg, k, v), q) == 0
    ensures Times(Requests(cfg, k, v), DeleteRow(k)) == if cfg.hasDest && v.Deletes? then 1 else 0
    ensures Times(Requests(cfg, k, v), ClearRow(k)) == if cfg.hasDest && v.Clears? && cfg.fields != [] then 1 else 0
  {
  }

  /** The requests for the `i`-th entity are those of its own visit. */
  lemma {:induction false} RequestsOnce(cfg: Config, seen: set<string>, rows: map<string, Entity>, keys: seq<string>,
                                        lucks: seq<Luck>, i: nat, q: Request)
    requires |lucks| == |keys| && (forall x :: x in keys ==> x in rows) && Distinct(keys) && i < |keys| &&
      q.key == keys[i]
    ensures var before := VisitAll(cfg, seen, Progress(rows, 0, []), keys[..i], lucks[..i]);
      var b := VisitAll(cfg, seen, Progress(rows, 0, []), keys, lucks);
      && Times(b.requests, q) ==
         (if keys[i] in seen then 0
          else Times(Requests(cfg, keys[i], Judge(cfg, rows[keys[i]].missing + 1, before.deleted)), q))
      && before.deleted <= b.deleted
  {
    hide Visit, Requests, Judge, Times;
    var n := |keys| - 1;
    var a := VisitAll(cfg, seen, Progress(rows, 0, []), keys[..n], lucks[..n]);
    VisitRequests(cfg, seen, a, keys[n], lucks[n], q);
    if i == n {
      OthersUntouched(cfg, seen, Progress(rows, 0, []), keys[..n], lucks[..n], keys[n]);
      NotRequested(cfg, seen, rows, keys[..n], lucks[..n], q);
    } else {
      assert keys[..n][..i] == keys[..i] && lucks[..n][..i] == lucks[..i];
      RequestsOnce(cfg, seen, rows, keys[..n], lucks[..n], i, q);
      RequestsOfKey(cfg, keys[n], Judge(cfg, a.rows[keys[n]].missing + 1, a.deleted), q);
    }
  }

  lemma {:induction false} NotRequested(cfg: Config, seen: set<string>, rows: map<string, Entity>, keys: seq<string>,
                                        lucks: seq<Luck>, q: Request)
    requires |lucks| == |keys| && (forall x :: x in keys ==> x in rows) && q.key !in keys
    ensures Times(VisitAll(cfg, seen, Progress(rows, 0, []), keys, lucks).requests, q) == 0
  {
    if keys != [] {
      var n := |keys| - 1;
      var a := VisitAll(cfg, seen, Progress(rows, 0, []), keys[..n], lucks[..n]);
      NotRequested(cfg, seen, rows, keys[..n], lucks[..n], q);
      VisitRequests(cfg, seen, a, keys[n], lucks[n], q);
      RequestsOfKey(cfg, keys[n], Judge(cfg, a.rows[keys[n]].missing + 1, a.deleted), q);
      hide Visit, Requests, Judge, Times;
    }
  }

  /** What a complete sweep with successful saves does about any stored entity, from its configuration alone. A seen
      one is left alone; below the threshold only the counter rises; at it fields are cleared, the entity is deleted,
      or, with another action or a delete that is not allowed or over the limit, only the counter rises. */
  lemma TreatedAs(cfg: Config, seen: set<string>, rows: map<string, Entity>, keys: seq<string>, lucks: seq<Luck>,
                  b: Progress, k: string)
    requires IsSweep(cfg, seen, rows, keys, lucks, b) && |lucks| == |keys| && (forall l :: l in lucks ==> l.saved)
    requires k in rows && rows[k].missing >= 0
    ensures k in b.rows
    ensures var es, sent := rows[k], if cfg.hasDest then 1 else 0;
      var counted := Treatment(es.(missing := es.missing + 1), 0, 0);
      var deleted := Treatment(es.(missing := 0, decision := "delete"), sent, 0);
      var cleared := Treatment(es.(missing := es.missing + 1, decision := "clear_fields"), 0,
                               if cfg.fields == [] then 0 else sent);
      var treatment := Treatment(b.rows[k], Times(b.requests, DeleteRow(k)), Times(b.requests, ClearRow(k)));
      if k in seen then treatment == Treatment(es, 0, 0)
      else if es.missing + 1 < cfg.afterRuns || cfg.action.Other? then treatment == counted
      else if cfg.action.ClearFields? then treatment == cleared
      else if !cfg.allowDestructive then treatment == counted
      else treatment == deleted || (treatment == counted && 0 < cfg.maxDeletes <= b.deleted)
  {
    hide VisitAll, Updated, Judge, Threshold, Requests, Times;
    var i :| 0 <= i < |keys| && keys[i] == k;
    assert keys[..|lucks|] == keys;
    EachTreatedOnce(cfg, seen, Progress(rows, 0, []), keys, lucks, i);
    assert lucks[i] in lucks;
    RequestsOnce(cfg, seen, rows, keys, lucks, i, DeleteRow(k));
    RequestsOnce(cfg, seen, rows, keys, lucks, i, ClearRow(k));
    var deleted := VisitAll(cfg, seen, Progress(rows, 0, []), keys[..i], lucks[..i]).deleted;
    RequestsOfKey(cfg, k, Judge(cfg, rows[k].missing + 1, deleted), DeleteRow(k));
    JudgedAs(cfg, rows[k], deleted);
  }

  lemma JudgedAs(cfg: Config, es: Entity, deleted: nat)
    requires es.missing >= 0
    ensures var v := Judge(cfg, es.missing + 1, deleted);
      var u := Updated(es, v);
      if es.missing + 1 < cfg.afterRuns || cfg.action.Other?
      then !v.Deletes? && !v.Clears? && u == es.(missing := es.missing + 1)
      else if cfg.action.ClearFields? then v.Clears? && u == es.(missing := es.missing + 1, decision := "clear_fields")
      else if !cfg.allowDestructive || 0 < cfg.maxDeletes <= deleted
      then !v.Deletes? && !v.Clears? && u == es.(missing := es.missing + 1)
      else v.Deletes? && u == es.(missing := 0, decision := "delete")
  {
  }

  /** One complete sweep of several, and what it left. */
  datatype SweepRun = SweepRun(seen: set<string>, keys: seq<string>, lucks: seq<Luck>, after: Progress)

  function RowsAfter(rows: map<string, Entity>, sweeps: seq<SweepRun>): map<string, Entity> {
    if sweeps == [] then rows else sweeps[|sweeps| - 1].after.rows
  }

  /** Complete sweeps with successful saves, one after the other. */
  ghost predicate AreSweeps(cfg: Config, rows: map<string, Entity>, sweeps: seq<SweepRun>) {
    sweeps == [] ||
    var n := |sweeps| - 1;
    var s := sweeps[n];
    && AreSweeps(cfg, rows, sweeps[..n])
    && IsSweep(cfg, s.seen, RowsAfter(rows, sweeps[..n]), s.keys, s.lucks, s.after)
    && |s.lucks| == |s.keys| && forall l :: l in s.lucks ==> l.saved
  }

  lemma OneSweep(cfg: Config, rows: map<string, Entity>, s: SweepRun, k: string)
    requires IsSweep(cfg, s.seen, rows, s.keys, s.lucks, s.after) && |s.lucks| == |s.keys| &&
      (forall l :: l in s.lucks ==> l.saved)
    requires k in rows && cfg.maxDeletes <= 0
    ensures k in s.after.rows
    ensures s.after.rows[k] == if k in s.seen then rows[k] else Updated(rows[k], Judge(cfg, rows[k].missing + 1, 0))
  {
    var i :| 0 <= i < |s.keys| && s.keys[i] == k;
    assert s.keys[..|s.lucks|] == s.keys;
    EachTreatedOnce(cfg, s.seen, Progress(rows, 0, []), s.keys, s.lucks, i);
    assert s.lucks[i] in s.lucks;
    hide VisitAll;
  }

  /** Sweeps without a delete limit treat an entity that stays away as its own history says. */
  lemma {:induction false} SweepsOfAbsent(cfg: Config, rows: map<string, Entity>, sweeps: seq<SweepRun>, k: string)
    requires AreSweeps(cfg, rows, sweeps) && k in rows && cfg.maxDeletes <= 0
    requires forall s :: s in sweeps ==> k !in s.seen
    ensures k in RowsAfter(rows, sweeps) && RowsAfter(rows, sweeps)[k] == Absent(cfg, rows[k], |sweeps|)
  {
    if sweeps != [] {
      var n := |sweeps| - 1;
      assert sweeps[n] in sweeps && forall s :: s in sweeps[..n] ==> s in sweeps;
      SweepsOfAbsent(cfg, rows, sweeps[..n], k);
      OneSweep(cfg, RowsAfter(rows, sweeps[..n]), sweeps[n], k);
      hide IsSweep, Updated, Judge;
    }
  }

  lemma SweptMeans(cfg: Config, seen: set<string>, rows0: map<string, Entity>, keys: seq<string>, p: nat,
                   lucks: seq<Luck>, a: Progress, now: seq<string>)
    requires Swept(cfg, seen, rows0, keys, p, lucks, a, now)
    ensures p == |lucks| <= |keys| && IsSweep(cfg, seen, rows0, keys, lucks, a)
  {
  }

  lemma SweptNone(cfg: Config, seen: set<string>, rows: map<string, Entity>, stamps: Stamps)
    requires rows.Keys == stamps.Keys && Injective(stamps)
    ensures Swept(cfg, seen, rows, Listing(stamps), 0, [], Progress(rows, 0, []), Listing(stamps))
  {
    NewestFirstDistinct(stamps, Listing(stamps));
    assert Listing(stamps)[..0] == [];
  }

  /** The next entity is still the `p`-th of the first listing, with its first state. */
  lemma SweptNext(cfg: Config, seen: set<string>, rows0: map<string, Entity>, keys: seq<string>, p: nat,
                  lucks: seq<Luck>, a: Progress, now: seq<string>, luck: Luck, now': seq<string>)
    requires Swept(cfg, seen, rows0, keys, p, lucks, a, now) && p < |keys| && keys[p] in a.rows
    requires |now'| == |now| && now'[p + 1..] == now[p + 1..]
    ensures now[p] == keys[p] && a.rows[keys[p]] == rows0[keys[p]]
    ensures Swept(cfg, seen, rows0, keys, p + 1, lucks + [luck], Visit(cfg, seen, a, keys[p], luck), now')
  {
    assert now[p] == now[p..][0] && keys[p] == keys[p..][0];
    assert now[p + 1..] == now[p..][1..] && keys[p + 1..] == keys[p..][1..];
    assert keys[..p + 1] == keys[..p] + [keys[p]];
    assert keys[p] in keys && keys[p] !in keys[..p];
    VisitAllSnoc(cfg, seen, Progress(rows0, 0, []), keys[..p], lucks, keys[p], luck);
    OthersUntouched(cfg, seen, Progress(rows0, 0, []), keys[..p], lucks, keys[p]);
  }

  lemma SweptKeys(cfg: Config, seen: set<string>, rows0: map<string, Entity>, keys: seq<string>, p: nat,
                  lucks: seq<Luck>, a: Progress, now: seq<string>)
    requires Swept(cfg, seen, rows0, keys, p, lucks, a, now)
    ensures p <= |keys| == |now| && a.rows.Keys == rows0.Keys
    ensures forall i :: p <= i < |keys| ==> now[i] == keys[i] && keys[i] in rows0 && a.rows[keys[i]] == rows0[keys[i]]
  {
    forall i | p <= i < |keys| ensures now[i] == keys[i] && keys[i] in rows0 && a.rows[keys[i]] == rows0[keys[i]] {
      assert now[i] == now[p..][i - p] && keys[i] == keys[p..][i - p];
      assert keys[i] in keys && keys[i] !in keys[..p];
      OthersUntouched(cfg, seen, Progress(rows0, 0, []), keys[..p], lucks, keys[i]);
    }
  }

  /** The page lists entities of the first listing with their first state. */
  ghost predicate PageIsOf(page: seq<(string, Entity)>, rows0: map<string, Entity>, keys: seq<string>, offset: nat) {
    && offset + |page| <= |keys|
    && forall i :: 0 <= i < |page| ==>
         page[i].0 == keys[offset + i] && page[i].0 in rows0 && page[i].1 == rows0[page[i].0]
  }

  lemma PageIsOfEntry(page: seq<(string, Entity)>, rows0: map<string, Entity>, keys: seq<string>, offset: nat, i: nat)
    requires PageIsOf(page, rows0, keys, offset) && i < |page|
    ensures offset + i < |keys| && page[i].0 == keys[offset + i] && page[i].0 in rows0 && page[i].1 == rows0[page[i].0]
  {
  }

  lemma PageOfFirstListing(cfg: Config, seen: set<string>, rows0: map<string, Entity>, keys: seq<string>, p: nat,
                           lucks: seq<Luck>,
                           a: Progress, now: seq<string>, page: seq<(string, Entity)>, limit: nat)
    requires Swept(cfg, seen, rows0, keys, p, lucks, a, now) && IsPage(page, a.rows, now, limit, p)
    ensures PageIsOf(page, rows0, keys, p) && |page| <= limit && (|page| < limit ==> p + |page| == |keys|)
  {
    SweptKeys(cfg, seen, rows0, keys, p, lucks, a, now);
    hide Swept;
    forall i | 0 <= i < |page| ensures page[i].0 == keys[p + i] && page[i].0 in rows0 && page[i].1 == rows0[page[i].0] {
      PageEntry(page, a.rows, now, limit, p, i);
    }
  }

  /** The destination seen from the sweep, with all it was asked for. */
  class Destination {
    ghost var requests: seq<Request>

    constructor ()
      ensures requests == []
    {
      requests := [];
    }

    method Load(r: Request) returns (ok: bool)
      modifies this
      ensures requests == old(requests) + [r]
    {
      requests := requests + [r];
      ok := *;
    }
  }

  class Sweep {
    const cfg: Config
    const store: EntityStore
    const dest: Destination
    var deleteCount: nat

    constructor (cfg: Config, store: EntityStore, dest: Destination)
      ensures this.cfg == cfg && this.store == store && this.dest == dest && deleteCount == 0
    {
      this.cfg, this.store, this.dest, deleteCount := cfg, store, dest, 0;
    }

    ghost function Now(requests0: seq<Request>): Progress
      reads this, store, dest
      requires requests0 <= dest.requests
    {
      Progress(store.rows, deleteCount, dest.requests[|requests0|..])
    }

    /** The on-missing action for an entity at its threshold. Returns the state to save. */
    method Act(k: string, es: Entity) returns (es': Entity, loaded: bool)
      requires es.missing >= Threshold(cfg)
      modifies this, dest
      ensures var v := Judge(cfg, es.missing, old(deleteCount));
        && es' == Updated(es.(missing := es.missing - 1), v)
        && dest.requests == old(dest.requests) + Requests(cfg, k, v)
        && deleteCount == old(deleteCount) + (if cfg.hasDest && v.Deletes? && loaded then 1 else 0)
    {
      es', loaded := es, true;
      match cfg.action
      case Delete =>
        if !cfg.allowDestructive {
          return;
        }
        if cfg.maxDeletes > 0 && deleteCount >= cfg.maxDeletes {
          return;
        }
        if cfg.hasDest {
          loaded := dest.Load(DeleteRow(k));
          if loaded {
            deleteCount := deleteCount + 1;
          }
        }
        es' := es.(decision := "delete", missing := 0);
      case ClearFields =>
        if cfg.hasDest && cfg.fields != [] {
          loaded := dest.Load(ClearRow(k));
        }
        es' := es.(decision := "clear_fields");
      case Other =>
    }

    /** One entity of a page. */
    method VisitOne(k: string, es: Entity, seen: set<string>, ghost requests0: seq<Request>) returns (ghost luck: Luck)
      requires store.Valid() && k in store.rows && store.rows[k] == es && requests0 <= dest.requests
      modifies this, store, dest
      ensures store.Valid() && requests0 <= dest.requests
      ensures Now(requests0) == Visit(cfg, seen, old(Now(requests0)), k, luck)
      ensures store.stamps == old(store.stamps) || (store.stamps == old(store.stamps)[k := store.clock] &&
        StampedBy(old(store.stamps), store.clock - 1))
    {
      luck := Luck(true, true);
      if k in seen {
        return;
      }
      var next := es.(missing := es.missing + 1);
      var loaded := true;
      if next.missing >= Threshold(cfg) {
        next, loaded := Act(k, next);
      }
      var saved := store.SaveEntityState(k, next);
      luck := Luck(loaded, saved);
    }

    method SweepEntry(k: string, es: Entity, seen: set<string>, ghost keys: seq<string>, ghost rows0: map<string,
                      Entity>,
                      ghost requests0: seq<Request>, ghost p: nat, ghost lucks0: seq<Luck>)
                        returns (ghost lucks: seq<Luck>)
      requires store.Valid() && requests0 <= dest.requests
      requires Swept(cfg, seen, rows0, keys, p, lucks0, Now(requests0), Listing(store.stamps))
      requires p < |keys| && k == keys[p] && k in rows0 && es == rows0[k]
      modifies this, store, dest
      ensures store.Valid() && requests0 <= dest.requests
      ensures Swept(cfg, seen, rows0, keys, p + 1, lucks, Now(requests0), Listing(store.stamps))
    {
      ghost var a, now, stamps := Now(requests0), Listing(store.stamps), store.stamps;
      SweptKeys(cfg, seen, rows0, keys, p, lucks0, a, now);
      hide Swept, Visit, Listing;
      ghost var luck := VisitOne(k, es, seen, requests0);
      if store.stamps != stamps {
        SaveMovesToFront(stamps, p, store.clock);
      }
      SweptNext(cfg, seen, rows0, keys, p, lucks0, a, now, luck, Listing(store.stamps));
      lucks := lucks0 + [luck];
    }

    /** The entities of one page, which starts at position `offset` of the listing. */
    method SweepPage(page: seq<(string, Entity)>, seen: set<string>, offset: nat, limit: nat,
                     ghost keys: seq<string>, ghost rows0: map<string, Entity>, ghost requests0: seq<Request>,
                       ghost lucks0: seq<Luck>)
      returns (ghost lucks: seq<Luck>)
      requires store.Valid() && requests0 <= dest.requests
      requires IsPage(page, store.rows, Listing(store.stamps), limit, offset)
      requires Swept(cfg, seen, rows0, keys, offset, lucks0, Now(requests0), Listing(store.stamps))
      modifies this, store, dest
      ensures store.Valid() && requests0 <= dest.requests
      ensures Swept(cfg, seen, rows0, keys, offset + |page|, lucks, Now(requests0), Listing(store.stamps))
    {
      lucks := lucks0;
      ghost var p := offset;
      PageOfFirstListing(cfg, seen, rows0, keys, offset, lucks, Now(requests0), Listing(store.stamps), page, limit);
      hide Swept, IsPage, PageIsOf;
      for i := 0 to |page|
        invariant store.Valid() && requests0 <= dest.requests && p == offset + i
        invariant Swept(cfg, seen, rows0, keys, p, lucks, Now(requests0), Listing(store.stamps))
        invariant PageIsOf(page, rows0, keys, offset)
      {
        PageIsOfEntry(page, rows0, keys, offset, i);
        lucks := SweepEntry(page[i].0, page[i].1, seen, keys, rows0, requests0, p, lucks);
        p := p + 1;
      }
    }

    /** Lists one page and treats it. Returns how many entities it had, or none if the listing failed. */
    method NextPage(seen: set<string>, offset: nat, ghost keys: seq<string>, ghost rows0: map<string, Entity>,
                    ghost requests0: seq<Request>, ghost lucks0: seq<Luck>)
                      returns (size: Option<nat>, ghost lucks: seq<Luck>)
      requires store.Valid() && requests0 <= dest.requests
      requires Swept(cfg, seen, rows0, keys, offset, lucks0, Now(requests0), Listing(store.stamps))
      modifies this, store, dest
      ensures store.Valid() && requests0 <= dest.requests
      ensures |lucks| <= |keys| && |lucks| == offset + (if size.Some? then size.value else 0)
      ensures Swept(cfg, seen, rows0, keys, |lucks|, lucks, Now(requests0), Listing(store.stamps))
      ensures size.Some? ==> size.value <= PAGE_SIZE && (size.value < PAGE_SIZE ==> |lucks| == |keys|)
    {
      lucks := lucks0;
      ghost var a, now := Now(requests0), Listing(store.stamps);
      SweptMeans(cfg, seen, rows0, keys, offset, lucks, a, now);
      hide Swept, IsPage, IsSweep, Listing, VisitAll;
      var page := store.ListEntityStates(PAGE_SIZE, offset);
      if page.None? {
        return None, lucks;
      }
      PageOfFirstListing(cfg, seen, rows0, keys, offset, lucks, a, now, page.value, PAGE_SIZE);
      lucks := SweepPage(page.value, seen, offset, PAGE_SIZE, keys, rows0, requests0, lucks);
      SweptMeans(cfg, seen, rows0, keys, offset + |page.value|, lucks, Now(requests0), Listing(store.stamps));
      size := Some(|page.value|);
    }

    /** The whole sweep. When no listing fails, every stored entity is visited exactly once, in the order of
        the listing at the start, and everything is as if that listing had been treated at once. */
    method ProcessMissing(seen: set<string>) returns (ok: bool, ghost lucks: seq<Luck>)
      requires store.Valid() && deleteCount == 0
      modifies this, store, dest
      ensures store.Valid() && old(dest.requests) <= dest.requests
      ensures IsSweep(cfg, seen, old(store.rows), old(Listing(store.stamps)), lucks, Now(old(dest.requests)))
      ensures ok ==> |lucks| == |old(Listing(store.stamps))|
    {
      ghost var keys, rows0, requests0 := Listing(store.stamps), store.rows, dest.requests;
      SweptNone(cfg, seen, rows0, store.stamps);
      lucks := [];
      assert Now(requests0) == Progress(rows0, 0, []);
      hide Swept, IsSweep, VisitAll, Listing;
      var offset := 0;
      while true
        invariant store.Valid() && requests0 <= dest.requests && offset == |lucks| <= |keys|
        invariant Swept(cfg, seen, rows0, keys, offset, lucks, Now(requests0), Listing(store.stamps))
        decreases |keys| - offset
      {
        var size;
        size, lucks := NextPage(seen, offset, keys, rows0, requests0, lucks);
        SweptMeans(cfg, seen, rows0, keys, |lucks|, lucks, Now(requests0), Listing(store.stamps));
        if size.None? {
          return false, lucks;
        }
        if size.value < PAGE_SIZE {
          return true, lucks;
        }
        offset := offset + PAGE_SIZE;
      }
    }
  }
}
