/** The sweep over a destination that keeps a delivery log. Deletes and field clearings of an entity are loaded under
    one and the same id, its key: when does the destination really lose an entity that the sweep decides to
    delete? */
module SweepLog {
  import opened Common
  import opened MissingSweep

  /** One complete sweep: its configuration, what was extracted, the stored states and their listing. */
  datatype Round = Round(cfg: Config, seen: set<string>, rows: map<string, Entity>, keys: seq<string>, lucks: seq<Luck>)

  ghost predicate Proper(r: Round) {
    |r.lucks| == |r.keys| && Distinct(r.keys) && forall k :: k in r.keys <==> k in r.rows
  }

  ghost function Before(r: Round, i: nat): Progress
    requires Proper(r) && i <= |r.keys|
  {
    VisitAll(r.cfg, r.seen, Progress(r.rows, 0, []), r.keys[..i], r.lucks[..i])
  }

  // ---------------------------------------------------------------- the loads of a sweep

  /** A request, and whether its load would succeed if the destination made it. */
  datatype Load = Load(r: Request, ok: bool)

  /** The load for the `i`-th listed entity, if there is one. */
  ghost function LoadAt(r: Round, i: nat): seq<Load>
    requires Proper(r) && i < |r.keys|
  {
    var k, a := r.keys[i], Before(r, i);
    if k in r.seen then []
    else
      var rs := Requests(r.cfg, k, Judge(r.cfg, a.rows[k].missing + 1, a.deleted));
      if rs == [] then [] else [Load(rs[0], r.lucks[i].loaded)]
  }

  ghost function LoadsTo(r: Round, n: nat): seq<Load>
    requires Proper(r) && n <= |r.keys|
  {
    if n == 0 then [] else LoadsTo(r, n - 1) + LoadAt(r, n - 1)
  }

  function RequestsOf(loads: seq<Load>): seq<Request> {
    if loads == [] then [] else RequestsOf(loads[..|loads| - 1]) + [loads[|loads| - 1].r]
  }

  /** They are what the sweep requests. */
  lemma {:induction false} LoadsAreRequests(r: Round, n: nat)
    requires Proper(r) && n <= |r.keys|
    ensures RequestsOf(LoadsTo(r, n)) == Before(r, n).requests
  {
    if n > 0 {
      assert LoadsTo(r, n) == LoadsTo(r, n - 1) + LoadAt(r, n - 1);
      hide Before, LoadAt, LoadsTo, RequestsOf;
      LoadsAreRequests(r, n - 1);
      OneVisited(r, n - 1);
      RequestsSnoc(LoadsTo(r, n - 1), LoadAt(r, n - 1));
    }
  }

  lemma OneVisited(r: Round, i: nat)
    requires Proper(r) && i < |r.keys|
    ensures |LoadAt(r, i)| <= 1
    ensures Before(r, i + 1).requests == Before(r, i).requests + if LoadAt(r, i) == [] then [] else [LoadAt(r, i)[0].r]
  {
    hide VisitAll, Judge;
    VisitAllSnoc(r.cfg, r.seen, Progress(r.rows, 0, []), r.keys[..i], r.lucks[..i], r.keys[i], r.lucks[i]);
    assert r.keys[..i + 1] == r.keys[..i] + [r.keys[i]] && r.lucks[..i + 1] == r.lucks[..i] + [r.lucks[i]];
  }

  lemma RequestsSnoc(before: seq<Load>, l: seq<Load>)
    requires |l| <= 1
    ensures RequestsOf(before + l) == RequestsOf(before) + if l == [] then [] else [l[0].r]
  {
    assert l == [] || (before + l)[..|before|] == before;
    assert before + [] == before;
  }

  // ---------------------------------------------------------------- the destination

  /** The ids logged as delivered, and the requests carried out. */
  datatype Remote = Remote(log: set<string>, done: seq<Request>)

  /** A logged id is answered as delivered already; a failed load is not logged. */
  function Answered(w: Remote, l: Load): Remote {
    if l.r.key in w.log || !l.ok then w else Remote(w.log + {l.r.key}, w.done + [l.r])
  }

  function AnsweredAll(w: Remote, loads: seq<Load>): Remote {
    if loads == [] then w else Answered(AnsweredAll(w, loads[..|loads| - 1]), loads[|loads| - 1])
  }

  ghost predicate AllProper(rounds: seq<Round>) { forall r :: r in rounds ==> Proper(r) }

  ghost function AfterRounds(w: Remote, rounds: seq<Round>): Remote
    requires AllProper(rounds)
  {
    if rounds == [] then w
    else
      var r := rounds[|rounds| - 1];
      AnsweredAll(AfterRounds(w, rounds[..|rounds| - 1]), LoadsTo(r, |r.keys|))
  }

  /** How often the destination lost the entity. */
  function Lost(w: Remote, k: string): nat { multiset(w.done)[DeleteRow(k)] }

  // ---------------------------------------------------------------- one sweep

  /** The sweep asks for `q`, and the load would succeed. */
  ghost predicate Asks(r: Round, q: Request)
    requires Proper(r)
  {
    exists i :: 0 <= i < |r.keys| && LoadAt(r, i) == [Load(q, true)]
  }

  lemma LoadIsOfKey(r: Round, i: nat)
    requires Proper(r) && i < |r.keys|
    ensures |LoadAt(r, i)| <= 1 && (LoadAt(r, i) != [] ==> LoadAt(r, i)[0].r.key == r.keys[i])
  {
    hide Judge, VisitAll;
  }

  lemma AnsweredOne(w: Remote, before: seq<Load>, l: seq<Load>, k: string)
    requires |l| <= 1
    ensures Effect(AnsweredAll(w, before), AnsweredAll(w, before + l), k, l)
  {
    if l == [] {
      assert before + l == before;
    } else {
      assert (before + l)[..|before|] == before && l == [l[0]];
      assert AnsweredAll(w, before + l) == Answered(AnsweredAll(w, before), l[0]);
    }
  }

  /** Of the entities listed so far only the `i`-th itself matters to it. */
  lemma {:induction false} PrefixEffect(w: Remote, r: Round, n: nat, i: nat)
    requires Proper(r) && i < |r.keys| && n <= |r.keys|
    ensures Effect(w, AnsweredAll(w, LoadsTo(r, n)), r.keys[i], if i < n then LoadAt(r, i) else [])
  {
    hide LoadAt, Lost, Effect;
    if n == 0 {
      NoEffect(w, r.keys[i]);
    } else {
      PrefixEffect(w, r, n - 1, i);
      LoadIsOfKey(r, n - 1);
      var a, l := AnsweredAll(w, LoadsTo(r, n - 1)), LoadAt(r, n - 1);
      AnsweredOne(w, LoadsTo(r, n - 1), l, r.keys[i]);
      if n - 1 == i {
        AfterNoEffect(w, a, AnsweredAll(w, LoadsTo(r, n)), r.keys[i], l);
      } else {
        NotMine(w, a, AnsweredAll(w, LoadsTo(r, n)), r.keys[i], l, if i < n then LoadAt(r, i) else []);
      }
    }
  }

  /** What one load does about the entity. */
  ghost predicate Effect(a: Remote, b: Remote, k: string, l: seq<Load>) {
    var mine := l != [] && l[0].r.key == k && l[0].ok;
    && (k in b.log <==> k in a.log || mine)
    && Lost(b, k) == Lost(a, k) + if mine && k !in a.log && l[0].r.DeleteRow? then 1 else 0
  }

  lemma NoEffect(w: Remote, k: string)
    ensures Effect(w, AnsweredAll(w, []), k, [])
  {
  }

  lemma AfterNoEffect(w: Remote, a: Remote, b: Remote, k: string, l: seq<Load>)
    requires Effect(w, a, k, []) && Effect(a, b, k, l)
    ensures Effect(w, b, k, l)
  {
  }

  lemma NotMine(w: Remote, a: Remote, b: Remote, k: string, l: seq<Load>, mine: seq<Load>)
    requires Effect(w, a, k, mine) && Effect(a, b, k, l) && (l != [] ==> l[0].r.key != k)
    ensures Effect(w, b, k, mine)
  {
  }

  /** A sweep makes the destination lose the entity when it asks for its delete and the id is not logged; whatever it
      asks for is logged. */
  lemma RoundEffect(w: Remote, r: Round, k: string)
    requires Proper(r)
    ensures var b := AnsweredAll(w, LoadsTo(r, |r.keys|));
      && (k in b.log <==> k in w.log || Asks(r, DeleteRow(k)) || Asks(r, ClearRow(k)))
      && Lost(b, k) == Lost(w, k) + if Asks(r, DeleteRow(k)) && k !in w.log then 1 else 0
  {
    hide AnsweredAll, Lost, LoadsTo;
    if k in r.keys {
      var i :| 0 <= i < |r.keys| && r.keys[i] == k;
      PrefixEffect(w, r, |r.keys|, i);
      AsksAt(r, i);
      LoadIsOfKey(r, i);
      hide LoadAt, Asks;
    } else {
      Unlisted(w, r, |r.keys|, k);
      AsksOfListed(r, k);
    }
  }

  lemma AsksAt(r: Round, i: nat)
    requires Proper(r) && i < |r.keys|
    ensures forall q: Request :: q.key == r.keys[i] ==> (Asks(r, q) <==> LoadAt(r, i) == [Load(q, true)])
  {
    forall j, q: Request | 0 <= j < |r.keys| && LoadAt(r, j) == [Load(q, true)]
      ensures r.keys[j] == q.key { LoadIsOfKey(r, j); }
    hide LoadAt;
  }

  lemma AsksOfListed(r: Round, k: string)
    requires Proper(r) && k !in r.keys
    ensures !Asks(r, DeleteRow(k)) && !Asks(r, ClearRow(k))
  {
    forall j, q: Request | 0 <= j < |r.keys| && LoadAt(r, j) == [Load(q, true)]
      ensures r.keys[j] == q.key { LoadIsOfKey(r, j); }
    hide LoadAt;
  }

  lemma {:induction false} Unlisted(w: Remote, r: Round, n: nat, k: string)
    requires Proper(r) && n <= |r.keys| && k !in r.keys
    ensures Effect(w, AnsweredAll(w, LoadsTo(r, n)), k, [])
  {
    hide LoadAt, Lost, Effect;
    if n == 0 {
      NoEffect(w, k);
    } else {
      Unlisted(w, r, n - 1, k);
      LoadIsOfKey(r, n - 1);
      AnsweredOne(w, LoadsTo(r, n - 1), LoadAt(r, n - 1), k);
      NotMine(w, AnsweredAll(w, LoadsTo(r, n - 1)), AnsweredAll(w, LoadsTo(r, n)), k, LoadAt(r, n - 1), []);
    }
  }

  // ---------------------------------------------------------------- many sweeps

  /** Some sweep asked for anything about the entity. */
  ghost predicate AskedBefore(rounds: seq<Round>, k: string)
    requires AllProper(rounds)
  {
    exists r :: r in rounds && (Asks(r, DeleteRow(k)) || Asks(r, ClearRow(k)))
  }

  /** Over any sweeps, with anything done to the states in between: the id is logged once it was asked for, and the
      destination loses the entity in a sweep exactly when that asks for its delete and no earlier one has asked for a
      delete or a clearing. So it loses it at most once, whatever the states record. */
  lemma {:induction false} LostIff(w: Remote, rounds: seq<Round>, k: string)
    requires AllProper(rounds) && k !in w.log
    ensures k in AfterRounds(w, rounds).log <==> AskedBefore(rounds, k)
    ensures Lost(AfterRounds(w, rounds), k) <= Lost(w, k) + (if AskedBefore(rounds, k) then 1 else 0)
    ensures rounds != [] ==>
      var n := |rounds| - 1;
      Lost(AfterRounds(w, rounds), k) == Lost(AfterRounds(w, rounds[..n]), k)
        + if Asks(rounds[n], DeleteRow(k)) && !AskedBefore(rounds[..n], k) then 1 else 0
  {
    if rounds != [] {
      var n := |rounds| - 1;
      assert rounds == rounds[..n] + [rounds[n]];
      LostIff(w, rounds[..n], k);
      RoundEffect(AfterRounds(w, rounds[..n]), rounds[n], k);
      hide Asks, Lost, AnsweredAll, LoadsTo;
    }
  }

  // ---------------------------------------------------------------- gone, back, and gone again

  const DELETING := Config(1, Delete, true, 0, [], true)

  /** The entity alone in the store, saved anew, and not extracted. */
  function Gone(k: string): Round { Round(DELETING, {}, map[k := Entity(0, "upsert", "")], [k], [Luck(true, true)]) }

  lemma GoneAsks(k: string)
    ensures Proper(Gone(k)) && Asks(Gone(k), DeleteRow(k))
    ensures Before(Gone(k), 1).rows == map[k := Entity(0, "delete", "")]
  {
    var r := Gone(k);
    assert r.keys[..1][..0] == [] && r.keys[..0] == [] && r.lucks[..0] == [] && r.lucks[..1][..0] == [];
    assert Before(r, 0) == Progress(r.rows, 0, []);
    assert Before(r, 1) == Visit(r.cfg, r.seen, Before(r, 0), k, Luck(true, true));
    assert LoadAt(r, 0) == [Load(DeleteRow(k), true)];
  }

  /** An entity is deleted, comes back and is gone again. The second sweep records a delete once more, and the
      destination keeps the entity. */
  lemma SecondDeleteIsSkipped(k: string)
    ensures var w := AfterRounds(Remote({}, []), [Gone(k)]); Lost(w, k) == 1
    ensures Lost(AfterRounds(Remote({}, []), [Gone(k), Gone(k)]), k) == 1
    ensures Before(Gone(k), 1).rows[k].decision == "delete"
  {
    var w: Remote, one, two := Remote({}, []), [Gone(k)], [Gone(k), Gone(k)];
    GoneAsks(k);
    assert one[..0] == [] && two[..1] == one && Gone(k) in one;
    hide Asks, AfterRounds, LoadAt, Lost, Proper;
    NothingLost(w, k);
    assert AskedBefore(one, k) && !AskedBefore([], k);
    LostIff(w, one, k);
    LostIff(w, two, k);
  }

  lemma NothingLost(w: Remote, k: string)
    requires w.done == []
    ensures Lost(w, k) == 0 && AfterRounds(w, []) == w
  {
  }
}
