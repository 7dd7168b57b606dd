/** Field differences between two payloads. Values are compared by their printed form, whatever it is. */
module Diff {
  import opened Common
  import opened Json

  type Payload = map<string, Json>

  datatype Change = Change(previous: Json, current: Json)

  type Changes = map<string, Change>

  /** A missing field reads as null. */
  function Field(p: Payload, k: string): Json { if k in p then p[k] else Null }

  /** Field `k` is reported: it is new, gone, or prints differently. */
  predicate Differs(show: Json -> string, previous: Payload, current: Payload, k: string) {
    (k in previous && k in current && show(previous[k]) != show(current[k]))
    || (k in previous && k !in current) || (k !in previous && k in current)
  }

  function Difference(show: Json -> string, previous: Payload, current: Payload): Changes {
    map k | k in previous.Keys + current.Keys && Differs(show, previous, current, k)
      :: Change(Field(previous, k), Field(current, k))
  }

  /** The part of the difference that the fields `seen` of the current payload give. */
  function FromCurrent(show: Json -> string, previous: Payload, current: Payload, seen: set<string>): Changes {
    map k | k in seen && k in current && Differs(show, previous, current, k) :: Change(Field(previous, k), current[k])
  }

  lemma FromCurrentStep(show: Json -> string, previous: Payload, current: Payload, seen: set<string>, k: string)
    requires k in current
    ensures FromCurrent(show, previous, current, seen + {k}) ==
      if k !in previous || show(previous[k]) != show(current[k])
      then FromCurrent(show, previous, current, seen)[k := Change(Field(previous, k), current[k])]
      else FromCurrent(show, previous, current, seen)
  {
  }

  lemma AllFromCurrent(show: Json -> string, previous: Payload, current: Payload, out: Changes)
    requires forall k :: k in out <==>
      k in FromCurrent(show, previous, current, current.Keys) || (k in previous && k !in current)
    requires forall k :: k in out ==> out[k] == Change(Field(previous, k), Field(current, k))
    ensures out == Difference(show, previous, current)
  {
  }

  method Compute(show: Json -> string, previous: Payload, current: Payload) returns (out: Changes)
    ensures out == Difference(show, previous, current)
  {
    out := map[];
    var seen: set<string> := {};
    var todo := current.Keys;
    while todo != {}
      invariant todo <= current.Keys && seen == current.Keys - todo
      invariant out == FromCurrent(show, previous, current, seen)
      decreases todo
    {
      hide FromCurrent;
      var k :| k in todo;
      FromCurrentStep(show, previous, current, seen, k);
      todo := todo - {k};
      seen := seen + {k};
      if k !in previous || show(previous[k]) != show(current[k]) {
        out := out[k := Change(Field(previous, k), current[k])];
      }
    }
    assert seen == current.Keys;
    todo := previous.Keys;
    while todo != {}
      invariant todo <= previous.Keys
      invariant forall k :: k in out <==>
        k in FromCurrent(show, previous, current, current.Keys) || (k in previous && k !in todo && k !in current)
      invariant forall k :: k in out ==> out[k] == Change(Field(previous, k), Field(current, k))
      decreases todo
    {
      var k :| k in todo;
      todo := todo - {k};
      if k !in seen {
        out := out[k := Change(previous[k], Null)];
      }
    }
    AllFromCurrent(show, previous, current, out);
  }

  /** Nothing is reported between a payload and itself. */
  lemma NoDifferenceToItself(show: Json -> string, p: Payload)
    ensures Difference(show, p, p) == map[]
  {
  }

  predicate OnlyContains(r: Changes, fields: seq<string>) { |r| == |fields| && forall f :: f in fields ==> f in r }

  method CheckOnlyContains(r: Changes, fields: seq<string>) returns (ok: bool)
    ensures ok <==> OnlyContains(r, fields)
  {
    if |r| != |fields| {
      return false;
    }
    for i := 0 to |fields|
      invariant forall f :: f in fields[..i] ==> f in r
    {
      if fields[i] !in r {
        return false;
      }
    }
    assert fields[..|fields|] == fields;
    return true;
  }

  lemma {:induction false} DistinctSize(fields: seq<string>)
    ensures |SetOf(fields)| <= |fields|
    ensures |SetOf(fields)| == |fields| <==> Distinct(fields)
  {
    if fields != [] {
      var n := |fields| - 1;
      DistinctSize(fields[..n]);
      assert fields == fields[..n] + [fields[n]];
      assert SetOf(fields) == SetOf(fields[..n]) + {fields[n]};
      if fields[n] in fields[..n] {
        assert SetOf(fields) == SetOf(fields[..n]);
      }
    }
  }

  /** The check means "exactly these fields changed" precisely for lists without repetition: such a list passes
      iff it names the changed fields, and a list with repetition never passes when it names them. */
  lemma OnlyContainsMeans(r: Changes, fields: seq<string>)
    ensures Distinct(fields) ==> (OnlyContains(r, fields) <==> r.Keys == SetOf(fields))
    ensures r.Keys == SetOf(fields) ==> (OnlyContains(r, fields) <==> Distinct(fields))
  {
    DistinctSize(fields);
    assert |r| == |r.Keys|;
    assert (forall f :: f in fields ==> f in r) <==> SetOf(fields) <= r.Keys;
    if SetOf(fields) <= r.Keys && |SetOf(fields)| == |r.Keys| {
      SubsetOfSameSize(SetOf(fields), r.Keys);
    }
  }

  lemma SubsetOfSameSize(a: set<string>, b: set<string>)
    requires a <= b && |a| == |b|
    ensures a == b
  {
    assert |b - a| == |b| - |a|;
  }

  /** A repeated name can stand in for a field that changed but is not listed. */
  lemma RepetitionPasses(r: Changes)
    requires r.Keys == {"a", "b"}
    ensures OnlyContains(r, ["a", "a"]) && r.Keys != SetOf(["a", "a"])
  {
    assert |r| == |r.Keys|;
    assert "b" !in SetOf(["a", "a"]);
  }

  predicate Transitioned(show: Json -> string, r: Changes, field: string, from: string, to: string) {
    field in r && show(r[field].previous) == from && show(r[field].current) == to
  }
}

/** Decision rules: predicates, the first match that has not fired, and the trace of all rules. */
module Decision {
  import opened Common
  import opened Json
  import opened Diff

  datatype Transition = Transition(field: string, from: string, to: string)

  /** A configured predicate. All parts are optional; a list may hold missing entries. */
  datatype When = When(firstSeen: bool, fingerprintChanged: bool, transitioned: Option<Transition>,
                       onlyChanged: seq<string>, anyOf: seq<Option<When>>, allOf: seq<Option<When>>,
                         negated: Option<When>)

  datatype Input = Input(isFirstSeen: bool, fingerprintChanged: bool, changes: Changes)

  /** The parts are tried in this order; the first one present decides. */
  predicate EvalWhen(show: Json -> string, w: When, x: Input)
    decreases w, 1, 0
  {
    if w.firstSeen then x.isFirstSeen
    else if w.fingerprintChanged then x.fingerprintChanged
    else if w.transitioned.Some? then
      var t := w.transitioned.value;
      Transitioned(show, x.changes, t.field, t.from, t.to)
    else if w.onlyChanged != [] then OnlyContains(x.changes, w.onlyChanged)
    else if w.anyOf != [] then EvalAny(show, w, x, 0)
    else if w.allOf != [] then EvalAll(show, w, x, 0)
    else if w.negated.Some? then !EvalWhen(show, w.negated.value, x)
    else false
  }

  predicate EvalAny(show: Json -> string, w: When, x: Input, i: nat)
    requires i <= |w.anyOf|
    decreases w, 0, |w.anyOf| - i
  {
    i < |w.anyOf| && ((w.anyOf[i].Some? && EvalWhen(show, w.anyOf[i].value, x)) || EvalAny(show, w, x, i + 1))
  }

  predicate EvalAll(show: Json -> string, w: When, x: Input, i: nat)
    requires i <= |w.allOf|
    decreases w, 0, |w.allOf| - i
  {
    i < |w.allOf| ==> (w.allOf[i].Some? ==> EvalWhen(show, w.allOf[i].value, x)) && EvalAll(show, w, x, i + 1)
  }

  /** The early returns over a list are a disjunction over its entries that are there, and a conjunction. */
  lemma {:induction false} AnyMeans(show: Json -> string, w: When, x: Input, i: nat)
    requires i <= |w.anyOf|
    ensures EvalAny(show, w, x, i) <==>
      exists j :: i <= j < |w.anyOf| && w.anyOf[j].Some? && EvalWhen(show, w.anyOf[j].value, x)
    decreases |w.anyOf| - i
  {
    if i < |w.anyOf| {
      AnyMeans(show, w, x, i + 1);
    }
  }

  lemma {:induction false} AllMeans(show: Json -> string, w: When, x: Input, i: nat)
    requires i <= |w.allOf|
    ensures EvalAll(show, w, x, i) <==>
      forall j :: i <= j < |w.allOf| && w.allOf[j].Some? ==> EvalWhen(show, w.allOf[j].value, x)
    decreases |w.allOf| - i
  {
    if i < |w.allOf| {
      AllMeans(show, w, x, i + 1);
    }
  }

  // ---------------------------------------------------------------- what the parts mean

  /** What is configured apart from the other parts. */
  const BLANK := When(false, false, None, [], [], [], None)

  function Payloads(show: Json -> string, isNew: bool, changed: bool, previous: Payload, current: Payload): Input {
    Input(isNew, changed, Difference(show, previous, current))
  }

  /** The field is in one payload only, or prints differently in the two. */
  predicate Changed(show: Json -> string, previous: Payload, current: Payload, f: string) {
    if f in previous && f in current then show(previous[f]) != show(current[f]) else f in previous || f in current
  }

  /** A transition asks for a changed field that printed `from` in the previous payload and prints `to` in the
      current one,
      a missing field being null. */
  lemma TransitionMeans(show: Json -> string, isNew: bool, changed: bool, previous: Payload, current: Payload,
                        f: string, from: string, to: string)
    ensures EvalWhen(show, BLANK.(transitioned := Some(Transition(f, from, to))),
                     Payloads(show, isNew, changed, previous, current)) <==>
      && Changed(show, previous, current, f)
      && show(if f in previous then previous[f] else Null) == from &&
        show(if f in current then current[f] else Null) == to
  {
  }

  /** A list without repetition asks for exactly its fields to be changed. */
  lemma OnlyChangedMeans(show: Json -> string, isNew: bool, changed: bool, previous: Payload, current: Payload,
                         fields: seq<string>)
    requires fields != [] && Distinct(fields)
    ensures EvalWhen(show, BLANK.(onlyChanged := fields), Payloads(show, isNew, changed, previous, current)) <==>
      forall f :: f in fields <==> Changed(show, previous, current, f)
  {
    var r := Difference(show, previous, current);
    OnlyContainsMeans(r, fields);
    assert forall f :: f in r <==> Changed(show, previous, current, f);
    if forall f :: f in fields <==> Changed(show, previous, current, f) {
      assert r.Keys == SetOf(fields);
    }
  }

  /** The first part that is present decides, in this order, and the rest does not matter. */
  lemma FirstPartDecides(show: Json -> string, w: When, x: Input)
    ensures w.firstSeen ==> (EvalWhen(show, w, x) <==> x.isFirstSeen)
    ensures !w.firstSeen && w.fingerprintChanged ==> (EvalWhen(show, w, x) <==> x.fingerprintChanged)
    ensures !w.firstSeen && !w.fingerprintChanged ==>
      (w.transitioned.Some? ==> (EvalWhen(show, w, x) <==> EvalWhen(show, BLANK.(transitioned := w.transitioned), x)))
      && (w.transitioned.None? && w.onlyChanged != [] ==>
            (EvalWhen(show, w, x) <==> EvalWhen(show, BLANK.(onlyChanged := w.onlyChanged), x)))
    ensures !w.firstSeen && !w.fingerprintChanged && w.transitioned.None? && w.onlyChanged == [] ==>
      (w.anyOf != [] ==> (EvalWhen(show, w, x) <==>
         exists j :: 0 <= j < |w.anyOf| && w.anyOf[j].Some? && EvalWhen(show, w.anyOf[j].value, x)))
      && (w.anyOf == [] && w.allOf != [] ==> (EvalWhen(show, w, x) <==>
            forall j :: 0 <= j < |w.allOf| && w.allOf[j].Some? ==> EvalWhen(show, w.allOf[j].value, x)))
      && (w.anyOf == [] && w.allOf == [] ==> (EvalWhen(show, w, x) <==>
            w.negated.Some? && !EvalWhen(show, w.negated.value, x)))
  {
    AnyMeans(show, w, x, 0);
    AllMeans(show, w, x, 0);
  }

  // ---------------------------------------------------------------- when nothing has changed

  /** What a predicate says about an entity that is known and has not changed. */
  predicate HoldsStill(w: When)
    decreases w, 1, 0
  {
    if w.firstSeen || w.fingerprintChanged || w.transitioned.Some? || w.onlyChanged != [] then false
    else if w.anyOf != [] then AnyStill(w, 0)
    else if w.allOf != [] then AllStill(w, 0)
    else w.negated.Some? && !HoldsStill(w.negated.value)
  }

  predicate AnyStill(w: When, i: nat)
    requires i <= |w.anyOf|
    decreases w, 0, |w.anyOf| - i
  {
    i < |w.anyOf| && ((w.anyOf[i].Some? && HoldsStill(w.anyOf[i].value)) || AnyStill(w, i + 1))
  }

  predicate AllStill(w: When, i: nat)
    requires i <= |w.allOf|
    decreases w, 0, |w.allOf| - i
  {
    i < |w.allOf| ==> (w.allOf[i].Some? ==> HoldsStill(w.allOf[i].value)) && AllStill(w, i + 1)
  }

  const STILL := Input(false, false, map[])

  lemma {:induction false} StillMeans(show: Json -> string, w: When)
    ensures EvalWhen(show, w, STILL) <==> HoldsStill(w)
    decreases w, 1, 0
  {
    if w.anyOf != [] { AnyStillMeans(show, w, 0); }
    if w.allOf != [] { AllStillMeans(show, w, 0); }
    if w.negated.Some? { StillMeans(show, w.negated.value); }
  }

  lemma {:induction false} AnyStillMeans(show: Json -> string, w: When, i: nat)
    requires i <= |w.anyOf|
    ensures EvalAny(show, w, STILL, i) <==> AnyStill(w, i)
    decreases w, 0, |w.anyOf| - i
  {
    if i < |w.anyOf| {
      if w.anyOf[i].Some? { StillMeans(show, w.anyOf[i].value); }
      AnyStillMeans(show, w, i + 1);
    }
  }

  lemma {:induction false} AllStillMeans(show: Json -> string, w: When, i: nat)
    requires i <= |w.allOf|
    ensures EvalAll(show, w, STILL, i) <==> AllStill(w, i)
    decreases w, 0, |w.allOf| - i
  {
    if i < |w.allOf| {
      if w.allOf[i].Some? { StillMeans(show, w.allOf[i].value); }
      AllStillMeans(show, w, i + 1);
    }
  }

  /** No negation, and no `all` whose entries are all missing. */
  predicate Plain(w: When)
    decreases w
  {
    && w.negated.None?
    && (w.allOf != [] ==> exists i :: 0 <= i < |w.allOf| && w.allOf[i].Some?)
    && (forall i :: 0 <= i < |w.anyOf| && w.anyOf[i].Some? ==> Plain(w.anyOf[i].value))
    && (forall i :: 0 <= i < |w.allOf| && w.allOf[i].Some? ==> Plain(w.allOf[i].value))
  }

  lemma {:induction false} PlainNeverHoldsStill(w: When)
    requires Plain(w)
    ensures !HoldsStill(w)
    decreases w, 1, 0
  {
    if w.anyOf != [] { PlainAny(w, 0); }
    if w.allOf != [] {
      var i :| 0 <= i < |w.allOf| && w.allOf[i].Some?;
      PlainNeverHoldsStill(w.allOf[i].value);
      OneFails(w, 0, i);
    }
  }

  lemma {:induction false} PlainAny(w: When, i: nat)
    requires Plain(w) && i <= |w.anyOf|
    ensures !AnyStill(w, i)
    decreases w, 0, |w.anyOf| - i
  {
    if i < |w.anyOf| {
      if w.anyOf[i].Some? { PlainNeverHoldsStill(w.anyOf[i].value); }
      PlainAny(w, i + 1);
    }
  }

  lemma {:induction false} OneFails(w: When, from: nat, i: nat)
    requires from <= i < |w.allOf| && w.allOf[i].Some? && !HoldsStill(w.allOf[i].value)
    ensures !AllStill(w, from)
    decreases i - from
  {
    if from < i {
      OneFails(w, from + 1, i);
    }
  }

  // ---------------------------------------------------------------- rules

  datatype Rule = Rule(name: string, when: When, once: bool, action: string, remember: map<string, string>)

  datatype Config = Config(defaultAction: string, rules: seq<Rule>)

  datatype Plan = Plan(action: string, triggered: seq<string>, remember: map<string, string>)

  /** One entity at one moment: the input, the clock, and what the store answers about fired rules. */
  datatype Case = Case(show: Json -> string, input: Input, now: string, fired: string -> Option<bool>)

  /** Values are taken literally, but `now()` is the time. */
  function Remembered(c: Case, exprs: map<string, string>): map<string, string> {
    map k | k in exprs :: if exprs[k] == "now()" then c.now else exprs[k]
  }

  function OrDefault(cfg: Config, action: string): string {
    if action != "" then action else if cfg.defaultAction != "" then cfg.defaultAction else "skip"
  }

  function PlanOf(cfg: Config, c: Case, rule: Rule): Plan {
    Plan(OrDefault(cfg, rule.action), [rule.name], Remembered(c, rule.remember))
  }

  function DefaultPlan(cfg: Config): Plan { Plan(OrDefault(cfg, ""), [], map[]) }

  predicate Unanswered(c: Case, rule: Rule) { rule.once && c.fired(rule.name).None? }

  predicate AlreadyFired(c: Case, rule: Rule) { rule.once && c.fired(rule.name) == Some(true) }

  predicate Applies(c: Case, rule: Rule) { !AlreadyFired(c, rule) && EvalWhen(c.show, rule.when, c.input) }

  /** Rule `i` decides: it applies and no rule before it does. */
  ghost predicate Decides(cfg: Config, c: Case, i: int) {
    0 <= i < |cfg.rules| && Applies(c, cfg.rules[i]) && forall j :: 0 <= j < i ==> !Applies(c, cfg.rules[j])
  }

  /** The store answered for every rule up to the deciding one. */
  ghost predicate Answered(cfg: Config, c: Case, n: int) {
    forall j :: 0 <= j < n && j < |cfg.rules| ==> !Unanswered(c, cfg.rules[j])
  }

  /** The plan of the deciding rule, the default when none decides, and an error exactly when the store failed
      for a rule that was reached. */
  ghost function Evaluation(cfg: Config, c: Case): Option<Plan> {
    if exists i :: Decides(cfg, c, i) then
      var i :| Decides(cfg, c, i);
      if Answered(cfg, c, i + 1) then Some(PlanOf(cfg, c, cfg.rules[i])) else None
    else
      if Answered(cfg, c, |cfg.rules|) then Some(DefaultPlan(cfg)) else None
  }

  ghost predicate IsEvaluation(cfg: Config, c: Case, r: Option<Plan>) { r == Evaluation(cfg, c) }

  lemma DecidesOnce(cfg: Config, c: Case, i: int, j: int)
    requires Decides(cfg, c, i) && Decides(cfg, c, j)
    ensures i == j
  {
  }

  method Evaluate(cfg: Config, c: Case) returns (r: Option<Plan>)
    ensures IsEvaluation(cfg, c, r)
  {
    var i := 0;
    while i < |cfg.rules|
      invariant 0 <= i <= |cfg.rules| && Answered(cfg, c, i)
      invariant forall j :: 0 <= j < i ==> !Applies(c, cfg.rules[j])
    {
      var rule := cfg.rules[i];
      if rule.once {
        var fired := c.fired(rule.name);
        if fired.None? {
          Unreached(cfg, c, i);
          return None;
        }
        if fired.value {
          i := i + 1;
          continue;
        }
      }
      if !EvalWhen(c.show, rule.when, c.input) {
        i := i + 1;
        continue;
      }
      var plan := Plan(rule.action, [rule.name], Remembered(c, rule.remember));
      if plan.action == "" {
        plan := plan.(action := if cfg.defaultAction == "" then "skip" else cfg.defaultAction);
      }
      assert Decides(cfg, c, i);
      ByDecider(cfg, c, i, Some(plan));
      return Some(plan);
    }
    r := Some(Plan(if cfg.defaultAction == "" then "skip" else cfg.defaultAction, [], map[]));
  }

  lemma ByDecider(cfg: Config, c: Case, i: int, r: Option<Plan>)
    requires Decides(cfg, c, i) && r == if Answered(cfg, c, i + 1) then Some(PlanOf(cfg, c, cfg.rules[i])) else None
    ensures IsEvaluation(cfg, c, r)
  {
    var k :| Decides(cfg, c, k);
    DecidesOnce(cfg, c, i, k);
    forall k | Decides(cfg, c, k) ensures k == i { DecidesOnce(cfg, c, i, k); }
  }

  /** A store failure at a rule that is reached is the result. */
  lemma Unreached(cfg: Config, c: Case, i: nat)
    requires i < |cfg.rules| && Unanswered(c, cfg.rules[i]) && forall j :: 0 <= j < i ==> !Applies(c, cfg.rules[j])
    ensures IsEvaluation(cfg, c, None)
  {
    if k :| Decides(cfg, c, k) {
      assert k >= i;
      ByDecider(cfg, c, k, None);
    }
  }

  /** The plan of the deciding rule: its action, or the default, or to skip; its name; and the values it remembers, with
      the time for `now()`. Without a deciding rule it is the default, or to skip. */
  lemma PlanMeans(cfg: Config, c: Case)
    requires Evaluation(cfg, c).Some?
    ensures forall i :: Decides(cfg, c, i) ==>
      var p, r := Evaluation(cfg, c).value, cfg.rules[i];
      && p.triggered == [r.name] && p.remember.Keys == r.remember.Keys
      && p.action ==
         (if r.action != "" then r.action else if cfg.defaultAction != "" then cfg.defaultAction else "skip")
      && forall k :: k in r.remember ==> p.remember[k] == if r.remember[k] == "now()" then c.now else r.remember[k]
    ensures (forall i :: !Decides(cfg, c, i)) ==>
      Evaluation(cfg, c).value == Plan(if cfg.defaultAction != "" then cfg.defaultAction else "skip", [], map[])
  {
    if i :| Decides(cfg, c, i) {
      ByDecider(cfg, c, i, if Answered(cfg, c, i + 1) then Some(PlanOf(cfg, c, cfg.rules[i])) else None);
      forall j | Decides(cfg, c, j) ensures i == j { DecidesOnce(cfg, c, i, j); }
    }
  }

  /** A triggered rule is the deciding one. If every rule of its name is a once-rule, the store has answered
      that it had not fired. */
  lemma TriggeredHadNotFired(cfg: Config, c: Case, p: Plan, name: string)
    requires Evaluation(cfg, c) == Some(p) && name in p.triggered
    ensures exists rule :: rule in cfg.rules && rule.name == name
    ensures (forall rule :: rule in cfg.rules && rule.name == name ==> rule.once) ==> c.fired(name) == Some(false)
  {
    var i :| Decides(cfg, c, i);
    ByDecider(cfg, c, i, if Answered(cfg, c, i + 1) then Some(PlanOf(cfg, c, cfg.rules[i])) else None);
    assert cfg.rules[i] in cfg.rules && cfg.rules[i].name == name;
    assert Answered(cfg, c, i + 1);
    assert !Unanswered(c, cfg.rules[i]) && !AlreadyFired(c, cfg.rules[i]);
    if cfg.rules[i].once {
      var answer := c.fired(name);
      assert answer == Some(answer.value) && !answer.value;
    }
  }

  /** Only the input and the answers about fired rules matter for the action. */
  lemma SameAction(cfg: Config, c: Case, d: Case)
    requires c.show == d.show && c.input == d.input && forall name :: c.fired(name) == d.fired(name)
    ensures Evaluation(cfg, c).Some? <==> Evaluation(cfg, d).Some?
    ensures Evaluation(cfg, c).Some? ==> Evaluation(cfg, c).value.action == Evaluation(cfg, d).value.action
  {
    assert forall rule :: Applies(c, rule) <==> Applies(d, rule);
    assert forall i :: Decides(cfg, c, i) <==> Decides(cfg, d, i);
    assert forall n :: Answered(cfg, c, n) <==> Answered(cfg, d, n);
    if i :| Decides(cfg, c, i) {
      ByDecider(cfg, c, i, if Answered(cfg, c, i + 1) then Some(PlanOf(cfg, c, cfg.rules[i])) else None);
      ByDecider(cfg, d, i, if Answered(cfg, d, i + 1) then Some(PlanOf(cfg, d, cfg.rules[i])) else None);
    }
  }

  /** An unchanged entity gets the default plan when no rule holds still. */
  lemma StillGetsDefault(cfg: Config, c: Case, r: Option<Plan>)
    requires IsEvaluation(cfg, c, r) && c.input == STILL && forall rule :: rule in cfg.rules ==> !HoldsStill(rule.when)
    ensures r == None || r == Some(DefaultPlan(cfg))
  {
    if i :| Decides(cfg, c, i) {
      assert cfg.rules[i] in cfg.rules;
      StillMeans(c.show, cfg.rules[i].when);
    }
  }

  // ---------------------------------------------------------------- the trace

  datatype Entry = Entry(rule: string, action: string, matched: bool, firedBefore: bool, winner: bool)

  /** The entry a trace must have for rule `i`. */
  ghost predicate IsEntry(cfg: Config, c: Case, i: nat, e: Entry)
    requires i < |cfg.rules|
  {
    var rule := cfg.rules[i];
    && e.rule == rule.name && e.action == rule.action
    && (e.firedBefore <==> AlreadyFired(c, rule))
    && (e.matched <==> Applies(c, rule))
    && (e.winner <==> Decides(cfg, c, i))
  }

  method Trace(cfg: Config, c: Case) returns (r: Option<Plan>, entries: seq<Entry>)
    ensures r.Some? <==> Answered(cfg, c, |cfg.rules|)
    ensures r.Some? ==> IsEvaluation(cfg, c, r) && |entries| == |cfg.rules|
    ensures |entries| <= |cfg.rules| && forall i :: 0 <= i < |entries| ==> IsEntry(cfg, c, i, entries[i])
  {
    entries := [];
    var plan := Plan("", [], map[]);
    var won := false;
    ghost var winner := 0;
    var i := 0;
    while i < |cfg.rules|
      invariant 0 <= i <= |cfg.rules| == |cfg.rules| && |entries| == i && Answered(cfg, c, i)
      invariant forall j :: 0 <= j < i ==> IsEntry(cfg, c, j, entries[j])
      invariant won ==> winner < i && Decides(cfg, c, winner)
      invariant won ==>
        plan == Plan(cfg.rules[winner].action, [cfg.rules[winner].name], Remembered(c, cfg.rules[winner].remember))
      invariant !won ==> plan == Plan("", [], map[]) && forall j :: 0 <= j < i ==> !Applies(c, cfg.rules[j])
    {
      var rule := cfg.rules[i];
      var entry := Entry(rule.name, rule.action, false, false, false);
      if rule.once {
        var fired := c.fired(rule.name);
        if fired.None? {
          return None, entries;
        }
        if fired.value {
          entries := entries + [entry.(firedBefore := true)];
          i := i + 1;
          continue;
        }
      }
      var matched := EvalWhen(c.show, rule.when, c.input);
      entry := entry.(matched := matched);
      if matched && !won {
        won := true;
        entry := entry.(winner := true);
        plan := Plan(rule.action, [rule.name], Remembered(c, rule.remember));
        winner := i;
      }
      if won && winner < i {
        NotASecond(cfg, c, winner, i);
      }
      entries := entries + [entry];
      i := i + 1;
    }
    if plan.action == "" {
      plan := plan.(action := if cfg.defaultAction == "" then "skip" else cfg.defaultAction);
    }
    if won {
      ByDecider(cfg, c, winner, Some(plan));
    }
    r := Some(plan);
  }

  lemma NotASecond(cfg: Config, c: Case, i: nat, j: nat)
    requires Decides(cfg, c, i) && i < j
    ensures !Decides(cfg, c, j)
  {
  }

  /** A successful trace has the plan of the evaluation; it fails beside it only when the store fails for a
      rule behind the deciding one. */
  lemma TraceRefinesEvaluate(cfg: Config, c: Case, traced: Option<Plan>, evaluated: Option<Plan>)
    requires IsEvaluation(cfg, c, evaluated)
    requires (traced.Some? <==> Answered(cfg, c, |cfg.rules|)) && (traced.Some? ==> IsEvaluation(cfg, c, traced))
    ensures traced.Some? ==> traced == evaluated
    ensures evaluated.Some? && traced.None? <==>
      exists i, j :: Decides(cfg, c, i) && Answered(cfg, c, i + 1) && i < j < |cfg.rules| && Unanswered(c, cfg.rules[j])
  {
    if traced.None? && evaluated.Some? {
      var j :| 0 <= j < |cfg.rules| && Unanswered(c, cfg.rules[j]);
      var i :| Decides(cfg, c, i);
      ByDecider(cfg, c, i, if Answered(cfg, c, i + 1) then Some(PlanOf(cfg, c, cfg.rules[i])) else None);
    }
    if i, j :| Decides(cfg, c, i) && Answered(cfg, c, i + 1) && i < j < |cfg.rules| && Unanswered(c, cfg.rules[j]) {
      ByDecider(cfg, c, i, Some(PlanOf(cfg, c, cfg.rules[i])));
    }
  }

  /** Two rules for new entities, the second one to fire once. */
  const TWO_RULES := Config("", [Rule("first", NEW, false, "upsert", map[]),
    Rule("welcome", NEW, true, "notify", map[])])

  const NEW := When(true, false, None, [], [], [], None)

  /** A new entity is evaluated by the first rule while the trace fails at the lookup of the second. */
  lemma TraceFailsAlone(show: Json -> string, now: string)
    ensures var c := Case(show, Input(true, true, map[]), now, _ => None);
      Evaluation(TWO_RULES, c) == Some(Plan("upsert", ["first"], map[])) && !Answered(TWO_RULES, c, |TWO_RULES.rules|)
  {
    var c := Case(show, Input(true, true, map[]), now, _ => None);
    assert EvalWhen(show, NEW, c.input);
    assert Decides(TWO_RULES, c, 0) && Answered(TWO_RULES, c, 1);
    ByDecider(TWO_RULES, c, 0, Some(PlanOf(TWO_RULES, c, TWO_RULES.rules[0])));
    assert Unanswered(c, TWO_RULES.rules[1]);
  }

  /** At most one entry of a trace is the winner, and it is the first matched one. */
  lemma OneWinner(cfg: Config, c: Case, entries: seq<Entry>)
    requires |entries| <= |cfg.rules| && forall i :: 0 <= i < |entries| ==> IsEntry(cfg, c, i, entries[i])
    ensures forall i, j :: 0 <= i < |entries| && 0 <= j < |entries| && entries[i].winner && entries[j].winner ==> i == j
    ensures forall i :: 0 <= i < |entries| ==>
      (entries[i].winner <==> entries[i].matched && forall j :: 0 <= j < i ==> !entries[j].matched)
  {
    forall i | 0 <= i < |entries|
      ensures entries[i].winner <==> entries[i].matched && forall j :: 0 <= j < i ==> !entries[j].matched
    {
      assert forall j :: 0 <= j < i ==> (entries[j].matched <==> Applies(c, cfg.rules[j]));
    }
  }
}
