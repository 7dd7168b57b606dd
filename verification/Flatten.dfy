/** The flatten step of a row transform: nested maps become top-level keys, in place, while the map is
    being ranged over in an order the language leaves open. */
module Flatten {
  import opened Common
  import opened Json

  type Data = map<string, Json>

  // ---------------------------------------------------------------- paths

  /** The value at a nonempty key path. */
  function NodeAt(m: Data, path: seq<string>): Option<Json>
    requires path != []
    decreases |path|
  {
    if path[0] !in m then None
    else if |path| == 1 then Some(m[path[0]])
    else if m[path[0]].Obj? then NodeAt(m[path[0]].fields, path[1..])
    else None
  }

  ghost predicate IsNode(m: Data, path: seq<string>) { path != [] && NodeAt(m, path).Some? }

  function Join(path: seq<string>, sep: string): string
    requires path != []
  {
    if |path| == 1 then path[0] else path[0] + sep + Join(path[1..], sep)
  }

  /** No two nodes, maps included, have paths that join to the same name. */
  ghost predicate Unambiguous(m: Data, sep: string) {
    forall p, q :: IsNode(m, p) && IsNode(m, q) && Join(p, sep) == Join(q, sep) ==> p == q
  }

  ghost predicate LeafAt(m: Data, sep: string, path: seq<string>, name: string, v: Json) {
    IsNode(m, path) && NodeAt(m, path) == Some(v) && !v.Obj? && Join(path, sep) == name
  }

  /** Some path leads to the leaf `v` and joins to `name`. */
  ghost predicate LeafNamed(m: Data, sep: string, name: string, v: Json) {
    exists path :: LeafAt(m, sep, path, name, v)
  }

  predicate Flat(m: Data) { forall k :: k in m ==> !m[k].Obj? }

  /** `out` maps exactly the joined paths of the leaves of `m` to those leaves. */
  ghost predicate IsFlattening(m: Data, sep: string, out: Data) {
    && Flat(out)
    && forall name, v :: (name in out && out[name] == v) <==> LeafNamed(m, sep, name, v)
  }

  // ---------------------------------------------------------------- one expansion

  /** `m'` is `m` with the map at `k` replaced by its own entries under prefixed keys. */
  ghost predicate Expanded(m: Data, k: string, sep: string, m': Data)
    requires k in m && m[k].Obj?
  {
    var n := m[k].fields;
    && (forall nk :: nk in n ==> k + sep + nk in m' && m'[k + sep + nk] == n[nk])
    && (forall x :: x in m && x != k && !Prefixed(n, k + sep, x) ==> x in m' && m'[x] == m[x])
    && (forall x :: x in m' ==> Prefixed(n, k + sep, x) || (x in m && x != k))
  }

  /** One expansion of some map. */
  ghost predicate Expands(m: Data, k: string, sep: string, m': Data) { k in m && m[k].Obj? && Expanded(m, k, sep, m') }

  /** `n` expansions lead from `m` to `m'`. */
  ghost predicate Reaches(m: Data, sep: string, n: nat, m': Data) {
    if n == 0 then m == m' else exists mid, k :: Reaches(m, sep, n - 1, mid) && Expands(mid, k, sep, m')
  }

  /** A result of expanding maps, in any order, until none is left. */
  ghost predicate IsResult(m: Data, sep: string, out: Data) { Flat(out) && exists n :: Reaches(m, sep, n, out) }

  lemma ReachesThen(m: Data, sep: string, n: nat, mid: Data, k: string, m': Data)
    requires Reaches(m, sep, n, mid) && Expands(mid, k, sep, m')
    ensures Reaches(m, sep, n + 1, m')
  {
  }

  /** `x` is the prefix followed by a key of `n`. */
  predicate Prefixed(n: Data, prefix: string, x: string) {
    prefix <= x && x[|prefix|..] in n
  }

  lemma PrefixedIs(n: Data, prefix: string, nk: string)
    ensures Prefixed(n, prefix, prefix + nk) <==> nk in n
    ensures (prefix + nk)[|prefix|..] == nk
  {
  }

  /** The path in the unexpanded data of a node of the expanded data. */
  ghost function Origin(m: Data, k: string, sep: string, path: seq<string>): seq<string>
    requires k in m && m[k].Obj? && path != []
  {
    var prefix := k + sep;
    if Prefixed(m[k].fields, prefix, path[0]) then [k, path[0][|prefix|..]] + path[1..] else path
  }

  /** The path in the expanded data of a node that is not the expanded map itself. */
  function Moved(k: string, sep: string, path: seq<string>): seq<string>
    requires path != [] && path != [k]
  {
    if path[0] == k then [k + sep + path[1]] + path[2..] else path
  }

  lemma JoinPrefix(k: string, sep: string, nk: string, rest: seq<string>)
    ensures Join([k, nk] + rest, sep) == Join([k + sep + nk] + rest, sep)
  {
    var p, q := [k, nk] + rest, [k + sep + nk] + rest;
    assert p[1..] == [nk] + rest;
    if rest == [] {
      assert p[1..] == [nk];
    } else {
      assert ([nk] + rest)[1..] == rest && q[1..] == rest;
      assert Join(p, sep) == k + sep + (nk + sep + Join(rest, sep));
    }
  }

  lemma NodeAtTwo(m: Data, k: string, nk: string, rest: seq<string>)
    ensures NodeAt(m, [k, nk] + rest) ==
      if k in m && m[k].Obj? then NodeAt(m[k].fields, [nk] + rest) else None
  {
    assert ([k, nk] + rest)[1..] == [nk] + rest;
  }

  lemma NodeAtHead(m: Data, n: Data, x: string, y: string, rest: seq<string>)
    requires x in m && y in n && m[x] == n[y]
    ensures NodeAt(m, [x] + rest) == NodeAt(n, [y] + rest)
  {
    assert ([x] + rest)[1..] == rest && ([y] + rest)[1..] == rest;
  }

  lemma OriginNode(m: Data, k: string, sep: string, m': Data, path: seq<string>)
    requires k in m && m[k].Obj? && sep != "" && Expanded(m, k, sep, m') && IsNode(m', path)
    ensures var q := Origin(m, k, sep, path);
      NodeAt(m, q) == NodeAt(m', path) && Join(q, sep) == Join(path, sep) && q != [k]
  {
    var x, rest, n, prefix := path[0], path[1..], m[k].fields, k + sep;
    assert path == [x] + rest;
    if Prefixed(n, prefix, x) {
      var nk := x[|prefix|..];
      assert x == k + sep + nk;
      JoinPrefix(k, sep, nk, rest);
      NodeAtTwo(m, k, nk, rest);
      NodeAtHead(n, m', nk, x, rest);
    } else {
      NodeAtHead(m, m', x, x, rest);
    }
  }

  lemma NotShadowed(m: Data, k: string, sep: string, x: string)
    requires k in m && m[k].Obj? && sep != "" && Unambiguous(m, sep) && x in m && x != k
    ensures !Prefixed(m[k].fields, k + sep, x)
  {
    if Prefixed(m[k].fields, k + sep, x) {
      var nk := x[|k + sep|..];
      assert x == k + sep + nk;
      JoinPrefix(k, sep, nk, []);
      NodeAtTwo(m, k, nk, []);
      assert [k, nk] + [] == [k, nk] && [k + sep + nk] + [] == [x];
      assert IsNode(m, [k, nk]) && Join([k, nk], sep) == Join([x], sep);
      assert IsNode(m, [x]);
      assert false;
    }
  }

  lemma MovedNode(m: Data, k: string, sep: string, m': Data, path: seq<string>)
    requires k in m && m[k].Obj? && sep != "" && Expanded(m, k, sep, m') && Unambiguous(m, sep)
    requires IsNode(m, path) && path != [k]
    ensures var q := Moved(k, sep, path);
      NodeAt(m', q) == NodeAt(m, path) && Join(q, sep) == Join(path, sep)
  {
    var n, prefix := m[k].fields, k + sep;
    if path[0] == k {
      var nk, rest := path[1], path[2..];
      assert path == [k, nk] + rest;
      JoinPrefix(k, sep, nk, rest);
      NodeAtTwo(m, k, nk, rest);
      NodeAtHead(n, m', nk, k + sep + nk, rest);
    } else {
      var x, rest := path[0], path[1..];
      assert path == [x] + rest;
      NotShadowed(m, k, sep, x);
      NodeAtHead(m, m', x, x, rest);
    }
  }

  /** An expansion keeps the joined name of every leaf and creates no ambiguity. */
  lemma ExpansionKeepsLeaves(m: Data, k: string, sep: string, m': Data)
    requires k in m && m[k].Obj? && sep != "" && Expanded(m, k, sep, m') && Unambiguous(m, sep)
    ensures Unambiguous(m', sep)
    ensures forall name, v :: LeafNamed(m', sep, name, v) <==> LeafNamed(m, sep, name, v)
  {
    forall p, q | IsNode(m', p) && IsNode(m', q) && Join(p, sep) == Join(q, sep) ensures p == q {
      OriginNode(m, k, sep, m', p);
      OriginNode(m, k, sep, m', q);
      OriginInjective(m, k, sep, m', p, q);
    }
    forall name, v | LeafNamed(m', sep, name, v) ensures LeafNamed(m, sep, name, v) {
      var p :| LeafAt(m', sep, p, name, v);
      OriginNode(m, k, sep, m', p);
      assert LeafAt(m, sep, Origin(m, k, sep, p), name, v);
    }
    forall name, v | LeafNamed(m, sep, name, v) ensures LeafNamed(m', sep, name, v) {
      var p :| LeafAt(m, sep, p, name, v);
      assert NodeAt(m, [k]) == Some(m[k]);
      MovedNode(m, k, sep, m', p);
      assert LeafAt(m', sep, Moved(k, sep, p), name, v);
    }
  }

  lemma OriginInjective(m: Data, k: string, sep: string, m': Data, p: seq<string>, q: seq<string>)
    requires k in m && m[k].Obj? && Expanded(m, k, sep, m') && IsNode(m', p) && IsNode(m', q)
    requires Origin(m, k, sep, p) == Origin(m, k, sep, q)
    ensures p == q
  {
    var n, prefix := m[k].fields, k + sep;
    var a, b := Origin(m, k, sep, p), Origin(m, k, sep, q);
    assert p[0] in m' && q[0] in m';
    assert Prefixed(n, prefix, p[0]) <==> a[0] == k;
    assert Prefixed(n, prefix, q[0]) <==> b[0] == k;
    assert p == [p[0]] + p[1..] && q == [q[0]] + q[1..];
    if Prefixed(n, prefix, p[0]) {
      assert p[0] == prefix + a[1] && q[0] == prefix + b[1];
      assert a[2..] == p[1..] && b[2..] == q[1..];
    }
  }

  // ---------------------------------------------------------------- counting map nodes

  /** The number of map nodes in a value. */
  ghost function MapNodes(v: Json): nat
    decreases v, 1, 0
  {
    if v.Obj? then 1 + MapNodesIn(v, v.fields.Keys) else 0
  }

  ghost function MapNodesIn(v: Json, keys: set<string>): nat
    requires v.Obj? && keys <= v.fields.Keys
    decreases v, 0, |keys|
  {
    if keys == {} then 0
    else
      var k :| k in keys;
      MapNodes(v.fields[k]) + MapNodesIn(v, keys - {k})
  }

  lemma {:induction false} MapNodesWithout(v: Json, keys: set<string>, k: string)
    requires v.Obj? && keys <= v.fields.Keys && k in keys
    ensures MapNodesIn(v, keys) == MapNodes(v.fields[k]) + MapNodesIn(v, keys - {k})
    decreases |keys|
  {
    var j :| j in keys && MapNodesIn(v, keys) == MapNodes(v.fields[j]) + MapNodesIn(v, keys - {j});
    if j != k {
      MapNodesWithout(v, keys - {j}, k);
      MapNodesWithout(v, keys - {k}, j);
      assert keys - {j} - {k} == keys - {k} - {j};
    }
  }

  lemma {:induction false} MapNodesAgree(v: Json, w: Json, keys: set<string>)
    requires v.Obj? && w.Obj? && keys <= v.fields.Keys && keys <= w.fields.Keys
    requires forall k :: k in keys ==> v.fields[k] == w.fields[k]
    ensures MapNodesIn(v, keys) == MapNodesIn(w, keys)
    decreases |keys|
  {
    if keys != {} {
      var k :| k in keys;
      MapNodesWithout(v, keys, k);
      MapNodesWithout(w, keys, k);
      MapNodesAgree(v, w, keys - {k});
    }
  }

  ghost function Total(m: Data): nat { MapNodesIn(Obj(m), m.Keys) }

  lemma TotalRemove(m: Data, k: string)
    requires k in m
    ensures Total(m) == MapNodes(m[k]) + Total(m - {k})
  {
    MapNodesWithout(Obj(m), m.Keys, k);
    assert (m - {k}).Keys == m.Keys - {k};
    MapNodesAgree(Obj(m), Obj(m - {k}), m.Keys - {k});
  }

  lemma TotalPut(m: Data, k: string, v: Json)
    ensures Total(m[k := v]) <= Total(m) + MapNodes(v)
  {
    var m' := m[k := v];
    TotalRemove(m', k);
    if k in m {
      TotalRemove(m, k);
    }
    assert m' - {k} == m - {k};
    assert k !in m ==> m - {k} == m;
  }

  // ---------------------------------------------------------------- the step

  /** A row's data, a map that every step shares and changes in place. */
  class Row {
    var data: Data

    constructor (data: Data)
      ensures this.data == data
    {
      this.data := data;
    }
  }

  /** delete(data, k), then one assignment for every entry of the nested map, in any order. */
  method Expand(r: Row, k: string, sep: string)
    requires k in r.data && r.data[k].Obj? && sep != ""
    modifies r
    ensures Expanded(old(r.data), k, sep, r.data)
    ensures old(r.data).Keys - {k} <= r.data.Keys
    ensures Total(r.data) < Total(old(r.data))
  {
    hide *;
    ghost var m := r.data;
    var nested := r.data[k].fields;
    TotalRemove(m, k);
    MapNodesOfObject(m[k]);
    r.data := r.data - {k};
    var rest := nested.Keys;
    ExpandingStart(m, k, sep);
    while rest != {}
      invariant rest <= nested.Keys && m.Keys - {k} <= r.data.Keys
      invariant Expanding(m, k, sep, rest, r.data)
      invariant Total(r.data) + MapNodesIn(m[k], rest) < Total(m)
      decreases |rest|
    {
      var nk :| nk in rest;
      MapNodesWithout(m[k], rest, nk);
      TotalPut(r.data, k + sep + nk, nested[nk]);
      ExpandingStep(m, k, sep, rest, r.data, nk);
      rest := rest - {nk};
      r.data := r.data[k + sep + nk := nested[nk]];
    }
    ExpandingEnd(m, k, sep, r.data);
  }

  /** The expansion of `m` at `k` with the nested keys `rest` still to be assigned. */
  ghost predicate Expanding(m: Data, k: string, sep: string, rest: set<string>, now: Data)
    requires k in m && m[k].Obj?
  {
    var n := m[k].fields;
    && (forall nk :: nk in n && nk !in rest ==> k + sep + nk in now && now[k + sep + nk] == n[nk])
    && (forall x :: x in m && x != k && !Prefixed(n, k + sep, x) ==> x in now && now[x] == m[x])
    && (forall x :: x in now ==> Prefixed(n, k + sep, x) || (x in m && x != k))
  }

  lemma ExpandingStart(m: Data, k: string, sep: string)
    requires k in m && m[k].Obj?
    ensures Expanding(m, k, sep, m[k].fields.Keys, m - {k})
  {
  }

  lemma ExpandingStep(m: Data, k: string, sep: string, rest: set<string>, now: Data, nk: string)
    requires k in m && m[k].Obj? && nk in m[k].fields && Expanding(m, k, sep, rest, now)
    ensures Expanding(m, k, sep, rest - {nk}, now[k + sep + nk := m[k].fields[nk]])
  {
    var n, now' := m[k].fields, now[k + sep + nk := m[k].fields[nk]];
    PrefixedIs(n, k + sep, nk);
    forall o | o in n && o !in rest - {nk} ensures k + sep + o in now' && now'[k + sep + o] == n[o] {
      PrefixedIs(n, k + sep, o);
    }
  }

  lemma ExpandingEnd(m: Data, k: string, sep: string, now: Data)
    requires k in m && m[k].Obj? && Expanding(m, k, sep, {}, now)
    ensures Expanded(m, k, sep, now)
  {
  }

  lemma MapNodesOfObject(v: Json)
    requires v.Obj?
    ensures MapNodes(v) == 1 + MapNodesIn(v, v.fields.Keys)
  {
  }

  /** What every state between two expansions keeps of the data the step started with. */
  ghost predicate SameLeaves(start: Data, sep: string, now: Data) {
    && (exists n :: Reaches(start, sep, n, now))
    && (Unambiguous(start, sep) ==>
          && Unambiguous(now, sep)
          && forall name, v :: LeafNamed(now, sep, name, v) <==> LeafNamed(start, sep, name, v))
  }

  lemma SameLeavesStart(start: Data, sep: string)
    ensures SameLeaves(start, sep, start)
  {
    assert Reaches(start, sep, 0, start);
  }

  /** One `range` over the map while it changes: entries present at the start are produced unless removed
      before, entries created meanwhile may or may not be produced. */
  method RangePass(r: Row, sep: string, ghost start: Data) returns (expanded: bool)
    requires sep != "" && SameLeaves(start, sep, r.data)
    modifies r
    ensures SameLeaves(start, sep, r.data)
    ensures expanded ==> Total(r.data) < Total(old(r.data))
    ensures !expanded ==> r.data == old(r.data) && Flat(r.data)
  {
    hide *;
    expanded := false;
    var due, open := r.data.Keys, r.data.Keys;  // must be, and may be, produced
    FlatEnds(r.data);
    while open != {}
      invariant due <= open <= r.data.Keys
      invariant SameLeaves(start, sep, r.data)
      invariant expanded ==> Total(r.data) < Total(old(r.data))
      invariant !expanded ==> r.data == old(r.data) && open == due && FlatOutside(r.data, due)
      decreases Total(r.data), |open|
    {
      var k :| k in open;
      var produced := *;
      produced := produced || k in due;
      ghost var before, wasDue := r.data, due;
      due, open := due - {k}, open - {k};
      if produced && r.data[k].Obj? {
        var present := r.data.Keys;
        Expand(r, k, sep);
        ExpansionKeepsStart(start, before, k, sep, r.data);
        open := open + (r.data.Keys - present);
        expanded := true;
      } else if !expanded {
        LeafProduced(r.data, due, k, wasDue);
      }
    }
    FlatEnds(r.data);
  }

  /** The entries already produced by the range are leaves. */
  ghost predicate FlatOutside(m: Data, due: set<string>) { forall k :: k in m && k !in due ==> !m[k].Obj? }

  lemma LeafProduced(m: Data, due: set<string>, k: string, wasDue: set<string>)
    requires k in m && !m[k].Obj? && FlatOutside(m, wasDue) && due == wasDue - {k}
    ensures FlatOutside(m, due)
  {
  }

  lemma FlatEnds(m: Data)
    ensures FlatOutside(m, {}) <==> Flat(m)
    ensures FlatOutside(m, m.Keys)
  {
  }

  lemma ExpansionKeepsStart(start: Data, m: Data, k: string, sep: string, m': Data)
    requires k in m && m[k].Obj? && sep != "" && Expanded(m, k, sep, m') && SameLeaves(start, sep, m)
    ensures SameLeaves(start, sep, m')
  {
    var n :| Reaches(start, sep, n, m);
    ReachesThen(start, sep, n, m, k, m');
    if Unambiguous(start, sep) {
      ExpansionKeepsLeaves(m, k, sep, m');
    }
  }

  /** Terminates for every map and every order, leaves no map values, yields a result of expansions, and for
      unambiguous data exactly the joined paths of the leaves. */
  method FlattenInto(r: Row, sep: string)
    requires sep != ""
    modifies r
    ensures IsResult(old(r.data), sep, r.data)
    ensures Unambiguous(old(r.data), sep) ==> IsFlattening(old(r.data), sep, r.data)
  {
    ghost var start := r.data;
    SameLeavesStart(start, sep);
    hide Reaches;
    while true
      invariant SameLeaves(start, sep, r.data)
      decreases Total(r.data)
    {
      var expanded := RangePass(r, sep, start);
      if !expanded {
        FlatLeaves(r.data, sep);
        return;
      }
    }
  }

  /** In flat data the named leaves are the entries. */
  lemma FlatLeaves(m: Data, sep: string)
    requires Flat(m)
    ensures forall name, v :: (name in m && m[name] == v) <==> LeafNamed(m, sep, name, v)
  {
    forall name, v | name in m && m[name] == v ensures LeafNamed(m, sep, name, v) {
      assert LeafAt(m, sep, [name], name, v);
    }
    forall name, v | LeafNamed(m, sep, name, v) ensures name in m && m[name] == v {
      var p :| LeafAt(m, sep, p, name, v);
      assert |p| == 1;
    }
  }

  /** The flattening of unambiguous data does not depend on the iteration order. */
  lemma FlatteningUnique(m: Data, sep: string, a: Data, b: Data)
    requires IsFlattening(m, sep, a) && IsFlattening(m, sep, b)
    ensures a == b
  {
    forall k ensures k in a <==> k in b {
      if k in a { assert LeafNamed(m, sep, k, a[k]); }
      if k in b { assert LeafNamed(m, sep, k, b[k]); }
    }
    forall k | k in a ensures a[k] == b[k] {
      assert LeafNamed(m, sep, k, a[k]);
    }
  }

  lemma SharedName(m: Data)
    requires IsNode(m, ["a"] + ["b_c"]) && IsNode(m, ["a_b"] + ["c"])
    ensures !Unambiguous(m, "_")
  {
    var p, q := ["a"] + ["b_c"], ["a_b"] + ["c"];
    assert p[1..] == ["b_c"] && q[1..] == ["c"];
    assert Join(p, "_") == "a_b_c" && Join(q, "_") == "a_b_c";
  }

  /** Two leaves of one joined name below different maps: two maximal expansions of the same data that differ. */
  lemma AmbiguityExposesOrder() returns (m: Data, a1: Data, a: Data, b1: Data, b: Data)
    ensures !Unambiguous(m, "_")
    ensures "a" in m && m["a"].Obj? && Expanded(m, "a", "_", a1)
    ensures "a_b" in a1 && a1["a_b"].Obj? && Expanded(a1, "a_b", "_", a) && Flat(a)
    ensures "a_b" in m && m["a_b"].Obj? && Expanded(m, "a_b", "_", b1)
    ensures "a" in b1 && b1["a"].Obj? && Expanded(b1, "a", "_", b) && Flat(b)
    ensures a != b
  {
    var x, y := map["b_c" := Int(1)], map["c" := Int(2)];
    m := map["a" := Obj(x), "a_b" := Obj(y)];
    a1 := map["a_b" := Obj(y), "a_b_c" := Int(1)];
    a := map["a_b_c" := Int(2)];
    b1 := map["a" := Obj(x), "a_b_c" := Int(2)];
    b := map["a_b_c" := Int(1)];
    assert "a" + "_" == "a_" && "a_" + "b_c" == "a_b_c" && "a_b" + "_" == "a_b_" && "a_b_" + "c" == "a_b_c";
    assert "a_b_c"[2..] == "b_c" && "a_b_c"[4..] == "c" && "a_b"[2..] == "b";
    assert (["a"] + ["b_c"])[1..] == ["b_c"] && (["a_b"] + ["c"])[1..] == ["c"];
    SharedName(m);
    assert a["a_b_c"] != b["a_b_c"];
  }
}
