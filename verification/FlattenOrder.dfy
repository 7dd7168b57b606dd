/** When the order of expansions shows in the flattened row. Of the leaves with one joined name the one written
    last stays; which leaves can be last depends on where their maps lie. */
module FlattenOrder {
  import opened Common
  import opened Json
  import opened Flatten

  /** The map that holds `p` lies strictly above the map that holds `q`, so `p` is written first if both are. */
  predicate WrittenAfter(q: seq<string>, p: seq<string>) {
    0 < |p| < |q| && q[..|p| - 1] == p[..|p| - 1]
  }

  /** Every other node of the joined name is written before `q`, if at all: nothing is written over `q`. */
  ghost predicate NeverOverwritten(m: Data, sep: string, q: seq<string>)
    requires q != []
  {
    forall r :: IsNode(m, r) && r != q && Join(r, sep) == Join(q, sep) ==> WrittenAfter(q, r)
  }

  /** No map above `p` is ever overwritten: `p` is written whatever the order. */
  ghost predicate Secure(m: Data, sep: string, p: seq<string>) {
    forall i :: 0 < i < |p| ==> NeverOverwritten(m, sep, p[..i])
  }

  /** The leaf may be the last one written under its name: nothing of that name is always written after it. */
  ghost predicate CanBeLast(m: Data, sep: string, p: seq<string>, name: string, v: Json) {
    && LeafAt(m, sep, p, name, v)
    && forall q :: Named(m, sep, q, name) && Secure(m, sep, q) ==> !WrittenAfter(q, p)
  }

  ghost predicate Named(m: Data, sep: string, p: seq<string>, name: string) { IsNode(m, p) && Join(p, sep) == name }

  /** A leaf of the name that is always written. */
  ghost predicate SecureLeaf(m: Data, sep: string, p: seq<string>, name: string) {
    Named(m, sep, p, name) && !NodeAt(m, p).value.Obj? && Secure(m, sep, p)
  }

  /** Some leaf of the name is always written, and after every map of that name one is. */
  ghost predicate AlwaysThere(m: Data, sep: string, name: string) {
    && (exists p :: SecureLeaf(m, sep, p, name))
    && forall r :: Named(m, sep, r, name) && NodeAt(m, r).value.Obj? ==>
         exists q :: SecureLeaf(m, sep, q, name) && WrittenAfter(q, r)
  }

  // ---------------------------------------------------------------- one expansion

  lemma ChildNode(m: Data, k: string, sep: string, nk: string)
    requires k in m && m[k].Obj? && nk in m[k].fields
    ensures IsNode(m, [k, nk]) && NodeAt(m, [k, nk]) == Some(m[k].fields[nk]) && Join([k, nk], sep) == k + sep + nk
  {
    NodeAtTwo(m, k, nk, []);
    JoinPrefix(k, sep, nk, []);
    assert [k, nk] + [] == [k, nk] && [k + sep + nk] + [] == [k + sep + nk] && [nk] + [] == [nk];
  }

  lemma TopNode(m: Data, x: string, sep: string)
    requires x in m
    ensures IsNode(m, [x]) && NodeAt(m, [x]) == Some(m[x]) && Join([x], sep) == x
  {
  }

  /** What is written over a node of the top level is an entry of the same name. */
  lemma Overwriter(m: Data, k: string, sep: string, x: string)
    requires sep != "" && k in m && m[k].Obj? && x in m && Prefixed(m[k].fields, k + sep, x)
    ensures var nk := x[|k + sep|..];
      Named(m, sep, [k, nk], x) && NodeAt(m, [k, nk]) == Some(m[k].fields[nk]) && Named(m, sep, [x], x) && x != k
    ensures !NeverOverwritten(m, sep, [x])
  {
    var nk := x[|k + sep|..];
    assert x == k + sep + nk;
    ChildNode(m, k, sep, nk);
    TopNode(m, x, sep);
    assert [x] != [k, nk];
  }

  /** Every node but the expanded map and what is overwritten is still there. */
  lemma Survives(m: Data, k: string, sep: string, m': Data, p: seq<string>)
    requires sep != "" && Expands(m, k, sep, m') && IsNode(m, p) && p != [k]
    requires p[0] != k ==> !Prefixed(m[k].fields, k + sep, p[0])
    ensures var q := Moved(k, sep, p); q != [] && NodeAt(m', q) == NodeAt(m, p) && Join(q, sep) == Join(p, sep)
  {
    var n := m[k].fields;
    if p[0] == k {
      var nk, rest := p[1], p[2..];
      assert p == [k, nk] + rest;
      JoinPrefix(k, sep, nk, rest);
      NodeAtTwo(m, k, nk, rest);
      assert ([nk] + rest)[0] == nk;
      NodeAtHead(n, m', nk, k + sep + nk, rest);
    } else {
      var x, rest := p[0], p[1..];
      assert p == [x] + rest;
      NodeAtHead(m, m', x, x, rest);
    }
  }

  lemma OriginNamed(m: Data, k: string, sep: string, m': Data, p': seq<string>, name: string)
    requires sep != "" && Expands(m, k, sep, m') && Named(m', sep, p', name)
    ensures Named(m, sep, Origin(m, k, sep, p'), name) && NodeAt(m, Origin(m, k, sep, p')) == NodeAt(m', p')
  {
    OriginNode(m, k, sep, m', p');
  }

  /** What is always written after a node is always written after what has become of it. */
  lemma MovedAfter(m: Data, k: string, sep: string, m': Data, p': seq<string>, q: seq<string>)
    requires sep != "" && Expands(m, k, sep, m') && IsNode(m', p') && IsNode(m, q)
    requires WrittenAfter(q, Origin(m, k, sep, p')) && Join(q, sep) == Join(p', sep)
    ensures WrittenAfter(Moved(k, sep, q), p')
  {
    var p := Origin(m, k, sep, p');
    var q' := Moved(k, sep, q);
    assert p'[0] in m';
    if Prefixed(m[k].fields, k + sep, p'[0]) {
      var nk := p'[0][|k + sep|..];
      assert p'[0] == k + sep + nk && p == [k, nk] + p'[1..] && q[0] == q[..|p| - 1][0] == p[..|p| - 1][0] == k;
      if |p'| > 1 {
        assert q[1] == q[..|p| - 1][1] == p[..|p| - 1][1] == nk;
        forall i | 0 <= i < |p'| - 1 ensures q'[i] == p'[i] {
          if i > 0 { assert q'[i] == q[i + 1] == q[..|p| - 1][i + 1] == p[..|p| - 1][i + 1] == p'[i]; }
        }
      }
    } else {
      assert p == p' && p[0] != k;
      if |p| > 1 {
        assert q[0] == q[..|p| - 1][0] == p[..|p| - 1][0];
      } else {
        ChildPrefixed(m, k, sep, q);
      }
    }
  }

  lemma ChildPrefixed(m: Data, k: string, sep: string, q: seq<string>)
    requires k in m && m[k].Obj? && IsNode(m, q)
    ensures q[0] == k && |q| == 2 ==> Prefixed(m[k].fields, k + sep, Join(q, sep))
  {
    if q[0] == k && |q| == 2 {
      NodeAtTwo(m, k, q[1], []);
      assert [k, q[1]] + [] == q && [q[1]] + [] == [q[1]];
      ChildNode(m, k, sep, q[1]);
      PrefixedIs(m[k].fields, k + sep, q[1]);
    }
  }

  /** The moved node comes from where it was. */
  lemma OriginOfMoved(m: Data, k: string, sep: string, p: seq<string>)
    requires k in m && m[k].Obj? && IsNode(m, p) && p != [k] && (p[0] != k ==> !Prefixed(m[k].fields, k + sep, p[0]))
    ensures Moved(k, sep, p) != [] && Origin(m, k, sep, Moved(k, sep, p)) == p
  {
    if p[0] == k {
      PrefixedIs(m[k].fields, k + sep, p[1]);
      assert p == [k, p[1]] + p[2..];
      NodeAtTwo(m, k, p[1], p[2..]);
    }
  }

  lemma {:induction false} PrefixIsNode(m: Data, p: seq<string>, i: nat)
    requires IsNode(m, p) && 0 < i <= |p|
    ensures IsNode(m, p[..i])
    decreases i
  {
    if i > 1 {
      assert p[..i][1..] == p[1..][..i - 1];
      PrefixIsNode(m[p[0]].fields, p[1..], i - 1);
    }
  }

  lemma StaysNeverOverwritten(m: Data, k: string, sep: string, m': Data, q: seq<string>)
    requires sep != "" && Expands(m, k, sep, m') && IsNode(m, q) && q != [k] && NeverOverwritten(m, sep, q)
    requires q[0] != k ==> !Prefixed(m[k].fields, k + sep, q[0])
    ensures Moved(k, sep, q) != [] && NeverOverwritten(m', sep, Moved(k, sep, q))
  {
    Survives(m, k, sep, m', q);
    OriginOfMoved(m, k, sep, q);
    var q' := Moved(k, sep, q);
    forall r' | IsNode(m', r') && r' != q' && Join(r', sep) == Join(q', sep) ensures WrittenAfter(q', r') {
      OriginNamed(m, k, sep, m', r', Join(q, sep));
      if Origin(m, k, sep, r') == q {
        OriginInjective(m, k, sep, m', r', q');
        assert false;
      }
      MovedAfter(m, k, sep, m', r', q);
    }
  }

  /** A node that stays and is always written is so in the expanded data. */
  lemma StaysSecure(m: Data, k: string, sep: string, m': Data, p: seq<string>)
    requires sep != "" && Expands(m, k, sep, m') && IsNode(m, p) && p != [k] && Secure(m, sep, p)
    requires p[0] != k ==> !Prefixed(m[k].fields, k + sep, p[0])
    ensures Moved(k, sep, p) != [] && Secure(m', sep, Moved(k, sep, p))
  {
    var p' := Moved(k, sep, p);
    forall i | 0 < i < |p'| ensures NeverOverwritten(m', sep, p'[..i]) {
      var j := if p[0] == k then i + 1 else i;
      var q := p[..j];
      PrefixIsNode(m, p, j);
      assert q[0] == p[0] && q != [k];
      StaysNeverOverwritten(m, k, sep, m', q);
      assert Moved(k, sep, q) == p'[..i];
    }
  }

  /** A node below the top level that is always written stays, and stays always written. */
  lemma SecureStays(m: Data, k: string, sep: string, m': Data, p: seq<string>)
    requires sep != "" && Expands(m, k, sep, m') && IsNode(m, p) && Secure(m, sep, p) && |p| > 1
    ensures var q := Moved(k, sep, p);
      q != [] && NodeAt(m', q) == NodeAt(m, p) && Join(q, sep) == Join(p, sep) && Secure(m', sep, q)
  {
    assert NeverOverwritten(m, sep, p[..1]) && p[..1] == [p[0]];
    if p[0] != k && Prefixed(m[k].fields, k + sep, p[0]) {
      Overwriter(m, k, sep, p[0]);
    }
    Survives(m, k, sep, m', p);
    StaysSecure(m, k, sep, m', p);
  }

  /** What may be last after an expansion might be last before it. */
  lemma LastBefore(m: Data, k: string, sep: string, m': Data, p': seq<string>, name: string, v: Json)
    requires sep != "" && Expands(m, k, sep, m') && CanBeLast(m', sep, p', name, v)
    ensures CanBeLast(m, sep, Origin(m, k, sep, p'), name, v)
  {
    var p := Origin(m, k, sep, p');
    OriginNamed(m, k, sep, m', p', name);
    forall q | Named(m, sep, q, name) && Secure(m, sep, q) ensures !WrittenAfter(q, p) {
      if WrittenAfter(q, p) {
        SecureStays(m, k, sep, m', q);
        MovedAfter(m, k, sep, m', p', q);
      }
    }
  }

  /** A leaf that is always written leaves one of its name: itself, or what is written over it. */
  lemma LeafStays(m: Data, k: string, sep: string, m': Data, name: string)
    requires sep != "" && Expands(m, k, sep, m') && AlwaysThere(m, sep, name)
    ensures exists p' :: SecureLeaf(m', sep, p', name)
  {
    var p :| SecureLeaf(m, sep, p, name);
    TopNode(m, k, sep);
    assert p != [k];
    if |p| == 1 && Prefixed(m[k].fields, k + sep, p[0]) {
      Overwriter(m, k, sep, p[0]);
      var c := [k, p[0][|k + sep|..]];
      if NodeAt(m, c).value.Obj? {
        var q :| SecureLeaf(m, sep, q, name) && WrittenAfter(q, c);
        SecureStays(m, k, sep, m', q);
        assert SecureLeaf(m', sep, Moved(k, sep, q), name);
      } else {
        Survives(m, k, sep, m', c);
        assert SecureLeaf(m', sep, Moved(k, sep, c), name);
      }
    } else if |p| == 1 {
      Survives(m, k, sep, m', p);
      assert SecureLeaf(m', sep, Moved(k, sep, p), name);
    } else {
      SecureStays(m, k, sep, m', p);
      assert SecureLeaf(m', sep, Moved(k, sep, p), name);
    }
  }

  lemma StaysThere(m: Data, k: string, sep: string, m': Data, name: string)
    requires sep != "" && Expands(m, k, sep, m') && AlwaysThere(m, sep, name)
    ensures AlwaysThere(m', sep, name)
  {
    LeafStays(m, k, sep, m', name);
    forall r' | Named(m', sep, r', name) && NodeAt(m', r').value.Obj?
      ensures exists q' :: SecureLeaf(m', sep, q', name) && WrittenAfter(q', r')
    {
      var r := Origin(m, k, sep, r');
      OriginNamed(m, k, sep, m', r', name);
      var q :| SecureLeaf(m, sep, q, name) && WrittenAfter(q, r);
      SecureStays(m, k, sep, m', q);
      MovedAfter(m, k, sep, m', r', q);
      assert SecureLeaf(m', sep, Moved(k, sep, q), name);
    }
  }

  // ---------------------------------------------------------------- results hold what can be last

  lemma NoSteps(m: Data, sep: string, m': Data)
    ensures Reaches(m, sep, 0, m') <==> m == m'
  {
  }

  lemma LastStep(m: Data, sep: string, n: nat, m': Data) returns (mid: Data, k: string)
    requires n > 0 && Reaches(m, sep, n, m')
    ensures Reaches(m, sep, n - 1, mid) && Expands(mid, k, sep, m')
  {
    mid, k :| Reaches(m, sep, n - 1, mid) && Expands(mid, k, sep, m');
  }

  lemma {:induction false} LastAtStart(m: Data, sep: string, n: nat, m': Data)
    requires sep != "" && Reaches(m, sep, n, m')
    ensures forall p', name, v :: CanBeLast(m', sep, p', name, v) ==> exists p :: CanBeLast(m, sep, p, name, v)
    ensures forall name :: AlwaysThere(m, sep, name) ==> AlwaysThere(m', sep, name)
  {
    hide CanBeLast, AlwaysThere, Reaches, Expands;
    if n == 0 {
      NoSteps(m, sep, m');
    } else {
      var mid, k := LastStep(m, sep, n, m');
      LastAtStart(m, sep, n - 1, mid);
      forall p', name, v | CanBeLast(m', sep, p', name, v) ensures exists p :: CanBeLast(m, sep, p, name, v) {
        LastBefore(mid, k, sep, m', p', name, v);
      }
      forall name | AlwaysThere(m, sep, name) ensures AlwaysThere(m', sep, name) {
        StaysThere(mid, k, sep, m', name);
      }
    }
  }

  lemma FlatLast(out: Data, sep: string, name: string)
    requires Flat(out)
    ensures name in out ==> CanBeLast(out, sep, [name], name, out[name])
    ensures AlwaysThere(out, sep, name) ==> name in out
  {
    if name in out {
      TopNode(out, name, sep);
      forall q | Named(out, sep, q, name) ensures !WrittenAfter(q, [name]) { FlatPath(out, q); }
    }
    if AlwaysThere(out, sep, name) {
      var p :| SecureLeaf(out, sep, p, name);
      FlatPath(out, p);
    }
  }

  lemma FlatPath(out: Data, q: seq<string>)
    requires Flat(out) && IsNode(out, q)
    ensures |q| == 1
  {
  }

  /** Whatever the data: a result has under each name the value of a leaf that may be last, and has every name that
      is always there. */
  lemma ResultIsLast(m: Data, sep: string, out: Data, name: string)
    requires sep != "" && IsResult(m, sep, out)
    ensures name in out ==> exists p :: CanBeLast(m, sep, p, name, out[name])
    ensures AlwaysThere(m, sep, name) ==> name in out
  {
    var n :| Reaches(m, sep, n, out);
    hide CanBeLast, AlwaysThere, Reaches;
    LastAtStart(m, sep, n, out);
    FlatLast(out, sep, name);
  }

  /** Under every name, all leaves that may be last have the same value. */
  ghost predicate LastAgree(m: Data, sep: string) {
    forall p, q, name, v, w :: CanBeLast(m, sep, p, name, v) && CanBeLast(m, sep, q, name, w) ==> v == w
  }

  /** No name is in one result and absent from another. */
  ghost predicate NoneComesAndGoes(m: Data, sep: string) {
    forall p, name, v :: CanBeLast(m, sep, p, name, v) ==> AlwaysThere(m, sep, name)
  }

  ghost predicate OneResult(m: Data, sep: string) {
    forall a, b :: IsResult(m, sep, a) && IsResult(m, sep, b) ==> a == b
  }

  /** Whatever the data: the order of expansions does not show when the leaves that may be last agree and every name
      with such a leaf is always there. */
  lemma OneResultWhen(m: Data, sep: string)
    requires sep != "" && LastAgree(m, sep) && NoneComesAndGoes(m, sep)
    ensures OneResult(m, sep)
  {
    hide CanBeLast, AlwaysThere, IsResult;
    forall a, b | IsResult(m, sep, a) && IsResult(m, sep, b) ensures a == b {
      forall name ensures (name in a <==> name in b) && (name in a ==> a[name] == b[name]) {
        ResultIsLast(m, sep, a, name);
        ResultIsLast(m, sep, b, name);
      }
    }
  }

  // ---------------------------------------------------------------- data in which no map is overwritten

  /** Nothing is ever written over a map. */
  ghost predicate MapsStay(m: Data, sep: string) {
    forall q :: IsNode(m, q) && NodeAt(m, q).value.Obj? ==> NeverOverwritten(m, sep, q)
  }

  /** No map has the joined name of another node. */
  ghost predicate MapNamesUnique(m: Data, sep: string) {
    forall p, q :: IsNode(m, p) && IsNode(m, q) && NodeAt(m, p).value.Obj? && Join(p, sep) == Join(q, sep) ==> p == q
  }

  lemma {:induction false} AboveIsMap(m: Data, p: seq<string>, i: nat)
    requires IsNode(m, p) && 0 < i < |p|
    ensures IsNode(m, p[..i]) && NodeAt(m, p[..i]).value.Obj?
    decreases i
  {
    if i > 1 {
      assert p[..i][1..] == p[1..][..i - 1];
      AboveIsMap(m[p[0]].fields, p[1..], i - 1);
    }
  }

  lemma TopIsMap(m: Data, p: seq<string>)
    requires IsNode(m, p)
    ensures IsNode(m, [p[0]]) && (|p| > 1 ==> NodeAt(m, [p[0]]).value.Obj?)
  {
  }

  /** Then every node is always written, and each name with a leaf that can be last is always there. */
  lemma AllSecure(m: Data, sep: string)
    requires MapsStay(m, sep)
    ensures forall p :: IsNode(m, p) ==> Secure(m, sep, p)
    ensures NoneComesAndGoes(m, sep)
  {
    forall p | IsNode(m, p) ensures Secure(m, sep, p) {
      forall i | 0 < i < |p| ensures NeverOverwritten(m, sep, p[..i]) { AboveIsMap(m, p, i); }
    }
    forall p, name, v | CanBeLast(m, sep, p, name, v) ensures AlwaysThere(m, sep, name) {
      assert SecureLeaf(m, sep, p, name);
      assert forall r :: Named(m, sep, r, name) && NodeAt(m, r).value.Obj? ==> WrittenAfter(r, p);
    }
  }

  lemma MapsStillStay(m: Data, k: string, sep: string, m': Data)
    requires sep != "" && Expands(m, k, sep, m') && MapsStay(m, sep)
    ensures MapsStay(m', sep)
  {
    forall q' | IsNode(m', q') && NodeAt(m', q').value.Obj? ensures NeverOverwritten(m', sep, q') {
      var q := Origin(m, k, sep, q');
      OriginNamed(m, k, sep, m', q', Join(q', sep));
      forall r' | IsNode(m', r') && r' != q' && Join(r', sep) == Join(q', sep) ensures WrittenAfter(q', r') {
        OriginNamed(m, k, sep, m', r', Join(q', sep));
        if Origin(m, k, sep, r') == q {
          OriginInjective(m, k, sep, m', r', q');
          assert false;
        }
        MovedAfter(m, k, sep, m', r', q);
        MovedOfOrigin(m, k, sep, m', q');
      }
    }
  }

  lemma MovedOfOrigin(m: Data, k: string, sep: string, m': Data, p': seq<string>)
    requires Expands(m, k, sep, m') && IsNode(m', p') && Origin(m, k, sep, p') != [k]
    ensures Moved(k, sep, Origin(m, k, sep, p')) == p'
  {
    assert p'[0] in m';
    if Prefixed(m[k].fields, k + sep, p'[0]) {
      assert p'[0] == k + sep + p'[0][|k + sep|..] && p' == [p'[0]] + p'[1..];
    }
  }

  // ---------------------------------------------------------------- what can be last is a result

  /** Some expansion of the map at `k`, with fewer map nodes. */
  lemma ExpandOne(m: Data, k: string, sep: string) returns (m': Data)
    requires k in m && m[k].Obj?
    ensures Expands(m, k, sep, m') && Total(m') < Total(m)
  {
    hide *;
    var nested := m[k].fields;
    TotalRemove(m, k);
    MapNodesOfObject(m[k]);
    m' := m - {k};
    var rest := nested.Keys;
    ExpandingStart(m, k, sep);
    while rest != {}
      invariant rest <= nested.Keys
      invariant Expanding(m, k, sep, rest, m')
      invariant Total(m') + MapNodesIn(m[k], rest) < Total(m)
      decreases |rest|
    {
      var nk :| nk in rest;
      MapNodesWithout(m[k], rest, nk);
      TotalPut(m', k + sep + nk, nested[nk]);
      ExpandingStep(m, k, sep, rest, m', nk);
      rest := rest - {nk};
      m' := m'[k + sep + nk := nested[nk]];
    }
    ExpandingEnd(m, k, sep, m');
    IsExpansion(m, k, sep, m');
  }

  lemma IsExpansion(m: Data, k: string, sep: string, m': Data)
    requires k in m && m[k].Obj? && Expanded(m, k, sep, m')
    ensures Expands(m, k, sep, m')
  {
  }

  lemma {:induction false} ReachesFirst(m: Data, k: string, sep: string, m1: Data, n: nat, out: Data)
    requires Expands(m, k, sep, m1) && Reaches(m1, sep, n, out)
    ensures Reaches(m, sep, n + 1, out)
  {
    hide Reaches, Expands;
    NoSteps(m, sep, m);
    NoSteps(m1, sep, out);
    if n == 0 {
      ReachesThen(m, sep, 0, m, k, out);
    } else {
      var mid, j := LastStep(m1, sep, n, out);
      ReachesFirst(m, k, sep, m1, n - 1, mid);
      ReachesThen(m, sep, n, mid, j, out);
    }
  }

  /** Expanding a map off the path of a leaf that can be last, or the only map, leaves it able to be last. */
  lemma LastAfter(m: Data, k: string, sep: string, m': Data, p: seq<string>, name: string, v: Json)
    requires sep != "" && Expands(m, k, sep, m') && MapsStay(m, sep) && CanBeLast(m, sep, p, name, v)
    requires p[0] == k ==> forall x :: x in m && x != k ==> !m[x].Obj?
    ensures p != [k] && Moved(k, sep, p) != [] && CanBeLast(m', sep, Moved(k, sep, p), name, v)
  {
    TopNode(m, k, sep);
    AllSecure(m, sep);
    assert p != [k];
    if p[0] != k && Prefixed(m[k].fields, k + sep, p[0]) {
      Overwriter(m, k, sep, p[0]);
      TopIsMap(m, p);
      assert |p| == 1 ==> WrittenAfter([k, p[0][|k + sep|..]], p);
      assert false;
    }
    Survives(m, k, sep, m', p);
    var p' := Moved(k, sep, p);
    assert LeafAt(m', sep, p', name, v);
    forall q' | Named(m', sep, q', name) ensures !WrittenAfter(q', p') {
      OriginNamed(m, k, sep, m', q', name);
      if WrittenAfter(q', p') {
        OriginAfter(m, k, sep, m', p, q');
      }
    }
  }

  lemma OriginAfter(m: Data, k: string, sep: string, m': Data, p: seq<string>, q': seq<string>)
    requires sep != "" && Expands(m, k, sep, m') && MapsStay(m, sep) && IsNode(m, p) && p != [k] && IsNode(m', q')
    requires p[0] == k ==> forall x :: x in m && x != k ==> !m[x].Obj?
    requires WrittenAfter(q', Moved(k, sep, p))
    ensures WrittenAfter(Origin(m, k, sep, q'), p)
  {
    var p', q, n := Moved(k, sep, p), Origin(m, k, sep, q'), m[k].fields;
    assert q'[0] in m' && m'[q'[0]].Obj?;
    if p[0] == k {
      if !Prefixed(n, k + sep, q'[0]) {
        assert false;
      }
      var nk := q'[0][|k + sep|..];
      assert q'[0] == k + sep + nk && q == [k, nk] + q'[1..];
      if |p'| > 1 {
        assert q'[0] == q'[..|p'| - 1][0] == p'[..|p'| - 1][0] == k + sep + p[1];
        assert (k + sep + p[1])[|k + sep|..] == p[1];
        forall i | 0 <= i < |p| - 1 ensures q[i] == p[i] {
          if i > 1 { assert q[i] == q'[i - 1] == q'[..|p'| - 1][i - 1] == p'[..|p'| - 1][i - 1] == p[i]; }
        }
      }
    } else if |p| > 1 {
      assert q'[0] == q'[..|p| - 1][0] == p[..|p| - 1][0] == p[0];
      if Prefixed(n, k + sep, q'[0]) {
        Overwriter(m, k, sep, p[0]);
        TopIsMap(m, p);
        assert false;
      }
    }
  }

  /** Every leaf that can be last is last in some result. */
  lemma {:induction false} LastIsResult(m: Data, sep: string, p: seq<string>, name: string, v: Json) returns (out: Data)
    requires sep != "" && MapsStay(m, sep) && CanBeLast(m, sep, p, name, v)
    ensures IsResult(m, sep, out) && name in out && out[name] == v
    decreases Total(m)
  {
    if Flat(m) {
      FlatPath(m, p);
      out := m;
      assert Reaches(m, sep, 0, m);
    } else {
      var k := NextMap(m, p[0]);
      var m' := ExpandOne(m, k, sep);
      LastAfter(m, k, sep, m', p, name, v);
      MapsStillStay(m, k, sep, m');
      hide MapsStay, CanBeLast, Expands;
      out := LastIsResult(m', sep, Moved(k, sep, p), name, v);
      var n :| Reaches(m', sep, n, out);
      ReachesFirst(m, k, sep, m', n, out);
    }
  }

  /** Any other map first. */
  lemma NextMap(m: Data, x: string) returns (k: string)
    requires !Flat(m)
    ensures k in m && m[k].Obj? && (k == x ==> forall y :: y in m && y != k ==> !m[y].Obj?)
  {
    if y :| y in m && m[y].Obj? && y != x {
      k := y;
    } else {
      k :| k in m && m[k].Obj?;
    }
  }

  // ---------------------------------------------------------------- exactly when the order shows

  /** Two leaves of one name that can both be last, with different values, give two results that differ. */
  lemma TwoResults(m: Data, sep: string, p: seq<string>, q: seq<string>, name: string, v: Json, w: Json)
    returns (a: Data, b: Data)
    requires sep != "" && MapsStay(m, sep) && v != w
    requires CanBeLast(m, sep, p, name, v) && CanBeLast(m, sep, q, name, w)
    ensures IsResult(m, sep, a) && IsResult(m, sep, b) && name in a && name in b && a[name] != b[name]
  {
    a := LastIsResult(m, sep, p, name, v);
    b := LastIsResult(m, sep, q, name, w);
  }

  /** When nothing is ever written over a map, the order of expansions does not show exactly when the leaves that can
      be last agree under every name. */
  lemma OneResultIff(m: Data, sep: string)
    requires sep != "" && MapsStay(m, sep)
    ensures OneResult(m, sep) <==> LastAgree(m, sep)
  {
    AllSecure(m, sep);
    hide MapsStay, CanBeLast, IsResult, NoneComesAndGoes;
    if LastAgree(m, sep) {
      OneResultWhen(m, sep);
    } else {
      var p, q, name, v, w :| CanBeLast(m, sep, p, name, v) && CanBeLast(m, sep, q, name, w) && v != w;
      var a, b := TwoResults(m, sep, p, q, name, v, w);
    }
  }

  /** So it is when no map shares its name. Then every result has exactly the names of the leaves. */
  lemma UniqueMapsStay(m: Data, sep: string)
    requires MapNamesUnique(m, sep)
    ensures MapsStay(m, sep)
    ensures forall name, v :: LeafNamed(m, sep, name, v) ==> AlwaysThere(m, sep, name)
  {
    AllSecure(m, sep);
    forall name, v | LeafNamed(m, sep, name, v) ensures AlwaysThere(m, sep, name) {
      var p :| LeafAt(m, sep, p, name, v);
      assert SecureLeaf(m, sep, p, name);
    }
  }

  lemma ResultNames(m: Data, sep: string, out: Data, name: string)
    requires sep != "" && MapNamesUnique(m, sep) && IsResult(m, sep, out)
    ensures name in out <==> exists v :: LeafNamed(m, sep, name, v)
  {
    UniqueMapsStay(m, sep);
    hide AlwaysThere, IsResult, MapNamesUnique;
    ResultIsLast(m, sep, out, name);
    if name in out {
      var p :| CanBeLast(m, sep, p, name, out[name]);
      assert LeafNamed(m, sep, name, out[name]);
    }
  }

  // ---------------------------------------------------------------- a leaf that never lasts

  /** A leaf of the top level beside a nested one of the same name. */
  function Beside(v: Json, w: Json): Data { map["a_b" := v, "a" := Obj(map["b" := w])] }

  lemma NodesBeside(v: Json, w: Json, p: seq<string>)
    requires !v.Obj? && !w.Obj? && IsNode(Beside(v, w), p)
    ensures p == ["a_b"] || p == ["a"] || p == ["a", "b"]
  {
    var m := Beside(v, w);
    if p[0] == "a" && |p| > 1 {
      var rest := p[1..];
      assert NodeAt(m["a"].fields, rest).Some?;
      assert rest[0] == "b" && |rest| == 1;
      assert p == [p[0]] + rest;
    } else {
      assert p == [p[0]];
    }
  }

  lemma NamesBeside(v: Json, w: Json)
    requires !v.Obj? && !w.Obj?
    ensures var m := Beside(v, w);
      LeafAt(m, "_", ["a_b"], "a_b", v) && LeafAt(m, "_", ["a", "b"], "a_b", w) && Join(["a"], "_") == "a"
  {
    var m := Beside(v, w);
    TopNode(m, "a_b", "_");
    ChildNode(m, "a", "_", "b");
    assert "a" + "_" + "b" == "a_b";
  }

  /** Two leaves of one name with different values, and yet one result: the nested leaf is always written later. */
  lemma NestedAlwaysLasts(v: Json, w: Json, out: Data)
    requires !v.Obj? && !w.Obj? && v != w && IsResult(Beside(v, w), "_", out)
    ensures LeafNamed(Beside(v, w), "_", "a_b", v) && LeafNamed(Beside(v, w), "_", "a_b", w)
    ensures out == map["a_b" := w]
  {
    var m := Beside(v, w);
    NamesBeside(v, w);
    hide Beside, IsResult;
    forall p, q | IsNode(m, p) && IsNode(m, q) && NodeAt(m, p).value.Obj? && Join(p, "_") == Join(q, "_")
      ensures p == q {
      NodesBeside(v, w, p);
      NodesBeside(v, w, q);
    }
    UniqueMapsStay(m, "_");
    AllSecure(m, "_");
    assert CanBeLast(m, "_", ["a", "b"], "a_b", w) by {
      forall q | IsNode(m, q) ensures !WrittenAfter(q, ["a", "b"]) { NodesBeside(v, w, q); }
    }
    hide CanBeLast, AlwaysThere;
    forall name ensures (name in out <==> name == "a_b") && (name in out ==> out[name] == w) {
      ResultIsLast(m, "_", out, name);
      OnlyNameBeside(v, w, name);
    }
    assert out.Keys == {"a_b"};
  }

  lemma OnlyNameBeside(v: Json, w: Json, name: string)
    requires !v.Obj? && !w.Obj?
    ensures forall p, x :: CanBeLast(Beside(v, w), "_", p, name, x) ==> name == "a_b" && x == w
  {
    var m := Beside(v, w);
    NamesBeside(v, w);
    forall p, x | LeafAt(m, "_", p, name, x) ensures name == "a_b" && (p == ["a_b"] || (p == ["a", "b"] && x == w)) {
      NodesBeside(v, w, p);
    }
    assert Named(m, "_", ["a", "b"], "a_b") && WrittenAfter(["a", "b"], ["a_b"]);
    assert ["a", "b"][..1] == ["a"];
    forall r | IsNode(m, r) && r != ["a"] ensures Join(r, "_") != "a" { NodesBeside(v, w, r); }
    assert Secure(m, "_", ["a", "b"]);
  }

  // ---------------------------------------------------------------- a map that is lost

  /** Below `a` a map of the name of another one. */
  const TWIN_MAPS: Data := map["a" := Obj(map["b" := Obj(X)]), "a_b" := Obj(Y)]
  const X: Data := map["x" := Int(1)]
  const Y: Data := map["y" := Int(2)]

  /** Expanding a map of one entry. */
  lemma Unwrap(m: Data, sep: string, n: nat, mid: Data, k: string, nk: string, v: Json)
    requires Reaches(m, sep, n, mid) && k in mid && mid[k] == Obj(map[nk := v]) && sep != ""
    ensures Reaches(m, sep, n + 1, (mid - {k})[k + sep + nk := v])
  {
    Unwrapped(mid, k, sep, k + sep, nk, v);
    hide Reaches, Expanded;
    ReachesThen(m, sep, n, mid, k, (mid - {k})[k + sep + nk := v]);
  }

  lemma Unwrapped(m: Data, k: string, sep: string, prefix: string, nk: string, v: Json)
    requires k in m && m[k] == Obj(map[nk := v]) && sep != "" && prefix == k + sep
    ensures Expanded(m, k, sep, (m - {k})[prefix + nk := v])
  {
    var m', key, n := (m - {k})[prefix + nk := v], prefix + nk, m[k].fields;
    PrefixedIs(n, prefix, nk);
    assert |key| > |k| && n.Keys == {nk} && n[nk] == v;
    forall x | Prefixed(n, prefix, x) ensures x == key { assert x == prefix + x[|prefix|..]; }
    hide Prefixed;
    assert forall x :: x in m' ==> x == key || (x in m && x != k);
  }

  lemma NestedFirst()
    ensures IsResult(TWIN_MAPS, "_", map["a_b_x" := Int(1)])
  {
    hide Reaches;
    NoSteps(TWIN_MAPS, "_", TWIN_MAPS);
    assert "a" + "_" + "b" == "a_b" && "a_b" + "_" + "x" == "a_b_x";
    Unwrap(TWIN_MAPS, "_", 0, TWIN_MAPS, "a", "b", Obj(X));
    assert (TWIN_MAPS - {"a"})["a_b" := Obj(X)] == map["a_b" := Obj(X)];
    Unwrap(TWIN_MAPS, "_", 1, map["a_b" := Obj(X)], "a_b", "x", Int(1));
    assert (map["a_b" := Obj(X)] - {"a_b"})["a_b_x" := Int(1)] == map["a_b_x" := Int(1)];
  }

  lemma NestedLast()
    ensures IsResult(TWIN_MAPS, "_", map["a_b_x" := Int(1), "a_b_y" := Int(2)])
  {
    hide Reaches;
    NoSteps(TWIN_MAPS, "_", TWIN_MAPS);
    assert "a" + "_" + "b" == "a_b" && "a_b" + "_" + "x" == "a_b_x" && "a_b" + "_" + "y" == "a_b_y";
    Unwrap(TWIN_MAPS, "_", 0, TWIN_MAPS, "a_b", "y", Int(2));
    var m1: Data := map["a" := Obj(map["b" := Obj(X)]), "a_b_y" := Int(2)];
    assert (TWIN_MAPS - {"a_b"})["a_b_y" := Int(2)] == m1;
    Unwrap(TWIN_MAPS, "_", 1, m1, "a", "b", Obj(X));
    var m2: Data := map["a_b" := Obj(X), "a_b_y" := Int(2)];
    assert (m1 - {"a"})["a_b" := Obj(X)] == m2;
    Unwrap(TWIN_MAPS, "_", 2, m2, "a_b", "x", Int(1));
    assert (m2 - {"a_b"})["a_b_x" := Int(1)] == map["a_b_x" := Int(1), "a_b_y" := Int(2)];
  }

  lemma {:induction false} TwinNodes(p: seq<string>)
    requires IsNode(TWIN_MAPS, p) && !NodeAt(TWIN_MAPS, p).value.Obj?
    ensures p == ["a", "b", "x"] || p == ["a_b", "y"]
  {
    var rest := p[1..];
    assert p == [p[0]] + rest;
    if p[0] == "a" {
      assert IsNode(TWIN_MAPS["a"].fields, rest) && rest[0] == "b" && IsNode(X, rest[1..]) && |rest[1..]| == 1;
      assert rest == ["b"] + rest[1..];
    } else {
      assert IsNode(Y, rest) && |rest| == 1;
    }
  }

  /** Two maps of one name. No two leaves share a name, and still the results differ: the map of the top level may be
      overwritten before it is expanded, and its leaf is lost. */
  lemma LostWithItsMap()
    ensures LastAgree(TWIN_MAPS, "_") && !OneResult(TWIN_MAPS, "_") && !NoneComesAndGoes(TWIN_MAPS, "_")
    ensures IsResult(TWIN_MAPS, "_", map["a_b_x" := Int(1)])
    ensures IsResult(TWIN_MAPS, "_", map["a_b_x" := Int(1), "a_b_y" := Int(2)])
  {
    NestedFirst();
    NestedLast();
    TwinLeavesAgree();
    hide IsResult, LastAgree, CanBeLast, AlwaysThere, NoneComesAndGoes;
    var a: Data, b: Data := map["a_b_x" := Int(1)], map["a_b_x" := Int(1), "a_b_y" := Int(2)];
    assert "a_b_y" in b && "a_b_y" !in a;
    if NoneComesAndGoes(TWIN_MAPS, "_") {
      OneResultWhen(TWIN_MAPS, "_");
      assert false;
    }
  }

  lemma TwinLeavesAgree()
    ensures LastAgree(TWIN_MAPS, "_")
  {
    assert Join(["a", "b", "x"], "_")[4] == 'x' && Join(["a_b", "y"], "_")[4] == 'y' by {
      assert ["a", "b", "x"][1..] == ["b", "x"] && ["b", "x"][1..] == ["x"] && ["a_b", "y"][1..] == ["y"];
    }
    forall p, q, name, v, w | LeafAt(TWIN_MAPS, "_", p, name, v) && LeafAt(TWIN_MAPS, "_", q, name, w) ensures v == w {
      TwinNodes(p);
      TwinNodes(q);
    }
  }

  // ---------------------------------------------------------------- a map that is lost without harm

  /** Two maps of one name with the same contents. */
  const LIKE_MAPS: Data := map["a" := Obj(map["b_c" := Obj(X)]), "a_b" := Obj(map["c" := Obj(X)])]

  /** What stays so in every expansion: the names, what is at them, and that the leaf is there. */
  ghost predicate Alike(m: Data) {
    && (forall p :: IsNode(m, p) ==>
          var name := Join(p, "_");
          && name in {"a", "a_b", "a_b_c", "a_b_c_x"} && (name in {"a", "a_b"} ==> |p| == 1)
          && (name == "a_b_c_x" ==> NodeAt(m, p) == Some(Int(1))) && (name != "a_b_c_x" ==> NodeAt(m, p).value.Obj?)
          && (name == "a_b_c" ==> NodeAt(m, p) == Some(Obj(X))))
    && exists p :: Named(m, "_", p, "a_b_c_x")
  }

  lemma AlikeAtStart()
    ensures Alike(LIKE_MAPS)
  {
    forall p | IsNode(LIKE_MAPS, p)
      ensures p in [["a"], ["a_b"], ["a", "b_c"], ["a_b", "c"], ["a", "b_c", "x"], ["a_b", "c", "x"]]
    {
      LikeNodes(p);
    }
    LikeNames();
    assert Named(LIKE_MAPS, "_", ["a_b", "c", "x"], "a_b_c_x");
  }

  lemma LikeNodes(p: seq<string>)
    requires IsNode(LIKE_MAPS, p)
    ensures p in [["a"], ["a_b"], ["a", "b_c"], ["a_b", "c"], ["a", "b_c", "x"], ["a_b", "c", "x"]]
  {
    if |p| == 1 {
      assert p == [p[0]];
    } else {
      var k, q := p[0], p[1..];
      assert NodeAt(LIKE_MAPS, p) == NodeAt(LIKE_MAPS[k].fields, q);
      assert LIKE_MAPS[k].fields[q[0]] == Obj(X);
      if |q| == 1 {
        assert p == [k, q[0]];
      } else {
        var r := q[1..];
        assert NodeAt(LIKE_MAPS[k].fields, q) == NodeAt(X, r) && IsNode(X, r) && r[0] == "x" && |r| == 1;
        assert p == [k, q[0], "x"];
      }
    }
  }

  lemma LikeNames()
    ensures Join(["a"], "_") == "a" && Join(["a_b"], "_") == "a_b"
    ensures Join(["a", "b_c"], "_") == "a_b_c" && Join(["a_b", "c"], "_") == "a_b_c"
    ensures Join(["a", "b_c", "x"], "_") == "a_b_c_x" && Join(["a_b", "c", "x"], "_") == "a_b_c_x"
    ensures NodeAt(LIKE_MAPS, ["a", "b_c"]) == Some(Obj(X)) == NodeAt(LIKE_MAPS, ["a_b", "c"])
    ensures NodeAt(LIKE_MAPS, ["a", "b_c", "x"]) == Some(Int(1)) == NodeAt(LIKE_MAPS, ["a_b", "c", "x"])
  {
    assert ["a", "b_c"][1..] == ["b_c"] && ["a_b", "c"][1..] == ["c"];
    assert ["a", "b_c", "x"][1..] == ["b_c", "x"] && ["b_c", "x"][1..] == ["x"];
    assert ["a_b", "c", "x"][1..] == ["c", "x"] && ["c", "x"][1..] == ["x"];
    assert "a" + "_" + "b_c" == "a_b_c" && "a_b" + "_" + "c" == "a_b_c";
    assert "a" + "_" + ("b_c" + "_" + "x") == "a_b_c_x" && "a_b" + "_" + ("c" + "_" + "x") == "a_b_c_x";
  }

  lemma LeafStaysAlike(m: Data, k: string, m': Data)
    requires Expands(m, k, "_", m') && Alike(m)
    ensures exists p' :: Named(m', "_", p', "a_b_c_x")
  {
    var p :| Named(m, "_", p, "a_b_c_x");
    TopNode(m, k, "_");
    var x := p[0];
    if x != k && Prefixed(m[k].fields, k + "_", x) {
      Overwriter(m, k, "_", x);
      var c := [k, x[|k + "_"|..]];
      if x == "a_b_c_x" {
        Survives(m, k, "_", m', c);
        assert Named(m', "_", Moved(k, "_", c), x);
      } else {
        assert x == "a_b_c" && NodeAt(m, c) == Some(Obj(X));
        Below(m, c, "_", "x");
        Survives(m, k, "_", m', c + ["x"]);
        assert "a_b_c" + "_" + "x" == "a_b_c_x";
        assert Named(m', "_", Moved(k, "_", c + ["x"]), "a_b_c_x");
      }
    } else {
      Survives(m, k, "_", m', p);
      assert Named(m', "_", Moved(k, "_", p), "a_b_c_x");
    }
  }

  /** An entry of a map that is an entry of a map of the top level. */
  lemma Below(m: Data, c: seq<string>, sep: string, nk: string)
    requires |c| == 2 && IsNode(m, c) && NodeAt(m, c).value.Obj? && nk in NodeAt(m, c).value.fields
    ensures IsNode(m, c + [nk]) && Join(c + [nk], sep) == Join(c, sep) + sep + nk
  {
    var k, j := c[0], c[1];
    assert c == [k, j] + [] && c + [nk] == [k, j] + [nk];
    NodeAtTwo(m, k, j, []);
    NodeAtTwo(m, k, j, [nk]);
    assert ([j] + [nk])[1..] == [nk] && [j] + [] == [j];
    JoinPrefix(k, sep, j, []);
    JoinPrefix(k, sep, j, [nk]);
    assert [k + sep + j] + [] == [k + sep + j] && ([k + sep + j] + [nk])[1..] == [nk];
  }

  lemma StaysAlike(m: Data, k: string, m': Data)
    requires Expands(m, k, "_", m') && Alike(m)
    ensures Alike(m')
  {
    LeafStaysAlike(m, k, m');
    forall p' | IsNode(m', p')
      ensures var name := Join(p', "_");
        && IsNode(m, Origin(m, k, "_", p')) && Join(Origin(m, k, "_", p'), "_") == name
        && NodeAt(m, Origin(m, k, "_", p')) == NodeAt(m', p') && |p'| <= |Origin(m, k, "_", p')|
    {
      OriginNamed(m, k, "_", m', p', Join(p', "_"));
    }
  }

  lemma {:induction false} AlwaysAlike(n: nat, m: Data)
    requires Reaches(LIKE_MAPS, "_", n, m)
    ensures Alike(m)
  {
    hide Reaches, Alike, Expands;
    if n == 0 {
      NoSteps(LIKE_MAPS, "_", m);
      AlikeAtStart();
    } else {
      var mid, k := LastStep(LIKE_MAPS, "_", n, m);
      AlwaysAlike(n - 1, mid);
      StaysAlike(mid, k, m);
    }
  }

  /** Each of the maps may overwrite the other, so the leaf is not always there by way of either; and yet there is one
      result, since what overwrites brings the same leaf. */
  lemma LostWithoutHarm()
    ensures !NoneComesAndGoes(LIKE_MAPS, "_") && OneResult(LIKE_MAPS, "_")
  {
    forall out | IsResult(LIKE_MAPS, "_", out) ensures out == map["a_b_c_x" := Int(1)] {
      var n :| Reaches(LIKE_MAPS, "_", n, out);
      AlwaysAlike(n, out);
      FlatAlike(out);
    }
    NotSecure();
  }

  lemma FlatAlike(out: Data)
    requires Flat(out) && Alike(out)
    ensures out == map["a_b_c_x" := Int(1)]
  {
    forall x | x in out ensures x == "a_b_c_x" && out[x] == Int(1) { TopNode(out, x, "_"); }
    var p :| Named(out, "_", p, "a_b_c_x");
    FlatPath(out, p);
    assert out.Keys == {"a_b_c_x"};
  }

  lemma NotSecure()
    ensures !NoneComesAndGoes(LIKE_MAPS, "_")
  {
    LikeNames();
    var p, q := ["a", "b_c", "x"], ["a_b", "c", "x"];
    assert p[..2] == ["a", "b_c"] && q[..2] == ["a_b", "c"] && p[..2][..1] == ["a"] && q[..2][..1] == ["a_b"];
    assert !NeverOverwritten(LIKE_MAPS, "_", p[..2]) && !NeverOverwritten(LIKE_MAPS, "_", q[..2]);
    assert p[..1] == ["a"] && q[..1] == ["a_b"];
    forall r | SecureLeaf(LIKE_MAPS, "_", r, "a_b_c_x") ensures false { LikeNodes(r); }
    forall r | IsNode(LIKE_MAPS, r) ensures !WrittenAfter(r, p) { LikeNodes(r); }
    assert CanBeLast(LIKE_MAPS, "_", p, "a_b_c_x", Int(1));
  }
}
