/** The byte order of strings and the ascending listing of a set of keys. */
module StringOrder {
  import opened Common

  /** Code-point order, which is also the byte order of the UTF-8 forms. */
  predicate Less(a: string, b: string) {
    if b == "" then false else if a == "" then true
    else a[0] < b[0] || (a[0] == b[0] && Less(a[1..], b[1..]))
  }

  lemma {:induction false} LessTotal(a: string, b: string)
    ensures Less(a, b) || a == b || Less(b, a)
    ensures !(Less(a, b) && Less(b, a)) && !Less(a, a)
    decreases |a|
  {
    if a != "" {
      LessTotal(a[1..], if b == "" then "" else b[1..]);
      LessTotal(a[1..], a[1..]);
      if b != "" && a[0] == b[0] && a[1..] == b[1..] {
        assert a == [a[0]] + a[1..] && b == [b[0]] + b[1..];
      }
    }
  }

  lemma {:induction false} LessTransitive(a: string, b: string, c: string)
    requires Less(a, b) && Less(b, c)
    ensures Less(a, c)
    decreases |a|
  {
    if a != "" && a[0] == b[0] == c[0] {
      LessTransitive(a[1..], b[1..], c[1..]);
    }
  }

  ghost predicate Ascending(ks: seq<string>) {
    forall i, j :: 0 <= i < j < |ks| ==> Less(ks[i], ks[j])
  }

  /** Inserts `k` before the first larger key. */
  function Insert(k: string, ks: seq<string>): seq<string> {
    if ks == [] then [k] else if Less(k, ks[0]) then [k] + ks else [ks[0]] + Insert(k, ks[1..])
  }

  lemma {:induction false} InsertAscending(k: string, ks: seq<string>)
    requires Ascending(ks) && k !in ks
    ensures Ascending(Insert(k, ks))
    ensures forall x :: x in Insert(k, ks) <==> x == k || x in ks
    ensures |Insert(k, ks)| == |ks| + 1
  {
    if ks != [] {
      LessTotal(k, ks[0]);
      if Less(k, ks[0]) {
        forall j | 0 < j < |ks| ensures Less(k, ks[j]) { LessTransitive(k, ks[0], ks[j]); }
      } else {
        var rest := Insert(k, ks[1..]);
        InsertAscending(k, ks[1..]);
        assert Insert(k, ks) == [ks[0]] + rest;
        forall j | 0 <= j < |rest| ensures Less(ks[0], rest[j]) {
          assert rest[j] in rest;
          assert rest[j] == k || rest[j] in ks[1..];
        }
        assert ks == [ks[0]] + ks[1..];
      }
    }
  }

  /** The keys in ascending order. */
  ghost function Sorted(keys: set<string>): (ks: seq<string>)
    ensures Ascending(ks) && (forall x :: x in ks <==> x in keys)
  {
    if keys == {} then []
    else
      var k :| k in keys;
      var ks := Sorted(keys - {k});
      InsertAscending(k, ks);
      Insert(k, ks)
  }

  lemma {:induction false} AscendingUnique(a: seq<string>, b: seq<string>)
    requires Ascending(a) && Ascending(b) && forall x :: x in a <==> x in b
    ensures a == b
  {
    assert a != [] ==> a[0] in b;
    assert b != [] ==> b[0] in a;
    if a != [] {
      HeadLeast(a, b[0]);
      HeadLeast(b, a[0]);
      LessTotal(a[0], b[0]);
      var a', b' := a[1..], b[1..];
      OnlyOnce(a);
      OnlyOnce(b);
      assert a == [a[0]] + a' && b == [b[0]] + b';
      forall x ensures x in a' <==> x in b' {
        assert x in a <==> x == a[0] || x in a';
        assert x in b <==> x == b[0] || x in b';
      }
      AscendingUnique(a', b');
    }
  }

  lemma HeadLeast(a: seq<string>, x: string)
    requires Ascending(a) && x in a
    ensures a[0] == x || Less(a[0], x)
  {
    var i :| 0 <= i < |a| && a[i] == x;
  }

  lemma OnlyOnce(a: seq<string>)
    requires Ascending(a) && a != []
    ensures a[0] !in a[1..]
  {
    forall x | x in a[1..] ensures x != a[0] {
      var i :| 0 <= i < |a[1..]| && a[1..][i] == x;
      assert Less(a[0], a[i + 1]);
      LessTotal(a[0], x);
    }
  }

  method SortStrings(keys: seq<string>) returns (sorted: seq<string>)
    requires Distinct(keys)
    ensures Ascending(sorted) && forall k :: k in sorted <==> k in keys
  {
    sorted := [];
    for i := 0 to |keys|
      invariant Ascending(sorted) && forall k :: k in sorted <==> k in keys[..i]
    {
      assert keys[i] !in keys[..i];
      InsertAscending(keys[i], sorted);
      sorted := Insert(keys[i], sorted);
    }
    assert keys[..|keys|] == keys;
  }

  /** The keys of a map, collected in the map's own order and then sorted. */
  method SortedKeys(keys: set<string>) returns (sorted: seq<string>)
    ensures Ascending(sorted) && sorted == Sorted(keys)
  {
    var listed: seq<string> := [];
    var rest := keys;
    while rest != {}
      invariant rest <= keys && Distinct(listed)
      invariant forall k :: k in listed <==> k in keys && k !in rest
      decreases |rest|
    {
      var k :| k in rest;
      rest := rest - {k};
      listed := listed + [k];
    }
    sorted := SortStrings(listed);
    AscendingUnique(sorted, Sorted(keys));
  }

  lemma {:induction false} AscendingSize(ks: seq<string>, keys: set<string>)
    requires Ascending(ks) && forall k :: k in ks <==> k in keys
    ensures |ks| == |keys|
  {
    if ks == [] {
      assert keys == {};
    } else {
      OnlyOnce(ks);
      assert ks == [ks[0]] + ks[1..];
      AscendingSize(ks[1..], keys - {ks[0]});
    }
  }
}
