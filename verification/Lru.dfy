/** The fixed-size least-recently-used cache with per-entry expiry: a key index plus a recency list of
    shared entries, updated in place, proved against a pure recency list, and the inclusion property of
    that list across capacities. */
module LruCache {
  import opened Common

  // ---------------------------------------------------------------- the recency list

  datatype Slot<K, V> = Slot(key: K, value: V, expiry: Option<int>)

  ghost predicate DistinctKeys<K, V>(s: seq<Slot<K, V>>) {
    forall i, j :: 0 <= i < j < |s| ==> s[i].key != s[j].key
  }

  /** The list without the slot of `key`. */
  function Without<K(==), V>(s: seq<Slot<K, V>>, key: K): seq<Slot<K, V>> {
    if s == [] then [] else (if s[0].key == key then [] else [s[0]]) + Without(s[1..], key)
  }

  function Lookup<K(==), V>(s: seq<Slot<K, V>>, key: K): Option<Slot<K, V>> {
    if s == [] then None else if s[0].key == key then Some(s[0]) else Lookup(s[1..], key)
  }

  predicate Expired<K, V>(slot: Slot<K, V>, now: int) {
    slot.expiry.Some? && now > slot.expiry.value
  }

  function ExpiryOf(ttl: int, now: int): Option<int> {
    if ttl > 0 then Some(now + ttl) else None
  }

  /** Set: the key becomes the most recent; a new key in a full cache drops the least recent slot. */
  function SetSpec<K(==), V>(cap: nat, s: seq<Slot<K, V>>, slot: Slot<K, V>): seq<Slot<K, V>>
    requires cap >= 1
  {
    if Lookup(s, slot.key).Some? then [slot] + Without(s, slot.key)
    else [slot] + (if |s| >= cap then s[..|s| - 1] else s)
  }

  /** Get: an expired slot is removed, a live one becomes the most recent. */
  function GetSpec<K(==), V>(s: seq<Slot<K, V>>, key: K, now: int): (seq<Slot<K, V>>, Option<V>) {
    match Lookup(s, key)
    case None => (s, None)
    case Some(slot) =>
      if Expired(slot, now) then (Without(s, key), None) else ([slot] + Without(s, key), Some(slot.value))
  }

  // ---------------------------------------------------------------- the cache object

  class Entry<K, V> {
    const key: K
    var value: V
    var expiry: Option<int>

    constructor (key: K, value: V, expiry: Option<int>)
      ensures this.key == key && this.value == value && this.expiry == expiry
    {
      this.key, this.value, this.expiry := key, value, expiry;
    }

    ghost function View(): Slot<K, V>
      reads this
    {
      Slot(key, value, expiry)
    }
  }

  /** Removes the list element holding `e`. */
  function Unlink<T(==)>(list: seq<T>, e: T): seq<T> {
    if list == [] then [] else if list[0] == e then list[1..] else [list[0]] + Unlink(list[1..], e)
  }

  /** The key index and the recency list describe the same entries. */
  ghost predicate Coherent<K, V>(items: map<K, Entry<K, V>>, list: seq<Entry<K, V>>) {
    && (forall i :: 0 <= i < |list| ==> list[i].key in items && items[list[i].key] == list[i])
    && (forall k :: k in items ==> items[k] in list && items[k].key == k)
    && (forall i, j :: 0 <= i < j < |list| ==> list[i].key != list[j].key)
  }

  ghost function Views<K, V>(list: seq<Entry<K, V>>): (s: seq<Slot<K, V>>)
    reads list
    ensures |s| == |list|
    ensures forall i :: 0 <= i < |s| ==> s[i] == list[i].View()
  {
    seq(|list|, i requires 0 <= i < |list| reads list => list[i].View())
  }

  class Lru<K(==), V> {
    const cap: nat
    var items: map<K, Entry<K, V>>
    var list: seq<Entry<K, V>>  // front is the most recently used

    ghost predicate Valid()
      reads this
    {
      1 <= cap && |list| <= cap && Coherent(items, list)
    }

    ghost function Contents(): (s: seq<Slot<K, V>>)
      reads this, list
    {
      Views(list)
    }

    constructor (capacity: int)
      ensures Valid() && Contents() == []
      ensures cap == if capacity <= 0 then 1 else capacity
    {
      cap := if capacity <= 0 then 1 else capacity;
      items := map[];
      list := [];
    }

    method Set(key: K, value: V, ttl: int, now: int)
      requires Valid()
      modifies this, list
      ensures Valid() && (forall e :: e in list ==> e in old(list) || fresh(e))
      ensures Contents() == SetSpec(cap, old(Contents()), Slot(key, value, ExpiryOf(ttl, now)))
    {
      hide Coherent, Lookup, Without;
      ghost var before := Contents();
      LookupIndexed(items, list, key);
      if key in items {
        var ent := items[key];
        ghost var i := PositionOf(items, list, key);
        ent.value := value;
        ent.expiry := ExpiryOf(ttl, now);
        assert forall j :: 0 <= j < |list| && j != i ==> Contents()[j] == before[j];
        WithoutAgree(Contents(), before, i);
        MoveToFront(ent);
        return;
      }
      if |list| >= cap {
        EvictOldest();
      }
      var ent := new Entry(key, value, ExpiryOf(ttl, now));
      PushFront(ent);
    }

    method Get(key: K, now: int) returns (r: Option<V>)
      requires Valid()
      modifies this
      ensures Valid() && (forall e :: e in list ==> e in old(list))
      ensures (Contents(), r) == GetSpec(old(Contents()), key, now)
    {
      LookupIndexed(items, list, key);
      if key !in items {
        return None;
      }
      var ent := items[key];
      ghost var i := PositionOf(items, list, key);
      WithoutAt(Contents(), i);
      if ent.expiry.Some? && now > ent.expiry.value {
        Remove(ent);
        return None;
      }
      MoveToFront(ent);
      return Some(ent.value);
    }

    method Delete(key: K)
      requires Valid()
      modifies this
      ensures Valid() && (forall e :: e in list ==> e in old(list))
      ensures Contents() == Without(old(Contents()), key)
    {
      LookupIndexed(items, list, key);
      if key in items {
        Remove(items[key]);
      } else {
        WithoutAbsent(Contents(), key);
      }
    }

    method Len() returns (n: nat)
      requires Valid()
      ensures n == |Contents()|
    {
      n := |items|;
      SizesAgree(items, list);
    }

    /** The container's own list operation, on the element that holds `ent`. */
    method MoveToFront(ent: Entry<K, V>)
      requires Valid() && ent in list
      modifies this`list
      ensures Valid() && (forall e :: e in list ==> e in old(list))
      ensures Contents() == [ent.View()] + Without(old(Contents()), ent.key)
    {
      Relinked(items, list, ent);
      list := [ent] + Unlink(list, ent);
    }

    /** Links a new entry at the front of the list and indexes it. */
    method PushFront(ent: Entry<K, V>)
      requires Valid() && |list| < cap && ent.key !in items
      modifies this
      ensures Valid() && list == [ent] + old(list) && items == old(items)[ent.key := ent]
      ensures Contents() == [ent.View()] + old(Contents())
    {
      CoherentPushFront(items, list, ent);
      ViewsCons(ent, list);
      list := [ent] + list;
      items := items[ent.key := ent];
    }

    method EvictOldest()
      requires Valid() && 0 < |list|
      modifies this
      ensures Valid() && list == old(list)[..|old(list)| - 1]
      ensures items == old(items) - {old(list)[|old(list)| - 1].key}
      ensures Contents() == old(Contents())[..|old(list)| - 1]
    {
      var back := list[|list| - 1];
      UnlinkAt(list, |list| - 1);
      WithoutAt(Contents(), |list| - 1);
      Remove(back);
    }

    method Remove(ent: Entry<K, V>)
      requires Valid() && ent in list
      modifies this
      ensures Valid() && list == Unlink(old(list), ent) && items == old(items) - {ent.key}
      ensures Contents() == Without(old(Contents()), ent.key)
      ensures forall e :: e in list ==> e in old(list)
    {
      hide Coherent, Without;
      Unlinked(items, list, ent);
      items := items - {ent.key};
      list := Unlink(list, ent);
    }
  }

  lemma Unlinked<K, V>(items: map<K, Entry<K, V>>, list: seq<Entry<K, V>>, ent: Entry<K, V>)
    requires Coherent(items, list) && ent in list
    ensures ent.key in items && items[ent.key] == ent
    ensures |Unlink(list, ent)| == |list| - 1 && forall e :: e in Unlink(list, ent) ==> e in list
    ensures Coherent(items - {ent.key}, Unlink(list, ent))
    ensures Views(Unlink(list, ent)) == Without(Views(list), ent.key)
  {
    var i := PositionOf(items, list, ent.key);
    UnlinkAt(list, i);
    CoherentWithout(items, list, i);
    WithoutAt(Views(list), i);
    ViewsDropAt(list, i);
  }

  lemma Relinked<K, V>(items: map<K, Entry<K, V>>, list: seq<Entry<K, V>>, ent: Entry<K, V>)
    requires Coherent(items, list) && ent in list
    ensures |[ent] + Unlink(list, ent)| == |list| && forall e :: e in [ent] + Unlink(list, ent) ==> e in list
    ensures Coherent(items, [ent] + Unlink(list, ent))
    ensures Views([ent] + Unlink(list, ent)) == [ent.View()] + Without(Views(list), ent.key)
  {
    hide *;
    Unlinked(items, list, ent);
    var rest := Unlink(list, ent);
    CoherentPushFront(items - {ent.key}, rest, ent);
    assert (items - {ent.key})[ent.key := ent] == items;
    ViewsCons(ent, rest);
    assert forall e :: e in [ent] + rest ==> e == ent || e in rest;
  }

  lemma WithoutAgree<K, V>(s: seq<Slot<K, V>>, t: seq<Slot<K, V>>, i: nat)
    requires i < |s| == |t| && s[i].key == t[i].key && DistinctKeys(s)
    requires forall j :: 0 <= j < |s| && j != i ==> s[j] == t[j]
    ensures Without(s, s[i].key) == Without(t, s[i].key)
  {
    WithoutAt(s, i);
    WithoutAt(t, i);
  }

  lemma PositionOf<K, V>(items: map<K, Entry<K, V>>, list: seq<Entry<K, V>>, key: K) returns (i: nat)
    requires Coherent(items, list) && key in items
    ensures i < |list| && list[i] == items[key] && list[i].key == key
    ensures forall j :: 0 <= j < |list| && j != i ==> list[j] != list[i]
    ensures DistinctKeys(Views(list))
  {
    i :| 0 <= i < |list| && list[i] == items[key];
  }

  function DropAt<T>(s: seq<T>, i: nat): (r: seq<T>)
    requires i < |s|
    ensures |r| == |s| - 1
    ensures forall j :: 0 <= j < |r| ==> r[j] == if j < i then s[j] else s[j + 1]
  {
    s[..i] + s[i + 1..]
  }

  lemma ViewsDropAt<K, V>(list: seq<Entry<K, V>>, i: nat)
    requires i < |list|
    ensures Views(DropAt(list, i)) == DropAt(Views(list), i)
  {
  }

  lemma ViewsCons<K, V>(ent: Entry<K, V>, list: seq<Entry<K, V>>)
    ensures Views([ent] + list) == [ent.View()] + Views(list)
  {
  }

  lemma CoherentWithout<K, V>(items: map<K, Entry<K, V>>, list: seq<Entry<K, V>>, i: nat)
    requires Coherent(items, list) && i < |list|
    ensures Coherent(items - {list[i].key}, DropAt(list, i))
  {
    var rest, fewer := DropAt(list, i), items - {list[i].key};
    forall k | k in fewer ensures fewer[k] in rest && fewer[k].key == k {
      var j := PositionOf(items, list, k);
      assert rest[if j < i then j else j - 1] == list[j];
    }
  }

  lemma CoherentPushFront<K, V>(items: map<K, Entry<K, V>>, list: seq<Entry<K, V>>, ent: Entry<K, V>)
    requires Coherent(items, list) && ent.key !in items
    ensures Coherent(items[ent.key := ent], [ent] + list)
  {
    var more, all := items[ent.key := ent], [ent] + list;
    forall k | k in more ensures more[k] in all && more[k].key == k {
      if k != ent.key {
        var j := PositionOf(items, list, k);
        assert all[j + 1] == list[j];
      } else {
        assert all[0] == ent;
      }
    }
  }

  lemma LookupIndexed<K, V>(items: map<K, Entry<K, V>>, list: seq<Entry<K, V>>, key: K)
    requires Coherent(items, list)
    ensures key in items <==> Lookup(Views(list), key).Some?
    ensures key !in items ==> forall i :: 0 <= i < |list| ==> Views(list)[i].key != key
  {
    LookupMeans(Views(list), key);
    if key in items {
      var i := PositionOf(items, list, key);
      assert Views(list)[i].key == key;
    } else {
      forall i | 0 <= i < |list| ensures Views(list)[i].key != key { assert list[i].key in items; }
    }
  }

  // ---------------------------------------------------------------- facts about the list operations

  lemma {:induction false} UnlinkAt<T>(list: seq<T>, i: nat)
    requires i < |list| && forall j :: 0 <= j < i ==> list[j] != list[i]
    ensures Unlink(list, list[i]) == DropAt(list, i)
  {
    if i > 0 {
      assert list[i] == list[1..][i - 1];
      UnlinkAt(list[1..], i - 1);
      assert list[..i] == [list[0]] + list[1..][..i - 1];
    }
  }

  lemma {:induction false} WithoutAbsent<K, V>(s: seq<Slot<K, V>>, key: K)
    requires forall i :: 0 <= i < |s| ==> s[i].key != key
    ensures Without(s, key) == s
  {
    if s != [] {
      WithoutAbsent(s[1..], key);
    }
  }

  lemma {:induction false} WithoutAt<K, V>(s: seq<Slot<K, V>>, i: nat)
    requires i < |s| && DistinctKeys(s)
    ensures Without(s, s[i].key) == DropAt(s, i)
    ensures Lookup(s, s[i].key) == Some(s[i])
  {
    if i == 0 {
      WithoutAbsent(s[1..], s[0].key);
      assert DropAt(s, 0) == s[1..];
    } else {
      var t := s[1..];
      assert t[i - 1] == s[i];
      WithoutAt(t, i - 1);
      assert Without(s, s[i].key) == [s[0]] + Without(t, s[i].key);
      assert DropAt(s, i) == [s[0]] + DropAt(t, i - 1);
    }
  }

  lemma {:induction false} LookupMeans<K, V>(s: seq<Slot<K, V>>, key: K)
    ensures Lookup(s, key).Some? <==> exists i :: 0 <= i < |s| && s[i].key == key
    ensures Lookup(s, key).Some? ==> Lookup(s, key).value in s && Lookup(s, key).value.key == key
  {
    if s != [] && s[0].key != key {
      LookupMeans(s[1..], key);
      if i :| 0 <= i < |s| && s[i].key == key {
        assert s[1..][i - 1].key == key;
      }
    }
  }

  lemma {:induction false} SizesAgree<K, V>(items: map<K, Entry<K, V>>, list: seq<Entry<K, V>>)
    requires forall i :: 0 <= i < |list| ==> list[i].key in items && items[list[i].key] == list[i]
    requires forall k :: k in items ==> items[k] in list && items[k].key == k
    requires forall i, j :: 0 <= i < j < |list| ==> list[i].key != list[j].key
    ensures |items| == |list|
  {
    if list == [] {
      assert items.Keys == {};
    } else {
      var rest := items - {list[0].key};
      assert items.Keys == rest.Keys + {list[0].key};
      SizesAgree(rest, list[1..]);
    }
  }

  lemma {:induction false} WithoutKeepsDistinct<K, V>(s: seq<Slot<K, V>>, key: K)
    requires DistinctKeys(s)
    ensures DistinctKeys(Without(s, key)) && |Without(s, key)| <= |s|
    ensures forall i :: 0 <= i < |Without(s, key)| ==> Without(s, key)[i] in s && Without(s, key)[i].key != key
    ensures Lookup(s, key).Some? ==> |Without(s, key)| == |s| - 1
  {
    if s != [] {
      var rest := Without(s[1..], key);
      WithoutKeepsDistinct(s[1..], key);
      assert s == [s[0]] + s[1..];
      LookupMeans(s, key);
      if s[0].key == key {
        WithoutAbsent(s[1..], key);
      } else {
        assert Without(s, key) == [s[0]] + rest;
        forall i, j | 0 <= i < j < |Without(s, key)| ensures Without(s, key)[i].key != Without(s, key)[j].key {
          assert Without(s, key)[j] == rest[j - 1];
        }
      }
    }
  }

  // ---------------------------------------------------------------- timed traces and inclusion

  datatype Op<K, V> =
    | OpSet(key: K, value: V, ttl: int, now: int)
    | OpGet(key: K, now: int)
    | OpDelete(key: K)

  function Step<K(==), V>(cap: nat, s: seq<Slot<K, V>>, op: Op<K, V>): seq<Slot<K, V>>
    requires cap >= 1
  {
    match op
    case OpSet(k, v, ttl, now) => SetSpec(cap, s, Slot(k, v, ExpiryOf(ttl, now)))
    case OpGet(k, now) => GetSpec(s, k, now).0
    case OpDelete(k) => Without(s, k)
  }

  /** The cache of capacity `cap` after the whole trace, starting empty. */
  function Run<K(==), V>(cap: nat, ops: seq<Op<K, V>>): seq<Slot<K, V>>
    requires cap >= 1
  {
    if ops == [] then [] else Step(cap, Run(cap, ops[..|ops| - 1]), ops[|ops| - 1])
  }

  /** Every state has distinct keys and never exceeds the capacity. */
  lemma {:induction false} RunWellFormed<K, V>(cap: nat, ops: seq<Op<K, V>>)
    requires cap >= 1
    ensures DistinctKeys(Run(cap, ops)) && |Run(cap, ops)| <= cap
  {
    if ops != [] {
      RunWellFormed(cap, ops[..|ops| - 1]);
      StepWellFormed(cap, Run(cap, ops[..|ops| - 1]), ops[|ops| - 1]);
    }
  }

  lemma StepWellFormed<K, V>(cap: nat, s: seq<Slot<K, V>>, op: Op<K, V>)
    requires cap >= 1 && DistinctKeys(s) && |s| <= cap
    ensures DistinctKeys(Step(cap, s, op)) && |Step(cap, s, op)| <= cap
  {
    LookupMeans(s, op.key);
    WithoutKeepsDistinct(s, op.key);
  }

  /** `a` is `b` with at most one slot taken out. */
  ghost predicate AtMostOneLess<K, V>(a: seq<Slot<K, V>>, b: seq<Slot<K, V>>) {
    a == b || (b != [] && (a == b[1..] || (a != [] && a[0] == b[0] && AtMostOneLess(a[1..], b[1..]))))
  }

  lemma {:induction false} AtMostOneLessSize<K, V>(a: seq<Slot<K, V>>, b: seq<Slot<K, V>>)
    requires AtMostOneLess(a, b)
    ensures |a| <= |b| <= |a| + 1
    ensures |a| == |b| ==> a == b
    ensures forall x :: x in a ==> x in b
  {
    if a != b && a != b[1..] {
      AtMostOneLessSize(a[1..], b[1..]);
      assert a == [a[0]] + a[1..] && b == [b[0]] + b[1..];
    }
  }

  lemma {:induction false} AtMostOneLessWithout<K, V>(a: seq<Slot<K, V>>, b: seq<Slot<K, V>>, key: K)
    requires AtMostOneLess(a, b) && DistinctKeys(b)
    ensures AtMostOneLess(Without(a, key), Without(b, key))
    ensures Lookup(a, key).None? && Lookup(b, key).Some? ==> Without(b, key) == a == Without(a, key)
    ensures Lookup(a, key).Some? ==> Lookup(a, key) == Lookup(b, key)
  {
    LookupMeans(a, key);
    LookupMeans(b, key);
    if a == b {
    } else if a == b[1..] {
      if b[0].key == key {
        WithoutAbsent(b[1..], key);
      } else {
        assert Without(b, key) == [b[0]] + Without(a, key);
        assert Without(b, key)[1..] == Without(a, key);
      }
    } else {
      AtMostOneLessWithout(a[1..], b[1..], key);
      AtMostOneLessSize(a, b);
      if b[0].key == key {
        WithoutAbsent(b[1..], key);
        assert Without(a, key) == Without(a[1..], key) && Without(b, key) == Without(b[1..], key);
      } else {
        LookupMeans(a[1..], key);
        assert [a[0]] + Without(a[1..], key) == Without(a, key);
        assert Without(a, key)[1..] == Without(a[1..], key) && Without(b, key)[1..] == Without(b[1..], key);
        assert a == [a[0]] + a[1..];
      }
    }
  }

  lemma {:induction false} AtMostOneLessEvict<K, V>(a: seq<Slot<K, V>>, b: seq<Slot<K, V>>)
    requires AtMostOneLess(a, b) && a != []
    ensures |b| == |a| + 1 ==> AtMostOneLess(a[..|a| - 1], b[..|b| - 1])
    ensures |b| == |a| ==> AtMostOneLess(a[..|a| - 1], b)
  {
    AtMostOneLessSize(a, b);
    if |a| == |b| {
      DropLast(a);
    } else if a == b[1..] {
      assert a[..|a| - 1] == b[..|b| - 1][1..];
    } else {
      AtMostOneLessSize(a[1..], b[1..]);
      if |a| == 1 {
        assert a[..0] == b[..1][1..];
      } else {
        AtMostOneLessEvict(a[1..], b[1..]);
        assert a[..|a| - 1][1..] == a[1..][..|a| - 2] && b[..|b| - 1][1..] == b[1..][..|b| - 2];
      }
    }
  }

  lemma {:induction false} DropLast<K, V>(a: seq<Slot<K, V>>)
    requires a != []
    ensures AtMostOneLess(a[..|a| - 1], a)
  {
    if |a| == 1 {
      assert a[..0] == a[1..];
    } else {
      DropLast(a[1..]);
      assert a[..|a| - 1][1..] == a[1..][..|a| - 2];
    }
  }

  lemma Cons<K, V>(x: Slot<K, V>, a: seq<Slot<K, V>>, b: seq<Slot<K, V>>)
    requires AtMostOneLess(a, b)
    ensures AtMostOneLess([x] + a, [x] + b)
  {
    assert ([x] + a)[1..] == a && ([x] + b)[1..] == b;
  }

  lemma InclusionSet<K, V>(n: nat, a: seq<Slot<K, V>>, b: seq<Slot<K, V>>, x: Slot<K, V>)
    requires n >= 1 && |a| <= n && |b| <= n + 1
    requires DistinctKeys(b) && AtMostOneLess(a, b)
    ensures AtMostOneLess(SetSpec(n, a, x), SetSpec(n + 1, b, x))
  {
    AtMostOneLessSize(a, b);
    AtMostOneLessWithout(a, b, x.key);
    LookupMeans(a, x.key);
    LookupMeans(b, x.key);
    hide Without, Lookup, DistinctKeys, AtMostOneLess;
    if Lookup(a, x.key).Some? {
      Cons(x, Without(a, x.key), Without(b, x.key));
    } else if Lookup(b, x.key).Some? {
      Same(a);
      if |a| >= n {
        DropLast(a);
        Cons(x, a[..|a| - 1], a);
      } else {
        Cons(x, a, a);
      }
    } else {
      if a != [] {
        AtMostOneLessEvict(a, b);
      }
      var a', b' := if |a| >= n then a[..|a| - 1] else a, if |b| >= n + 1 then b[..|b| - 1] else b;
      Cons(x, a', b');
    }
  }

  lemma InclusionGet<K, V>(a: seq<Slot<K, V>>, b: seq<Slot<K, V>>, k: K, now: int)
    requires DistinctKeys(b) && AtMostOneLess(a, b)
    ensures AtMostOneLess(GetSpec(a, k, now).0, GetSpec(b, k, now).0)
  {
    AtMostOneLessSize(a, b);
    AtMostOneLessWithout(a, b, k);
    LookupMeans(a, k);
    LookupMeans(b, k);
    hide Without, Lookup, DistinctKeys;
    if Lookup(a, k).Some? {
      Cons(Lookup(a, k).value, Without(a, k), Without(b, k));
    } else if Lookup(b, k).Some? {
      assert ([Lookup(b, k).value] + Without(b, k))[1..] == a;
    }
  }

  lemma Same<K, V>(a: seq<Slot<K, V>>)
    ensures AtMostOneLess(a, a)
  {
  }

  /** One operation, executed by both caches, keeps the larger at most one slot ahead. */
  lemma InclusionStep<K, V>(n: nat, a: seq<Slot<K, V>>, b: seq<Slot<K, V>>, op: Op<K, V>)
    requires n >= 1 && |a| <= n && |b| <= n + 1
    requires DistinctKeys(b) && AtMostOneLess(a, b)
    ensures AtMostOneLess(Step(n, a, op), Step(n + 1, b, op))
  {
    hide Without, Lookup, DistinctKeys, AtMostOneLess, SetSpec, GetSpec;
    match op {
      case OpSet(k, v, ttl, now) => InclusionSet(n, a, b, Slot(k, v, ExpiryOf(ttl, now)));
      case OpGet(k, now) => InclusionGet(a, b, k, now);
      case OpDelete(k) => AtMostOneLessWithout(a, b, k);
    }
  }

  lemma {:induction false} InclusionByOne<K, V>(n: nat, ops: seq<Op<K, V>>)
    requires n >= 1
    ensures AtMostOneLess(Run(n, ops), Run(n + 1, ops))
  {
    if ops != [] {
      var init := ops[..|ops| - 1];
      InclusionByOne(n, init);
      RunWellFormed(n, init);
      RunWellFormed(n + 1, init);
      InclusionStep(n, Run(n, init), Run(n + 1, init), ops[|ops| - 1]);
    }
  }

  /** `a` is obtained from `b` by deleting slots, order kept. */
  ghost predicate Subsequence<K, V>(a: seq<Slot<K, V>>, b: seq<Slot<K, V>>) {
    a == [] || (b != [] && (Subsequence(a, b[1..]) || (a[0] == b[0] && Subsequence(a[1..], b[1..]))))
  }

  lemma {:induction false} SubsequenceRefl<K, V>(a: seq<Slot<K, V>>)
    ensures Subsequence(a, a)
  {
    if a != [] {
      SubsequenceRefl(a[1..]);
    }
  }

  lemma {:induction false} SubsequenceExtend<K, V>(a: seq<Slot<K, V>>, b: seq<Slot<K, V>>, c: seq<Slot<K, V>>)
    requires Subsequence(a, b) && AtMostOneLess(b, c)
    ensures Subsequence(a, c)
    decreases |c|
  {
    if a != [] && b != c && b != c[1..] {
      if Subsequence(a, b[1..]) {
        SubsequenceExtend(a, b[1..], c[1..]);
      } else {
        SubsequenceExtend(a[1..], b[1..], c[1..]);
      }
    }
  }

  /** Inclusion: under one timed trace the contents of a smaller cache are a subsequence of the contents
      of a larger one, and the size gap is bounded by the difference of the capacities. */
  lemma {:induction false} Inclusion<K, V>(n: nat, m: nat, ops: seq<Op<K, V>>)
    requires 1 <= n <= m
    ensures Subsequence(Run(n, ops), Run(m, ops))
    ensures |Run(n, ops)| <= |Run(m, ops)| <= |Run(n, ops)| + (m - n)
    decreases m - n
  {
    if n == m {
      SubsequenceRefl(Run(n, ops));
    } else {
      Inclusion(n, m - 1, ops);
      InclusionByOne(m - 1, ops);
      AtMostOneLessSize(Run(m - 1, ops), Run(m, ops));
      SubsequenceExtend(Run(n, ops), Run(m - 1, ops), Run(m, ops));
    }
  }

  lemma {:induction false} SubsequenceLookup<K, V>(a: seq<Slot<K, V>>, b: seq<Slot<K, V>>, key: K)
    requires Subsequence(a, b) && DistinctKeys(b) && Lookup(a, key).Some?
    ensures Lookup(b, key) == Lookup(a, key)
    decreases |b|
  {
    SubsequenceMembers(a, b);
    LookupMeans(a, key);
    var i :| 0 <= i < |b| && b[i] == Lookup(a, key).value;
    WithoutAt(b, i);
  }

  lemma {:induction false} SubsequenceMembers<K, V>(a: seq<Slot<K, V>>, b: seq<Slot<K, V>>)
    requires Subsequence(a, b)
    ensures forall x :: x in a ==> x in b
    decreases |b|
  {
    if a != [] {
      assert a == [a[0]] + a[1..] && b == [b[0]] + b[1..];
      if Subsequence(a, b[1..]) {
        SubsequenceMembers(a, b[1..]);
      } else {
        SubsequenceMembers(a[1..], b[1..]);
      }
    }
  }

  /** More capacity never turns a hit into a miss: a Get that hits in the smaller cache after some trace
      hits in every larger cache after the same trace, with the same value. */
  lemma HitsAreMonotone<K, V>(n: nat, m: nat, ops: seq<Op<K, V>>, key: K, now: int)
    requires 1 <= n <= m
    requires GetSpec(Run(n, ops), key, now).1.Some?
    ensures GetSpec(Run(m, ops), key, now).1 == GetSpec(Run(n, ops), key, now).1
  {
    Inclusion(n, m, ops);
    RunWellFormed(m, ops);
    SubsequenceLookup(Run(n, ops), Run(m, ops), key);
  }

  // ---------------------------------------------------------------- what an entry survives

  /** The keys other than `key` that the operations set or look up. */
  function OthersUsed<K(==), V>(ops: seq<Op<K, V>>, key: K): set<K> {
    set i | 0 <= i < |ops| && !ops[i].OpDelete? && ops[i].key != key :: ops[i].key
  }

  /** An entry survives any operations that neither set nor delete it and look it up only before it expires,
      as long as fewer than `cap` other keys are used in between: only less recently used entries are evicted. */
  lemma {:induction false} RecentlyUsedSurvives<K, V>(
      cap: nat, before: seq<Op<K, V>>, key: K, value: V, ttl: int, at: int, ops: seq<Op<K, V>>) returns (i: nat)
    requires cap >= 1
    requires forall op :: op in ops && op.key == key ==>
      op.OpGet? && !Expired(Slot(key, value, ExpiryOf(ttl, at)), op.now)
    requires |OthersUsed(ops, key)| < cap
    ensures var s := Run(cap, before + [OpSet(key, value, ttl, at)] + ops);
      && i < |s| && s[i] == Slot(key, value, ExpiryOf(ttl, at))
      && forall j :: 0 <= j < i ==> s[j].key in OthersUsed(ops, key)
  {
    var trace := before + [OpSet(key, value, ttl, at)] + ops;
    hide Step, DistinctKeys;
    if ops == [] {
      JustSet(cap, before, key, value, ttl, at);
      assert trace == before + [OpSet(key, value, ttl, at)];
      return 0;
    }
    var init, op := ops[..|ops| - 1], ops[|ops| - 1];
    var shorter := before + [OpSet(key, value, ttl, at)] + init;
    assert trace[..|trace| - 1] == shorter && trace[|trace| - 1] == op;
    var fewer, all := OthersUsed(init, key), OthersUsed(ops, key);
    assert fewer <= all by { assert forall k :: 0 <= k < |init| ==> ops[k] == init[k]; }
    Fits(fewer, all);
    assert op in ops && forall o :: o in init ==> o in ops;
    i := RecentlyUsedSurvives(cap, before, key, value, ttl, at, init);
    RunWellFormed(cap, shorter);
    i := SurvivesStep(cap, Run(cap, shorter), i, op, fewer, all);
    assert Run(cap, trace) == Step(cap, Run(cap, shorter), op);
  }

  lemma JustSet<K, V>(cap: nat, before: seq<Op<K, V>>, key: K, value: V, ttl: int, at: int)
    requires cap >= 1
    ensures var s := Run(cap, before + [OpSet(key, value, ttl, at)]);
      s != [] && s[0] == Slot(key, value, ExpiryOf(ttl, at))
  {
    var trace := before + [OpSet(key, value, ttl, at)];
    assert trace[..|trace| - 1] == before;
  }

  lemma Fits<K>(a: set<K>, b: set<K>)
    requires a <= b
    ensures |a| <= |b|
  {
    assert b == a + (b - a);
  }

  lemma SurvivesStep<K, V>(cap: nat, s: seq<Slot<K, V>>, i: nat, op: Op<K, V>, fewer: set<K>, all: set<K>)
    returns (i': nat)
    requires cap >= 1 && DistinctKeys(s) && |s| <= cap && i < |s|
    requires op.key == s[i].key ==> op.OpGet? && !Expired(s[i], op.now)
    requires fewer <= all && |all| < cap && s[i].key !in all
    requires op.key != s[i].key && !op.OpDelete? ==> op.key in all
    requires forall j :: 0 <= j < i ==> s[j].key in fewer
    ensures var s' := Step(cap, s, op); i' < |s'| && s'[i'] == s[i] && forall j :: 0 <= j < i' ==> s'[j].key in all
  {
    LookupMeans(s, op.key);
    if Lookup(s, op.key).None? {
      i' := i;
      if op.OpSet? {
        KeysInFront(s, i, op.key, all);
        i' := i + 1;
      } else {
        WithoutAbsent(s, op.key);
      }
    } else {
      var p :| 0 <= p < |s| && s[p].key == op.key;
      var moved := op.OpSet? || (op.OpGet? && !Expired(s[p], op.now));
      MovedOut(cap, s, op, p, moved);
      i' := SlidesTo(s, i, p, Step(cap, s, op), moved, fewer, all);
    }
  }

  lemma SlidesTo<K, V>(s: seq<Slot<K, V>>, i: nat, p: nat, s': seq<Slot<K, V>>, moved: bool, fewer: set<K>, all: set<K>)
      returns (i': nat)
    requires i < |s| && p < |s| && fewer <= all
    requires forall j :: 0 <= j < i ==> s[j].key in fewer
    requires if moved then |s'| == |s| && s'[1..] == DropAt(s, p) else s' == DropAt(s, p)
    requires p == i ==> moved && s'[0] == s[p]
    requires p != i && moved ==> s'[0].key in all
    ensures i' < |s'| && s'[i'] == s[i] && forall j :: 0 <= j < i' ==> s'[j].key in all
  {
    i' := if p == i then 0 else (if p < i then i - 1 else i) + (if moved then 1 else 0);
    if moved {
      assert forall j :: 1 <= j < |s'| ==> s'[j] == DropAt(s, p)[j - 1];
    }
  }

  lemma MovedOut<K, V>(cap: nat, s: seq<Slot<K, V>>, op: Op<K, V>, p: nat, moved: bool)
    requires cap >= 1 && DistinctKeys(s) && p < |s| && s[p].key == op.key
    requires moved == (op.OpSet? || (op.OpGet? && !Expired(s[p], op.now)))
    ensures var s' := Step(cap, s, op);
      if moved then |s'| == |s| && s'[1..] == DropAt(s, p) && s'[0].key == op.key && (op.OpGet? ==> s'[0] == s[p])
      else s' == DropAt(s, p)
  {
    WithoutAt(s, p);
  }

  /** The distinct keys in front of position `i`, and one more, fit into a set of fewer than `cap` keys. */
  lemma KeysInFront<K, V>(s: seq<Slot<K, V>>, i: nat, extra: K, all: set<K>)
    requires DistinctKeys(s) && i <= |s| && extra in all
    requires forall j :: 0 <= j < i ==> s[j].key in all && s[j].key != extra
    ensures i + 1 <= |all|
  {
    var front := set j | 0 <= j < i :: s[j].key;
    FrontSize(s, i);
    assert front + {extra} <= all;
    Fits(front + {extra}, all);
  }

  lemma {:induction false} FrontSize<K, V>(s: seq<Slot<K, V>>, i: nat)
    requires DistinctKeys(s) && i <= |s|
    ensures |set j | 0 <= j < i :: s[j].key| == i
  {
    if i > 0 {
      FrontSize(s, i - 1);
      assert (set j | 0 <= j < i :: s[j].key) == (set j | 0 <= j < i - 1 :: s[j].key) + {s[i - 1].key};
    }
  }

  // ---------------------------------------------------------------- how long an entry lives

  lemma {:induction false} LookupWithout<K, V>(s: seq<Slot<K, V>>, gone: K, key: K)
    ensures Lookup(Without(s, gone), key) == if key == gone then None else Lookup(s, key)
  {
    if s != [] {
      var rest := Without(s[1..], gone);
      LookupWithout(s[1..], gone, key);
      assert [] + rest == rest && ([s[0]] + rest)[1..] == rest;
    }
  }

  lemma {:induction false} LookupPrefix<K, V>(s: seq<Slot<K, V>>, n: nat, key: K)
    requires n <= |s|
    ensures Lookup(s[..n], key).Some? ==> Lookup(s[..n], key) == Lookup(s, key)
  {
    if n > 0 {
      assert s[..n][1..] == s[1..][..n - 1];
      LookupPrefix(s[1..], n - 1, key);
    }
  }

  lemma {:induction false} LookupDistinct<K, V>(s: seq<Slot<K, V>>, i: nat)
    requires DistinctKeys(s) && i < |s|
    ensures Lookup(s, s[i].key) == Some(s[i])
  {
    LookupMeans(s, s[i].key);
    var slot := Lookup(s, s[i].key).value;
    var j :| 0 <= j < |s| && s[j] == slot;
  }

  /** Set at `at`, left alone, and not pushed out by `cap` other keys, an entry is hit with its value until its time to
      live is over, for ever without one; then it is missed and removed. */
  lemma Lifetime<K, V>(cap: nat, before: seq<Op<K, V>>, key: K, value: V, ttl: int, at: int, ops: seq<Op<K, V>>,
                       now: int)
    requires cap >= 1 && (forall op :: op in ops ==> op.key != key) && |OthersUsed(ops, key)| < cap
    ensures var (s, hit) := GetSpec(Run(cap, before + [OpSet(key, value, ttl, at)] + ops), key, now);
      if ttl <= 0 || now <= at + ttl then hit == Some(value) else hit == None && forall slot :: slot in s ==>
        slot.key != key
  {
    var trace := before + [OpSet(key, value, ttl, at)] + ops;
    var i := RecentlyUsedSurvives(cap, before, key, value, ttl, at, ops);
    RunWellFormed(cap, trace);
    var s := Run(cap, trace);
    LookupDistinct(s, i);
    LookupWithout(s, key, key);
    LookupMeans(Without(s, key), key);
    hide Run, DistinctKeys, OthersUsed, Without;
  }

  /** The last operation that sets or deletes the key. */
  function LastWrite<K(==), V>(ops: seq<Op<K, V>>, key: K): Option<Op<K, V>> {
    if ops == [] then None
    else
      var op := ops[|ops| - 1];
      if op.key == key && !op.OpGet? then Some(op) else LastWrite(ops[..|ops| - 1], key)
  }

  /** What a step leaves of the slot of a key. */
  lemma StepLookup<K, V>(cap: nat, s: seq<Slot<K, V>>, op: Op<K, V>, key: K)
    requires cap >= 1
    ensures var slot := Lookup(Step(cap, s, op), key);
      if op.OpSet? && op.key == key then slot == Some(Slot(key, op.value, ExpiryOf(op.ttl, op.now)))
      else if op.OpDelete? && op.key == key then slot == None
      else slot == None || slot == Lookup(s, key)
  {
    LookupWithout(s, op.key, key);
    LookupMeans(s, op.key);
    if op.OpSet? {
      var x := Slot(op.key, op.value, ExpiryOf(op.ttl, op.now));
      var rest := if Lookup(s, op.key).Some? then Without(s, op.key) else if |s| >= cap then s[..|s| - 1] else s;
      assert ([x] + rest)[1..] == rest && Step(cap, s, op) == [x] + rest;
      if s != [] {
        LookupPrefix(s, |s| - 1, key);
      }
    } else if op.OpGet? && Lookup(s, op.key).Some? {
      var slot := Lookup(s, op.key).value;
      assert ([slot] + Without(s, op.key))[1..] == Without(s, op.key);
    }
  }

  lemma {:induction false} HeldWasWritten<K, V>(cap: nat, ops: seq<Op<K, V>>, key: K)
    requires cap >= 1 && Lookup(Run(cap, ops), key).Some?
    ensures var slot, op := Lookup(Run(cap, ops), key).value, LastWrite(ops, key);
      op.Some? && op.value.OpSet? && op.value.key == key && slot ==
        Slot(key, op.value.value, ExpiryOf(op.value.ttl, op.value.now))
  {
    if ops != [] {
      StepLookup(cap, Run(cap, ops[..|ops| - 1]), ops[|ops| - 1], key);
      hide Step, Lookup;
      if !(ops[|ops| - 1].key == key && !ops[|ops| - 1].OpGet?) {
        HeldWasWritten(cap, ops[..|ops| - 1], key);
      }
    }
  }

  /** A hit is never stale: it is the value of the last write of its key, which is a Set whose time is not over. */
  lemma HitIsLastSet<K, V>(cap: nat, ops: seq<Op<K, V>>, key: K, now: int)
    requires cap >= 1 && GetSpec(Run(cap, ops), key, now).1.Some?
    ensures var op := LastWrite(ops, key);
      && op.Some? && op.value.OpSet? && op.value.key == key &&
        GetSpec(Run(cap, ops), key, now).1 == Some(op.value.value)
      && (op.value.ttl <= 0 || now <= op.value.now + op.value.ttl)
  {
    HeldWasWritten(cap, ops, key);
    hide Run;
  }
}
