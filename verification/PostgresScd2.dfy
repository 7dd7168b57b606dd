/** Slowly changing dimension, type 2: every load of a row closes the differing current version and inserts
    a new one, both at the time of one transaction. */
module PostgresScd2 {
  import opened Common
  import opened StringOrder
  import opened SqlInsert
  import opened PostgresUpsert
  import PostgresBatch

  /** A stored row: its columns, its validity, and whether it is the current version. */
  datatype Version = Version(data: Record, from: int, to: Option<int>, current: bool)

  type History = seq<Version>

  // ---------------------------------------------------------------- the two statements

  /** One comparison of a statement: a column and the argument it is compared with. */
  datatype Term = Term(col: string, arg: Value)

  /** UPDATE .. SET valid_to = NOW(), is_current = FALSE WHERE is_current AND keys AND (any difference). */
  datatype Close = Close(keys: seq<Term>, diffs: seq<Term>)

  /** INSERT .. SELECT values, NOW(), TRUE WHERE NOT EXISTS (current row with these keys). */
  datatype InsertIfNone = InsertIfNone(values: seq<Term>, keys: seq<Term>)

  /** SQL equality on every key column: a null on either side matches nothing. */
  predicate KeysMatch(v: Record, keys: seq<Term>) {
    forall i :: 0 <= i < |keys| ==> keys[i].arg != Null && Column(v, keys[i].col) == keys[i].arg
  }

  /** IS DISTINCT FROM on some column: nulls are equal to each other. */
  predicate AnyDistinct(v: Record, diffs: seq<Term>) {
    exists i :: 0 <= i < |diffs| && Column(v, diffs[i].col) != diffs[i].arg
  }

  predicate Closes(v: Version, c: Close) {
    v.current && KeysMatch(v.data, c.keys) && (c.diffs == [] || AnyDistinct(v.data, c.diffs))
  }

  function ExecClose(h: History, c: Close, now: int): (h': History)
    ensures |h'| == |h|
    ensures forall i :: 0 <= i < |h| ==>
      h'[i] == if Closes(h[i], c) then h[i].(to := Some(now), current := false) else h[i]
  {
    seq(|h|, i requires 0 <= i < |h| => if Closes(h[i], c) then h[i].(to := Some(now), current := false) else h[i])
  }

  function RecordOf(values: seq<Term>): Record {
    if values == [] then map[]
    else RecordOf(values[..|values| - 1])[values[|values| - 1].col := values[|values| - 1].arg]
  }

  predicate HasCurrent(h: History, keys: seq<Term>) {
    exists i :: 0 <= i < |h| && h[i].current && KeysMatch(h[i].data, keys)
  }

  function ExecInsert(h: History, ins: InsertIfNone, now: int): History {
    if HasCurrent(h, ins.keys) then h else h + [Version(RecordOf(ins.values), now, None, true)]
  }

  // ---------------------------------------------------------------- building them from a row

  predicate IsHistoryColumn(c: string) { "_scd_" <= c }

  /** The columns of a row that are written: history columns are the destination's own. */
  function Written(data: Record): set<string> { set c | c in data && !IsHistoryColumn(c) }

  function KeyTerms(matchOn: seq<string>, data: Record): seq<Term> {
    seq(|matchOn|, i requires 0 <= i < |matchOn| => Term(matchOn[i], Column(data, matchOn[i])))
  }

  ghost predicate IsCloseFor(c: Close, matchOn: seq<string>, data: Record) {
    && c.keys == KeyTerms(matchOn, data)
    && (forall t :: t in c.diffs <==> t.col in Written(data) && t.col !in matchOn && t.arg == data[t.col])
  }

  method BuildSCD2Close(cols: seq<string>, matchOn: seq<string>, data: Record) returns (c: Close)
    requires forall x :: x in cols <==> x in Written(data)
    ensures IsCloseFor(c, matchOn, data)
  {
    var keys: seq<Term> := [];
    for i := 0 to |matchOn|
      invariant keys == KeyTerms(matchOn[..i], data)
    {
      keys := keys + [Term(matchOn[i], Column(data, matchOn[i]))];
    }
    assert matchOn[..|matchOn|] == matchOn;
    var diffs: seq<Term> := [];
    for i := 0 to |cols|
      invariant forall t :: t in diffs <==> t.col in cols[..i] && t.col !in matchOn && t.arg == Column(data, t.col)
    {
      if cols[i] in matchOn {
        continue;
      }
      diffs := diffs + [Term(cols[i], Column(data, cols[i]))];
    }
    assert cols[..|cols|] == cols;
    c := Close(keys, diffs);
  }

  method BuildSCD2Insert(cols: seq<string>, matchOn: seq<string>, data: Record) returns (ins: InsertIfNone)
    requires forall x :: x in cols <==> x in Written(data)
    ensures ins.keys == KeyTerms(matchOn, data)
    ensures RecordOf(ins.values) == map c | c in Written(data) :: data[c]
  {
    var values: seq<Term> := [];
    for i := 0 to |cols|
      invariant RecordOf(values) == map c | c in cols[..i] && c in data :: data[c]
    {
      ghost var before := values;
      values := values + [Term(cols[i], Column(data, cols[i]))];
      assert values[..|values| - 1] == before;
      assert cols[i] in Written(data);
    }
    assert cols[..|cols|] == cols;
    ins := InsertIfNone(values, KeyTerms(matchOn, data));
  }

  // ---------------------------------------------------------------- the effect of one load

  function NonKey(matchOn: seq<string>, data: Record): set<string> { set c | c in Written(data) && c !in matchOn }

  /** The version belongs to the entity of the row: equal non-null key columns. */
  predicate SameEntity(matchOn: seq<string>, v: Record, data: Record) {
    forall i :: 0 <= i < |matchOn| ==>
      Column(data, matchOn[i]) != Null && Column(v, matchOn[i]) == Column(data, matchOn[i])
  }

  /** The version already says what the row says. */
  predicate Agrees(v: Record, data: Record) { forall c :: c in Written(data) ==> Column(v, c) == data[c] }

  predicate Superseded(matchOn: seq<string>, v: Version, data: Record) {
    v.current && SameEntity(matchOn, v.data, data) && (NonKey(matchOn, data) == {} || !Agrees(v.data, data))
  }

  function Closed(v: Version, now: int): Version { v.(to := Some(now), current := false) }

  function AfterClose(h: History, matchOn: seq<string>, data: Record, now: int): (h': History)
    ensures |h'| == |h|
    ensures forall i :: 0 <= i < |h| ==> h'[i] == if Superseded(matchOn, h[i], data) then Closed(h[i], now) else h[i]
  {
    seq(|h|, i requires 0 <= i < |h| => if Superseded(matchOn, h[i], data) then Closed(h[i], now) else h[i])
  }

  predicate Known(h: History, matchOn: seq<string>, data: Record) {
    exists i :: 0 <= i < |h| && h[i].current && SameEntity(matchOn, h[i].data, data)
  }

  function NewVersion(data: Record, now: int): Version {
    Version(map c | c in Written(data) :: data[c], now, None, true)
  }

  /** The table after one load of a row in a transaction at time `now`. */
  function LoadOne(h: History, matchOn: seq<string>, data: Record, now: int): History {
    var h1 := AfterClose(h, matchOn, data, now);
    if Known(h1, matchOn, data) then h1 else h1 + [NewVersion(data, now)]
  }

  /** The two generated statements, run one after the other, are that effect. */
  lemma StatementsAreLoadOne(h: History, matchOn: seq<string>, data: Record, now: int, c: Close, ins: InsertIfNone)
    requires IsCloseFor(c, matchOn, data) && ins.keys == KeyTerms(matchOn, data)
    requires RecordOf(ins.values) == map x | x in Written(data) :: data[x]
    ensures ExecInsert(ExecClose(h, c, now), ins, now) == LoadOne(h, matchOn, data, now)
  {
    forall v: Version ensures Closes(v, c) <==> Superseded(matchOn, v, data) {
      CloseMeaning(v, matchOn, data, c);
    }
    assert ExecClose(h, c, now) == AfterClose(h, matchOn, data, now);
    forall v: Record ensures KeysMatch(v, ins.keys) <==> SameEntity(matchOn, v, data) {
      KeyMeaning(v, matchOn, data);
    }
  }

  lemma KeyMeaning(v: Record, matchOn: seq<string>, data: Record)
    ensures KeysMatch(v, KeyTerms(matchOn, data)) <==> SameEntity(matchOn, v, data)
  {
    var ts := KeyTerms(matchOn, data);
    assert forall i :: 0 <= i < |matchOn| ==> ts[i] == Term(matchOn[i], Column(data, matchOn[i]));
  }

  lemma CloseMeaning(v: Version, matchOn: seq<string>, data: Record, c: Close)
    requires IsCloseFor(c, matchOn, data)
    ensures Closes(v, c) <==> Superseded(matchOn, v, data)
  {
    KeyMeaning(v.data, matchOn, data);
    hide KeysMatch, KeyTerms;
    assert c.diffs == [] <==> NonKey(matchOn, data) == {} by {
      if c.diffs != [] { assert c.diffs[0] in c.diffs; assert c.diffs[0].col in NonKey(matchOn, data); }
      if x :| x in NonKey(matchOn, data) { assert Term(x, data[x]) in c.diffs; }
    }
    if SameEntity(matchOn, v.data, data) {
      if AnyDistinct(v.data, c.diffs) {
        var i :| 0 <= i < |c.diffs| && Column(v.data, c.diffs[i].col) != c.diffs[i].arg;
        assert c.diffs[i] in c.diffs;
      }
      if !Agrees(v.data, data) {
        var x :| x in Written(data) && Column(v.data, x) != data[x];
        KeyColumnsAgree(matchOn, v.data, data, x);
        assert Term(x, data[x]) in c.diffs;
        var i :| 0 <= i < |c.diffs| && c.diffs[i] == Term(x, data[x]);
      }
    }
  }

  lemma KeyColumnsAgree(matchOn: seq<string>, v: Record, data: Record, x: string)
    requires SameEntity(matchOn, v, data)
    ensures x in matchOn ==> Column(v, x) == Column(data, x)
  {
    forall i | 0 <= i < |matchOn| && matchOn[i] == x ensures Column(v, x) == Column(data, x) {
      assert Column(v, matchOn[i]) == Column(data, matchOn[i]);
    }
  }

  // ---------------------------------------------------------------- what every load keeps

  /** No key column is one of the destination's own history columns. */
  predicate PlainKeys(matchOn: seq<string>) { forall i :: 0 <= i < |matchOn| ==> !IsHistoryColumn(matchOn[i]) }

  /** All key columns of the row are there and not null. */
  predicate HasKey(matchOn: seq<string>, data: Record) { SameEntity(matchOn, data, data) }

  /** At most one current version per non-null key. */
  ghost predicate OneCurrent(h: History, matchOn: seq<string>) {
    forall i, j :: 0 <= i < j < |h| && h[i].current && h[j].current ==> !SameEntity(matchOn, h[i].data, h[j].data)
  }

  /** A version is current exactly when it is open. */
  ghost predicate OpenIsCurrent(h: History) { forall i :: 0 <= i < |h| ==> (h[i].current <==> h[i].to.None?) }

  /** Version `j` is the next one of the entity of version `i`. */
  ghost predicate Follows(h: History, matchOn: seq<string>, i: nat, j: nat)
    requires i < j < |h|
  {
    && SameEntity(matchOn, h[i].data, h[j].data)
    && forall k :: i < k < j ==> !SameEntity(matchOn, h[k].data, h[j].data)
  }

  ghost predicate IsLast(h: History, matchOn: seq<string>, i: nat)
    requires i < |h|
  {
    forall k :: i < k < |h| ==> !SameEntity(matchOn, h[k].data, h[i].data)
  }

  /** Consecutive versions of an entity meet: one ends when the next begins. */
  ghost predicate Chained(h: History, matchOn: seq<string>) {
    forall i, j :: 0 <= i < j < |h| && Follows(h, matchOn, i, j) ==> !h[i].current && h[i].to == Some(h[j].from)
  }

  /** The chain of an entity never ends: its last version is current. */
  ghost predicate LastIsCurrent(h: History, matchOn: seq<string>) {
    forall i :: 0 <= i < |h| && HasKey(matchOn, h[i].data) && IsLast(h, matchOn, i) ==> h[i].current
  }

  ghost predicate Temporal(h: History, matchOn: seq<string>) {
    OneCurrent(h, matchOn) && OpenIsCurrent(h) && Chained(h, matchOn) && LastIsCurrent(h, matchOn)
  }

  /** Being of one entity is symmetric and transitive, and keyed. */
  lemma EntityLaws(matchOn: seq<string>, u: Record, v: Record, w: Record)
    ensures SameEntity(matchOn, u, v) ==> SameEntity(matchOn, v, u) && HasKey(matchOn, u) && HasKey(matchOn, v)
    ensures SameEntity(matchOn, u, v) && SameEntity(matchOn, v, w) ==> SameEntity(matchOn, u, w)
  {
    if SameEntity(matchOn, u, v) {
      assert forall i :: 0 <= i < |matchOn| ==> Column(u, matchOn[i]) == Column(v, matchOn[i]) != Null;
    }
  }

  /** The version a row creates has the key of the row. */
  lemma NewKey(matchOn: seq<string>, data: Record, now: int, v: Record)
    requires PlainKeys(matchOn)
    ensures SameEntity(matchOn, v, NewVersion(data, now).data) <==> SameEntity(matchOn, v, data)
    ensures SameEntity(matchOn, NewVersion(data, now).data, v) <==> SameEntity(matchOn, data, v)
  {
    var n := NewVersion(data, now).data;
    assert forall i :: 0 <= i < |matchOn| ==> Column(n, matchOn[i]) == Column(data, matchOn[i]);
  }

  /** Nothing is rewritten: versions only get closed, closed ones stay as they are, and at most one version
      is added, at the end, beginning now. */
  lemma HistoryOnlyGrows(h: History, matchOn: seq<string>, data: Record, now: int)
    ensures var h' := LoadOne(h, matchOn, data, now);
      && |h| <= |h'| <= |h| + 1
      && (forall i :: 0 <= i < |h| ==> h'[i] == h[i] || (h[i].current && h'[i] == Closed(h[i], now)))
      && (|h'| == |h| + 1 ==> h'[|h|] == NewVersion(data, now))
  {
  }

  /** Version `c` says what the row says and is the only current one of its entity. */
  ghost predicate IsTheCurrent(h: History, matchOn: seq<string>, data: Record, c: nat) {
    && c < |h| && h[c].current && SameEntity(matchOn, h[c].data, data) && Agrees(h[c].data, data)
    && forall i :: 0 <= i < |h| && i != c ==> !(h[i].current && SameEntity(matchOn, h[i].data, data))
  }

  lemma NoOtherCurrent(h: History, matchOn: seq<string>, data: Record, c: nat, i: nat)
    requires OneCurrent(h, matchOn) && c < |h| && i < |h| && i != c
    requires h[c].current && SameEntity(matchOn, h[c].data, data)
    ensures !(h[i].current && SameEntity(matchOn, h[i].data, data))
  {
    EntityLaws(matchOn, h[i].data, data, h[c].data);
    EntityLaws(matchOn, h[c].data, data, h[i].data);
  }

  /** A load of a keyed row leaves exactly one current version of its entity, which says what the row says. */
  lemma ExactlyOneCurrent(h: History, matchOn: seq<string>, data: Record, now: int) returns (c: nat)
    requires OneCurrent(h, matchOn) && HasKey(matchOn, data) && PlainKeys(matchOn)
    ensures IsTheCurrent(LoadOne(h, matchOn, data, now), matchOn, data, c)
  {
    var h1 := AfterClose(h, matchOn, data, now);
    NewKey(matchOn, data, now, data);
    if Known(h1, matchOn, data) {
      c :| 0 <= c < |h1| && h1[c].current && SameEntity(matchOn, h1[c].data, data);
      forall i | 0 <= i < |h1| && i != c ensures !(h1[i].current && SameEntity(matchOn, h1[i].data, data)) {
        NoOtherCurrent(h, matchOn, data, c, i);
      }
    } else {
      c := |h|;
    }
  }

  /** Every load, of a row with or without a usable key, keeps at most one current version per key. */
  lemma OneCurrentKept(h: History, matchOn: seq<string>, data: Record, now: int)
    requires OneCurrent(h, matchOn) && PlainKeys(matchOn)
    ensures OneCurrent(LoadOne(h, matchOn, data, now), matchOn)
  {
    var h1, h' := AfterClose(h, matchOn, data, now), LoadOne(h, matchOn, data, now);
    forall i, j | 0 <= i < j < |h'| && h'[i].current && h'[j].current
      ensures !SameEntity(matchOn, h'[i].data, h'[j].data)
    {
      if j < |h| {
        assert h'[i] == h[i] && h'[j] == h[j];
      } else {
        NewKey(matchOn, data, now, h1[i].data);
      }
    }
  }

  /** A superseded version is replaced at once: a version of its entity is appended. */
  lemma ReplacedIfClosed(h: History, matchOn: seq<string>, data: Record, now: int, i: nat)
    requires OneCurrent(h, matchOn) && PlainKeys(matchOn)
    requires i < |h| && Superseded(matchOn, h[i], data)
    ensures var h' := LoadOne(h, matchOn, data, now);
      |h'| == |h| + 1 && SameEntity(matchOn, h'[|h|].data, h[i].data)
  {
    var h1 := AfterClose(h, matchOn, data, now);
    forall k | 0 <= k < |h1| ensures !(h1[k].current && SameEntity(matchOn, h1[k].data, data)) {
      if k != i { NoOtherCurrent(h, matchOn, data, i, k); }
    }
    NewKey(matchOn, data, now, h[i].data);
    EntityLaws(matchOn, h[i].data, data, data);
  }

  /** The version an appended one follows was current and is closed at the moment the new one begins. */
  lemma ClosedByNew(h: History, matchOn: seq<string>, data: Record, now: int, i: nat)
    requires LastIsCurrent(h, matchOn) && PlainKeys(matchOn)
    requires var h' := LoadOne(h, matchOn, data, now); |h'| == |h| + 1 && i < |h| && Follows(h', matchOn, i, |h|)
    ensures LoadOne(h, matchOn, data, now)[i] == Closed(h[i], now)
  {
    var h', h1 := LoadOne(h, matchOn, data, now), AfterClose(h, matchOn, data, now);
    NewKey(matchOn, data, now, h[i].data);
    EntityLaws(matchOn, h[i].data, data, data);
    forall k | i < k < |h| ensures !SameEntity(matchOn, h[k].data, h[i].data) {
      assert h'[k].data == h[k].data;
      EntityLaws(matchOn, h[k].data, h[i].data, h'[|h|].data);
    }
    assert IsLast(h, matchOn, i);
    assert !(h1[i].current && SameEntity(matchOn, h1[i].data, data));
  }

  /** One load of any row keeps the whole temporal structure. */
  lemma TemporalKept(h: History, matchOn: seq<string>, data: Record, now: int)
    requires Temporal(h, matchOn) && PlainKeys(matchOn)
    ensures Temporal(LoadOne(h, matchOn, data, now), matchOn)
  {
    var h' := LoadOne(h, matchOn, data, now);
    HistoryOnlyGrows(h, matchOn, data, now);
    OneCurrentKept(h, matchOn, data, now);
    hide LoadOne, AfterClose, OneCurrent, SameEntity;
    forall i, j | 0 <= i < j < |h'| && Follows(h', matchOn, i, j)
      ensures !h'[i].current && h'[i].to == Some(h'[j].from)
    {
      if j < |h| {
        FollowsBefore(h, h', matchOn, i, j);
      } else {
        ClosedByNew(h, matchOn, data, now, i);
      }
    }
    forall i | 0 <= i < |h'| && HasKey(matchOn, h'[i].data) && IsLast(h', matchOn, i) ensures h'[i].current {
      if i < |h| {
        LastBefore(h, h', matchOn, i);
        LastNotClosed(h, matchOn, data, now, i);
      }
    }
  }

  ghost predicate Extends(h: History, h': History) {
    |h| <= |h'| && forall i :: 0 <= i < |h| ==> h'[i].data == h[i].data
  }

  lemma FollowsBefore(h: History, h': History, matchOn: seq<string>, i: nat, j: nat)
    requires Extends(h, h') && i < j < |h| && Follows(h', matchOn, i, j)
    ensures Follows(h, matchOn, i, j)
  {
    forall k | i < k < j ensures !SameEntity(matchOn, h[k].data, h[j].data) { assert h'[k].data == h[k].data; }
  }

  lemma LastBefore(h: History, h': History, matchOn: seq<string>, i: nat)
    requires Extends(h, h') && i < |h| && IsLast(h', matchOn, i)
    ensures IsLast(h, matchOn, i)
  {
    forall k | i < k < |h| ensures !SameEntity(matchOn, h[k].data, h[i].data) { assert h'[k].data == h[k].data; }
  }

  lemma LastNotClosed(h: History, matchOn: seq<string>, data: Record, now: int, i: nat)
    requires OneCurrent(h, matchOn) && PlainKeys(matchOn) && i < |h| && h[i].current
    requires IsLast(LoadOne(h, matchOn, data, now), matchOn, i)
    ensures LoadOne(h, matchOn, data, now)[i] == h[i]
  {
    if Superseded(matchOn, h[i], data) {
      ReplacedIfClosed(h, matchOn, data, now, i);
      assert false;
    }
  }

  /** A load changes nothing exactly when the row has a non-key column and the current version of its entity
      already says what it says. A row of key columns only always closes and inserts again. */
  lemma UnchangedIff(h: History, matchOn: seq<string>, data: Record, now: int)
    requires OneCurrent(h, matchOn)
    ensures LoadOne(h, matchOn, data, now) == h <==>
      NonKey(matchOn, data) != {}
      && exists i :: 0 <= i < |h| && h[i].current && SameEntity(matchOn, h[i].data, data) && Agrees(h[i].data, data)
  {
    var h1 := AfterClose(h, matchOn, data, now);
    if NonKey(matchOn, data) != {}
      && exists i :: 0 <= i < |h| && h[i].current && SameEntity(matchOn, h[i].data, data) && Agrees(h[i].data, data)
    {
      var i :| 0 <= i < |h| && h[i].current && SameEntity(matchOn, h[i].data, data) && Agrees(h[i].data, data);
      assert h1[i].current;
      forall k | 0 <= k < |h| ensures h1[k] == h[k] {
        if k != i { NoOtherCurrent(h, matchOn, data, i, k); }
      }
      assert h1 == h;
    } else if Known(h1, matchOn, data) {
      var k :| 0 <= k < |h1| && h1[k].current && SameEntity(matchOn, h1[k].data, data);
      assert h[k] == h1[k] && Superseded(matchOn, h[k], data);
      assert false;
    }
  }

  // ---------------------------------------------------------------- whole runs

  /** One committed transaction: the row it loaded and its NOW(). */
  datatype Load = Load(data: Record, now: int)

  function LoadAll(h: History, matchOn: seq<string>, loads: seq<Load>): History {
    if loads == [] then h
    else
      var l := loads[|loads| - 1];
      LoadOne(LoadAll(h, matchOn, loads[..|loads| - 1]), matchOn, l.data, l.now)
  }

  /** Every run of loads keeps the temporal structure. */
  lemma {:induction false} RunKeepsTemporal(h: History, matchOn: seq<string>, loads: seq<Load>)
    requires Temporal(h, matchOn) && PlainKeys(matchOn)
    ensures Temporal(LoadAll(h, matchOn, loads), matchOn)
  {
    if loads != [] {
      var n := |loads| - 1;
      RunKeepsTemporal(h, matchOn, loads[..n]);
      TemporalKept(LoadAll(h, matchOn, loads[..n]), matchOn, loads[n].data, loads[n].now);
    }
  }

  lemma OthersLeave(h: History, matchOn: seq<string>, other: Record, now: int, data: Record, c: nat)
    requires IsTheCurrent(h, matchOn, data, c) && PlainKeys(matchOn) && !SameEntity(matchOn, other, data)
    ensures IsTheCurrent(LoadOne(h, matchOn, other, now), matchOn, data, c)
  {
    var h1, h' := AfterClose(h, matchOn, other, now), LoadOne(h, matchOn, other, now);
    EntityLaws(matchOn, h[c].data, other, h[c].data);
    EntityLaws(matchOn, other, h[c].data, data);
    assert h1[c] == h[c];
    NewKey(matchOn, other, now, data);
    assert |h'| > |h| ==> h'[|h|] == NewVersion(other, now);
  }

  /** After a run, the last row loaded for an entity is what its only current version says. */
  lemma {:induction false} LastLoadWins(h: History, matchOn: seq<string>, loads: seq<Load>, k: nat) returns (c: nat)
    requires Temporal(h, matchOn) && PlainKeys(matchOn) && k < |loads| && HasKey(matchOn, loads[k].data)
    requires forall j :: k < j < |loads| ==> !SameEntity(matchOn, loads[j].data, loads[k].data)
    ensures IsTheCurrent(LoadAll(h, matchOn, loads), matchOn, loads[k].data, c)
    decreases |loads|
  {
    var n := |loads| - 1;
    var before := LoadAll(h, matchOn, loads[..n]);
    if k == n {
      RunKeepsTemporal(h, matchOn, loads[..n]);
      c := ExactlyOneCurrent(before, matchOn, loads[n].data, loads[n].now);
    } else {
      c := LastLoadWins(h, matchOn, loads[..n], k);
      OthersLeave(before, matchOn, loads[n].data, loads[n].now, loads[k].data, c);
    }
  }

  /** The version was valid at time `t`: from its beginning up to, not including, its end. */
  predicate ValidAt(v: Version, t: int) { v.from <= t && (v.to.Some? ==> t < v.to.value) }

  ghost predicate StampedBy(h: History, t: int) {
    forall i :: 0 <= i < |h| ==> h[i].from <= t && (h[i].to.Some? ==> h[i].to.value <= t)
  }

  /** The versions valid at `t` are the current versions of `mid`. */
  ghost predicate AsOf(h: History, t: int, mid: History) {
    && Extends(mid, h)
    && forall i :: 0 <= i < |h| ==> (ValidAt(h[i], t) <==> i < |mid| && mid[i].current)
  }

  lemma LoadOpen(h: History, matchOn: seq<string>, data: Record, now: int, t: int)
    requires OpenIsCurrent(h)
    ensures OpenIsCurrent(LoadOne(h, matchOn, data, now))
    ensures StampedBy(h, t) && now <= t ==> StampedBy(LoadOne(h, matchOn, data, now), t)
  {
    HistoryOnlyGrows(h, matchOn, data, now);
  }

  lemma {:induction false} RunOpen(h: History, matchOn: seq<string>, loads: seq<Load>, t: int)
    requires OpenIsCurrent(h)
    ensures OpenIsCurrent(LoadAll(h, matchOn, loads))
    ensures StampedBy(h, t) && (forall l :: l in loads ==> l.now <= t) ==> StampedBy(LoadAll(h, matchOn, loads), t)
  {
    if loads != [] {
      var n := |loads| - 1;
      RunOpen(h, matchOn, loads[..n], t);
      LoadOpen(LoadAll(h, matchOn, loads[..n]), matchOn, loads[n].data, loads[n].now, t);
      assert loads[n] in loads && forall l :: l in loads[..n] ==> l in loads;
    }
  }

  lemma AsOfKept(h: History, matchOn: seq<string>, data: Record, now: int, t: int, mid: History)
    requires AsOf(h, t, mid) && OpenIsCurrent(h) && t < now
    ensures AsOf(LoadOne(h, matchOn, data, now), t, mid)
  {
    HistoryOnlyGrows(h, matchOn, data, now);
  }

  /** Time travel: asked for any time `t` up to which the first `k` loads happened, the final table shows
      exactly the versions that were current then. */
  lemma {:induction false} TimeTravel(h: History, matchOn: seq<string>, loads: seq<Load>, k: nat, t: int)
    requires OpenIsCurrent(h) && StampedBy(h, t) && k <= |loads|
    requires forall i :: 0 <= i < k ==> loads[i].now <= t
    requires forall i :: k <= i < |loads| ==> t < loads[i].now
    ensures AsOf(LoadAll(h, matchOn, loads), t, LoadAll(h, matchOn, loads[..k]))
    decreases |loads|
  {
    hide AsOf, OpenIsCurrent, StampedBy, LoadOne;
    if k == |loads| {
      assert loads[..k] == loads;
      assert forall l :: l in loads ==> l.now <= t;
      hide LoadAll;
      RunOpen(h, matchOn, loads, t);
      CurrentAtLast(LoadAll(h, matchOn, loads), t);
    } else {
      var n := |loads| - 1;
      var before, mid := LoadAll(h, matchOn, loads[..n]), LoadAll(h, matchOn, loads[..k]);
      assert LoadAll(h, matchOn, loads) == LoadOne(before, matchOn, loads[n].data, loads[n].now);
      hide LoadAll;
      assert loads[..n][..k] == loads[..k];
      TimeTravel(h, matchOn, loads[..n], k, t);
      RunOpen(h, matchOn, loads[..n], t);
      AsOfKept(before, matchOn, loads[n].data, loads[n].now, t, mid);
    }
  }

  lemma CurrentAtLast(h: History, t: int)
    requires OpenIsCurrent(h) && StampedBy(h, t)
    ensures AsOf(h, t, h)
  {
  }

  // ---------------------------------------------------------------- the batch method

  /** The server: the committed table, and the work of the one open transaction with its NOW(). A healthy
      server refuses nothing. */
  class Server {
    var history: History
    var work: History
    var now: int
    const healthy: bool

    constructor (healthy: bool)
      ensures history == work == [] && this.healthy == healthy
    {
      this.healthy, history, work, now := healthy, [], [], 0;
    }

    method Begin() returns (ok: bool)
      modifies this
      ensures history == old(history) && old(now) <= now
      ensures ok ==> work == history
      ensures healthy ==> ok
    {
      var fails := *;
      ok := healthy || !fails;
      var clock: int := *;
      now, work := Max(now, clock), history;
    }

    method Update(c: Close) returns (o: Outcome)
      modifies this`work
      ensures o.Executed? ==> work == ExecClose(old(work), c, now)
      ensures healthy ==> o.Executed?
    {
      var fails := *;
      if fails && !healthy {
        var lost := *;
        return if lost then Fatal else Refused;
      }
      work := ExecClose(work, c, now);
      o := Executed;
    }

    method Insert(ins: InsertIfNone) returns (o: Outcome)
      modifies this`work
      ensures o.Executed? ==> work == ExecInsert(old(work), ins, now)
      ensures healthy ==> o.Executed?
    {
      var fails := *;
      if fails && !healthy {
        var lost := *;
        return if lost then Fatal else Refused;
      }
      work := ExecInsert(work, ins, now);
      o := Executed;
    }

    /** A commit that reports failure may have happened all the same. */
    method Commit() returns (ok: bool)
      modifies this`history
      ensures history == old(work) || history == old(history)
      ensures ok ==> history == old(work)
      ensures healthy ==> ok
    {
      var applied, answered := *, *;
      if applied || healthy {
        history := work;
        return answered || healthy;
      }
      ok := false;
    }

    method Rollback()
      modifies this`work
      ensures work == history
    {
      work := history;
    }
  }

  /** The rows of a batch that a run without failures loads: those with columns whose id is not delivered
      yet, counting the ones this batch delivers. */
  function Pending(rows: seq<Row>, delivered: set<string>): seq<Row> {
    if rows == [] then []
    else
      var r, before := rows[|rows| - 1], Pending(rows[..|rows| - 1], delivered);
      if r.id in delivered + Ids(before) || Written(r.data) == {} then before else before + [r]
  }

  /** No id is loaded twice or again, and loaded rows have columns to write. */
  lemma {:induction false} PendingOnce(rows: seq<Row>, delivered: set<string>)
    ensures var p := Pending(rows, delivered);
      && (forall i, j :: 0 <= i < j < |p| ==> p[i].id != p[j].id)
      && (forall r :: r in p ==> r in rows && r.id !in delivered && Written(r.data) != {})
  {
    if rows != [] {
      var n := |rows| - 1;
      var r, before := rows[n], Pending(rows[..n], delivered);
      PendingOnce(rows[..n], delivered);
      assert Pending(rows, delivered) ==
        if r.id in delivered + Ids(before) || Written(r.data) == {} then before else before + [r];
      assert r in rows && forall x :: x in rows[..n] ==> x in rows;
      IdsAre(before);
      hide Written, Pending, Ids;
      assert forall i :: 0 <= i < |before| ==> before[i] in before;
    }
  }

  /** Every row that has columns to write, and was not delivered before, has its id loaded, by itself or by an earlier
      row. */
  lemma {:induction false} PendingReached(rows: seq<Row>, delivered: set<string>, i: nat) returns (j: nat)
    requires i < |rows| && rows[i].id !in delivered && Written(rows[i].data) != {}
    ensures j <= i && rows[j].id == rows[i].id && rows[j] in Pending(rows, delivered)
  {
    var n := |rows| - 1;
    var r, init := rows[n], rows[..n];
    var before := Pending(init, delivered);
    assert Pending(rows, delivered) ==
      if r.id in delivered + Ids(before) || Written(r.data) == {} then before else before + [r];
    IdsAre(before);
    hide Written, Pending, Ids;
    if i < n {
      assert init[i] == rows[i];
      j := PendingReached(init, delivered, i);
      assert init[j] == rows[j];
    } else if x :| x in before && x.id == r.id {
      PendingOnce(init, delivered);
      j :| 0 <= j < n && init[j] == x;
      assert rows[j] == x;
    } else {
      j := n;
    }
  }

  lemma IdsAre(rows: seq<Row>)
    ensures forall id :: id in Ids(rows) <==> exists r :: r in rows && r.id == id
  {
    forall id | id in Ids(rows) ensures exists r :: r in rows && r.id == id {
      var i :| 0 <= i < |rows| && rows[i].id == id;
      assert rows[i] in rows;
    }
  }

  /** The loads happened one after the other between two readings of the clock. */
  ghost predicate Timely(loads: seq<Load>, start: int, end: int) {
    && start <= end
    && (forall i :: 0 <= i < |loads| ==> start <= loads[i].now <= end)
    && (forall i, j :: 0 <= i < j < |loads| ==> loads[i].now <= loads[j].now)
  }

  lemma TimelySnoc(loads: seq<Load>, start: int, end: int, l: Load)
    requires Timely(loads, start, end) && end <= l.now
    ensures Timely(loads + [l], start, l.now)
  {
  }

  lemma TimelyLater(loads: seq<Load>, start: int, end: int, end': int)
    requires Timely(loads, start, end) && end <= end'
    ensures Timely(loads, start, end')
  {
  }

  lemma LoadAllSnoc(h: History, matchOn: seq<string>, loads: seq<Load>, l: Load)
    ensures LoadAll(h, matchOn, loads + [l]) == LoadOne(LoadAll(h, matchOn, loads), matchOn, l.data, l.now)
  {
    assert (loads + [l])[..|loads|] == loads;
  }

  /** The loads are those of the pending rows, in order, and those rows are now delivered. */
  ghost predicate AsPending(loads: seq<Load>, pending: seq<Row>, delivered0: set<string>, delivered: set<string>) {
    && |loads| == |pending|
    && (forall i :: 0 <= i < |loads| ==> loads[i].data == pending[i].data)
    && delivered == delivered0 + Ids(pending)
  }

  class Destination {
    const server: Server
    const store: PostgresBatch.Store
    const matchOn: seq<string>

    constructor (server: Server, store: PostgresBatch.Store, matchOn: seq<string>)
      ensures this.server == server && this.store == store && this.matchOn == matchOn
    {
      this.server, this.store, this.matchOn := server, store, matchOn;
    }

    method Columns(data: Record) returns (cols: seq<string>)
      ensures forall x :: x in cols <==> x in Written(data)
    {
      cols := SortedKeys(Written(data));
    }

    /** One transaction. The history gains the load of the row or stays; `ok` is what the commit answers. */
    method Transact(rw: Row) returns (ok: bool, fatal: bool, ghost did: bool)
      requires Written(rw.data) != {}
      modifies server
      ensures old(server.now) <= server.now
      ensures server.history == if did then LoadOne(old(server.history), matchOn, rw.data,
                                                    server.now) else old(server.history)
      ensures (ok ==> did) && !(ok && fatal)
      ensures server.healthy ==> ok
    {
      var cols := Columns(rw.data);
      var c := BuildSCD2Close(cols, matchOn, rw.data);
      var ins := BuildSCD2Insert(cols, matchOn, rw.data);
      ok, fatal, did := false, false, false;
      var begun := server.Begin();
      if !begun {
        fatal := true;
        return;
      }
      StatementsAreLoadOne(server.history, matchOn, rw.data, server.now, c, ins);
      var o := server.Update(c);
      if !o.Executed? {
        server.Rollback();
        fatal := o.Fatal?;
        return;
      }
      o := server.Insert(ins);
      if !o.Executed? {
        server.Rollback();
        fatal := o.Fatal?;
        return;
      }
      ghost var before := server.history;
      ok := server.Commit();
      did := ok || server.history != before;
    }

    /** One row: skipped, loaded or reported, unless the connection is lost. */
    method LoadRow(rw: Row, result: PostgresBatch.LoadResult) returns (fatal: bool, ghost load: Option<Load>)
      requires result.Valid()
      modifies server, store, result
      ensures result.Valid() && old(server.now) <= server.now
      ensures server.history == if load.Some? then LoadOne(old(server.history), matchOn, rw.data,
                                                           server.now) else old(server.history)
      ensures load.Some? ==> load.value == Load(rw.data, server.now)
      ensures result.landed == old(result.landed) || (load.Some? && result.landed == old(result.landed) + [rw])
      ensures !fatal ==> (result.loaded + result.skipped + |result.errors|
        == old(result.loaded) + old(result.skipped) + |old(result.errors)| + 1)
      ensures server.healthy && store.reliable ==> !fatal
      ensures server.healthy && store.reliable ==> (load.Some? <==>
        rw.id !in old(store.delivered) && Written(rw.data) != {})
      ensures server.healthy && store.reliable ==>
        store.delivered == old(store.delivered) + (if load.Some? then {rw.id} else {})
    {
      fatal, load := false, None;
      var delivered := store.IsDelivered(rw.id);
      if delivered.None? {
        result.errors := result.errors + [rw];
        return;
      }
      if delivered.value {
        result.skipped := result.skipped + 1;
        return;
      }
      if Written(rw.data) == {} {
        result.errors := result.errors + [rw];
        return;
      }
      ghost var did;
      var ok;
      ok, fatal, did := Transact(rw);
      load := if did then Some(Load(rw.data, server.now)) else None;
      if fatal {
        return;
      }
      if !ok {
        result.errors := result.errors + [rw];
        return;
      }
      var marked := store.MarkDelivered(rw.id);
      if !marked {
        result.errors := result.errors + [rw];
        return;
      }
      result.loaded, result.landed := result.loaded + 1, result.landed + [rw];
    }

    /** Loads a batch. The table becomes the one of the committed loads in the order of their times; every row
        is skipped, loaded or reported once; without failures the committed loads are the pending rows. */
    method Scd2Batch(rows: seq<Row>, result: PostgresBatch.LoadResult) returns (fatal: bool, ghost loads: seq<Load>)
      requires result.Valid()
      modifies server, store, result
      ensures result.Valid()
      ensures server.history == LoadAll(old(server.history), matchOn, loads)
      ensures Timely(loads, old(server.now), server.now)
      ensures |result.landed| - |old(result.landed)| <= |loads| <= |rows|
      ensures !fatal ==> (result.loaded + result.skipped + |result.errors|
        == old(result.loaded) + old(result.skipped) + |old(result.errors)| + |rows|)
      ensures server.healthy && store.reliable ==> !fatal
      ensures server.healthy && store.reliable ==>
        AsPending(loads, Pending(rows, old(store.delivered)), old(store.delivered), store.delivered)
    {
      fatal, loads := false, [];
      ghost var h0, t0, d0, smooth := server.history, server.now, store.delivered, server.healthy && store.reliable;
      SoFarNone(h0, matchOn, t0, d0, smooth);
      hide SoFar, LoadOne, LoadAll, Timely, Pending, AsPending, Written;
      assert rows[..0] == [];
      for i := 0 to |rows|
        invariant result.Valid() && !fatal
        invariant SoFar(rows[..i], h0, server.history, matchOn, t0, server.now, loads, d0, store.delivered, smooth)
        invariant |result.landed| - |old(result.landed)| <= |loads|
        invariant (result.loaded + result.skipped + |result.errors|
          == old(result.loaded) + old(result.skipped) + |old(result.errors)| + i)
      {
        ghost var h, t, before, was := server.history, server.now, loads, store.delivered;
        ghost var load;
        fatal, load := LoadRow(rows[i], result);
        loads := if load.Some? then loads + [load.value] else loads;
        SoFarSnoc(rows, i, h0, h, server.history, matchOn, t0, t, server.now, before, load, d0, was, store.delivered,
                  smooth);
        if fatal {
          SoFarMeans(rows[..i + 1], h0, server.history, matchOn, t0, server.now, loads, d0, store.delivered, smooth);
          return;
        }
      }
      assert rows[..|rows|] == rows;
      SoFarMeans(rows, h0, server.history, matchOn, t0, server.now, loads, d0, store.delivered, smooth);
    }
  }

  /** After some rows of a batch. */
  ghost predicate SoFar(rows: seq<Row>, h0: History, h: History, matchOn: seq<string>, t0: int, t: int,
                        loads: seq<Load>, d0: set<string>, d: set<string>, smooth: bool) {
    && h == LoadAll(h0, matchOn, loads) && Timely(loads, t0, t) && |loads| <= |rows|
    && (smooth ==> AsPending(loads, Pending(rows, d0), d0, d))
  }

  lemma SoFarMeans(rows: seq<Row>, h0: History, h: History, matchOn: seq<string>, t0: int, t: int,
                   loads: seq<Load>, d0: set<string>, d: set<string>, smooth: bool)
    requires SoFar(rows, h0, h, matchOn, t0, t, loads, d0, d, smooth)
    ensures h == LoadAll(h0, matchOn, loads) && Timely(loads, t0, t) && |loads| <= |rows|
    ensures smooth ==> AsPending(loads, Pending(rows, d0), d0, d)
  {
  }

  lemma SoFarNone(h: History, matchOn: seq<string>, t: int, d: set<string>, smooth: bool)
    ensures SoFar([], h, h, matchOn, t, t, [], d, d, smooth)
  {
  }

  lemma SoFarSnoc(rows: seq<Row>, i: nat, h0: History, h: History, h': History, matchOn: seq<string>, t0: int, t: int,
                  t': int,
                  loads: seq<Load>, load: Option<Load>, d0: set<string>, d: set<string>, d': set<string>, smooth: bool)
    requires i < |rows| && SoFar(rows[..i], h0, h, matchOn, t0, t, loads, d0, d, smooth) && t <= t'
    requires h' == if load.Some? then LoadOne(h, matchOn, rows[i].data, t') else h
    requires load.Some? ==> load.value == Load(rows[i].data, t')
    requires smooth ==> (load.Some? <==> rows[i].id !in d && Written(rows[i].data) != {})
    requires smooth ==> d' == d + (if load.Some? then {rows[i].id} else {})
    ensures SoFar(rows[..i + 1], h0, h', matchOn, t0, t', if load.Some? then loads + [load.value] else loads, d0, d',
                  smooth)
  {
    hide LoadOne, Timely, AsPending, Pending;
    if load.Some? {
      LoadAllSnoc(h0, matchOn, loads, load.value);
      TimelySnoc(loads, t0, t, load.value);
    }
    TimelyLater(loads, t0, t, t');
    if smooth {
      PendingSnoc(rows, i, d0, loads, d, d', load);
    }
  }

  lemma PendingSnoc(rows: seq<Row>, i: nat, d0: set<string>, loads: seq<Load>,
                     was: set<string>, delivered: set<string>, load: Option<Load>)
    requires i < |rows|
    requires AsPending(loads, Pending(rows[..i], d0), d0, was)
    requires load.Some? <==> rows[i].id !in was && Written(rows[i].data) != {}
    requires delivered == was + (if load.Some? then {rows[i].id} else {})
    requires load.Some? ==> load.value.data == rows[i].data
    ensures AsPending(if load.Some? then loads + [load.value] else loads, Pending(rows[..i + 1], d0), d0, delivered)
  {
    assert rows[..i + 1][..i] == rows[..i];
    var p := Pending(rows[..i], d0);
    if load.Some? {
      assert Ids(p + [rows[i]]) == Ids(p) + {rows[i].id} by {
        assert forall j :: 0 <= j < |p| ==> (p + [rows[i]])[j] == p[j];
        assert (p + [rows[i]])[|p|] == rows[i];
      }
    }
  }
}
