/** Keyset paging by an integer cursor, and the split of a primary-key range between parallel scans. */
module Extraction {
  import opened Common

  datatype Row = Row(cursor: int, data: string)

  /** A table as ORDER BY cursor ASC lists it. */
  ghost predicate Ordered(t: seq<Row>) { forall i, j :: 0 <= i < j < |t| ==> t[i].cursor <= t[j].cursor }

  ghost predicate UniqueCursors(t: seq<Row>) { forall i, j :: 0 <= i < j < |t| ==> t[i].cursor < t[j].cursor }

  /** WHERE cursor > c. */
  function Above(t: seq<Row>, c: int): seq<Row> {
    if t == [] then [] else (if t[0].cursor > c then [t[0]] else []) + Above(t[1..], c)
  }

  function Take(rows: seq<Row>, n: int): (r: seq<Row>)
    ensures |r| == Max(0, Min(n, |rows|)) && r <= rows
  {
    if n <= 0 then [] else if n < |rows| then rows[..n] else rows
  }

  lemma {:induction false} AllAbove(t: seq<Row>, c: int)
    requires forall i :: 0 <= i < |t| ==> t[i].cursor > c
    ensures Above(t, c) == t
  {
    if t != [] {
      AllAbove(t[1..], c);
      assert t == [t[0]] + t[1..];
    }
  }

  /** In an ordered table the rows above `c` are a suffix. */
  lemma {:induction false} AboveIsSuffix(t: seq<Row>, c: int) returns (n: nat)
    requires Ordered(t)
    ensures n <= |t| && Above(t, c) == t[n..]
    ensures forall i :: 0 <= i < |t| ==> (t[i].cursor > c <==> i >= n)
  {
    if t == [] {
      n := 0;
    } else if t[0].cursor > c {
      n := 0;
      AllAbove(t, c);
    } else {
      var m := AboveIsSuffix(t[1..], c);
      n := m + 1;
      assert t[1..][m..] == t[n..];
      forall i | 0 <= i < |t| ensures t[i].cursor > c <==> i >= n {
        if i > 0 { assert t[i] == t[1..][i - 1]; }
      }
    }
  }

  lemma AboveOrdered(t: seq<Row>, c: int)
    requires Ordered(t)
    ensures Ordered(Above(t, c)) && (UniqueCursors(t) ==> UniqueCursors(Above(t, c)))
    ensures forall r :: r in Above(t, c) ==> r.cursor > c
  {
    var n := AboveIsSuffix(t, c);
  }

  /** What comes after a page that ends between two different cursors is the rest; otherwise rows are lost. */
  lemma AboveAfter(t: seq<Row>, c: int, k: nat)
    requires Ordered(t) && 0 < k <= |Above(t, c)|
    ensures var e := Above(t, c); var rest := Above(t, e[k - 1].cursor);
      && |rest| <= |e| - k
      && (k == |e| || e[k - 1].cursor < e[k].cursor ==> rest == e[k..])
      && (k < |e| && e[k - 1].cursor == e[k].cursor ==> |rest| < |e| - k)
  {
    var e := Above(t, c);
    var c' := e[k - 1].cursor;
    var a := AboveIsSuffix(t, c);
    var b := AboveIsSuffix(t, c');
    hide Above;
    assert forall i :: 0 <= i < |e| ==> e[i] == t[a + i];
    assert t[a + k - 1].cursor == c' && b >= a + k;
    if k < |e| {
      assert t[a + k] == e[k];
    }
    if k == |e| || e[k - 1].cursor < e[k].cursor {
      assert b == a + k;
      assert e[k..] == t[b..];
    }
  }

  lemma UniqueAfter(t: seq<Row>, c: int, k: nat)
    requires UniqueCursors(t) && 0 < k <= |Above(t, c)|
    ensures Ordered(t) && Above(t, Above(t, c)[k - 1].cursor) == Above(t, c)[k..]
  {
    AboveOrdered(t, c);
    AboveAfter(t, c, k);
  }

  // ---------------------------------------------------------------- paging

  function PageLimit(batch: nat, limit: int, emitted: nat): int {
    if limit > 0 && limit - emitted < batch then limit - emitted else batch
  }

  /** The rows that paging emits from `last` on, `emitted` having come before. */
  ghost function Paged(t: seq<Row>, last: int, batch: nat, limit: int, emitted: nat): seq<Row>
    requires Ordered(t) && batch > 0
    decreases |Above(t, last)|
  {
    var page := Take(Above(t, last), PageLimit(batch, limit, emitted));
    if |page| < batch || (limit > 0 && emitted + |page| >= limit) then page
    else
      AboveAfter(t, last, |page|);
      page + Paged(t, page[|page| - 1].cursor, batch, limit, emitted + |page|)
  }

  lemma PagedStep(t: seq<Row>, last: int, batch: nat, limit: int, emitted: nat)
    requires Ordered(t) && batch > 0
    ensures var page := Take(Above(t, last), PageLimit(batch, limit, emitted));
      Paged(t, last, batch, limit, emitted) ==
      if |page| < batch || (limit > 0 && emitted + |page| >= limit) then page
      else page + Paged(t, page[|page| - 1].cursor, batch, limit, emitted + |page|)
  {
  }

  /** The cursor of the last row out. */
  function LastCursor(cursor: int, out: seq<Row>): int { if |out| == 0 then cursor else out[|out| - 1].cursor }

  class PostgresSource {
    const rows: seq<Row>

    constructor (rows: seq<Row>)
      ensures this.rows == rows
    {
      this.rows := rows;
    }

    /** SELECT .. WHERE cursor > $1 ORDER BY cursor ASC LIMIT $2; it can fail, also in the middle. */
    method Query(last: int, limit: int) returns (page: seq<Row>, ok: bool)
      ensures page <= Take(Above(rows, last), limit)
      ensures ok ==> page == Take(Above(rows, last), limit)
    {
      page, ok := Take(Above(rows, last), limit), true;
      var failsAfter := *;
      if 0 <= failsAfter < |page| {
        page, ok := page[..failsAfter], false;
      }
    }

    /** Emits the pages; an error or cancellation stops anywhere, and `last` is the cursor of the last row out. */
    method ExtractNumeric(cursor: int, limit: int, batchSize: int) returns (out: seq<Row>, last: int, ok: bool)
      requires Ordered(rows)
      ensures var all := Paged(rows, cursor, if batchSize <= 0 then 1000 else batchSize, limit, 0);
        out <= all && (ok ==> out == all)
      ensures last == LastCursor(cursor, out)
    {
      var batch := if batchSize <= 0 then 1000 else batchSize;
      out, last, ok := [], cursor, true;
      ghost var all := Paged(rows, cursor, batch, limit, 0);
      hide Ordered, Above, Take, Paged, OnTrack, LastCursor;
      LastOfMore(cursor, [], []);
      OnTrackStart(rows, batch, limit, all, cursor);
      while true
        invariant ok && last == LastCursor(cursor, out)
        invariant OnTrack(rows, batch, limit, all, out, last)
        decreases |Above(rows, last)|
      {
        OnTrackPage(rows, batch, limit, all, out, last);
        var pageLimit := PageLimit(batch, limit, |out|);
        if pageLimit <= 0 {
          return;
        }
        var page;
        page, ok := Query(last, pageLimit);
        PrefixOfPage(out, page, Take(Above(rows, last), pageLimit), all);
        LastOfMore(cursor, out, page);
        out := out + page;
        last := LastCursor(last, page);
        if !ok || |page| < batch || (limit > 0 && |out| >= limit) {
          return;
        }
      }
    }
  }

  /** Emitted so far is `out`, and paging goes on from `last`. */
  ghost predicate OnTrack(t: seq<Row>, batch: nat, limit: int, all: seq<Row>, out: seq<Row>, last: int)
    requires Ordered(t) && batch > 0
  {
    all == out + Paged(t, last, batch, limit, |out|)
  }

  lemma OnTrackStart(t: seq<Row>, batch: nat, limit: int, all: seq<Row>, cursor: int)
    requires Ordered(t) && batch > 0 && all == Paged(t, cursor, batch, limit, 0)
    ensures OnTrack(t, batch, limit, all, [], cursor)
  {
    assert [] + all == all;
  }

  /** What the next page is, and what is left after it. */
  lemma PageFacts(t: seq<Row>, batch: nat, limit: int, emitted: nat, last: int)
    requires Ordered(t) && batch > 0
    ensures var e := Above(t, last); var pageLimit := PageLimit(batch, limit, emitted); var page := Take(e, pageLimit);
      var all := Paged(t, last, batch, limit, emitted);
      && (pageLimit <= 0 ==> |page| == 0)
      && if |page| < batch || (limit > 0 && emitted + |page| >= limit) then all == page
         else all == page + Paged(t, LastCursor(last, page), batch, limit, emitted + |page|)
              && |Above(t, LastCursor(last, page))| < |e|
  {
    hide Above, Paged, Ordered;
    PagedStep(t, last, batch, limit, emitted);
    var page := Take(Above(t, last), PageLimit(batch, limit, emitted));
    if |page| >= batch {
      AboveAfter(t, last, |page|);
    }
  }

  lemma OnTrackPage(t: seq<Row>, batch: nat, limit: int, all: seq<Row>, out: seq<Row>, last: int)
    requires Ordered(t) && batch > 0 && OnTrack(t, batch, limit, all, out, last)
    ensures var pageLimit := PageLimit(batch, limit, |out|); var page := Take(Above(t, last), pageLimit);
      && out + page <= all
      && (pageLimit <= 0 ==> all == out)
      && if |page| < batch || (limit > 0 && |out + page| >= limit) then all == out + page
         else OnTrack(t, batch, limit, all, out + page, LastCursor(last, page))
              && |Above(t, LastCursor(last, page))| < |Above(t, last)|
  {
    hide Above, Paged, Take, LastCursor, PageLimit, Ordered;
    PageFacts(t, batch, limit, |out|, last);
    var page := Take(Above(t, last), PageLimit(batch, limit, |out|));
    Assoc(out, page, []);
    Assoc(out, page, Paged(t, LastCursor(last, page), batch, limit, |out| + |page|));
  }

  lemma LastOfMore(cursor: int, out: seq<Row>, page: seq<Row>)
    ensures LastCursor(LastCursor(cursor, out), page) == LastCursor(cursor, out + page)
    ensures LastCursor(cursor, []) == cursor
  {
  }

  lemma Assoc(a: seq<Row>, b: seq<Row>, c: seq<Row>)
    ensures a + (b + c) == (a + b) + c && a + b <= a + (b + c) && b + [] == b && |a + b| == |a| + |b| &&
      (|b| == 0 ==> a + b == a)
  {
  }

  lemma PrefixOfPage(out: seq<Row>, page: seq<Row>, whole: seq<Row>, all: seq<Row>)
    requires page <= whole && out + whole <= all
    ensures out + page <= all
  {
    assert out + whole == (out + page) + whole[|page|..];
  }

  // ---------------------------------------------------------------- exactness

  /** With unique cursors, paging emits exactly the first rows above the cursor, up to the limit. */
  lemma {:induction false} PagingIsExact(t: seq<Row>, last: int, batch: nat, limit: int, emitted: nat)
    requires UniqueCursors(t) && Ordered(t) && batch > 0 && (limit > 0 ==> emitted < limit)
    ensures Paged(t, last, batch, limit, emitted) ==
      Take(Above(t, last), if limit > 0 then limit - emitted else |Above(t, last)|)
    decreases |Above(t, last)|
  {
    hide UniqueCursors, Ordered, Above, Paged;
    PagedStep(t, last, batch, limit, emitted);
    var e := Above(t, last);
    var page := Take(e, PageLimit(batch, limit, emitted));
    if |page| >= batch && !(limit > 0 && emitted + |page| >= limit) {
      UniqueAfter(t, last, batch);
      PagingIsExact(t, e[batch - 1].cursor, batch, limit, emitted + batch);
      TakeMore(e, batch, if limit > 0 then limit - emitted - batch else |e| - batch);
    }
  }

  lemma TakeMore(e: seq<Row>, k: nat, n: nat)
    requires k <= |e|
    ensures e[..k] + Take(e[k..], n) == Take(e, k + n)
  {
  }

  /** Resuming from the last cursor of a limited call with a second limit is one call with the summed limit. */
  lemma ResumeIsSum(t: seq<Row>, cursor: int, b1: nat, b2: nat, b: nat, l1: int, l2: int)
    requires UniqueCursors(t) && Ordered(t) && b1 > 0 && b2 > 0 && b > 0 && l1 > 0 && l2 > 0
    ensures var first := Paged(t, cursor, b1, l1, 0);
      var last := LastCursor(cursor, first);
      first + Paged(t, last, b2, l2, 0) == Paged(t, cursor, b, l1 + l2, 0)
  {
    hide UniqueCursors, Ordered, Above, Paged;
    PagingIsExact(t, cursor, b1, l1, 0);
    PagingIsExact(t, cursor, b, l1 + l2, 0);
    var e, first := Above(t, cursor), Paged(t, cursor, b1, l1, 0);
    var last := LastCursor(cursor, first);
    PagingIsExact(t, last, b2, l2, 0);
    if first == [] {
      assert e == [];
    } else {
      UniqueAfter(t, cursor, |first|);
      TakeMore(e, |first|, l2);
    }
  }

  /** No full page, counted from the front, ends between two rows of one cursor. */
  ghost predicate NoPageSplits(e: seq<Row>, batch: nat)
    requires batch > 0
    decreases |e|
  {
    |e| > batch ==> e[batch - 1].cursor < e[batch].cursor && NoPageSplits(e[batch..], batch)
  }

  lemma InOrder(e: seq<Row>, i: nat, j: nat)
    requires Ordered(e) && i < j < |e|
    ensures e[i].cursor <= e[j].cursor
  {
  }

  lemma SplitStep(e: seq<Row>, batch: nat)
    requires batch > 0
    ensures |e| <= batch ==> NoPageSplits(e, batch)
    ensures |e| > batch ==> (NoPageSplits(e, batch) <==>
      e[batch - 1].cursor < e[batch].cursor && NoPageSplits(e[batch..], batch))
  {
  }

  /** How many rows a call still has to emit. */
  function Wanted(e: seq<Row>, limit: int, emitted: nat): int { if limit > 0 then limit - emitted else |e| }

  lemma {:induction false} PagedAbove(t: seq<Row>, last: int, batch: nat, limit: int, emitted: nat)
    requires Ordered(t) && batch > 0
    ensures forall r :: r in Paged(t, last, batch, limit, emitted) ==> r.cursor > last
    decreases |Above(t, last)|
  {
    hide Above, Paged, Ordered;
    PagedStep(t, last, batch, limit, emitted);
    AboveOrdered(t, last);
    var e := Above(t, last);
    var page := Take(e, PageLimit(batch, limit, emitted));
    assert forall r :: r in page ==> r in e;
    if |page| >= batch && !(limit > 0 && emitted + |page| >= limit) {
      AboveAfter(t, last, batch);
      PagedAbove(t, e[batch - 1].cursor, batch, limit, emitted + batch);
    }
  }

  /** When cursors may repeat, a call emits exactly the rows asked for when, among them, no full page ends between
      two rows of one cursor. */
  lemma {:induction false} EmittedIff(t: seq<Row>, last: int, batch: nat, limit: int, emitted: nat)
    requires Ordered(t) && batch > 0 && (limit > 0 ==> emitted < limit)
    ensures var want := Take(Above(t, last), Wanted(Above(t, last), limit, emitted));
      Paged(t, last, batch, limit, emitted) == want <==> NoPageSplits(want, batch)
    decreases |Above(t, last)|
  {
    hide Above, Paged, Ordered, NoPageSplits, Take;
    PagedStep(t, last, batch, limit, emitted);
    var e := Above(t, last);
    var n := Wanted(e, limit, emitted);
    LastPage(e, batch, limit, emitted);
    if |e| >= batch && (n > batch || limit <= 0) {
      var c := e[batch - 1].cursor;
      AboveAfter(t, last, batch);
      AboveOrdered(t, last);
      EmittedIff(t, c, batch, limit, emitted + batch);
      PagedAbove(t, c, batch, limit, emitted + batch);
      if |e| > batch {
        InOrder(e, batch - 1, batch);
        MorePages(e, batch, n, Paged(t, c, batch, limit, emitted + batch));
      } else {
        LastPage([], batch, limit, emitted + batch);
      }
    }
  }

  /** The page that a call reads is all it wants, or a full one with more to come. */
  lemma LastPage(e: seq<Row>, batch: nat, limit: int, emitted: nat)
    requires batch > 0
    ensures var n := Wanted(e, limit, emitted); var page := Take(e, PageLimit(batch, limit, emitted));
      if |e| >= batch && (n > batch || limit <= 0)
      then page == e[..batch] && !(limit > 0 && emitted + batch >= limit)
           && (|e| == batch ==> page == Take(e, n) && NoPageSplits(Take(e, n), batch))
      else page == Take(e, n) && NoPageSplits(Take(e, n), batch)
           && (|page| < batch || (limit > 0 && emitted + |page| >= limit))
    ensures forall n :: e == [] ==> Take(e, n) == [] && NoPageSplits(Take(e, n), batch)
  {
  }

  /** A full page before more: the front is right, and the rest is what comes after it unless the page splits. */
  lemma MorePages(e: seq<Row>, batch: nat, n: int, more: seq<Row>)
    requires 0 < batch < |e| && batch < n && e[batch - 1].cursor <= e[batch].cursor
    requires forall r :: r in more ==> r.cursor > e[batch - 1].cursor
    requires e[batch - 1].cursor < e[batch].cursor ==>
      (more == Take(e[batch..], n - batch) <==> NoPageSplits(Take(e[batch..], n - batch), batch))
    ensures e[..batch] + more == Take(e, n) <==> NoPageSplits(Take(e, n), batch)
  {
    hide NoPageSplits;
    SplitStep(Take(e, n), batch);
    TakeMore(e, batch, n - batch);
    SameTail(e[..batch], more, Take(e[batch..], n - batch), Take(e, n));
  }

  /** After a common front, equality is equality of the rest. */
  lemma SameTail(front: seq<Row>, a: seq<Row>, b: seq<Row>, whole: seq<Row>)
    requires whole == front + b
    ensures front + a == whole <==> a == b
    ensures whole[|front|..] == b
  {
    assert (front + a)[|front|..] == a;
  }

  /** An unlimited extraction loses no row exactly when no page ends inside a group of rows with one cursor. */
  lemma CompleteIff(t: seq<Row>, last: int, batch: nat)
    requires Ordered(t) && batch > 0
    ensures Paged(t, last, batch, 0, 0) == Above(t, last) <==> NoPageSplits(Above(t, last), batch)
  {
    EmittedIff(t, last, batch, 0, 0);
  }

  /** A call that emits less than its limit has exhausted what is above its last cursor. */
  lemma {:induction false} ShortIsEnd(t: seq<Row>, last: int, batch: nat, limit: int, emitted: nat)
    requires Ordered(t) && batch > 0 && limit > 0 && emitted < limit
    ensures var out := Paged(t, last, batch, limit, emitted);
      |out| <= limit - emitted && (|out| < limit - emitted ==> Above(t, LastCursor(last, out)) == [])
    decreases |Above(t, last)|
  {
    hide Above, Paged, Ordered;
    PagedStep(t, last, batch, limit, emitted);
    var e := Above(t, last);
    var page := Take(e, PageLimit(batch, limit, emitted));
    if |page| >= batch && emitted + |page| < limit {
      AboveAfter(t, last, batch);
      ShortIsEnd(t, e[batch - 1].cursor, batch, limit, emitted + batch);
    } else if |page| < limit - emitted && page != [] {
      AboveAfter(t, last, |page|);
    }
  }

  /** Resuming from the last cursor of a limited call emits, in both calls together, exactly the rows of both limits
      when no page of either and no boundary between them falls between two rows of one cursor. */
  lemma ResumedIff(t: seq<Row>, cursor: int, b1: nat, b2: nat, l1: int, l2: int)
    requires Ordered(t) && b1 > 0 && b2 > 0 && l1 > 0 && l2 > 0
    ensures var e, first := Above(t, cursor), Paged(t, cursor, b1, l1, 0);
      first + Paged(t, LastCursor(cursor, first), b2, l2, 0) == Take(e, l1 + l2)
      <==> NoPageSplits(Take(e, l1), b1)
           && (|e| > l1 ==> e[l1 - 1].cursor < e[l1].cursor && NoPageSplits(Take(e[l1..], l2), b2))
  {
    hide Above, Paged, Ordered, NoPageSplits;
    var e, first := Above(t, cursor), Paged(t, cursor, b1, l1, 0);
    var last := LastCursor(cursor, first);
    var second := Paged(t, last, b2, l2, 0);
    EmittedIff(t, cursor, b1, l1, 0);
    ShortIsEnd(t, cursor, b1, l1, 0);
    PagedStep(t, last, b2, l2, 0);
    if first != Take(e, l1) {
      MissedStays(e, first, second, l1, l2);
    } else if |e| > l1 {
      EmittedIff(t, last, b2, l2, 0);
      PagedAbove(t, last, b2, l2, 0);
      AboveOrdered(t, cursor);
      AboveAfter(t, cursor, l1);
      InOrder(e, l1 - 1, l1);
      TakeMore(e, l1, l2);
      SameTail(first, second, Take(e[l1..], l2), Take(e, l1 + l2));
    } else if e != [] {
      AboveAfter(t, cursor, |e|);
    }
  }

  /** What the first call missed the second does not make up for. */
  lemma MissedStays(e: seq<Row>, first: seq<Row>, second: seq<Row>, l1: nat, l2: nat)
    requires first != Take(e, l1) && |first| <= l1 && (|first| < l1 ==> second == [])
    ensures first + second != Take(e, l1 + l2)
  {
    var whole := first + second;
    assert whole[..|first|] == first;
  }

  /** Two rows with one cursor and pages of one row: the second row is lost. */
  lemma RepeatedCursorIsLost()
    ensures var t := [Row(1, "a"), Row(1, "b")];
      Ordered(t) && Paged(t, 0, 1, 0, 0) == [t[0]] && Above(t, 0) == t && !NoPageSplits(t, 1)
  {
    var t := [Row(1, "a"), Row(1, "b")];
    assert t[1..] == [t[1]] && t[1..][1..] == [];
    assert Above(t[1..], 0) == [t[1]] && Above(t, 0) == t;
    assert Above(t[1..], 1) == [] && Above(t, 1) == [];
    assert Take(t, 1) == [t[0]] && Take([], 1) == [];
    CompleteIff(t, 0, 1);
  }

  // ---------------------------------------------------------------- splitting a key range

  const MIN64: int := -0x8000_0000_0000_0000
  const MAX64: int := 0x7fff_ffff_ffff_ffff

  predicate Fits(x: int) { MIN64 <= x <= MAX64 }

  /** The 64-bit value of a sum or product: silent wrap-around. */
  function Wrap(x: int): (w: int)
    ensures Fits(w)
  {
    (x - MIN64) % 0x1_0000_0000_0000_0000 + MIN64
  }

  lemma WrapFits(x: int)
    requires Fits(x)
    ensures Wrap(x) == x
  {
  }

  /** Division of Go truncates toward zero. */
  function Quotient(a: int, b: int): int
    requires b > 0
  {
    if a >= 0 then a / b else -(-a / b)
  }

  datatype Range = Range(min: int, max: int)

  predicate Covers(r: Range, k: int) { r.min <= k <= r.max }

  function RangeSize(min: int, max: int, parallelism: int): int
    requires parallelism > 0
  {
    var size := Quotient(Wrap(Wrap(max - min) + 1), parallelism);
    if size == 0 then 1 else size
  }

  function Times(a: int, b: int): int { a * b }

  /** The `i`-th range, in 64-bit arithmetic. */
  function RangeAt(min: int, max: int, parallelism: int, i: nat): Range
    requires parallelism > 0
  {
    var size := RangeSize(min, max, parallelism);
    var start := Wrap(min + Wrap(Times(i, size)));
    Range(start, if i == parallelism - 1 then max else Wrap(Wrap(start + size) - 1))
  }

  method SplitRange(min: int, max: int, parallelism: int) returns (ranges: seq<Range>)
    requires Fits(min) && Fits(max) && min < max && parallelism > 0
    ensures |ranges| == parallelism
    ensures forall i :: 0 <= i < parallelism ==> ranges[i] == RangeAt(min, max, parallelism, i)
  {
    var rangeSize := Quotient(Wrap(Wrap(max - min) + 1), parallelism);
    if rangeSize == 0 {
      rangeSize := 1;
    }
    ranges := [];
    for i := 0 to parallelism
      invariant |ranges| == i
      invariant forall j :: 0 <= j < i ==> ranges[j] == RangeAt(min, max, parallelism, j)
    {
      var start := Wrap(min + Wrap(i * rangeSize));
      var end := Wrap(Wrap(start + rangeSize) - 1);
      if i == parallelism - 1 {
        end := max;
      }
      ranges := ranges + [Range(start, end)];
    }
  }

  /** Neither the number of keys, nor that of ranges, nor the largest start leaves the 64-bit range. */
  predicate SplitFits(min: int, max: int, parallelism: int) {
    Fits(max - min + 1) && Fits(parallelism) && Fits(max + parallelism)
  }

  lemma SizeFits(min: int, max: int, parallelism: int)
    requires Fits(min) && Fits(max) && min < max && parallelism > 0 && SplitFits(min, max, parallelism)
    ensures var size := RangeSize(min, max, parallelism);
      size == Max(1, (max - min + 1) / parallelism) && (size == 1 || parallelism * size <= max - min + 1)
  {
    WrapFits(max - min);
    WrapFits(max - min + 1);
    hide Wrap;
    var d := (max - min + 1) / parallelism;
    assert d * parallelism <= max - min + 1;
  }

  /** Then nothing wraps: the ranges are the ones of unbounded arithmetic. */
  lemma NoOverflow(min: int, max: int, parallelism: int, i: nat)
    requires Fits(min) && Fits(max) && min < max && 0 <= i < parallelism && SplitFits(min, max, parallelism)
    ensures var size := Max(1, (max - min + 1) / parallelism);
      RangeAt(min, max, parallelism, i) == Range(min + i * size,
                                                 if i == parallelism - 1 then max else min + i * size + size - 1)
  {
    SizeFits(min, max, parallelism);
    var size := RangeSize(min, max, parallelism);
    PartsFit(i, parallelism, size, max - min + 1);
    hide Wrap, RangeSize, Times;
    NothingWraps(min, Times(i, size), size, Max(parallelism, max - min + 1), max);
  }

  lemma PartsFit(i: nat, n: int, size: int, span: int)
    requires i < n && size >= 1 && (size == 1 || n * size <= span)
    ensures i * size == Times(i, size) && 0 <= Times(i, size) && Times(i, size) + size <= Max(n, span)
  {
    Products(i, n, size);
  }

  lemma NothingWraps(min: int, part: int, size: int, most: int, max: int)
    requires Fits(min) && Fits(max) && min < max && part >= 0 && size >= 1 && part + size <= most
    requires Fits(most) && Fits(min + most)
    ensures Wrap(min + Wrap(part)) == min + part && Wrap(Wrap(min + part + size) - 1) == min + part + size - 1
  {
    hide Wrap;
    WrapFits(part);
    WrapFits(min + part);
    WrapFits(min + part + size);
    WrapFits(min + part + size - 1);
  }

  lemma {:induction false} Products(i: nat, n: int, size: int)
    requires i < n && size >= 1
    ensures 0 <= i * size && i * size + size <= n * size
    decreases n
  {
    assert n * size == (n - 1) * size + size;
    if i < n - 1 {
      Products(i, n - 1, size);
    }
  }

  /** Every key between the smallest and the largest is in exactly one range. */
  lemma ExactlyOneRange(min: int, max: int, parallelism: int, k: int) returns (i: nat)
    requires Fits(min) && Fits(max) && min < max && parallelism > 0 && SplitFits(min, max, parallelism) &&
      min <= k <= max
    ensures i < parallelism && Covers(RangeAt(min, max, parallelism, i), k)
    ensures forall j :: 0 <= j < parallelism && j != i ==> !Covers(RangeAt(min, max, parallelism, j), k)
  {
    var size := Max(1, (max - min + 1) / parallelism);
    var q := (k - min) / size;
    i := Min(q, parallelism - 1);
    Position(k - min, size, q);
    NoOverflow(min, max, parallelism, i);
    forall j | 0 <= j < parallelism && j != i ensures !Covers(RangeAt(min, max, parallelism, j), k) {
      NoOverflow(min, max, parallelism, j);
      if j < q {
        Products(j, q, size);
      } else {
        Products(q, j, size);
      }
    }
    if q > i {
      Products(i, q, size);
    }
  }

  lemma Position(d: nat, size: int, q: int)
    requires size >= 1 && q == d / size
    ensures q >= 0 && q * size <= d < q * size + size
  {
  }

  // ---------------------------------------------------------------- exactly when the split is right

  const WORD: int := 0x1_0000_0000_0000_0000

  ghost predicate Holds(min: int, max: int, parallelism: int, i: int, k: int)
    requires parallelism > 0
  {
    0 <= i < parallelism && Covers(RangeAt(min, max, parallelism, i), k)
  }

  /** The key is in one range, and in no other. */
  ghost predicate InOneRange(min: int, max: int, parallelism: int, k: int)
    requires parallelism > 0
  {
    exists i :: Holds(min, max, parallelism, i, k) && forall j :: Holds(min, max, parallelism, j, k) ==> j == i
  }

  ghost predicate SplitsExactly(min: int, max: int, parallelism: int)
    requires parallelism > 0
  {
    forall k :: min <= k <= max ==> InOneRange(min, max, parallelism, k)
  }

  /** There are more ranges than keys and the last start wraps; or the number of keys does not fit and some range,
      stepping down from the smallest key, reaches the smallest 64-bit value exactly. */
  predicate SplitFails(min: int, max: int, parallelism: int)
    requires parallelism > 0
  {
    var n := max - min + 1;
    var s := (WORD - n) / parallelism;
    || (n < parallelism && min + parallelism - 1 > MAX64)
    || (n > MAX64 && s >= 1 && min > MIN64 && (min - MIN64) % s == 0 && (min - MIN64) / s <= parallelism - 1)
  }

  lemma WrapUp(x: int)
    requires MIN64 - WORD <= x < MIN64
    ensures Wrap(x) == x + WORD
  {
  }

  lemma WrapDown(x: int)
    requires MAX64 < x <= MAX64 + WORD
    ensures Wrap(x) == x - WORD
  {
  }

  /** Ranges of a positive size whose starts do not wrap. */
  lemma PlainRange(min: int, max: int, parallelism: int, i: nat, size: int)
    requires Fits(min) && 0 <= i < parallelism && size == RangeSize(min, max, parallelism) >= 1
    requires Fits((parallelism - 1) * size) && min + (parallelism - 1) * size <= MAX64
    ensures RangeAt(min, max, parallelism, i) ==
      Range(min + i * size, if i == parallelism - 1 then max else min + i * size + size - 1)
  {
    if i < parallelism - 1 {
      Products(i, parallelism - 1, size);
    }
    hide Wrap, RangeSize;
    var part := i * size;
    assert 0 <= part <= (parallelism - 1) * size;
    WrapFits(part);
    WrapFits(min + part);
    if i < parallelism - 1 {
      WrapFits(min + part + size);
      WrapFits(min + part + size - 1);
    }
  }

  lemma PlainIsExact(min: int, max: int, parallelism: int, size: int, k: int)
    requires Fits(min) && parallelism > 0 && size == RangeSize(min, max, parallelism) >= 1 && min <= k <= max
    requires Fits((parallelism - 1) * size) && min + (parallelism - 1) * size <= MAX64
    ensures InOneRange(min, max, parallelism, k)
  {
    var q := (k - min) / size;
    var i := Min(q, parallelism - 1);
    Position(k - min, size, q);
    hide RangeSize, RangeAt;
    PlainRange(min, max, parallelism, i, size);
    if q > i {
      Products(i, q, size);
    }
    assert Holds(min, max, parallelism, i, k);
    forall j | Holds(min, max, parallelism, j, k) ensures j == i {
      PlainRange(min, max, parallelism, j, size);
      if j < q {
        Products(j, q, size);
      } else if j > q {
        Products(q, j, size);
      }
    }
  }

  /** When nothing wraps, or the size of a range is forced to one and the last start fits. */
  lemma PlainSize(min: int, max: int, parallelism: int) returns (size: int)
    requires Fits(min) && Fits(max) && min < max && 0 < parallelism <= MAX64
    requires var n := max - min + 1; n <= MAX64 || (WORD - n) / parallelism == 0
    requires max - min + 1 < parallelism ==> min + parallelism - 1 <= MAX64
    ensures size == RangeSize(min, max, parallelism) >= 1
    ensures Fits((parallelism - 1) * size) && min + (parallelism - 1) * size <= MAX64
  {
    var n := max - min + 1;
    size := RangeSize(min, max, parallelism);
    if n <= MAX64 {
      WrapFits(max - min);
      WrapFits(n);
      hide Wrap;
      Division(n, parallelism);
      var d := n / parallelism;
      assert size == if d == 0 then 1 else d;
      if d == 0 {
        assert (parallelism - 1) * size == parallelism - 1;
      } else {
        LessOne(parallelism, size);
      }
    } else {
      WrappedSpan(min, max);
      hide Wrap;
      assert size == 1;
    }
  }

  lemma Division(n: nat, p: int)
    requires p > 0
    ensures p * (n / p) <= n && n / p >= 0 && (n / p == 0 <==> n < p)
  {
  }

  lemma LessOne(p: int, size: int)
    requires p >= 1 && size >= 1
    ensures 0 <= (p - 1) * size == p * size - size
  {
    assert (p - 1) * size == p * size - size;
    if p > 1 {
      Products(0, p - 1, size);
    }
  }

  lemma WrappedSpan(min: int, max: int)
    requires Fits(min) && Fits(max) && max - min + 1 > MAX64
    ensures Wrap(Wrap(max - min) + 1) == max - min + 1 - WORD
  {
    if max - min > MAX64 {
      WrapDown(max - min);
      WrapFits(max - min + 1 - WORD);
    } else {
      WrapFits(max - min);
      WrapDown(max - min + 1);
    }
  }

  lemma ExactWhenPlain(min: int, max: int, parallelism: int)
    requires Fits(min) && Fits(max) && min < max && 0 < parallelism <= MAX64
    requires var n := max - min + 1; n <= MAX64 || (WORD - n) / parallelism == 0
    requires max - min + 1 < parallelism ==> min + parallelism - 1 <= MAX64
    ensures SplitsExactly(min, max, parallelism)
  {
    var size := PlainSize(min, max, parallelism);
    forall k | min <= k <= max ensures InOneRange(min, max, parallelism, k) {
      PlainIsExact(min, max, parallelism, size, k);
    }
  }

  /** More ranges than keys, and the last start wraps: it comes out below the smallest key. */
  lemma LastStartWraps(min: int, max: int, parallelism: int)
    requires Fits(min) && Fits(max) && min < max && max - min + 1 < parallelism <= MAX64 &&
      min + parallelism - 1 > MAX64
    ensures !SplitsExactly(min, max, parallelism)
  {
    var last := parallelism - 1;
    WrapFits(max - min);
    WrapFits(max - min + 1);
    assert RangeSize(min, max, parallelism) == 1;
    WrapFits(last);
    WrapDown(min + last);
    WrapFits(0);
    WrapFits(min);
    WrapFits(min + 1);
    hide Wrap, RangeSize;
    assert RangeAt(min, max, parallelism, 0) == Range(min, min);
    assert RangeAt(min, max, parallelism, last) == Range(min + last - WORD, max);
    TwoRanges(min, max, parallelism, 0, last);
  }

  lemma TwoRanges(min: int, max: int, parallelism: int, i: int, j: int)
    requires parallelism > 0 && min <= max && i != j
    requires Holds(min, max, parallelism, i, min) && Holds(min, max, parallelism, j, min)
    ensures !SplitsExactly(min, max, parallelism)
  {
    hide Holds;
    assert !InOneRange(min, max, parallelism, min);
  }

  lemma TimesFacts(i: int, n: int, s: int)
    requires 0 <= i < n && s >= 1
    ensures 0 <= Times(i, s) && Times(i, s) + s == Times(i + 1, s) && Times(i + 1, s) <= Times(n, s)
    ensures Times(i, -s) == -Times(i, s)
  {
    Products(i, n, s);
    assert (i + 1) * s == i * s + s;
  }

  /** When the wrapped number of keys makes the size negative, a range holds every key or none. */
  lemma SteppingDown(min: int, max: int, parallelism: int, s: int, i: int, k: int)
    requires Fits(min) && Fits(max) && min <= k <= max && max - min + 1 > MAX64 && 0 <= i < parallelism
    requires s >= 1 && RangeSize(min, max, parallelism) == -s && Times(parallelism, s) <= WORD - (max - min + 1)
    ensures Holds(min, max, parallelism, i, k) <==>
      Times(i, s) <= min - MIN64 && (i == parallelism - 1 || min - MIN64 <= Times(i, s) + s)
  {
    hide Wrap, RangeSize, Times;
    TimesFacts(i, parallelism, s);
    if i < parallelism - 1 {
      TimesFacts(i + 1, parallelism, s);
      TimesFacts(i, parallelism - 1, s);
    }
    StepDown(min, max, s, Times(i, s), i == parallelism - 1);
  }

  lemma StepDown(min: int, max: int, s: int, x: int, last: bool)
    requires Fits(min) && Fits(max) && max - min + 1 > MAX64 && s >= 1 && x >= 0
    requires x + s + (if last then 0 else s) <= WORD - (max - min + 1)
    ensures var start := Wrap(min + Wrap(-x));
      var end := if last then max else Wrap(Wrap(start + -s) - 1);
      if x <= min - MIN64 && (last || min - MIN64 <= x + s) then start <= min && max <= end
      else end < start || max < start
  {
    WrapFits(-x);
    var u := min - x;
    if u >= MIN64 {
      WrapFits(u);
      if u - s >= MIN64 {
        WrapFits(u - s);
        if u - s > MIN64 {
          WrapFits(u - s - 1);
        } else {
          WrapUp(u - s - 1);
        }
      } else {
        WrapUp(u - s);
        WrapFits(u - s + WORD - 1);
      }
    } else {
      WrapUp(u);
      WrapFits(u + WORD - s);
      if !last {
        WrapFits(u + WORD - s - 1);
      }
    }
  }

  /** The ranges that hold the keys then: the one whose step contains the distance to the smallest 64-bit value,
      and the one before it if that distance is a whole number of steps. */
  lemma SteppingDownExactIff(min: int, max: int, parallelism: int, s: int, m: int)
    requires Fits(min) && Fits(max) && min < max && max - min + 1 > MAX64 && parallelism > 0
    requires s >= 1 && RangeSize(min, max, parallelism) == -s && Times(parallelism, s) <= WORD - (max - min + 1)
    requires m >= 0 && Times(m, s) <= min - MIN64 < Times(m, s) + s
    ensures SplitsExactly(min, max, parallelism) <==>
      !(min > MIN64 && min - MIN64 == Times(m, s) && m <= parallelism - 1)
  {
    var d := min - MIN64;
    NoSteps(s);
    if d > 0 && d == Times(m, s) && m <= parallelism - 1 {
      hide RangeSize, RangeAt, Wrap, Holds, SplitsExactly;
      assert m >= 1 by { hide *; if m == 0 { NoSteps(s); } }
      TimesFacts(m - 1, parallelism, s);
      hide Times;
      SteppingDown(min, max, parallelism, s, m - 1, min);
      SteppingDown(min, max, parallelism, s, m, min);
      TwoRanges(min, max, parallelism, m - 1, m);
    } else {
      hide RangeSize, RangeAt, Wrap, Holds, Times;
      var i := Min(m, parallelism - 1);
      if i < m {
        TimesFacts(i, m, s);
      }
      forall k | min <= k <= max ensures InOneRange(min, max, parallelism, k) {
        SteppingDown(min, max, parallelism, s, i, k);
        forall j | Holds(min, max, parallelism, j, k) ensures j == i {
          IsARange(min, max, parallelism, j, k);
          SteppingDown(min, max, parallelism, s, j, k);
          OnlyStep(parallelism, s, d, m, j, i);
        }
      }
    }
  }

  lemma NoSteps(s: int)
    ensures Times(0, s) == 0
  {
  }

  lemma IsARange(min: int, max: int, parallelism: int, j: int, k: int)
    requires parallelism > 0 && Holds(min, max, parallelism, j, k)
    ensures 0 <= j < parallelism
  {
  }

  lemma OnlyStep(parallelism: int, s: int, d: nat, m: int, j: int, i: int)
    requires s >= 1 && 0 <= j < parallelism && Times(m, s) <= d < Times(m, s) + s && i == Min(m, parallelism - 1) &&
      m >= 0
    requires Times(j, s) <= d && (j == parallelism - 1 || d <= Times(j, s) + s)
    requires !(d > 0 && d == Times(m, s) && m <= parallelism - 1)
    ensures j == i
  {
    if j < m {
      TimesFacts(j, m, s);
      if j + 1 < m {
        TimesFacts(j + 1, m, s);
      }
    } else if j > m {
      TimesFacts(m, j, s);
    }
    hide Times;
  }

  /** The step by which such ranges go down, and the number of whole steps to the smallest 64-bit value. */
  function StepSize(min: int, max: int, parallelism: int): int
    requires parallelism > 0
  {
    (WORD - (max - min + 1)) / parallelism
  }

  function WholeSteps(min: int, s: int): int
    requires s > 0
  {
    (min - MIN64) / s
  }

  lemma StepFacts(min: int, max: int, parallelism: int)
    requires Fits(min) && Fits(max) && min < max && parallelism > 0
    ensures var s := StepSize(min, max, parallelism);
      && s >= 0 && Times(parallelism, s) <= WORD - (max - min + 1)
      && (s >= 1 ==> var m := WholeSteps(min, s); m >= 0 && Times(m, s) <= min - MIN64 < Times(m, s) + s)
  {
    var s := StepSize(min, max, parallelism);
    Division(WORD - (max - min + 1), parallelism);
    if s >= 1 {
      Position(min - MIN64, s, WholeSteps(min, s));
    }
  }

  lemma FailsMeans(min: int, max: int, parallelism: int)
    requires Fits(min) && Fits(max) && min < max && parallelism > 0
    ensures var n, s := max - min + 1, StepSize(min, max, parallelism);
      SplitFails(min, max, parallelism) <==>
      || (n < parallelism && min + parallelism - 1 > MAX64)
      || (n > MAX64 && s >= 1 && min > MIN64 && min - MIN64 == Times(WholeSteps(min, s), s) &&
        WholeSteps(min, s) <= parallelism - 1)
  {
    var s := StepSize(min, max, parallelism);
    if s >= 1 {
      WholeIff(min - MIN64, s);
    }
  }

  lemma WholeIff(d: nat, s: int)
    requires s > 0
    ensures d % s == 0 <==> d == Times(d / s, s)
  {
    assert d == (d / s) * s + d % s;
  }

  /** For every pair of bounds and every number of ranges: each key is in exactly one range unless the split is
      one of the failing ones. */
  lemma SplitsExactlyIff(min: int, max: int, parallelism: int)
    requires Fits(min) && Fits(max) && min < max && 0 < parallelism <= MAX64
    ensures SplitsExactly(min, max, parallelism) <==> !SplitFails(min, max, parallelism)
  {
    var n := max - min + 1;
    var s := StepSize(min, max, parallelism);
    FailsMeans(min, max, parallelism);
    StepFacts(min, max, parallelism);
    if n > MAX64 {
      SizeOfStep(min, max, parallelism);
    }
    hide SplitFails, SplitsExactly, Times, WholeSteps;
    if n < parallelism && min + parallelism - 1 > MAX64 {
      LastStartWraps(min, max, parallelism);
    } else if n <= MAX64 || s == 0 {
      ExactWhenPlain(min, max, parallelism);
    } else {
      SteppingDownExactIff(min, max, parallelism, s, WholeSteps(min, s));
    }
  }

  lemma SizeOfStep(min: int, max: int, parallelism: int)
    requires Fits(min) && Fits(max) && max - min + 1 > MAX64 && parallelism > 0
    ensures var s := StepSize(min, max, parallelism);
      s >= 1 ==> RangeSize(min, max, parallelism) == -s
  {
    WrappedSpan(min, max);
    hide Wrap;
  }

  /** Two keys at the very top split five ways: the last range starts below them and both are read twice. */
  lemma TopKeysReadTwice(k: int)
    requires MAX64 - 1 <= k <= MAX64
    ensures SplitFails(MAX64 - 1, MAX64, 5)
    ensures Holds(MAX64 - 1, MAX64, 5, k - (MAX64 - 1), k) && Holds(MAX64 - 1, MAX64, 5, 4, k)
  {
    assert RangeSize(MAX64 - 1, MAX64, 5) == 1;
  }

  /** When the number of keys does not fit, ranges can overlap: here every key is read twice. */
  lemma OverflowOverlaps(k: int)
    requires -0x4000_0000_0000_0000 <= k <= 0x3fff_ffff_ffff_ffff
    ensures var a, b := -0x4000_0000_0000_0000, 0x3fff_ffff_ffff_ffff;
      !SplitFits(a, b, 2) && Covers(RangeAt(a, b, 2, 0), k) && Covers(RangeAt(a, b, 2, 1), k)
  {
    assert RangeSize(-0x4000_0000_0000_0000, 0x3fff_ffff_ffff_ffff, 2) == -0x4000_0000_0000_0000;
  }
}
