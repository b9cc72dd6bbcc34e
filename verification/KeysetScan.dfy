/** Reading a table page by page, each page starting after the last id of the one before, and
    writing ids back in batches. */
module KeysetScan {
  import opened Common

  const MaxRetries := 3
  const MaxBatchReqNum := 100

  datatype Row = Row(id: int, orderID: string, collectionAddr: string, expireTime: int)

  /** The rows a query selects, in id order: unique positive ids. */
  ghost predicate Table(rows: seq<Row>) {
    && (forall i :: 0 <= i < |rows| ==> rows[i].id > 0)
    && (forall i, j :: 0 <= i < j < |rows| ==> rows[i].id < rows[j].id)
  }

  function Above(rows: seq<Row>, cursor: int): seq<Row> {
    if rows == [] then []
    else if rows[0].id > cursor then [rows[0]] + Above(rows[1..], cursor)
    else Above(rows[1..], cursor)
  }

  /** `where id > cursor order by id asc limit n` */
  function Page(rows: seq<Row>, cursor: int, limit: nat): seq<Row> {
    var above := Above(rows, cursor);
    if |above| <= limit then above else above[..limit]
  }

  lemma {:induction false} AllAbove(rows: seq<Row>, cursor: int)
    requires forall i :: 0 <= i < |rows| ==> rows[i].id > cursor
    ensures Above(rows, cursor) == rows
  {
    if rows != [] { AllAbove(rows[1..], cursor); }
  }

  /** The rows above the id of row k - 1 are the rows from k on. */
  lemma {:induction false} AboveIsSuffix(rows: seq<Row>, k: nat, cursor: int)
    requires Table(rows) && k <= |rows| && cursor == (if k == 0 then 0 else rows[k - 1].id)
    ensures Above(rows, cursor) == rows[k..]
  {
    SplitAbove(rows, k, cursor);
    AllAbove(rows[k..], cursor);
  }

  lemma {:induction false} SplitAbove(rows: seq<Row>, k: nat, cursor: int)
    requires k <= |rows| && forall i :: 0 <= i < k ==> rows[i].id <= cursor
    ensures Above(rows, cursor) == Above(rows[k..], cursor)
  {
    if k > 0 {
      SplitAbove(rows[1..], k - 1, cursor);
      assert rows[1..][k - 1..] == rows[k..];
    } else {
      assert rows[0..] == rows;
    }
  }

  /** The id after which the rows from n on are read. */
  function CursorAt(rows: seq<Row>, n: nat): int
    requires n <= |rows|
  {
    if n == 0 then 0 else rows[n - 1].id
  }

  /** The rows read before, and with, the page at n. */
  lemma PageAt(rows: seq<Row>, n: nat, limit: nat)
    requires Table(rows) && n <= |rows|
    ensures var page := Page(rows, CursorAt(rows, n), limit);
      && n + |page| <= |rows| && rows[..n] + page == rows[..n + |page|] && |page| <= limit
      && (|page| < limit ==> n + |page| == |rows|)
      && (page != [] ==> page[|page| - 1].id == CursorAt(rows, n + |page|))
  {
    AboveIsSuffix(rows, n, CursorAt(rows, n));
    var page := Page(rows, CursorAt(rows, n), limit);
    assert page == rows[n..n + |page|];
  }

  /** A page by page scan returns the table, each row once; limit is the page size. */
  method ScanAll(rows: seq<Row>, limit: nat) returns (all: seq<Row>)
    requires Table(rows) && limit > 0
    ensures all == rows
  {
    var id := 0;
    all := [];
    ghost var n := 0;
    while true
      invariant n <= |rows| && all == rows[..n] && id == CursorAt(rows, n)
      decreases |rows| - n
    {
      PageAt(rows, n, limit);
      var page := Page(rows, id, limit);
      all := all + page;
      n := n + |page|;
      if |page| < limit {
        break;
      }
      id := page[|page| - 1].id;
    }
    assert rows[..|rows|] == rows;
  }

  /** The rows before page k. */
  function PageStart(k: nat, limit: nat): nat {
    if k == 0 then 0 else limit + PageStart(k - 1, limit)
  }

  /** Every attempt at page k fails. */
  predicate PageFails(attempt: (nat, nat) -> bool, k: nat) {
    forall i: nat :: i < MaxRetries ==> !attempt(k, i)
  }

  lemma ThreeAttempts(attempt: (nat, nat) -> bool, k: nat)
    ensures PageFails(attempt, k) <==> !attempt(k, 0) && !attempt(k, 1) && !attempt(k, 2)
  {
    if !attempt(k, 0) && !attempt(k, 1) && !attempt(k, 2) {
      forall i: nat | i < MaxRetries ensures !attempt(k, i) {
        assert i == 0 || i == 1 || i == 2;
      }
    }
  }

  /** All attempts at some page of the scan fail. */
  ghost predicate SomePageFails(attempt: (nat, nat) -> bool, n: nat, limit: nat) {
    exists k: nat :: PageStart(k, limit) <= n && PageFails(attempt, k)
  }

  lemma NextPage(rows: seq<Row>, k: nat, limit: nat)
    requires Table(rows) && PageStart(k, limit) <= |rows|
    ensures var n := PageStart(k, limit);
      var page := Page(rows, CursorAt(rows, n), limit);
      if |page| < limit then |rows| < PageStart(k + 1, limit) && rows[..n] + page == rows
      else PageStart(k + 1, limit) <= |rows| && rows[..n] + page == rows[..PageStart(k + 1, limit)]
           && (limit > 0 ==> page[|page| - 1].id == CursorAt(rows, PageStart(k + 1, limit)))
  {
    PageAt(rows, PageStart(k, limit), limit);
    assert rows[..|rows|] == rows;
  }

  /** The scan with up to three attempts at each page. */
  method ReadPages(rows: seq<Row>, limit: nat, attempt: (nat, nat) -> bool) returns (failed: bool, all: seq<Row>)
    requires Table(rows) && limit > 0
    ensures failed <==> SomePageFails(attempt, |rows|, limit)
    ensures !failed ==> all == rows
  {
    var cursor, k := 0, 0;
    all := [];
    while true
      invariant PageStart(k, limit) <= |rows| && all == rows[..PageStart(k, limit)]
      invariant cursor == CursorAt(rows, PageStart(k, limit))
      invariant forall j: nat :: j < k ==> !PageFails(attempt, j)
      decreases |rows| - PageStart(k, limit)
    {
      NextPage(rows, k, limit);
      failed := TryPage(attempt, k);
      if failed {
        return true, [];
      }
      var page := Page(rows, cursor, limit);
      all := all + page;
      if |page| < limit {
        NoneFails(attempt, |rows|, limit, k);
        return false, all;
      }
      cursor := page[|page| - 1].id;
      k := k + 1;
    }
  }

  /** QueryAllCollectionInfo: fails exactly when all attempts at some page fail or the commit does;
      otherwise it returns the table. */
  method QueryAllCollectionInfo(rows: seq<Row>, limit: nat, attempt: (nat, nat) -> bool, commits: bool)
    returns (r: Option<seq<Row>>)
    requires Table(rows) && limit > 0
    ensures r.None? <==> SomePageFails(attempt, |rows|, limit) || !commits
    ensures r.Some? ==> r.value == rows
  {
    var failed, all := ReadPages(rows, limit, attempt);
    if failed || !commits {
      return None;
    }
    return Some(all);
  }

  lemma {:induction false} PagesStartLater(j: nat, k: nat, limit: nat)
    requires j <= k
    ensures PageStart(j, limit) <= PageStart(k, limit)
  {
    if j < k { PagesStartLater(j, k - 1, limit); }
  }

  lemma NoPageAfter(n: nat, limit: nat, k: nat)
    requires n < PageStart(k + 1, limit)
    ensures forall j: nat :: PageStart(j, limit) <= n ==> j <= k
  {
    forall j: nat | PageStart(j, limit) <= n ensures j <= k {
      if j >= k + 1 { PagesStartLater(k + 1, j, limit); }
    }
  }

  lemma NoneFails(attempt: (nat, nat) -> bool, n: nat, limit: nat, k: nat)
    requires n < PageStart(k + 1, limit) && forall j: nat :: j <= k ==> !PageFails(attempt, j)
    ensures !SomePageFails(attempt, n, limit)
  {
    NoPageAfter(n, limit, k);
  }

  /** The retry loop around one page. */
  method TryPage(attempt: (nat, nat) -> bool, k: nat) returns (failed: bool)
    ensures failed == PageFails(attempt, k)
  {
    for i := 0 to MaxRetries
      invariant forall j: nat :: j < i ==> !attempt(k, j)
    {
      if attempt(k, i) {
        return false;
      }
      if i == MaxRetries - 1 {
        return true;
      }
    }
    return true;
  }

  // ---- batches ----

  function Concat(batches: seq<seq<int>>): seq<int> {
    if batches == [] then [] else Concat(batches[..|batches| - 1]) + batches[|batches| - 1]
  }

  /** The batched update of expired orders: the batches hold every id once, in order, 100 each, and
      from 1 to 100 in the last. */
  method Batches(ids: seq<int>) returns (batches: seq<seq<int>>)
    ensures Concat(batches) == ids
    ensures forall b :: b in batches ==> 0 < |b| <= 100
    ensures forall k :: 0 <= k < |batches| - 1 ==> |batches[k]| == 100
  {
    batches := [];
    var i := 0;
    while i < |ids|
      invariant 0 <= i && Concat(batches) == if i <= |ids| then ids[..i] else ids
      invariant forall b :: b in batches ==> 0 < |b| <= MaxBatchReqNum
      invariant forall k :: 0 <= k < |batches| - 1 ==> |batches[k]| == MaxBatchReqNum
      invariant i < |ids| && batches != [] ==> |batches[|batches| - 1]| == MaxBatchReqNum
    {
      var end := i + MaxBatchReqNum;
      if i + MaxBatchReqNum >= |ids| {
        end := |ids|;
      }
      ghost var before := batches;
      batches := batches + [ids[i..end]];
      assert batches[..|before|] == before;
      assert ids[..i] + ids[i..end] == ids[..end];
      i := i + 100;
    }
  }
}
