/** A start-up load that does not fit goes wrong in some run: cancelling every queued order but
    one leaves the cached price above a valid listing that the load had evicted. */
module FloorCancels {
  import opened Text
  import opened PriorityQueue
  import opened QueueLaws
  import opened TopK
  import opened FloorPrice
  import opened FloorInvariant
  import opened FloorTransfer
  import opened FloorRuns
  import opened FloorStartup

  // ---- every query has an answer ----

  lemma {:induction false} Dearest(st: Store, ids: set<string>) returns (id: string)
    requires ids != {} && ids <= ValidIds(st)
    ensures id in ids && forall x :: x in ids ==> st.orders[x].price <= st.orders[id].price
  {
    id :| id in ids;
    if ids != {id} {
      var y := Dearest(st, ids - {id});
      if st.orders[y].price > st.orders[id].price { id := y; }
    }
  }

  ghost predicate AscendingRows(st: Store, rows: seq<Listed>) {
    && DistinctRows(rows)
    && (forall i :: 0 <= i < |rows| ==> RowOf(st, rows[i]))
    && (forall i, j :: 0 <= i < j < |rows| ==> rows[i].price <= rows[j].price)
  }

  lemma RowExists(st: Store, id: string) returns (r: Listed)
    requires Valid(st, id)
    ensures RowOf(st, r) && r.orderID == id
  {
    var row := st.orders[id];
    r := Listed(id, row.price, row.maker, row.tokenId, st.items[ToLower(row.tokenId)].banned);
  }

  lemma AppendRow(st: Store, rows: seq<Listed>, r: Listed)
    requires AscendingRows(st, rows) && RowOf(st, r) && r.orderID !in RowIds(rows)
    requires forall i :: 0 <= i < |rows| ==> rows[i].price <= r.price
    ensures AscendingRows(st, rows + [r])
  {
    NewId(rows, r);
    var all, n := rows + [r], |rows|;
    forall i | 0 <= i <= n ensures RowOf(st, all[i]) {
      assert i < n ==> all[i] == rows[i];
    }
    forall i, j | 0 <= i < j <= n ensures all[i].price <= all[j].price && all[i].orderID != all[j].orderID {
      assert all[i] == rows[i] && (j < n ==> all[j] == rows[j]);
    }
  }

  lemma NewId(rows: seq<Listed>, r: Listed)
    requires r.orderID !in RowIds(rows)
    ensures forall i :: 0 <= i < |rows| ==> rows[i].orderID != r.orderID
  {
    RowIdsAre(rows);
    forall i | 0 <= i < |rows| ensures rows[i].orderID != r.orderID {
      assert rows[i].orderID in RowIds(rows);
    }
  }

  lemma AppendId(rows: seq<Listed>, r: Listed)
    ensures RowIds(rows + [r]) == RowIds(rows) + {r.orderID}
  {
    assert (rows + [r])[..|rows|] == rows;
  }

  /** All rows of some valid orders, cheapest first. */
  lemma {:induction false} SortedRows(st: Store, ids: set<string>) returns (rows: seq<Listed>)
    requires ids <= ValidIds(st)
    ensures RowIds(rows) == ids && AscendingRows(st, rows)
  {
    if ids == {} {
      rows := [];
    } else {
      var id := Dearest(st, ids);
      var before := SortedRows(st, ids - {id});
      var r := RowExists(st, id);
      RowsBelow(st, before, ids, id);
      AppendRow(st, before, r);
      AppendId(before, r);
      rows := before + [r];
    }
  }

  lemma RowsBelow(st: Store, rows: seq<Listed>, ids: set<string>, id: string)
    requires ids <= ValidIds(st) && id in ids && AscendingRows(st, rows) && RowIds(rows) == ids - {id}
    requires forall x :: x in ids ==> st.orders[x].price <= st.orders[id].price
    ensures forall i :: 0 <= i < |rows| ==> rows[i].price <= st.orders[id].price
  {
    RowIdsAre(rows);
    forall i | 0 <= i < |rows| ensures rows[i].price <= st.orders[id].price {
      assert rows[i].orderID in RowIds(rows);
    }
  }

  lemma AnswerExists(st: Store, ids: set<string>) returns (rows: seq<Listed>)
    requires ids <= ValidIds(st)
    ensures CheapestOf(st, ids, rows, QueryLimit)
  {
    var all := SortedRows(st, ids);
    rows := if |all| <= QueryLimit then all else all[..QueryLimit];
    RowIdsAre(all);
    RowIdsAre(rows);
    forall id | id in ids && id !in RowIds(rows)
      ensures |rows| == QueryLimit && forall i :: 0 <= i < |rows| ==> rows[i].price <= st.orders[id].price
    {
      var j :| 0 <= j < |all| && all[j].orderID == id;
      assert RowOf(st, all[j]) && j >= |rows|;
    }
  }

  // ---- cancelling all orders but one ----

  function CancelMove(addr: string, id: string, ans: Answers): Move {
    Announced(CancelTx(addr, id, ans))
  }

  function CancelTx(addr: string, id: string, ans: Answers): Tx {
    Tx(TradeEvent(Cancel, addr, "", id, 0.0, "", ""), ans, ListingType, 0)
  }

  lemma CancelAnswers(st: Store, addr: string, id: string) returns (ans: Answers)
    ensures Answered(Commit(st, CancelTx(addr, id, ans)), CancelTx(addr, id, ans).event, ans)
  {
    var st' := Commit(st, CancelTx(addr, id, Answers([], [])));
    var lowest := AnswerExists(st', ValidIds(st'));
    var user := AnswerExists(st', UserIds(st', "", ""));
    ans := Answers(lowest, user);
  }

  /** The collection's queue and rows without the cancelled orders. */
  ghost predicate Narrowed(start: System, sys: System, addr: string, cancelled: set<string>) {
    && addr in start.infos && addr in sys.infos
    && NarrowedQueue(start.infos[addr].orders, sys.infos[addr], cancelled)
    && NarrowedStore(start.StoreOf(addr), sys.StoreOf(addr), cancelled)
  }

  ghost predicate NarrowedQueue(q: Queue, info: Info, cancelled: set<string>) {
    && info.orders.Agrees() && info.floorPrice == info.orders.GetMin().1
    && forall e :: e in info.orders.pq <==> e in q.pq && e.orderID !in cancelled
  }

  ghost predicate NarrowedStore(st: Store, st': Store, cancelled: set<string>) {
    && st'.items == st.items
    && forall id :: id in st.orders && id !in cancelled ==> id in st'.orders && st'.orders[id] == st.orders[id]
  }

  lemma CancelNarrows(q: Queue, info: Info, cancelled: set<string>, sort: Sorter, tx: Tx, e: Entry)
    requires NarrowedQueue(q, info, cancelled) && tx.event.eventType.Cancel?
    requires e in q.pq && e.orderID !in cancelled && e.orderID != tx.event.orderId
    ensures NarrowedQueue(q, StepInfo(info, sort, tx.event, tx.answers), cancelled + {tx.event.orderId})
  {
    var id := tx.event.orderId;
    var q' := info.orders.Remove(id);
    RemoveKeeps(info.orders, MaxQueueLength, id);
    RemoveDropsOnly(info.orders, id);
    assert e in q'.pq;
    EmptyTogether(q');
  }

  lemma RemoveDropsOnly(q: Queue, id: string)
    requires q.Agrees()
    ensures forall e :: e in q.Remove(id).pq <==> e in q.pq && e.orderID != id
  {
    WithoutIdEntries(q.pq, id);
  }

  lemma CancelOne(start: System, sys: System, addr: string, cancelled: set<string>, sort: Sorter, id: string, ans: Answers, e: Entry)
    requires Narrowed(start, sys, addr, cancelled) && ToLower(addr) == addr
    requires e in start.infos[addr].orders.pq && e.orderID !in cancelled && e.orderID != id
    ensures Narrowed(start, Step(sys, sort, CancelMove(addr, id, ans)), addr, cancelled + {id})
  {
    CancelNarrows(start.infos[addr].orders, sys.infos[addr], cancelled, sort, CancelTx(addr, id, ans), e);
  }

  function IdSet(ids: seq<string>): set<string> {
    if ids == [] then {} else IdSet(ids[..|ids| - 1]) + {ids[|ids| - 1]}
  }

  lemma {:induction false} CancelAll(start: System, sort: Sorter, addr: string, ids: seq<string>, e: Entry) returns (moves: seq<Move>)
    requires Narrowed(start, start, addr, {}) && ToLower(addr) == addr
    requires e in start.infos[addr].orders.pq && e.orderID !in IdSet(ids)
    ensures PossibleRun(start, sort, moves) && FitsRun(start, sort, moves)
    ensures Narrowed(start, Process(start, sort, moves), addr, IdSet(ids))
  {
    if ids == [] {
      moves := [];
    } else {
      var n := |ids| - 1;
      var before := CancelAll(start, sort, addr, ids[..n], e);
      var sys := Process(start, sort, before);
      var ans := CancelAnswers(sys.StoreOf(addr), addr, ids[n]);
      CancelOne(start, sys, addr, IdSet(ids[..n]), sort, ids[n], ans, e);
      CancelFits(sys, addr, ids[n], ans);
      ExtendRun(start, sort, before, CancelMove(addr, ids[n], ans));
      moves := before + [CancelMove(addr, ids[n], ans)];
    }
  }

  lemma CancelFits(sys: System, addr: string, id: string, ans: Answers)
    requires ToLower(addr) == addr
    requires Answered(Commit(sys.StoreOf(addr), CancelTx(addr, id, ans)), CancelTx(addr, id, ans).event, ans)
    ensures Possible(sys, CancelMove(addr, id, ans)) && Fits(sys, CancelMove(addr, id, ans))
  {
  }

  lemma ExtendRun(start: System, sort: Sorter, before: seq<Move>, move: Move)
    requires PossibleRun(start, sort, before) && FitsRun(start, sort, before)
    requires Possible(Process(start, sort, before), move) && Fits(Process(start, sort, before), move)
    ensures PossibleRun(start, sort, before + [move]) && FitsRun(start, sort, before + [move])
    ensures Process(start, sort, before + [move]) == Step(Process(start, sort, before), sort, move)
  {
    assert (before + [move])[..|before|] == before;
  }

  /** The ids of all entries but e. */
  function OtherIds(pq: seq<Entry>, e: Entry): seq<string> {
    if pq == [] then []
    else OtherIds(pq[..|pq| - 1], e) + if pq[|pq| - 1] == e then [] else [pq[|pq| - 1].orderID]
  }

  lemma {:induction false} OtherIdsAre(pq: seq<Entry>, e: Entry)
    ensures forall id :: id in IdSet(OtherIds(pq, e)) <==> exists x :: x in pq && x != e && x.orderID == id
  {
    if pq != [] {
      var n := |pq| - 1;
      OtherIdsAre(pq[..n], e);
      assert pq == pq[..n] + [pq[n]];
      var before := OtherIds(pq[..n], e);
      if pq[n] != e { assert (before + [pq[n].orderID])[..|before|] == before; } else { assert before + [] == before; }
    }
  }

  // ---- the load ----

  /** A load that does not fit leaves a valid listing outside that undercuts a queued one. */
  lemma UnfitUndercuts(st: Store, sort: Sorter, rows: seq<Listed>) returns (e: Entry, id: string)
    requires AllListings(st, rows) && !LoadFits(rows)
    ensures var q := LoadInfo(sort, rows).orders;
      && e in q.pq && id in ValidIds(st) && id !in q.orders && st.orders[id].price < e.priority
  {
    UnfitOutside(st, sort, rows);
    var q := LoadInfo(sort, rows).orders;
    id :| id in ValidIds(st) && id !in q.orders && id !in {} && !AtLeastAll(q, st.orders[id].price);
    e :| e in q.pq && e.priority > st.orders[id].price;
  }

  lemma UnfitOutside(st: Store, sort: Sorter, rows: seq<Listed>)
    requires AllListings(st, rows) && !LoadFits(rows)
    ensures !OutsideDearer(st, LoadInfo(sort, rows).orders, {})
  {
    KeptExactly(sort, rows, Entries(rows));
    AddAllIsFill(sort, rows);
    LoadAgrees(sort, rows);
    LoadKeepsSome(sort, Entries(rows));
    LoadedOutside(st, rows, LoadInfo(sort, rows).orders);
  }

  lemma NarrowedToOne(start: System, sys: System, addr: string, cancelled: set<string>, e: Entry, id: string)
    requires Narrowed(start, sys, addr, cancelled) && e in sys.infos[addr].orders.pq
    requires forall x :: x in sys.infos[addr].orders.pq ==> x == e
    requires id in ValidIds(start.StoreOf(addr)) && id !in cancelled && start.StoreOf(addr).orders[id].price < e.priority
    ensures !FloorsRight(sys)
  {
    var st := sys.StoreOf(addr);
    assert sys.infos[addr].orders.pq[0] in sys.infos[addr].orders.pq;
    assert Valid(start.StoreOf(addr), id) && Valid(st, id);
    assert id in ValidIds(st);
    assert !IsFloor(st, sys.infos[addr].floorPrice);
  }

  lemma UnfitGoesWrong(stores: map<string, Store>, loads: map<string, seq<Listed>>, sort: Sorter, addr: string) returns (moves: seq<Move>)
    requires Loads(stores, loads) && addr in loads && !LoadFits(loads[addr])
    ensures var sys := Startup(stores, loads, sort);
      PossibleRun(sys, sort, moves) && FitsRun(sys, sort, moves) && !FloorsRight(Process(sys, sort, moves))
  {
    var sys := Startup(stores, loads, sort);
    var q := sys.infos[addr].orders;
    var e, id := UnfitUndercuts(sys.StoreOf(addr), sort, loads[addr]);
    LoadAgrees(sort, loads[addr]);
    var ids := OtherIds(q.pq, e);
    OtherIdsAre(q.pq, e);
    assert forall x :: x in q.pq ==> x.orderID in q.orders;
    moves := CancelAll(sys, sort, addr, ids, e);
    NarrowedToOne(sys, Process(sys, sort, moves), addr, IdSet(ids), e, id);
  }

  ghost predicate AlwaysRight(sys: System, sort: Sorter) {
    forall moves :: PossibleRun(sys, sort, moves) && FitsRun(sys, sort, moves) ==> FloorsRight(Process(sys, sort, moves))
  }

  /** Every run of fitting events from a start-up load keeps all cached prices right exactly
      when every load fits. */
  lemma StartupExact(stores: map<string, Store>, loads: map<string, seq<Listed>>, sort: Sorter)
    requires Loads(stores, loads)
    ensures AlwaysRight(Startup(stores, loads, sort), sort) <==> forall addr :: addr in loads ==> LoadFits(loads[addr])
  {
    if forall addr :: addr in loads ==> LoadFits(loads[addr]) {
      FittingLoads(stores, loads, sort);
    } else {
      var addr :| addr in loads && !LoadFits(loads[addr]);
      var moves := UnfitGoesWrong(stores, loads, sort, addr);
    }
  }

  lemma FittingLoads(stores: map<string, Store>, loads: map<string, seq<Listed>>, sort: Sorter)
    requires Loads(stores, loads) && forall addr :: addr in loads ==> LoadFits(loads[addr])
    ensures AlwaysRight(Startup(stores, loads, sort), sort)
  {
    var sys := Startup(stores, loads, sort);
    forall moves | PossibleRun(sys, sort, moves) && FitsRun(sys, sort, moves) ensures FloorsRight(Process(sys, sort, moves)) {
      FloorExactFromStartup(stores, loads, sort, moves);
    }
  }

  // ---- a load of 102 rows ----

  function Name(i: nat): string { seq(i, _ => 'a') }

  function Rows102(): seq<Listed> {
    seq(102, i requires 0 <= i < 102 => Listed(Name(i), if i < 101 then 1.0 else 2.0, "alice", "7", false))
  }

  function Names102(): set<string> { set i | 0 <= i < 102 :: Name(i) }

  function Store102(): Store {
    Store(map id | id in Names102() :: OrderRow(ListingType, StatusActive, 0, if |id| < 101 then 1.0 else 2.0, "alice", "7"),
          map["7" := Item("alice", false)])
  }

  lemma {:induction false} BelowAll(s: seq<Entry>, p: real)
    requires forall i :: 0 <= i < |s| ==> s[i].priority < p
    ensures |Below(s, p)| == |s|
  {
    if s != [] { BelowAll(s[..|s| - 1], p); }
  }

  /** 101 listings at 1, loaded before one at 2. */
  lemma LoadOf102Unfit()
    ensures AllListings(Store102(), Rows102()) && !LoadFits(Rows102())
  {
    var rows, st := Rows102(), Store102();
    forall i, j | 0 <= i < j < 102 ensures Name(i) != Name(j) {
      assert |Name(i)| == i && |Name(j)| == j;
    }
    assert ToLower("7") == "7";
    forall i | 0 <= i < 102 ensures RowOf(st, rows[i]) {
      assert rows[i].orderID == Name(i) && Name(i) in st.orders;
    }
    RowIdsAre(rows);
    forall id ensures id in RowIds(rows) <==> id in ValidIds(st) {
      if id in ValidIds(st) {
        var i :| 0 <= i < 102 && Name(i) == id;
        assert rows[i].orderID == id;
      }
    }
    var es := Entries(rows);
    BelowAll(es[..101], 2.0);
  }
}
