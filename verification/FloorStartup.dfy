/** The start-up load, which streams every valid listing of a collection into its queue
    without a guard, and the listing loop, which queues bids as listings. */
module FloorStartup {
  import opened Text
  import opened PriorityQueue
  import opened QueueLaws
  import opened TopK
  import opened FloorPrice
  import opened FloorInvariant
  import opened FloorRuns

  /** The start-up query of one collection: every valid listing, once, in any order. */
  ghost predicate AllListings(st: Store, rows: seq<Listed>) {
    DistinctRows(rows) && RowIds(rows) == ValidIds(st) && forall i :: 0 <= i < |rows| ==> RowOf(st, rows[i])
  }

  function Entries(rows: seq<Listed>): (es: seq<Entry>)
    ensures |es| == |rows|
    ensures forall i :: 0 <= i < |rows| ==> es[i] == EntryFor(rows[i])
  {
    seq(|rows|, i requires 0 <= i < |rows| => EntryFor(rows[i]))
  }

  lemma {:induction false} AddAllIsFill(sort: Sorter, rows: seq<Listed>)
    ensures AddAll(EmptyQueue, sort, rows) == Fill(MaxQueueLength, sort, Entries(rows))
  {
    if rows != [] {
      AddAllIsFill(sort, rows[..|rows| - 1]);
      assert Entries(rows)[..|rows| - 1] == Entries(rows[..|rows| - 1]);
    }
  }

  lemma {:induction false} LoadAgrees(sort: Sorter, rows: seq<Listed>)
    requires DistinctRows(rows)
    ensures var q := AddAll(EmptyQueue, sort, rows);
      Shaped(q) && q.orders.Keys <= RowIds(rows)
  {
    if rows == [] {
      assert AtMostOnce(multiset(EmptyQueue.pq));
    } else {
      var n := |rows| - 1;
      LoadAgrees(sort, rows[..n]);
      LastIsNew(rows);
      AddKeepsAgreement(AddAll(EmptyQueue, sort, rows[..n]), MaxQueueLength, sort, EntryFor(rows[n]));
      AddEntries(AddAll(EmptyQueue, sort, rows[..n]), MaxQueueLength, sort, EntryFor(rows[n]));
    }
  }

  lemma EntriesValid(st: Store, rows: seq<Listed>)
    requires forall i :: 0 <= i < |rows| ==> RowOf(st, rows[i])
    ensures forall e :: e in Entries(rows) ==> EntryValid(st, e)
  {
    forall e | e in Entries(rows) ensures EntryValid(st, e) {
      var i :| 0 <= i < |rows| && Entries(rows)[i] == e;
      assert RowOf(st, rows[i]);
    }
  }

  lemma EvictedOnce(pq: seq<Entry>, es: seq<Entry>)
    requires AtMostOnce(multiset(es)) && multiset(pq) <= multiset(es)
    ensures forall e :: e in Evicted(pq, es) <==> e in es && e !in pq
    ensures forall e :: e in pq ==> e in es
  {
    forall e ensures (e in Evicted(pq, es) <==> e in es && e !in pq) && (e in pq ==> e in es) {
      assert multiset(es)[e] <= 1;
      assert (e in es <==> e in multiset(es)) && (e in pq <==> e in multiset(pq));
    }
  }

  /** The valid listings outside the queue are the evicted entries. */
  lemma OutsideIsEvicted(st: Store, rows: seq<Listed>, q: Queue)
    requires AllListings(st, rows) && q.Agrees()
    requires forall e :: e in q.pq ==> e in Entries(rows)
    ensures forall f :: f in Entries(rows) && f !in q.pq ==> f.orderID in ValidIds(st) && f.orderID !in q.orders
    ensures forall id :: id in ValidIds(st) && id !in q.orders ==>
      exists f :: f in Entries(rows) && f !in q.pq && f.orderID == id && f.priority == st.orders[id].price
  {
    EntriesValid(st, rows);
    RowIdsAre(rows);
    forall f | f in Entries(rows) && f !in q.pq ensures f.orderID in ValidIds(st) && f.orderID !in q.orders {
      OneEntryPerRow(rows, q, f);
      assert EntryValid(st, f);
    }
    forall id | id in ValidIds(st) && id !in q.orders
      ensures exists f :: f in Entries(rows) && f !in q.pq && f.orderID == id && f.priority == st.orders[id].price
    {
      var i :| 0 <= i < |rows| && rows[i].orderID == id;
      var f := Entries(rows)[i];
      assert f in Entries(rows) && RowOf(st, rows[i]);
    }
  }

  lemma LoadedOutside(st: Store, rows: seq<Listed>, q: Queue)
    requires AllListings(st, rows) && q.Agrees()
    requires multiset(q.pq) <= multiset(Entries(rows))
    ensures QueuedValid(st, q)
    ensures OutsideDearer(st, q, {}) <==> CheapestKept(q.pq, Entries(rows))
  {
    var es := Entries(rows);
    EntriesOnce(rows);
    EvictedOnce(q.pq, es);
    EntriesValid(st, rows);
    OutsideIsEvicted(st, rows, q);
    if CheapestKept(q.pq, es) {
      forall id | id in ValidIds(st) && id !in q.orders ensures AtLeastAll(q, st.orders[id].price) {
        var f :| f in es && f !in q.pq && f.orderID == id && f.priority == st.orders[id].price;
        assert forall e :: e in q.pq ==> e in multiset(q.pq);
      }
    }
    if OutsideDearer(st, q, {}) {
      forall e, f | e in multiset(q.pq) && f in Evicted(q.pq, es) ensures e.priority <= f.priority {
        assert e in q.pq && EntryValid(st, f);
        assert AtLeastAll(q, st.orders[f.orderID].price);
      }
    }
  }

  lemma OneEntryPerRow(rows: seq<Listed>, q: Queue, f: Entry)
    requires DistinctRows(rows) && q.Agrees()
    requires forall e :: e in q.pq ==> e in Entries(rows)
    requires f in Entries(rows) && f !in q.pq
    ensures f.orderID !in q.orders
  {
    if f.orderID in q.orders {
      var g := q.orders[f.orderID];
      var i :| 0 <= i < |rows| && Entries(rows)[i] == f;
      var j :| 0 <= j < |rows| && Entries(rows)[j] == g;
    }
  }

  lemma {:induction false} EntriesOnce(rows: seq<Listed>)
    requires DistinctRows(rows)
    ensures AtMostOnce(multiset(Entries(rows)))
  {
    if rows != [] {
      var n := |rows| - 1;
      EntriesOnce(rows[..n]);
      assert Entries(rows) == Entries(rows[..n]) + [EntryFor(rows[n])];
      assert EntryFor(rows[n]) !in Entries(rows[..n]);
      PlusOneEntries(Entries(rows[..n]), Entries(rows), EntryFor(rows[n]));
    }
  }

  /** The start-up load always yields the true floor. Its queue is a cheapest part of the
      listings exactly when at most 100 of the earlier rows are cheaper than the last one,
      so for any load of at most 101 listings. */
  lemma LoadExact(st: Store, sort: Sorter, rows: seq<Listed>)
    requires AllListings(st, rows)
    ensures IsFloor(st, LoadInfo(sort, rows).floorPrice)
    ensures CheapestPart(st, LoadInfo(sort, rows).orders) <==>
      rows == [] || FewEarlierCheaper(Entries(rows), MaxQueueLength)
    ensures |rows| <= MaxQueueLength + 1 ==> InfoExact(st, LoadInfo(sort, rows))
  {
    if rows == [] {
      EmptyIsCheapestPart(st);
    } else {
      KeptExactly(sort, rows, Entries(rows));
      LoadedIsCheapest(st, sort, rows);
      AddAllIsFill(sort, rows);
      LoadFloor(st, sort, rows);
    }
  }

  lemma KeptExactly(sort: Sorter, rows: seq<Listed>, es: seq<Entry>)
    requires rows != [] && es == Entries(rows)
    ensures CheapestKept(AddAll(EmptyQueue, sort, rows).pq, es) <==> FewEarlierCheaper(es, MaxQueueLength)
    ensures |rows| <= MaxQueueLength + 1 ==> FewEarlierCheaper(es, MaxQueueLength)
  {
    AddAllIsFill(sort, rows);
    LoadKeepsCheapestExactly(MaxQueueLength, sort, es);
  }

  lemma LoadedIsCheapest(st: Store, sort: Sorter, rows: seq<Listed>)
    requires AllListings(st, rows) && rows != []
    ensures var q := AddAll(EmptyQueue, sort, rows);
      CheapestPart(st, q) <==> CheapestKept(q.pq, Entries(rows))
  {
    AddAllIsFill(sort, rows);
    LoadAgrees(sort, rows);
    LoadKeepsSome(sort, Entries(rows));
    LoadedCheapest(st, rows, AddAll(EmptyQueue, sort, rows));
  }

  lemma LoadKeepsSome(sort: Sorter, es: seq<Entry>)
    requires es != []
    ensures var pq := Fill(MaxQueueLength, sort, es).pq; pq != [] && multiset(pq) <= multiset(es)
  {
    StreamingTopK(MaxQueueLength, sort, es);
  }

  lemma LoadedCheapest(st: Store, rows: seq<Listed>, q: Queue)
    requires AllListings(st, rows) && Shaped(q) && q.pq != []
    requires multiset(q.pq) <= multiset(Entries(rows))
    ensures CheapestPart(st, q) <==> CheapestKept(q.pq, Entries(rows))
  {
    LoadedOutside(st, rows, q);
  }

  lemma LoadFloor(st: Store, sort: Sorter, rows: seq<Listed>)
    requires AllListings(st, rows) && rows != []
    ensures IsFloor(st, Fill(MaxQueueLength, sort, Entries(rows)).GetMin().1)
  {
    var es := Entries(rows);
    FillFindsMinimum(MaxQueueLength, sort, es);
    RowIdsAre(rows);
    var floor := Fill(MaxQueueLength, sort, es).GetMin().1;
    var e :| e in es && floor == e.priority;
    var i :| 0 <= i < |rows| && es[i] == e;
    assert RowOf(st, rows[i]) && rows[i].orderID in ValidIds(st);
    forall id | id in ValidIds(st) ensures floor <= st.orders[id].price {
      var j :| 0 <= j < |rows| && rows[j].orderID == id;
      assert RowOf(st, rows[j]) && es[j] in es;
    }
  }

  /** The state after the start-up load of every tracked collection. */
  function Startup(stores: map<string, Store>, loads: map<string, seq<Listed>>, sort: Sorter): System {
    System(map addr | addr in loads :: LoadInfo(sort, loads[addr]), stores)
  }

  /** The loads read every valid listing of every collection, by lower-case address. */
  ghost predicate Loads(stores: map<string, Store>, loads: map<string, seq<Listed>>) {
    && (forall addr :: addr in stores ==> WellFormed(stores[addr]))
    && (forall addr :: addr in loads ==> ToLower(addr) == addr && AllListings(System(map[], stores).StoreOf(addr), loads[addr]))
  }

  /** At most maxLen of a load's earlier rows are cheaper than its last. */
  ghost predicate LoadFits(rows: seq<Listed>) {
    rows == [] || FewEarlierCheaper(Entries(rows), MaxQueueLength)
  }

  ghost predicate FloorsRight(sys: System) {
    forall addr :: addr in sys.infos ==> IsFloor(sys.StoreOf(addr), sys.infos[addr].floorPrice)
  }

  /** A run may start from the start-up load, provided every load fits. */
  lemma FloorExactFromStartup(stores: map<string, Store>, loads: map<string, seq<Listed>>, sort: Sorter, moves: seq<Move>)
    requires Loads(stores, loads) && forall addr :: addr in loads ==> LoadFits(loads[addr])
    requires var sys := Startup(stores, loads, sort); PossibleRun(sys, sort, moves) && FitsRun(sys, sort, moves)
    ensures FloorsRight(Process(Startup(stores, loads, sort), sort, moves))
  {
    StartupInvariant(stores, loads, sort);
    FloorAlwaysExact(Startup(stores, loads, sort), sort, moves);
  }

  lemma StartupInvariant(stores: map<string, Store>, loads: map<string, seq<Listed>>, sort: Sorter)
    requires Loads(stores, loads) && forall addr :: addr in loads ==> LoadFits(loads[addr])
    ensures Invariant(Startup(stores, loads, sort))
  {
    var sys := Startup(stores, loads, sort);
    forall addr | addr in sys.infos ensures InfoExact(sys.StoreOf(addr), sys.infos[addr]) {
      LoadExact(sys.StoreOf(addr), sort, loads[addr]);
    }
  }

  /** A bid that the listing loop queues as a Listing, as it does with every new order, sets
      the floor of a collection without listings to the bid's price. */
  lemma BidBecomesFloor(sort: Sorter, tx: Tx)
    requires tx.event.eventType.Listing? && tx.orderType != ListingType && tx.event.price > 0.0
    ensures !IsFloor(Commit(EmptyStore, tx), StepInfo(Info(0.0, EmptyQueue), sort, tx.event, tx.answers).floorPrice)
  {
    var st := Commit(EmptyStore, tx);
    assert ValidIds(st) == {};
    var e := MakeEntry(tx.event.orderId, tx.event.price, tx.event.sender, tx.event.tokenID);
    AddEntries(EmptyQueue, MaxQueueLength, sort, e);
    var q := EmptyQueue.Add(MaxQueueLength, sort, e);
    assert q.pq[0] in multiset(q.pq);
  }
}
