/** The invariant: the cached queue is a cheapest part of the valid listings in the tables. What
    adding, removing and reloading do to it. */
module FloorInvariant {
  import opened Text
  import opened PriorityQueue
  import opened QueueLaws
  import opened FloorPrice

  // ---- what holds between the tables and a cached queue ----

  /** A queued entry repeats the row of its order. */
  ghost predicate EntryRecorded(st: Store, e: Entry) {
    && e.orderID in st.orders
    && var row := st.orders[e.orderID];
       e == MakeEntry(e.orderID, row.price, row.maker, row.tokenId)
  }

  /** A queued entry stands for a valid order and repeats its row. */
  ghost predicate EntryValid(st: Store, e: Entry) {
    Valid(st, e.orderID) && EntryRecorded(st, e)
  }

  ghost predicate QueuedRecorded(st: Store, q: Queue) {
    forall e :: e in q.pq ==> EntryRecorded(st, e)
  }

  ghost predicate QueuedValid(st: Store, q: Queue) {
    forall e :: e in q.pq ==> EntryValid(st, e)
  }

  /** No queued entry is dearer than price. */
  ghost predicate AtLeastAll(q: Queue, price: real) {
    forall e :: e in q.pq ==> e.priority <= price
  }

  ghost predicate Shaped(q: Queue) {
    q.Agrees() && q.Sorted() && Bounded(q, MaxQueueLength)
  }

  /** Valid orders outside the queue, other than those in pending, cost at least its maximum. */
  ghost predicate OutsideDearer(st: Store, q: Queue, pending: set<string>) {
    forall id :: id in ValidIds(st) && id !in q.orders && id !in pending ==> AtLeastAll(q, st.orders[id].price)
  }

  /** As far as the orders outside the queue go, the queue is settled. */
  ghost predicate SettledBut(st: Store, q: Queue, pending: set<string>) {
    Shaped(q) && QueuedRecorded(st, q) && OutsideDearer(st, q, pending)
  }

  ghost predicate CheapestBut(st: Store, q: Queue, pending: set<string>) {
    Shaped(q) && QueuedValid(st, q) && OutsideDearer(st, q, pending)
  }

  /** The invariant: a cheapest part of the valid listings, empty only if there are none. */
  ghost predicate CheapestPart(st: Store, q: Queue) {
    CheapestBut(st, q, {}) && (q.pq == [] ==> ValidIds(st) == {})
  }

  /** Every order's token has an item row, and no order has a negative price. */
  ghost predicate WellFormed(st: Store) {
    forall id :: id in st.orders ==> ToLower(st.orders[id].tokenId) in st.items && st.orders[id].price >= 0.0
  }

  /** The true floor: the least price over the valid listings, 0 when there are none. */
  ghost predicate IsFloor(st: Store, price: real) {
    if ValidIds(st) == {} then price == 0.0
    else
      && (exists id :: id in ValidIds(st) && st.orders[id].price == price)
      && (forall id :: id in ValidIds(st) ==> price <= st.orders[id].price)
  }

  /** The queue fits, and the cached price is its minimum. */
  ghost predicate InfoExact(st: Store, info: Info) {
    CheapestPart(st, info.orders) && info.floorPrice == info.orders.GetMin().1
  }

  lemma EmptyTogether(q: Queue)
    requires q.Agrees()
    ensures q.Len() == 0 <==> q.pq == []
  {
    if q.pq != [] {
      assert q.pq[0].orderID in q.orders;
    }
    if q.Len() != 0 {
      var id :| id in q.orders;
      assert q.orders[id] in q.pq;
    }
  }

  lemma MaxIsDearest(q: Queue)
    requires q.Sorted() && q.pq != []
    ensures AtLeastAll(q, q.GetMax().1)
    ensures exists e :: e in q.pq && e.priority == q.GetMax().1
  {
    forall e | e in q.pq ensures e.priority <= q.GetMax().1 {
      var i :| 0 <= i < |q.pq| && q.pq[i] == e;
      assert Priority(q.pq[i]) <= Priority(q.pq[|q.pq| - 1]);
    }
    assert q.pq[|q.pq| - 1] in q.pq;
  }

  lemma MinIsCheapest(q: Queue, e: Entry)
    requires q.Sorted() && e in q.pq
    ensures q.GetMin().1 <= e.priority
  {
    var i :| 0 <= i < |q.pq| && q.pq[i] == e;
    assert Priority(q.pq[0]) <= Priority(q.pq[i]);
  }

  /** Reading the floor off the queue is reading it off the tables. */
  lemma CheapestPartGivesFloor(st: Store, q: Queue)
    requires CheapestPart(st, q)
    ensures IsFloor(st, q.GetMin().1)
  {
    if q.pq != [] {
      var e := q.pq[0];
      assert EntryValid(st, e);
      assert e.orderID in ValidIds(st) && st.orders[e.orderID].price == q.GetMin().1;
      forall id | id in ValidIds(st) ensures q.GetMin().1 <= st.orders[id].price {
        if id in q.orders {
          assert EntryValid(st, q.orders[id]);
          MinIsCheapest(q, q.orders[id]);
        } else {
          assert AtLeastAll(q, st.orders[id].price);
        }
      }
    }
  }

  // ---- adding one order ----

  /** After Add, whatever was in the queue or outside of it and at least as dear as
      everything in it, is in the queue or at least as dear as everything in it. */
  lemma AddCheaper(q: Queue, sort: Sorter, e: Entry)
    requires Shaped(q) && e.orderID !in q.orders
    requires q.pq != [] && e.priority < q.GetMax().1
    ensures var q' := q.Add(MaxQueueLength, sort, e);
      && Shaped(q') && q'.pq != []
      && (forall x :: x in q'.pq ==> x in q.pq || x == e)
      && e.orderID in q'.orders
      && (forall id :: id in q'.orders ==> id in q.orders || id == e.orderID)
      && (forall id :: id in q.orders && id !in q'.orders ==> AtLeastAll(q', q.orders[id].priority))
      && (forall p :: AtLeastAll(q, p) ==> AtLeastAll(q', p))
  {
    var q' := q.Add(MaxQueueLength, sort, e);
    AddKeepsAgreement(q, MaxQueueLength, sort, e);
    AddEntries(q, MaxQueueLength, sort, e);
    PlusOneEntries(q.Trim(MaxQueueLength).pq, q'.pq, e);
    MaxIsDearest(q);
    assert forall x :: x in q.Trim(MaxQueueLength).pq ==> x in q.pq;
    assert AtLeastAll(q', q.GetMax().1);
  }

  /** Admitting an order when it is cheaper than the maximum settles it either way. */
  lemma AdmitKeeps(st: Store, q: Queue, sort: Sorter, pending: set<string>, e: Entry)
    requires SettledBut(st, q, pending) && q.pq != []
    requires EntryRecorded(st, e) && e.orderID !in q.orders
    ensures var q' := if q.GetMax().1 > e.priority then q.Add(MaxQueueLength, sort, e) else q;
      && SettledBut(st, q', pending - {e.orderID}) && q'.pq != []
      && q'.orders.Keys <= q.orders.Keys + {e.orderID}
  {
    MaxIsDearest(q);
    if q.GetMax().1 > e.priority {
      AddCheaper(q, sort, e);
      AddedOutside(st, q, q.Add(MaxQueueLength, sort, e), pending, e);
    }
  }

  lemma AddedOutside(st: Store, q: Queue, q': Queue, pending: set<string>, e: Entry)
    requires q.Agrees() && QueuedRecorded(st, q) && OutsideDearer(st, q, pending)
    requires e.orderID in q'.orders
    requires forall id :: id in q.orders && id !in q'.orders ==> AtLeastAll(q', q.orders[id].priority)
    requires forall p :: AtLeastAll(q, p) ==> AtLeastAll(q', p)
    ensures OutsideDearer(st, q', pending - {e.orderID})
  {
    forall id | id in ValidIds(st) && id !in q'.orders && id !in pending - {e.orderID}
      ensures AtLeastAll(q', st.orders[id].price)
    {
      if id in q.orders {
        assert EntryRecorded(st, q.orders[id]);
      } else {
        assert AtLeastAll(q, st.orders[id].price);
      }
    }
  }

  /** The rows of one query: distinct ids. */
  ghost predicate DistinctRows(rows: seq<Listed>) {
    forall i, j :: 0 <= i < j < |rows| ==> rows[i].orderID != rows[j].orderID
  }

  ghost predicate OpenRows(st: Store, rows: seq<Listed>) {
    forall i :: 0 <= i < |rows| ==> RowOf(st, rows[i]) && !rows[i].isOpenseaBanned
  }

  lemma {:induction false} RowIdsAre(rows: seq<Listed>)
    ensures forall id :: id in RowIds(rows) <==> exists i :: 0 <= i < |rows| && rows[i].orderID == id
  {
    if rows != [] {
      var n := |rows| - 1;
      RowIdsAre(rows[..n]);
      forall id ensures id in RowIds(rows) <==> exists i :: 0 <= i < |rows| && rows[i].orderID == id {
        if id in RowIds(rows[..n]) {
          var i :| 0 <= i < n && rows[..n][i].orderID == id;
          assert rows[i].orderID == id;
        }
        if i :| 0 <= i < |rows| && rows[i].orderID == id {
          if i < n { assert rows[..n][i].orderID == id; }
        }
      }
    }
  }

  lemma LastIsNew(rows: seq<Listed>)
    requires rows != [] && DistinctRows(rows)
    ensures rows[|rows| - 1].orderID !in RowIds(rows[..|rows| - 1])
  {
    RowIdsAre(rows[..|rows| - 1]);
  }

  ghost predicate FromRow(rows: seq<Listed>, e: Entry) {
    exists i :: 0 <= i < |rows| && e == EntryFor(rows[i])
  }

  lemma FromRowLast(rows: seq<Listed>, e: Entry)
    requires rows != []
    requires FromRow(rows[..|rows| - 1], e) || e == EntryFor(rows[|rows| - 1])
    ensures FromRow(rows, e)
  {
    if FromRow(rows[..|rows| - 1], e) {
      var i :| 0 <= i < |rows| - 1 && e == EntryFor(rows[..|rows| - 1][i]);
      assert e == EntryFor(rows[i]);
    }
  }

  /** Offering all of a user's orders leaves none of them pending. */
  lemma {:induction false} OfferAllKeeps(st: Store, q: Queue, sort: Sorter, pending: set<string>, rows: seq<Listed>)
    requires SettledBut(st, q, pending) && q.pq != []
    requires DistinctRows(rows) && OpenRows(st, rows) && RowIds(rows) !! q.orders.Keys
    ensures var q' := OfferAll(q, sort, rows);
      && SettledBut(st, q', pending - RowIds(rows)) && q'.pq != []
      && q'.orders.Keys <= q.orders.Keys + RowIds(rows)
  {
    if rows != [] {
      var n := |rows| - 1;
      var before := OfferAll(q, sort, rows[..n]);
      OfferAllKeeps(st, q, sort, pending, rows[..n]);
      LastIsNew(rows);
      assert rows[n].orderID !in before.orders;
      AdmitKeeps(st, before, sort, pending - RowIds(rows[..n]), EntryFor(rows[n]));
      assert pending - RowIds(rows) == pending - RowIds(rows[..n]) - {rows[n].orderID};
    } else {
      assert pending - RowIds(rows) == pending;
    }
  }

  /** Everything queued after the offers was queued before or offered. */
  lemma {:induction false} OfferedFrom(q: Queue, sort: Sorter, rows: seq<Listed>)
    ensures forall x :: x in OfferAll(q, sort, rows).pq ==> x in q.pq || FromRow(rows, x)
  {
    if rows != [] {
      var n := |rows| - 1;
      var before := OfferAll(q, sort, rows[..n]);
      OfferedFrom(q, sort, rows[..n]);
      AddEntries(before, MaxQueueLength, sort, EntryFor(rows[n]));
      PlusOneEntries(before.Trim(MaxQueueLength).pq, before.Add(MaxQueueLength, sort, EntryFor(rows[n])).pq, EntryFor(rows[n]));
      forall x | x in OfferAll(q, sort, rows).pq ensures x in q.pq || FromRow(rows, x) {
        if x !in q.pq { FromRowLast(rows, x); }
      }
    }
  }

  /** Into an empty queue nothing is offered successfully: its maximum reads as 0. */
  lemma {:induction false} OfferAllToEmpty(st: Store, q: Queue, sort: Sorter, rows: seq<Listed>)
    requires q.pq == [] && WellFormed(st)
    requires forall i :: 0 <= i < |rows| ==> RowOf(st, rows[i])
    ensures OfferAll(q, sort, rows) == q
  {
    if rows != [] {
      OfferAllToEmpty(st, q, sort, rows[..|rows| - 1]);
      assert RowOf(st, rows[|rows| - 1]);
    }
  }

  // ---- reloading ----

  lemma AddWithRoom(q: Queue, sort: Sorter, e: Entry)
    requires Shaped(q) && |q.pq| <= MaxQueueLength && e.orderID !in q.orders
    ensures var q' := q.Add(MaxQueueLength, sort, e);
      && Shaped(q') && |q'.pq| == |q.pq| + 1
      && (forall x :: x in q'.pq <==> x in q.pq || x == e)
      && q'.orders.Keys == q.orders.Keys + {e.orderID}
  {
    AddKeepsAgreement(q, MaxQueueLength, sort, e);
    AddEntries(q, MaxQueueLength, sort, e);
    PlusOneEntries(q.pq, q.Add(MaxQueueLength, sort, e).pq, e);
  }

  /** Up to maxLen + 1 distinct orders all stay in the queue. */
  lemma {:induction false} AddAllFits(sort: Sorter, rows: seq<Listed>)
    requires DistinctRows(rows) && |rows| <= MaxQueueLength + 1
    ensures var q := AddAll(EmptyQueue, sort, rows);
      && Shaped(q) && |q.pq| == |rows| && q.orders.Keys == RowIds(rows)
      && (forall e :: e in q.pq ==> FromRow(rows, e))
  {
    if rows == [] {
      assert AtMostOnce(multiset(EmptyQueue.pq));
    } else {
      var n := |rows| - 1;
      var q := AddAll(EmptyQueue, sort, rows[..n]);
      AddAllFits(sort, rows[..n]);
      LastIsNew(rows);
      AddWithRoom(q, sort, EntryFor(rows[n]));
      forall e | e in AddAll(EmptyQueue, sort, rows).pq ensures FromRow(rows, e) {
        FromRowLast(rows, e);
      }
    }
  }

  lemma ReloadGivesCheapestPart(st: Store, sort: Sorter, rows: seq<Listed>)
    requires CheapestOf(st, ValidIds(st), rows, QueryLimit)
    ensures CheapestPart(st, AddAll(EmptyQueue, sort, rows))
  {
    var q := AddAll(EmptyQueue, sort, rows);
    AddAllFits(sort, rows);
    forall e | e in q.pq ensures EntryValid(st, e) {
      var i :| 0 <= i < |rows| && e == EntryFor(rows[i]);
      assert RowOf(st, rows[i]);
    }
    forall id | id in ValidIds(st) && id !in q.orders
      ensures AtLeastAll(q, st.orders[id].price) && q.pq != []
    {
      forall e | e in q.pq ensures e.priority <= st.orders[id].price {
        var i :| 0 <= i < |rows| && e == EntryFor(rows[i]);
      }
    }
    EmptyTogether(q);
  }

  // ---- one event ----

  /** The rows a user query returns are all the user's valid orders, if these fit. */
  lemma AllReturned(st: Store, ids: set<string>, rows: seq<Listed>)
    requires ids <= ValidIds(st) && CheapestOf(st, ids, rows, QueryLimit)
    requires |ids| <= QueryLimit
    ensures RowIds(rows) == ids
  {
    RowIdsAre(rows);
    RowIdsSize(rows);
    var got := RowIds(rows);
    assert got <= ids;
    if got != ids {
      var id :| id in ids && id !in got;
      assert |rows| == QueryLimit;
      SmallerSubset(got, ids, id);
    }
  }

  lemma SmallerSubset(a: set<string>, b: set<string>, id: string)
    requires a <= b && id in b && id !in a
    ensures |a| < |b|
  {
    SubsetSize(a + {id}, b);
  }

  lemma {:induction false} RowIdsSize(rows: seq<Listed>)
    requires DistinctRows(rows)
    ensures |RowIds(rows)| == |rows|
  {
    if rows != [] {
      RowIdsSize(rows[..|rows| - 1]);
      LastIsNew(rows);
    }
  }

  /** Reloading an empty queue restores the invariant; otherwise there is nothing to do. */
  lemma OrReloadKeeps(st: Store, q: Queue, sort: Sorter, ans: Answers)
    requires CheapestOf(st, ValidIds(st), ans.lowest, QueryLimit)
    requires q.Agrees() && (q.pq != [] ==> CheapestBut(st, q, {}))
    ensures CheapestPart(st, OrReload(q, sort, ans))
  {
    EmptyTogether(q);
    if q.pq == [] { ReloadGivesCheapestPart(st, sort, ans.lowest); }
  }

  lemma QueuedInStore(st: Store, q: Queue)
    requires q.Indexed() && QueuedValid(st, q)
    ensures forall id :: id in q.orders ==> id in ValidIds(st) && st.orders[id].price == q.orders[id].priority
  {
    forall id | id in q.orders ensures id in ValidIds(st) && st.orders[id].price == q.orders[id].priority {
      assert EntryValid(st, q.orders[id]);
    }
  }

  // ---- Cancel, Expired and the sold order of a Buy ----

  /** Giving one order a status that is not active takes it out of the valid ones. */
  lemma RetireKeeps(st: Store, st': Store, q: Queue, id: string, status: int)
    requires CheapestBut(st, q, {}) && status != StatusActive
    requires st' == st.(orders := SetStatus(st.orders, id, status))
    ensures CheapestBut(st', q.Remove(id), {})
    ensures ValidIds(st') == ValidIds(st) - {id}
  {
    forall x ensures Valid(st', x) <==> Valid(st, x) && x != id {}
    RemoveKeeps(q, MaxQueueLength, id);
    RemoveDrops(q, id);
    RetireQueue(st, st', q, q.Remove(id), id);
  }

  lemma RemoveDrops(q: Queue, id: string)
    requires q.Agrees()
    ensures forall e :: e in q.Remove(id).pq ==> e in q.pq && e.orderID != id
    ensures q.Remove(id).orders.Keys == q.orders.Keys - {id}
  {
    WithoutIdEntries(q.pq, id);
  }

  lemma RetireQueue(st: Store, st': Store, q: Queue, q': Queue, id: string)
    requires QueuedValid(st, q) && OutsideDearer(st, q, {})
    requires ValidIds(st') == ValidIds(st) - {id} && st.orders.Keys == st'.orders.Keys
    requires forall x :: x in st.orders && x != id ==> st'.orders[x] == st.orders[x]
    requires (forall e :: e in q'.pq ==> e in q.pq && e.orderID != id) && q'.orders.Keys == q.orders.Keys - {id}
    ensures QueuedValid(st', q') && OutsideDearer(st', q', {})
  {
    forall e | e in q'.pq ensures EntryValid(st', e) {
      assert EntryValid(st, e);
      assert e.orderID in ValidIds(st');
    }
    forall x | x in ValidIds(st') && x !in q'.orders ensures AtLeastAll(q', st'.orders[x].price) {
      assert AtLeastAll(q, st.orders[x].price);
    }
  }

  // ---- ImportCollection ----

  /** A newly imported collection starts from an empty queue without a reload: that is
      exact just when the tables hold no valid listing for it. */
  lemma EmptyIsCheapestPart(st: Store)
    ensures CheapestPart(st, EmptyQueue) <==> ValidIds(st) == {}
  {
    assert AtMostOnce(multiset(EmptyQueue.pq));
  }

  /** The price cached for a new import is 0: right just when there is no valid listing, or
      one that costs nothing. */
  lemma ZeroIsFloor(st: Store)
    requires WellFormed(st)
    ensures IsFloor(st, 0.0) <==> ValidIds(st) == {} || exists id :: id in ValidIds(st) && st.orders[id].price == 0.0
  {
  }
}
