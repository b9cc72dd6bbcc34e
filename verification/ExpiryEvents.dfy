/** What the floor-price cache makes of the events that expiry handling sends: an expired order
    leaves its collection's queue, and a new listing enters it as announced. */
module ExpiryEvents {
  import opened Text
  import opened PriorityQueue
  import opened QueueLaws
  import opened FloorPrice
  import opened FloorInvariant
  import ExpiryStartup
  import TimeWheel

  /** Only the named collection's record changes: the order is removed from its queue. */
  ghost predicate Drops(infos: map<string, Info>, infos': map<string, Info>, sort: Sorter, ans: Answers,
                        orderID: string, collectionAddr: string) {
    var addr := ToLower(collectionAddr);
    && infos'.Keys == infos.Keys
    && (forall a :: a in infos && a != addr ==> infos'[a] == infos[a])
    && (addr in infos ==>
          && infos'[addr].orders == OrReload(infos[addr].orders.Remove(orderID), sort, ans)
          && infos'[addr].floorPrice == infos'[addr].orders.GetMin().1)
  }

  /** The event for an order that expired at start-up or later. */
  lemma ExpiredEventDrops(infos: map<string, Info>, sort: Sorter, ans: Answers, orderID: string, collectionAddr: string)
    ensures ExpiryStartup.ExpiredEvent(orderID, collectionAddr).eventType == Expired
    ensures Drops(infos, StepInfos(infos, sort, ExpiryStartup.ExpiredEvent(orderID, collectionAddr), ans), sort, ans, orderID, collectionAddr)
  {
  }

  // ---- the orders a tick fires ----

  function AfterOne(infos: map<string, Info>, sort: Sorter, task: TimeWheel.Task, ans: Answers): map<string, Info> {
    StepInfos(infos, sort, ExpiryStartup.ExpiredEvent(task.orderID, task.collectionAddr), ans)
  }

  /** The events for fired orders, one after another, with the answers their queries get. */
  function AfterFired(infos: map<string, Info>, sort: Sorter, fired: seq<TimeWheel.Task>, answers: seq<Answers>): map<string, Info>
    requires |fired| == |answers|
  {
    if fired == [] then infos
    else
      var n := |fired| - 1;
      AfterOne(AfterFired(infos, sort, fired[..n], answers[..n]), sort, fired[n], answers[n])
  }

  ghost predicate AllAgree(infos: map<string, Info>) {
    forall a :: a in infos ==> infos[a].orders.Agrees()
  }

  ghost predicate Gone(infos: map<string, Info>, task: TimeWheel.Task) {
    var addr := ToLower(task.collectionAddr);
    addr in infos ==> task.orderID !in infos[addr].orders.orders && forall e :: e in infos[addr].orders.pq ==> e.orderID != task.orderID
  }

  /** No answer holds a fired order: the status is set before the event is sent. */
  ghost predicate WithoutFired(fired: seq<TimeWheel.Task>, answers: seq<Answers>) {
    forall i, k :: 0 <= i < |fired| && 0 <= k < |answers| ==> fired[i].orderID !in RowIds(answers[k].lowest)
  }

  lemma NotIndexedNotQueued(q: Queue, id: string)
    requires q.Agrees() && id !in q.orders
    ensures forall e :: e in q.pq ==> e.orderID != id
  {
  }

  lemma RemovalDrops(q: Queue, sort: Sorter, ans: Answers, id: string)
    requires q.Agrees() && DistinctRows(ans.lowest) && |ans.lowest| <= QueryLimit
    ensures var q' := OrReload(q.Remove(id), sort, ans);
      && q'.Agrees() && q'.orders.Keys <= q.orders.Keys + RowIds(ans.lowest)
      && (id !in RowIds(ans.lowest) ==> id !in q'.orders)
  {
    RemoveKeeps(q, MaxQueueLength, id);
    AddAllFits(sort, ans.lowest);
  }

  lemma OneFired(infos: map<string, Info>, sort: Sorter, ans: Answers, task: TimeWheel.Task)
    requires AllAgree(infos) && DistinctRows(ans.lowest) && |ans.lowest| <= QueryLimit
    ensures var infos' := AfterOne(infos, sort, task, ans);
      && infos'.Keys == infos.Keys && AllAgree(infos')
      && (forall a :: a in infos ==> infos'[a].orders.orders.Keys <= infos[a].orders.orders.Keys + RowIds(ans.lowest))
      && (task.orderID !in RowIds(ans.lowest) && ToLower(task.collectionAddr) in infos ==>
            task.orderID !in infos'[ToLower(task.collectionAddr)].orders.orders)
  {
    var addr, infos' := ToLower(task.collectionAddr), AfterOne(infos, sort, task, ans);
    ExpiredEventDrops(infos, sort, ans, task.orderID, task.collectionAddr);
    if addr in infos { RemovalDrops(infos[addr].orders, sort, ans, task.orderID); }
    DroppedElsewhere(infos, infos', addr, RowIds(ans.lowest));
  }

  /** What holds of the one changed queue holds of all. */
  lemma DroppedElsewhere(infos: map<string, Info>, infos': map<string, Info>, addr: string, ids: set<string>)
    requires AllAgree(infos) && infos'.Keys == infos.Keys && forall a :: a in infos && a != addr ==> infos'[a] == infos[a]
    requires addr in infos ==> infos'[addr].orders.Agrees() && infos'[addr].orders.orders.Keys <= infos[addr].orders.orders.Keys + ids
    ensures AllAgree(infos') && forall a :: a in infos ==> infos'[a].orders.orders.Keys <= infos[a].orders.orders.Keys + ids
  {
  }

  ghost predicate QueryResults(answers: seq<Answers>) {
    forall k :: 0 <= k < |answers| ==> DistinctRows(answers[k].lowest) && |answers[k].lowest| <= QueryLimit
  }

  lemma {:induction false} StayAgreed(infos: map<string, Info>, sort: Sorter, fired: seq<TimeWheel.Task>, answers: seq<Answers>)
    requires AllAgree(infos) && |fired| == |answers| && QueryResults(answers)
    ensures var infos' := AfterFired(infos, sort, fired, answers); infos'.Keys == infos.Keys && AllAgree(infos')
  {
    if fired != [] {
      var n := |fired| - 1;
      StayAgreed(infos, sort, fired[..n], answers[..n]);
      OneFired(AfterFired(infos, sort, fired[..n], answers[..n]), sort, answers[n], fired[n]);
    }
  }

  ghost predicate Missing(infos: map<string, Info>, task: TimeWheel.Task) {
    var addr := ToLower(task.collectionAddr);
    addr in infos ==> task.orderID !in infos[addr].orders.orders
  }

  lemma OneMoreFired(infos: map<string, Info>, sort: Sorter, ans: Answers, task: TimeWheel.Task, x: TimeWheel.Task)
    requires AllAgree(infos) && DistinctRows(ans.lowest) && |ans.lowest| <= QueryLimit && x.orderID !in RowIds(ans.lowest)
    requires x == task || Missing(infos, x)
    ensures Missing(AfterOne(infos, sort, task, ans), x)
  {
    OneFired(infos, sort, ans, task);
  }

  lemma {:induction false} FiredUnindexed(infos: map<string, Info>, sort: Sorter, fired: seq<TimeWheel.Task>, answers: seq<Answers>,
                                          i: nat)
    requires AllAgree(infos) && i < |fired| == |answers| && QueryResults(answers)
    requires forall k :: 0 <= k < |answers| ==> fired[i].orderID !in RowIds(answers[k].lowest)
    ensures Missing(AfterFired(infos, sort, fired, answers), fired[i])
  {
    var n := |fired| - 1;
    StayAgreed(infos, sort, fired[..n], answers[..n]);
    if i < n {
      assert fired[..n][i] == fired[i] && forall k :: 0 <= k < n ==> answers[..n][k] == answers[k];
      FiredUnindexed(infos, sort, fired[..n], answers[..n], i);
    }
    OneMoreFired(AfterFired(infos, sort, fired[..n], answers[..n]), sort, answers[n], fired[n], fired[i]);
  }

  /** Once the events of all fired orders are handled, no fired order is queued in its collection. */
  lemma FiredOrdersLeave(infos: map<string, Info>, sort: Sorter, fired: seq<TimeWheel.Task>, answers: seq<Answers>)
    requires AllAgree(infos) && |fired| == |answers| && QueryResults(answers) && WithoutFired(fired, answers)
    ensures forall i :: 0 <= i < |fired| ==> Gone(AfterFired(infos, sort, fired, answers), fired[i])
  {
    var infos' := AfterFired(infos, sort, fired, answers);
    StayAgreed(infos, sort, fired, answers);
    forall i | 0 <= i < |fired| ensures Gone(infos', fired[i]) {
      var addr := ToLower(fired[i].collectionAddr);
      FiredUnindexed(infos, sort, fired, answers, i);
      if addr in infos' { NotIndexedNotQueued(infos'[addr].orders, fired[i].orderID); }
    }
  }

  // ---- listings ----

  /** A listing's own event on its collection: expired, it drops the order; announced, it adds the
      order with its price, maker and token, if the queue admits the price. */
  lemma ListingEvents(infos: map<string, Info>, sort: Sorter, ans: Answers, listing: ExpiryStartup.ListingInfo)
    ensures Drops(infos, StepInfos(infos, sort, ExpiryStartup.EventFor(Expired, listing), ans), sort, ans,
                  listing.orderId, listing.collectionAddr)
    ensures var infos' := StepInfos(infos, sort, ExpiryStartup.EventFor(Listing, listing), ans);
      var addr := ToLower(listing.collectionAddr);
      && infos'.Keys == infos.Keys && (forall a :: a in infos && a != addr ==> infos'[a] == infos[a])
      && (addr in infos ==> Enters(infos[addr].orders, infos'[addr].orders, listing))
  {
    var addr := ToLower(listing.collectionAddr);
    if addr in infos {
      AddEntries(infos[addr].orders, MaxQueueLength, sort,
                 MakeEntry(listing.orderId, listing.price, listing.maker, listing.tokenID));
    }
  }

  ghost predicate Enters(q: Queue, q': Queue, listing: ExpiryStartup.ListingInfo) {
    var entry := Entry(listing.orderId, listing.price, ToLower(listing.maker), ToLower(listing.tokenID));
    if q.Len() == 0 || listing.price < q.GetMax().1
    then
      && multiset(q'.pq) == multiset(q.Trim(MaxQueueLength).pq) + multiset{entry}
      && listing.orderId in q'.orders && q'.orders[listing.orderId] == entry
    else q' == q
  }
}
