/** What the order manager does with orders that come with an expiry time: at start-up for
    every active order, and later for every new one. An order already past its expiry is
    expired at once, any other goes into the wheel. The clock is read twice for each order. */
module ExpiryStartup {
  import opened TimeWheel
  import opened WheelConservation
  import opened ExpiryQueue
  import opened WheelOrigins
  import opened KeysetScan
  import opened Division
  import FloorPrice

  /** The two clock readings of one order. */
  datatype Clock = Clock(first: int, second: int)

  predicate Past(row: Row, clock: Clock) { row.expireTime < clock.first }

  function Delay(row: Row, clock: Clock): int { row.expireTime - clock.second }

  /** Whether handling the order does not panic. */
  predicate Queueable(w: Wheel, row: Row, clock: Clock)
    requires w.Ready()
  {
    Past(row, clock) || w.Accepts(Delay(row, clock))
  }

  /** The rows that are past, in order. */
  function PastRows(rows: seq<Row>, clocks: seq<Clock>): seq<Row>
    requires |rows| == |clocks|
  {
    if rows == [] then []
    else
      var n := |rows| - 1;
      PastRows(rows[..n], clocks[..n]) + if Past(rows[n], clocks[n]) then [rows[n]] else []
  }

  /** The ids of the rows that are past, in order. */
  function PastIds(rows: seq<Row>, clocks: seq<Clock>): seq<int>
    requires |rows| == |clocks|
  {
    if rows == [] then []
    else
      var n := |rows| - 1;
      PastIds(rows[..n], clocks[..n]) + if Past(rows[n], clocks[n]) then [rows[n].id] else []
  }

  /** The wheel with every other row added. */
  function Loaded(w: Wheel, rows: seq<Row>, clocks: seq<Clock>): (w': Wheel)
    requires |rows| == |clocks| && w.Ready()
    requires forall i :: 0 <= i < |rows| ==> Queueable(w, rows[i], clocks[i])
    ensures w'.Ready() && w'.current == w.current && |w'.slots| == |w.slots|
  {
    if rows == [] then w
    else
      var n := |rows| - 1;
      var before := Loaded(w, rows[..n], clocks[..n]);
      assert Queueable(w, rows[n], clocks[n]);
      if Past(rows[n], clocks[n]) then before
      else before.Add(rows[n].orderID, rows[n].collectionAddr, Delay(rows[n], clocks[n]))
  }

  /** The wheel before and after one order. */
  ghost predicate After(w: Wheel, row: Row, clock: Clock, w': Wheel)
    requires w.Ready()
  {
    if Past(row, clock) then w' == w
    else w.Accepts(Delay(row, clock)) && w' == w.Add(row.orderID, row.collectionAddr, Delay(row, clock))
  }

  lemma LoadStep(w: Wheel, rows: seq<Row>, clocks: seq<Clock>, i: nat, w': Wheel)
    requires |rows| == |clocks| && w.Ready() && i < |rows|
    requires forall j :: 0 <= j <= i ==> Queueable(w, rows[j], clocks[j])
    requires After(Loaded(w, rows[..i], clocks[..i]), rows[i], clocks[i], w')
    ensures w' == Loaded(w, rows[..i + 1], clocks[..i + 1])
  {
    assert rows[..i + 1][..i] == rows[..i] && clocks[..i + 1][..i] == clocks[..i];
    assert Queueable(w, rows[i], clocks[i]);
    var before := Loaded(w, rows[..i], clocks[..i]);
    var after := Loaded(w, rows[..i + 1], clocks[..i + 1]);
    assert if Past(rows[i], clocks[i]) then after == before else after == before.Add(rows[i].orderID, rows[i].collectionAddr, Delay(rows[i], clocks[i]));
    assert w' == after;
  }

  lemma PastStep(rows: seq<Row>, clocks: seq<Clock>, i: nat)
    requires |rows| == |clocks| && i < |rows|
    ensures PastIds(rows[..i + 1], clocks[..i + 1])
         == PastIds(rows[..i], clocks[..i]) + if Past(rows[i], clocks[i]) then [rows[i].id] else []
    ensures PastRows(rows[..i + 1], clocks[..i + 1])
         == PastRows(rows[..i], clocks[..i]) + if Past(rows[i], clocks[i]) then [rows[i]] else []
  {
    assert rows[..i + 1][..i] == rows[..i] && clocks[..i + 1][..i] == clocks[..i];
  }

  /** The first n rows are handled, and the next one, if any, panics. */
  ghost predicate HandledUpTo(w: Wheel, rows: seq<Row>, clocks: seq<Clock>, n: nat)
    requires |rows| == |clocks| && w.Ready()
  {
    && n <= |rows| && (forall i :: 0 <= i < n ==> Queueable(w, rows[i], clocks[i]))
    && (n < |rows| ==> !Queueable(w, rows[n], clocks[n]))
  }

  /** The event sent for an order that has expired. */
  function ExpiredEvent(orderID: string, collectionAddr: string): FloorPrice.TradeEvent {
    FloorPrice.TradeEvent(FloorPrice.Expired, collectionAddr, "", orderID, 0.0, "", "")
  }

  /** The events for the past rows, up to the first without an order id: that one is refused,
      and the load ends with an error. */
  method SendExpired(rows: seq<Row>) returns (events: seq<FloorPrice.TradeEvent>, failed: bool)
    ensures Sent(rows, events) && failed == (|events| < |rows|)
  {
    events := [];
    for i := 0 to |rows|
      invariant |events| == i && forall j :: 0 <= j < i ==> events[j] == ExpiredEvent(rows[j].orderID, rows[j].collectionAddr) && rows[j].orderID != ""
    {
      if rows[i].orderID == "" {
        return events, true;
      }
      events := events + [ExpiredEvent(rows[i].orderID, rows[i].collectionAddr)];
    }
    return events, false;
  }

  /** Events for the rows in turn, all of them or up to one without an order id. */
  ghost predicate Sent(rows: seq<Row>, events: seq<FloorPrice.TradeEvent>) {
    && |events| <= |rows|
    && (forall i :: 0 <= i < |events| ==> events[i] == ExpiredEvent(rows[i].orderID, rows[i].collectionAddr) && rows[i].orderID != "")
    && (|events| < |rows| ==> rows[|events|].orderID == "")
  }

  /** loadOrdersToQueue: returns how many rows it handled, the batches of ids it set to expired,
      the events it sent, and whether it ended with an error. After a panic, from which the
      caller recovers only to return, no id is set and no event sent. */
  method LoadOrdersToQueue(queue: ExpiryQueue, table: seq<Row>, clocks: seq<Clock>)
    returns (handled: nat, batches: seq<seq<int>>, events: seq<FloorPrice.TradeEvent>, failed: bool)
    requires queue.Valid() && Table(table) && |clocks| == |table|
    modifies queue, queue.timeWheel
    ensures queue.Valid() && HandledUpTo(old(queue.model), table, clocks, handled)
    ensures queue.model == Loaded(old(queue.model), table[..handled], clocks[..handled])
    ensures handled < |table| ==> batches == [] && events == [] && !failed
    ensures handled == |table| ==>
      && Concat(batches) == PastIds(table, clocks) && (forall b :: b in batches ==> 0 < |b| <= MaxBatchReqNum)
      && Sent(PastRows(table, clocks), events) && failed == (|events| < |PastRows(table, clocks)|)
  {
    var totalOrders := ScanAll(table, 1000);
    var expiredOrderIDs, expiredOrders;
    handled, expiredOrderIDs, expiredOrders := SplitOrders(queue, totalOrders, clocks);
    if handled < |totalOrders| {
      return handled, [], [], false;
    }
    assert table[..handled] == table && clocks[..handled] == clocks;
    batches := Batches(expiredOrderIDs);
    events, failed := SendExpired(expiredOrders);
  }

  /** What became of an order. */
  datatype Outcome = ExpiredAtOnce | Queued | Panicked

  function OutcomeOf(w: Wheel, row: Row, clock: Clock): Outcome
    requires w.Ready()
  {
    if Past(row, clock) then ExpiredAtOnce else if w.Accepts(Delay(row, clock)) then Queued else Panicked
  }

  /** Expires an order that is past, else adds it to the wheel. */
  method ExpireOrAdd(queue: ExpiryQueue, order: Row, clock: Clock) returns (outcome: Outcome)
    requires queue.Valid()
    modifies queue, queue.timeWheel
    ensures queue.Valid() && queue.timeWheel == old(queue.timeWheel)
    ensures outcome == OutcomeOf(old(queue.model), order, clock)
    ensures if outcome.Panicked? then queue.model == old(queue.model) else After(old(queue.model), order, clock, queue.model)
  {
    if order.expireTime < clock.first {
      return ExpiredAtOnce;
    }
    var delaySeconds := order.expireTime - clock.second;
    ghost var w := queue.model;
    assert delaySeconds == Delay(order, clock);
    var panicked := queue.Add(delaySeconds, order.orderID, order.collectionAddr);
    if panicked {
      return Panicked;
    }
    assert queue.model == w.Add(order.orderID, order.collectionAddr, delaySeconds);
    assert After(w, order, clock, queue.model);
    return Queued;
  }

  /** The loop over the loaded orders. */
  method SplitOrders(queue: ExpiryQueue, orders: seq<Row>, clocks: seq<Clock>)
    returns (handled: nat, expiredOrderIDs: seq<int>, expiredOrders: seq<Row>)
    requires queue.Valid() && |clocks| == |orders|
    modifies queue, queue.timeWheel
    ensures queue.Valid() && HandledUpTo(old(queue.model), orders, clocks, handled)
    ensures queue.model == Loaded(old(queue.model), orders[..handled], clocks[..handled])
    ensures expiredOrderIDs == PastIds(orders[..handled], clocks[..handled])
    ensures expiredOrders == PastRows(orders[..handled], clocks[..handled])
  {
    expiredOrderIDs, expiredOrders := [], [];
    ghost var w := queue.model;
    for i := 0 to |orders|
      invariant queue.Valid() && queue.timeWheel == old(queue.timeWheel)
      invariant SoFar(w, queue.model, orders, clocks, i, expiredOrderIDs, expiredOrders)
    {
      ghost var before := queue.model;
      var outcome := ExpireOrAdd(queue, orders[i], clocks[i]);
      if outcome.Panicked? {
        SameChoice(w, before, orders[i], clocks[i]);
        return i, expiredOrderIDs, expiredOrders;
      }
      OneMore(w, before, queue.model, orders, clocks, i, expiredOrderIDs, expiredOrders);
      if outcome.ExpiredAtOnce? {
        expiredOrderIDs := expiredOrderIDs + [orders[i].id];
        expiredOrders := expiredOrders + [orders[i]];
      }
    }
    return |orders|, expiredOrderIDs, expiredOrders;
  }

  /** The state of the loop before row i. */
  ghost predicate SoFar(w: Wheel, now: Wheel, orders: seq<Row>, clocks: seq<Clock>, i: nat, ids: seq<int>, past: seq<Row>)
    requires |orders| == |clocks| && w.Ready()
  {
    && i <= |orders| && (forall j :: 0 <= j < i ==> Queueable(w, orders[j], clocks[j]))
    && now == Loaded(w, orders[..i], clocks[..i])
    && ids == PastIds(orders[..i], clocks[..i]) && past == PastRows(orders[..i], clocks[..i])
  }

  lemma OneMore(w: Wheel, before: Wheel, now: Wheel, orders: seq<Row>, clocks: seq<Clock>, i: nat, ids: seq<int>, past: seq<Row>)
    requires |orders| == |clocks| && w.Ready() && i < |orders| && SoFar(w, before, orders, clocks, i, ids, past)
    requires !OutcomeOf(before, orders[i], clocks[i]).Panicked? && After(before, orders[i], clocks[i], now)
    ensures var late := Past(orders[i], clocks[i]);
      SoFar(w, now, orders, clocks, i + 1, if late then ids + [orders[i].id] else ids, if late then past + [orders[i]] else past)
  {
    SameChoice(w, before, orders[i], clocks[i]);
    LoadStep(w, orders, clocks, i, now);
    PastStep(orders, clocks, i);
  }

  /** Whether an order can be queued depends only on the wheel's size and index. */
  lemma SameChoice(w: Wheel, w': Wheel, row: Row, clock: Clock)
    requires w.Ready() && w'.Ready() && w'.current == w.current && |w'.slots| == |w.slots|
    ensures Queueable(w, row, clock) <==> Queueable(w', row, clock)
    ensures Queueable(w, row, clock) <==> !OutcomeOf(w', row, clock).Panicked?
  {
  }

  // ---- new listings ----

  datatype ListingInfo = ListingInfo(expireIn: int, orderId: string, collectionAddr: string, tokenID: string,
                                     price: real, maker: string)

  function EventFor(eventType: FloorPrice.EventType, listing: ListingInfo): FloorPrice.TradeEvent {
    var price := if eventType.Listing? then listing.price else 0.0;
    FloorPrice.TradeEvent(eventType, listing.collectionAddr, listing.tokenID, listing.orderId, price, listing.maker, "")
  }

  /** One listing of ListenNewListingLoop, and the events it sends: a listing without an id is
      refused, one that is past is announced as expired, and any other as listed, unless it
      is free, before it is queued. */
  method ListenNewListing(queue: ExpiryQueue, listing: ListingInfo, clock: Clock)
    returns (expired: bool, events: seq<FloorPrice.TradeEvent>)
    requires queue.Valid()
    modifies queue, queue.timeWheel
    ensures queue.Valid()
    ensures expired == (listing.orderId != "" && listing.expireIn < clock.first)
    ensures queue.model ==
      if listing.orderId == "" || expired || !old(queue.model).Accepts(listing.expireIn - clock.second) then old(queue.model)
      else old(queue.model).Add(listing.orderId, listing.collectionAddr, listing.expireIn - clock.second)
    ensures events ==
      if listing.orderId == "" then []
      else if expired then [EventFor(FloorPrice.Expired, listing)]
      else if listing.price == 0.0 then [] else [EventFor(FloorPrice.Listing, listing)]
  {
    if listing.orderId == "" {
      return false, [];
    }
    if listing.expireIn < clock.first {
      return true, [EventFor(FloorPrice.Expired, listing)];
    }
    events := if listing.price == 0.0 then [] else [EventFor(FloorPrice.Listing, listing)];
    var _ := queue.Add(listing.expireIn - clock.second, listing.orderId, listing.collectionAddr);
    return false, events;
  }

  // ---- every order is expired or queued ----

  /** The expired ids are those of the rows whose expiry is before the clock's first reading, each
      once. */
  lemma {:induction false} PastIdsExact(rows: seq<Row>, clocks: seq<Clock>)
    requires |rows| == |clocks| && forall i, j :: 0 <= i < j < |rows| ==> rows[i].id != rows[j].id
    ensures forall i :: 0 <= i < |rows| ==> (rows[i].id in PastIds(rows, clocks) <==> rows[i].expireTime < clocks[i].first)
    ensures forall id :: id in PastIds(rows, clocks) ==> exists i :: 0 <= i < |rows| && rows[i].id == id
    ensures var ids := PastIds(rows, clocks); forall i, j :: 0 <= i < j < |ids| ==> ids[i] != ids[j]
  {
    if rows != [] {
      var n := |rows| - 1;
      PastIdsExact(rows[..n], clocks[..n]);
      assert forall i :: 0 <= i < n ==> rows[..n][i] == rows[i] && clocks[..n][i] == clocks[i];
      assert rows[n].id !in PastIds(rows[..n], clocks[..n]);
    }
  }

  /** And the rows that events are sent for are the rows with those ids, in the same order. */
  lemma {:induction false} PastRowsExact(rows: seq<Row>, clocks: seq<Clock>)
    requires |rows| == |clocks|
    ensures var past, ids := PastRows(rows, clocks), PastIds(rows, clocks);
      && |past| == |ids| && (forall k :: 0 <= k < |past| ==> past[k].id == ids[k] && past[k] in rows)
  {
    if rows != [] {
      var n := |rows| - 1;
      PastRowsExact(rows[..n], clocks[..n]);
      assert rows == rows[..n] + [rows[n]];
    }
  }

  /** An order is handled without a panic exactly when it is past, or the remainder that the wheel
      computes is no negative slot index. */
  lemma QueueableExact(w: Wheel, row: Row, clock: Clock)
    requires w.Ready()
    ensures Queueable(w, row, clock) <==>
      row.expireTime < clock.first || Rem(w.current + row.expireTime - clock.second, w.Size()) >= 0
  {
    AddAsComputed(w, row.expireTime - clock.second);
  }

  function Occurs(rows: seq<Row>, id: string): nat {
    if rows == [] then 0 else Occurs(rows[..|rows| - 1], id) + if rows[|rows| - 1].orderID == id then 1 else 0
  }

  function OccursPast(rows: seq<Row>, clocks: seq<Clock>, id: string): nat
    requires |rows| == |clocks|
  {
    if rows == [] then 0
    else
      var n := |rows| - 1;
      OccursPast(rows[..n], clocks[..n], id) + if Past(rows[n], clocks[n]) && rows[n].orderID == id then 1 else 0
  }

  /** Each loaded order is either expired or in the wheel, as often as it was loaded. */
  lemma {:induction false} ExpiredOrQueued(w: Wheel, rows: seq<Row>, clocks: seq<Clock>, id: string)
    requires w.Valid() && |rows| == |clocks|
    requires forall i :: 0 <= i < |rows| ==> Queueable(w, rows[i], clocks[i])
    ensures Loaded(w, rows, clocks).Valid()
    ensures HeldCount(Loaded(w, rows, clocks).slots, id) + OccursPast(rows, clocks, id) == HeldCount(w.slots, id) + Occurs(rows, id)
  {
    if rows != [] {
      var n := |rows| - 1;
      ExpiredOrQueued(w, rows[..n], clocks[..n], id);
      assert Queueable(w, rows[n], clocks[n]);
      if !Past(rows[n], clocks[n]) {
        var step := AddStep(rows[n].orderID, rows[n].collectionAddr, Delay(rows[n], clocks[n]));
        StepConserves(Loaded(w, rows[..n], clocks[..n]), step, id);
      }
    }
  }

  // ---- when the loaded orders fire ----

  ghost predicate NoneNamed(rows: seq<Row>, id: string) {
    forall j :: 0 <= j < |rows| ==> rows[j].orderID != id
  }

  lemma {:induction false} LoadedAbsent(w: Wheel, rows: seq<Row>, clocks: seq<Clock>, id: string)
    requires w.Valid() && |rows| == |clocks| && Absent(w, id) && NoneNamed(rows, id)
    requires forall i :: 0 <= i < |rows| ==> Queueable(w, rows[i], clocks[i])
    ensures Loaded(w, rows, clocks).Valid() && Absent(Loaded(w, rows, clocks), id)
  {
    if rows != [] {
      var n := |rows| - 1;
      LoadedAbsent(w, rows[..n], clocks[..n], id);
      assert Queueable(w, rows[n], clocks[n]);
      if !Past(rows[n], clocks[n]) {
        var before := Loaded(w, rows[..n], clocks[..n]);
        AddKeepsValid(before, rows[n].orderID, rows[n].collectionAddr, Delay(rows[n], clocks[n]));
        AddCounts(before, rows[n].orderID, rows[n].collectionAddr, Delay(rows[n], clocks[n]), id);
      }
    }
  }

  lemma AbsentNeverFires(w: Wheel, steps: seq<Step>, id: string)
    requires w.Valid() && Safe(w, steps) && Absent(w, id) && NeverAdds(steps, id)
    ensures Firings(w, steps, id, 0) == []
  {
    AbsentIsNeverDue(w, id);
    forall i | 0 <= i < |w.slots| ensures forall t :: t in w.slots[i] ==> t.orderID != id {
      CountZero(w.slots[i], id);
    }
    NeverDueNeverFires(w, steps, id, 0);
    FiringsCarry(w, steps, id, "", 0);
  }

  /** An order loaded after row i, as the first step of the run. */
  lemma OneStepSooner(w: Wheel, step: Step, steps: seq<Step>, id: string)
    requires w.Valid() && Allowed(w, step) && step.AddStep? && step.orderID != id
    requires Safe(Next(w, step), steps) && NeverAdds(steps, id)
    ensures Safe(w, [step] + steps) && NeverAdds([step] + steps, id) && Ticks([step] + steps) == Ticks(steps)
    ensures Firings(w, [step] + steps, id, 0) == Firings(Next(w, step), steps, id, 0)
  {
    assert ([step] + steps)[1..] == steps;
  }

  /** The firings of an order with this expiry time, put in the wheel unless it is past. */
  function DueFirings(size: nat, current: int, row: Row, clock: Clock, ticks: nat): seq<(nat, string)>
    requires size > 0
  {
    var f := FireTick(size, current, row.expireTime - clock.second);
    if row.expireTime >= clock.first && current + row.expireTime - clock.second >= 0 && 0 <= f < ticks
    then [(f, row.collectionAddr)] else []
  }

  ghost predicate LoadedOnce(w: Wheel, rows: seq<Row>, clocks: seq<Clock>, i: nat) {
    && w.Valid() && |rows| == |clocks| && i < |rows| && Absent(w, rows[i].orderID)
    && (forall j :: 0 <= j < |rows| ==> Queueable(w, rows[j], clocks[j]))
    && (forall j :: 0 <= j < |rows| && j != i ==> rows[j].orderID != rows[i].orderID)
  }

  lemma LastLoadedFires(w: Wheel, rows: seq<Row>, clocks: seq<Clock>, steps: seq<Step>)
    requires rows != [] && LoadedOnce(w, rows, clocks, |rows| - 1)
    requires Safe(Loaded(w, rows, clocks), steps) && NeverAdds(steps, rows[|rows| - 1].orderID)
    ensures var last, clock := rows[|rows| - 1], clocks[|rows| - 1];
      Firings(Loaded(w, rows, clocks), steps, last.orderID, 0) == DueFirings(w.Size(), w.current, last, clock, Ticks(steps))
  {
    var n := |rows| - 1;
    var last, before := rows[n], Loaded(w, rows[..n], clocks[..n]);
    assert Queueable(w, last, clocks[n]);
    LoadedAbsent(w, rows[..n], clocks[..n], last.orderID);
    if Past(last, clocks[n]) {
      AbsentNeverFires(before, steps, last.orderID);
    } else {
      AddedFires(before, last, clocks[n], steps);
    }
  }

  lemma AddedFires(w: Wheel, row: Row, clock: Clock, steps: seq<Step>)
    requires w.Valid() && Absent(w, row.orderID) && NeverAdds(steps, row.orderID)
    requires !Past(row, clock) && w.Accepts(Delay(row, clock))
    requires Safe(w.Add(row.orderID, row.collectionAddr, Delay(row, clock)), steps)
    ensures Firings(w.Add(row.orderID, row.collectionAddr, Delay(row, clock)), steps, row.orderID, 0)
      == DueFirings(w.Size(), w.current, row, clock, Ticks(steps))
  {
    var delay := Delay(row, clock);
    FiresWithAddress(w, row.orderID, row.collectionAddr, delay, steps);
    if w.current + delay >= 0 { FireTickExact(w.Size(), w.current, delay); }
  }

  lemma {:induction false} LoadedFiresAsDue(w: Wheel, rows: seq<Row>, clocks: seq<Clock>, i: nat, steps: seq<Step>)
    requires LoadedOnce(w, rows, clocks, i)
    requires Safe(Loaded(w, rows, clocks), steps) && NeverAdds(steps, rows[i].orderID)
    ensures Firings(Loaded(w, rows, clocks), steps, rows[i].orderID, 0)
      == DueFirings(w.Size(), w.current, rows[i], clocks[i], Ticks(steps))
    decreases |rows|
  {
    var n := |rows| - 1;
    if i == n {
      LastLoadedFires(w, rows, clocks, steps);
    } else {
      var steps' := WithoutLast(w, rows, clocks, i, steps);
      LoadedFiresAsDue(w, rows[..n], clocks[..n], i, steps');
    }
  }

  /** A row loaded later only adds a step for another order. */
  lemma WithoutLast(w: Wheel, rows: seq<Row>, clocks: seq<Clock>, i: nat, steps: seq<Step>) returns (steps': seq<Step>)
    requires LoadedOnce(w, rows, clocks, i) && i < |rows| - 1
    requires Safe(Loaded(w, rows, clocks), steps) && NeverAdds(steps, rows[i].orderID)
    ensures var n := |rows| - 1;
      && LoadedOnce(w, rows[..n], clocks[..n], i)
      && Safe(Loaded(w, rows[..n], clocks[..n]), steps') && NeverAdds(steps', rows[i].orderID) && Ticks(steps') == Ticks(steps)
      && Firings(Loaded(w, rows[..n], clocks[..n]), steps', rows[i].orderID, 0) == Firings(Loaded(w, rows, clocks), steps, rows[i].orderID, 0)
  {
    var n := |rows| - 1;
    assert Queueable(w, rows[n], clocks[n]);
    steps' := steps;
    if !Past(rows[n], clocks[n]) {
      ExpiredOrQueued(w, rows[..n], clocks[..n], "");
      var step := AddStep(rows[n].orderID, rows[n].collectionAddr, Delay(rows[n], clocks[n]));
      OneStepSooner(Loaded(w, rows[..n], clocks[..n]), step, steps, rows[i].orderID);
      steps' := [step] + steps;
    }
  }

  /** Every row i of a load, if its order is loaded once: past when the clock was read first, it
      never fires; else it fires once, with its collection address, on the tick that FireTick names
      for its expiry less the second reading; or never, if that lies whole revolutions before the
      start of the wheel. */
  lemma {:induction false} LoadedFires(w: Wheel, rows: seq<Row>, clocks: seq<Clock>, i: nat, steps: seq<Step>)
    requires LoadedOnce(w, rows, clocks, i)
    requires Safe(Loaded(w, rows, clocks), steps) && NeverAdds(steps, rows[i].orderID)
    ensures Firings(Loaded(w, rows, clocks), steps, rows[i].orderID, 0) != [] <==>
      && rows[i].expireTime >= clocks[i].first && w.current + rows[i].expireTime - clocks[i].second >= 0
      && Ticks(steps) > FireTick(w.Size(), w.current, rows[i].expireTime - clocks[i].second)
    ensures forall x :: x in Firings(Loaded(w, rows, clocks), steps, rows[i].orderID, 0) ==>
      x == (FireTick(w.Size(), w.current, rows[i].expireTime - clocks[i].second), rows[i].collectionAddr)
    ensures |Firings(Loaded(w, rows, clocks), steps, rows[i].orderID, 0)| <= 1
  {
    LoadedFiresAsDue(w, rows, clocks, i, steps);
  }

  /** That tick is the second of the expiry exactly when the clock did not pass it between the two
      readings and the revolutions come out exact; when the clock did pass it, the order fires a
      whole revolution late. */
  lemma QueuedFiresOnTime(size: nat, current: int, row: Row, clock: Clock)
    requires size > 0 && 0 <= current <= size && row.expireTime >= clock.first
    requires current + row.expireTime - clock.second >= 0
    ensures var delay := row.expireTime - clock.second;
      && (FireTick(size, current, delay) == delay <==>
           clock.second <= row.expireTime && (delay < size || current + delay % size >= size))
      && (clock.second > row.expireTime ==> FireTick(size, current, delay) == delay + size)
  {
    FireTickExact(size, current, row.expireTime - clock.second);
  }
}
