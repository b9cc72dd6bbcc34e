/** A sale that no event announces, and how an update of the collection recovers from it. */
module FloorSales {
  import opened Text
  import opened PriorityQueue
  import opened FloorPrice
  import opened FloorInvariant

  /** A sale takes one order out of the valid ones. */
  lemma SaleRetires(st: Store, id: string)
    ensures ValidIds(SoldStore(st, id)) == ValidIds(st) - {id}
    ensures forall x :: x in ValidIds(st) && x != id ==> x in SoldStore(st, id).orders && SoldStore(st, id).orders[x] == st.orders[x]
  {
    forall x ensures Valid(SoldStore(st, id), x) <==> Valid(st, x) && x != id {}
  }

  /** The queue stays a cheapest part exactly when the order sold is not queued. */
  lemma SilentSaleExact(st: Store, q: Queue, id: string)
    requires CheapestPart(st, q)
    ensures CheapestPart(SoldStore(st, id), q) <==> id !in q.orders
  {
    SaleRetires(st, id);
    if id in q.orders {
      assert q.orders[id] in q.pq && !EntryValid(SoldStore(st, id), q.orders[id]);
    } else {
      UnqueuedSale(st, q, id);
    }
  }

  lemma UnqueuedSale(st: Store, q: Queue, id: string)
    requires CheapestPart(st, q) && id !in q.orders
    ensures CheapestPart(SoldStore(st, id), q)
  {
    var st' := SoldStore(st, id);
    SaleRetires(st, id);
    forall e | e in q.pq ensures EntryValid(st', e) {
      assert EntryValid(st, e) && e.orderID in q.orders;
      assert e.orderID in ValidIds(st) && e.orderID in ValidIds(st');
    }
    forall x | x in ValidIds(st') && x !in q.orders ensures AtLeastAll(q, st'.orders[x].price) {
      assert AtLeastAll(q, st.orders[x].price);
    }
  }

  /** The cached price stays right exactly when the order was not valid, or another valid order
      costs as much as the floor, or it was the only one and free. */
  lemma SilentPriceExact(st: Store, q: Queue, id: string)
    requires CheapestPart(st, q)
    ensures IsFloor(SoldStore(st, id), q.GetMin().1) <==>
      || id !in ValidIds(st)
      || (exists x :: x in ValidIds(st) && x != id && st.orders[x].price == q.GetMin().1)
      || (ValidIds(st) == {id} && q.GetMin().1 == 0.0)
  {
    SaleRetires(st, id);
    CheapestPartGivesFloor(st, q);
    FloorWithout(st, SoldStore(st, id), q.GetMin().1, id);
  }

  lemma FloorWithout(st: Store, st': Store, floor: real, id: string)
    requires IsFloor(st, floor) && ValidIds(st') == ValidIds(st) - {id}
    requires forall x :: x in ValidIds(st) && x != id ==> x in st'.orders && st'.orders[x].price == st.orders[x].price
    ensures IsFloor(st', floor) <==>
      || id !in ValidIds(st)
      || (exists x :: x in ValidIds(st) && x != id && st.orders[x].price == floor)
      || (ValidIds(st) == {id} && floor == 0.0)
  {
    if x :| x in ValidIds(st) && x != id && st.orders[x].price == floor {
      assert x in ValidIds(st');
    }
    if id !in ValidIds(st) {
      assert ValidIds(st') == ValidIds(st);
    }
  }

  // ---- recovery ----

  /** Whatever is queued, as long as the cached price is the queue's minimum: after an update the
      price is right exactly when the update names another price than that, or the minimum is
      right. */
  lemma UpdateExact(st: Store, info: Info, sort: Sorter, ev: TradeEvent, ans: Answers)
    requires ev.eventType.UpdateCollection? && info.floorPrice == info.orders.GetMin().1
    requires CheapestOf(st, ValidIds(st), ans.lowest, QueryLimit)
    ensures IsFloor(st, StepInfo(info, sort, ev, ans).floorPrice) <==>
      ev.price != info.orders.GetMin().1 || IsFloor(st, info.orders.GetMin().1)
  {
    if ev.price != info.orders.GetMin().1 {
      ReloadGivesCheapestPart(st, sort, ans.lowest);
      CheapestPartGivesFloor(st, AddAll(EmptyQueue, sort, ans.lowest));
    }
  }

  /** So an update with the true floor leaves the price right. */
  lemma UpdateRecovers(st: Store, info: Info, sort: Sorter, ev: TradeEvent, ans: Answers)
    requires ev.eventType.UpdateCollection? && info.floorPrice == info.orders.GetMin().1
    requires CheapestOf(st, ValidIds(st), ans.lowest, QueryLimit) && IsFloor(st, ev.price)
    ensures IsFloor(st, StepInfo(info, sort, ev, ans).floorPrice)
  {
    UpdateExact(st, info, sort, ev, ans);
  }

  // ---- at concrete tables ----

  const TwoListings := Store(map["1" := OrderRow(ListingType, StatusActive, 0, 5.0, "alice", "7"),
                                 "2" := OrderRow(ListingType, StatusActive, 0, 9.0, "bob", "8")],
                             map["7" := Item("alice", false), "8" := Item("bob", false)])

  lemma BothValid()
    ensures ValidIds(TwoListings) == {"1", "2"} && "1" != "2"
  {
    assert "1" != "2" by { assert "1"[0] != "2"[0]; }
    assert ToLower("7") == "7" && ToLower("8") == "8" && "7"[0] != "8"[0];
    assert Valid(TwoListings, "1") && Valid(TwoListings, "2");
  }

  /** Of two listings at 5 and 9 the first is bought directly: the cached price stays 5. */
  lemma SilentSaleBreaks(q: Queue)
    requires CheapestPart(TwoListings, q)
    ensures q.GetMin().1 == 5.0 && !IsFloor(SoldStore(TwoListings, "1"), 5.0)
  {
    BothValid();
    CheapestPartGivesFloor(TwoListings, q);
    SilentPriceExact(TwoListings, q, "1");
  }
}
