/** A Listing event: exactly when the queue stays a cheapest part of the valid listings, and
    exactly when the cached price stays right. The tables hand the token to the maker of a new
    sell order, which can end the validity of queued orders and begin that of others. */
module FloorListing {
  import opened Text
  import opened PriorityQueue
  import opened QueueLaws
  import opened FloorPrice
  import opened FloorInvariant

  // ---- what can be asked before the event ----

  /** The sell order is not the recorded owner's. */
  predicate NewOwner(st: Store, tx: Tx) {
    var token := ToLower(tx.event.tokenID);
    tx.orderType == ListingType && token in st.items && ToLower(st.items[token].owner) != ToLower(tx.event.sender)
  }

  /** The order is a sell order, and not one of the market that banned the token. */
  predicate Listable(st: Store, tx: Tx) {
    var token := ToLower(tx.event.tokenID);
    tx.orderType == ListingType && !(token in st.items && st.items[token].banned && tx.marketplaceId == OpenseaMarket)
  }

  predicate OnToken(st: Store, tx: Tx, id: string)
    requires id in st.orders
  {
    ToLower(st.orders[id].tokenId) == ToLower(tx.event.tokenID)
  }

  /** An older order that the new owner makes valid: the maker's own, active, not banned. */
  predicate TurnsValid(st: Store, tx: Tx, id: string)
    requires id in st.orders
  {
    && NewOwner(st, tx) && ListedBy(st, id, tx.event.tokenID, tx.event.sender)
    && var row := st.orders[id];
       && row.orderType == ListingType && row.status == StatusActive
       && !(st.items[ToLower(tx.event.tokenID)].banned && row.marketplaceId == OpenseaMarket)
  }

  /** What adding an order at this price leaves of the queue. */
  function Kept(q: Queue, price: real): Queue {
    if Admitted(q, price) then q.Trim(MaxQueueLength) else q
  }

  /** The new order, if admitted, is listable; the queue keeps no order of an earlier owner of
      the token; and no order that turns valid is cheaper than anything then queued. */
  ghost predicate ListingFits(st: Store, q: Queue, tx: Tx) {
    var ev := tx.event;
    var kept := Kept(q, ev.price);
    && (Admitted(q, ev.price) ==> Listable(st, tx))
    && (NewOwner(st, tx) ==> forall e :: e in kept.pq ==> e.tokenID != ToLower(ev.tokenID))
    && (forall id :: id in st.orders && TurnsValid(st, tx, id) ==>
         AtLeastAll(kept, st.orders[id].price) && (Admitted(q, ev.price) ==> ev.price <= st.orders[id].price))
  }

  // ---- the tables ----

  ghost predicate IsListing(st: Store, tx: Tx) {
    tx.event.eventType.Listing? && tx.event.orderId !in st.orders
  }

  /** Which orders are valid once the tables have recorded the listing. */
  lemma ListingCommit(st: Store, tx: Tx)
    requires WellFormed(st) && IsListing(st, tx)
    ensures var st', id, ev := Commit(st, tx), tx.event.orderId, tx.event;
      && st'.orders.Keys == st.orders.Keys + {id}
      && (forall x :: x in st.orders ==> st'.orders[x] == st.orders[x])
      && st'.orders[id].price == ev.price
      && (Valid(st', id) <==> Listable(st, tx))
      && (Valid(st', id) ==> EntryValid(st', MakeEntry(id, ev.price, ev.sender, ev.tokenID)))
      && (forall x :: x in st.orders ==>
           (Valid(st', x) <==> if NewOwner(st, tx) && OnToken(st, tx, x) then TurnsValid(st, tx, x) else Valid(st, x)))
  {
  }

  /** An order that turns valid was not valid before: the owner was another. */
  lemma TurnsFromInvalid(st: Store, tx: Tx, id: string)
    requires id in st.orders && NewOwner(st, tx) && OnToken(st, tx, id) && Valid(st, id)
    ensures !TurnsValid(st, tx, id)
  {
  }

  // ---- the queue ----

  /** The queue after the event: what was kept, and the new order if it was admitted. What is
      gone cost at least as much as anything left. */
  lemma ListingQueue(q: Queue, sort: Sorter, ev: TradeEvent, ans: Answers)
    requires Shaped(q) && ev.eventType.Listing? && ev.orderId !in q.orders
    ensures var q', kept := StepQueue(q, sort, ev, ans), Kept(q, ev.price);
      var e := MakeEntry(ev.orderId, ev.price, ev.sender, ev.tokenID);
      && Shaped(q') && q'.pq != []
      && (forall x :: x in q'.pq <==> x in kept.pq || (Admitted(q, ev.price) && x == e))
      && (forall x :: x in kept.pq ==> x in q.pq)
      && (forall id :: id in q.orders && id !in q'.orders ==> AtLeastAll(q', q.orders[id].priority))
      && (ev.orderId in q'.orders <==> Admitted(q, ev.price))
  {
    EmptyTogether(q);
    if Admitted(q, ev.price) {
      var e := MakeEntry(ev.orderId, ev.price, ev.sender, ev.tokenID);
      AddEntries(q, MaxQueueLength, sort, e);
      PlusOneEntries(q.Trim(MaxQueueLength).pq, q.Add(MaxQueueLength, sort, e).pq, e);
      if q.pq == [] { AddWithRoom(q, sort, e); } else { AddCheaper(q, sort, e); }
    }
  }

  lemma OutsideBefore(st: Store, q: Queue, q': Queue, kept: Queue, price: real, p: real)
    requires Shaped(q) && AtLeastAll(q, p) && q.pq != []
    requires forall x :: x in q'.pq ==> x in kept.pq || (Admitted(q, price) && x.priority == price)
    requires forall x :: x in kept.pq ==> x in q.pq
    ensures AtLeastAll(q', p)
  {
    EmptyTogether(q);
    MaxIsDearest(q);
  }

  // ---- the invariant ----

  lemma FitsQueued(st: Store, q: Queue, sort: Sorter, tx: Tx)
    requires WellFormed(st) && IsListing(st, tx) && CheapestPart(st, q) && ListingFits(st, q, tx)
    requires tx.event.orderId !in q.orders
    ensures QueuedValid(Commit(st, tx), StepQueue(q, sort, tx.event, tx.answers))
  {
    var st', q' := Commit(st, tx), StepQueue(q, sort, tx.event, tx.answers);
    ListingCommit(st, tx);
    ListingQueue(q, sort, tx.event, tx.answers);
    forall e | e in q'.pq ensures EntryValid(st', e) {
      if e in Kept(q, tx.event.price).pq {
        assert EntryValid(st, e);
      }
    }
  }

  lemma FitsOutside(st: Store, q: Queue, sort: Sorter, tx: Tx)
    requires WellFormed(st) && IsListing(st, tx) && CheapestPart(st, q) && ListingFits(st, q, tx)
    requires tx.event.orderId !in q.orders
    ensures OutsideDearer(Commit(st, tx), StepQueue(q, sort, tx.event, tx.answers), {})
  {
    var ev := tx.event;
    var st', q', kept := Commit(st, tx), StepQueue(q, sort, ev, tx.answers), Kept(q, ev.price);
    ListingCommit(st, tx);
    ListingQueue(q, sort, ev, tx.answers);
    EmptyTogether(q);
    QueuedInStore(st, q);
    forall id | id in ValidIds(st') && id !in q'.orders ensures AtLeastAll(q', st'.orders[id].price) {
      if id == ev.orderId {
        MaxIsDearest(q);
      } else if NewOwner(st, tx) && OnToken(st, tx, id) {
        assert TurnsValid(st, tx, id);
      } else if id !in q.orders {
        assert id in ValidIds(st);
        OutsideBefore(st, q, q', kept, ev.price, st.orders[id].price);
      }
    }
  }

  lemma KeptOffToken(st: Store, q: Queue, sort: Sorter, tx: Tx, e: Entry)
    requires WellFormed(st) && IsListing(st, tx) && QueuedValid(st, q) && NewOwner(st, tx)
    requires QueuedValid(Commit(st, tx), StepQueue(q, sort, tx.event, tx.answers))
    requires e in q.pq && e in StepQueue(q, sort, tx.event, tx.answers).pq
    ensures e.tokenID != ToLower(tx.event.tokenID)
  {
    ListingCommit(st, tx);
    assert EntryValid(st, e) && EntryValid(Commit(st, tx), e);
    if OnToken(st, tx, e.orderID) { TurnsFromInvalid(st, tx, e.orderID); }
  }

  lemma FitsNeeded(st: Store, q: Queue, sort: Sorter, tx: Tx)
    requires WellFormed(st) && IsListing(st, tx) && CheapestPart(st, q)
    requires tx.event.orderId !in q.orders
    requires CheapestPart(Commit(st, tx), StepQueue(q, sort, tx.event, tx.answers))
    ensures ListingFits(st, q, tx)
  {
    var ev := tx.event;
    var st', q', kept := Commit(st, tx), StepQueue(q, sort, ev, tx.answers), Kept(q, ev.price);
    var e := MakeEntry(ev.orderId, ev.price, ev.sender, ev.tokenID);
    ListingCommit(st, tx);
    ListingQueue(q, sort, ev, tx.answers);
    if Admitted(q, ev.price) { assert EntryValid(st', e); }
    forall x | NewOwner(st, tx) && x in kept.pq ensures x.tokenID != ToLower(ev.tokenID) {
      KeptOffToken(st, q, sort, tx, x);
    }
    forall id | id in st.orders && TurnsValid(st, tx, id)
      ensures AtLeastAll(kept, st.orders[id].price) && (Admitted(q, ev.price) ==> ev.price <= st.orders[id].price)
    {
      TurnedIsOutside(st, q', tx, id);
      assert AtLeastAll(q', st'.orders[id].price);
    }
  }

  lemma TurnedIsOutside(st: Store, q': Queue, tx: Tx, id: string)
    requires WellFormed(st) && IsListing(st, tx) && id in st.orders && TurnsValid(st, tx, id)
    requires q'.Agrees()
    requires forall e :: e in q'.pq && e.orderID != tx.event.orderId ==> e.tokenID != ToLower(tx.event.tokenID)
    requires QueuedValid(Commit(st, tx), q')
    ensures id in ValidIds(Commit(st, tx)) && id !in q'.orders
  {
    ListingCommit(st, tx);
    assert id in q'.orders ==> EntryValid(Commit(st, tx), q'.orders[id]);
  }

  /** A Listing keeps the invariant exactly when it fits. */
  lemma ListingExact(st: Store, q: Queue, sort: Sorter, tx: Tx)
    requires WellFormed(st) && IsListing(st, tx) && CheapestPart(st, q)
    ensures CheapestPart(Commit(st, tx), StepQueue(q, sort, tx.event, tx.answers)) <==> ListingFits(st, q, tx)
  {
    QueuedInStore(st, q);
    assert tx.event.orderId !in q.orders;
    ListingQueue(q, sort, tx.event, tx.answers);
    if ListingFits(st, q, tx) {
      FitsQueued(st, q, sort, tx);
      FitsOutside(st, q, sort, tx);
    } else if CheapestPart(Commit(st, tx), StepQueue(q, sort, tx.event, tx.answers)) {
      FitsNeeded(st, q, sort, tx);
    }
  }

  // ---- the cached price ----

  /** The least price queued after the event. */
  function LeastAfter(q: Queue, price: real): real {
    if !Admitted(q, price) then q.GetMin().1
    else if q.pq == [] || price <= q.GetMin().1 then price
    else q.GetMin().1
  }

  lemma LeastAfterIs(q: Queue, sort: Sorter, ev: TradeEvent, ans: Answers)
    requires Shaped(q) && ev.eventType.Listing? && ev.orderId !in q.orders
    ensures StepQueue(q, sort, ev, ans).GetMin().1 == LeastAfter(q, ev.price)
  {
    var q', kept := StepQueue(q, sort, ev, ans), Kept(q, ev.price);
    var e := MakeEntry(ev.orderId, ev.price, ev.sender, ev.tokenID);
    ListingQueue(q, sort, ev, ans);
    assert q'.pq[0] in q'.pq;
    if Admitted(q, ev.price) { MinIsCheapest(q', e); }
    if q.pq != [] {
      assert q.pq[0] in kept.pq by { assert kept.pq[0] == q.pq[0]; }
      MinIsCheapest(q', q.pq[0]);
      if q'.pq[0] in q.pq { MinIsCheapest(q, q'.pq[0]); }
    }
  }

  /** While the owner stays, as it does with every bid: the price is right exactly when the
      order is listable, is not admitted, or undercuts nothing. */
  lemma ListingPriceExact(st: Store, info: Info, sort: Sorter, tx: Tx)
    requires WellFormed(st) && IsListing(st, tx) && InfoExact(st, info)
    requires tx.event.price > 0.0 && !NewOwner(st, tx)
    ensures IsFloor(Commit(st, tx), StepInfo(info, sort, tx.event, tx.answers).floorPrice) <==>
      Listable(st, tx) || !Admitted(info.orders, tx.event.price)
      || (info.orders.pq != [] && info.orders.GetMin().1 <= tx.event.price)
  {
    var q, ev := info.orders, tx.event;
    QueuedInStore(st, q);
    assert ev.orderId !in q.orders;
    if Listable(st, tx) || !Admitted(q, ev.price) {
      ListingExact(st, q, sort, tx);
      CheapestPartGivesFloor(Commit(st, tx), StepQueue(q, sort, ev, tx.answers));
    } else {
      NothingChanges(st, tx);
      LeastAfterIs(q, sort, ev, tx.answers);
      CheapestPartGivesFloor(st, q);
      SameFloor(st, Commit(st, tx), q.GetMin().1, LeastAfter(q, ev.price));
      EmptyTogether(q);
    }
  }

  lemma NothingChanges(st: Store, tx: Tx)
    requires WellFormed(st) && IsListing(st, tx) && !NewOwner(st, tx) && !Listable(st, tx)
    ensures ValidIds(Commit(st, tx)) == ValidIds(st)
    ensures forall id :: id in ValidIds(st) ==> Commit(st, tx).orders[id] == st.orders[id]
  {
    ListingCommit(st, tx);
  }

  lemma SameFloor(st: Store, st': Store, floor: real, p: real)
    requires ValidIds(st') == ValidIds(st) && forall id :: id in ValidIds(st) ==> st'.orders[id].price == st.orders[id].price
    requires IsFloor(st, floor)
    ensures IsFloor(st', p) <==> p == floor
  {
  }

  /** Older orders that turn valid, and all older orders that are valid after the event. */
  function Turned(st: Store, tx: Tx): set<string> {
    set id | id in st.orders && TurnsValid(st, tx, id)
  }

  function StillValid(st: Store, tx: Tx): set<string> {
    Turned(st, tx) + set id | id in ValidIds(st) && !OnToken(st, tx, id)
  }

  /** When the token changes hands: the price is right exactly when no order that turns valid
      is cheaper, and some valid order costs just that, or none is left and it is 0. */
  lemma NewOwnerPriceExact(st: Store, info: Info, sort: Sorter, tx: Tx)
    requires WellFormed(st) && IsListing(st, tx) && InfoExact(st, info)
    requires tx.event.price > 0.0 && NewOwner(st, tx)
    ensures var least := LeastAfter(info.orders, tx.event.price);
      IsFloor(Commit(st, tx), StepInfo(info, sort, tx.event, tx.answers).floorPrice) <==>
        && (forall id :: id in Turned(st, tx) ==> least <= st.orders[id].price)
        && ((Listable(st, tx) && tx.event.price == least)
            || (exists id :: id in StillValid(st, tx) && st.orders[id].price == least)
            || (least == 0.0 && !Listable(st, tx) && StillValid(st, tx) == {}))
  {
    var q, ev := info.orders, tx.event;
    QueuedInStore(st, q);
    assert ev.orderId !in q.orders;
    LeastAfterIs(q, sort, ev, tx.answers);
    OldNotCheaper(st, q, ev.price);
    ValidAfter(st, tx);
    LeastIsFloor(st, Commit(st, tx), ev.orderId, Listable(st, tx), StillValid(st, tx), Turned(st, tx), LeastAfter(q, ev.price));
  }

  lemma ValidAfter(st: Store, tx: Tx)
    requires WellFormed(st) && IsListing(st, tx) && NewOwner(st, tx)
    ensures var st', id := Commit(st, tx), tx.event.orderId;
      && id in st'.orders && st'.orders[id].price == tx.event.price
      && ValidIds(st') == StillValid(st, tx) + (if Listable(st, tx) then {id} else {})
      && (forall x :: x in st.orders ==> x in st'.orders && st'.orders[x] == st.orders[x])
  {
    ListingCommit(st, tx);
  }

  lemma LeastIsFloor(st: Store, st': Store, id: string, listed: bool, still: set<string>, turned: set<string>, least: real)
    requires id in st'.orders && least <= st'.orders[id].price
    requires ValidIds(st') == still + (if listed then {id} else {})
    requires forall x :: x in still ==> x in st.orders && x in st'.orders && st'.orders[x] == st.orders[x]
    requires turned <= still && forall x :: x in still && x !in turned ==> least <= st.orders[x].price
    ensures IsFloor(st', least) <==>
      && (forall x :: x in turned ==> least <= st.orders[x].price)
      && ((listed && st'.orders[id].price == least)
          || (exists x :: x in still && st.orders[x].price == least)
          || (least == 0.0 && !listed && still == {}))
  {
    if x :| x in still && st.orders[x].price == least { assert x in ValidIds(st'); }
    if listed { assert id in ValidIds(st'); }
    forall x | x in turned ensures x in ValidIds(st') {}
  }

  /** What was valid costs at least the least price queued afterwards, and so does the new order. */
  lemma OldNotCheaper(st: Store, q: Queue, price: real)
    requires CheapestPart(st, q)
    ensures forall id :: id in ValidIds(st) ==> LeastAfter(q, price) <= st.orders[id].price
    ensures LeastAfter(q, price) <= price
  {
    CheapestPartGivesFloor(st, q);
    EmptyTogether(q);
    if q.pq != [] {
      MaxIsDearest(q);
      MinIsCheapest(q, q.pq[|q.pq| - 1]);
    }
  }

  // ---- a token listed again by a new owner ----

  function ListingTx(id: string, price: real, maker: string): Tx {
    Tx(TradeEvent(Listing, "0xc0", "7", id, price, maker, ""), Answers([], []), ListingType, 0)
  }

  /** Alice lists a token at 5, and bob, who bought it elsewhere, at 10: alice's order stays
      queued and sets the cached price, though only bob's is valid. */
  lemma NewOwnerBreaks(sort: Sorter)
    ensures var tx, tx' := ListingTx("1", 5.0, "alice"), ListingTx("2", 10.0, "bob");
      var st, q := Commit(EmptyStore, tx), StepQueue(EmptyQueue, sort, tx.event, tx.answers);
      && CheapestPart(st, q) && IsListing(st, tx')
      && !CheapestPart(Commit(st, tx'), StepQueue(q, sort, tx'.event, tx'.answers))
  {
    var tx, tx' := ListingTx("1", 5.0, "alice"), ListingTx("2", 10.0, "bob");
    var st, q := Commit(EmptyStore, tx), StepQueue(EmptyQueue, sort, tx.event, tx.answers);
    EmptyIsCheapestPart(EmptyStore);
    ListingExact(EmptyStore, EmptyQueue, sort, tx);
    ListingQueue(EmptyQueue, sort, tx.event, tx.answers);
    LeastAfterIs(EmptyQueue, sort, tx.event, tx.answers);
    OtherNames();
    var e := MakeEntry("1", 5.0, "alice", "7");
    assert e in q.pq && e in Kept(q, 10.0).pq by {
      MaxIsDearest(q);
      EmptyTogether(q);
    }
    assert NewOwner(st, tx');
    ListingExact(st, q, sort, tx');
  }

  lemma OtherNames()
    ensures ToLower("alice") != ToLower("bob") && "1" != "2"
  {
    assert |ToLower("alice")| == 5 && |ToLower("bob")| == 3;
    assert "1"[0] != "2"[0];
  }
}
