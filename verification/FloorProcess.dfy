/** The order manager's event loop on its mutable state: tracked collections, each with a
    cached floor price and a queue object that a reload replaces. */
module FloorProcess {
  import opened Text
  import opened PriorityQueue
  import opened FloorPrice

  /** A row of the collection table, and of the start-up query over all collections. */
  datatype Collection = Collection(address: string, floorPrice: real)

  datatype ListedIn = ListedIn(collectionAddress: string, row: Listed)

  function Tracked(collections: seq<Collection>): set<string> {
    set c | c in collections :: ToLower(c.address)
  }

  /** The rows of one collection, in order. */
  function RowsIn(orders: seq<ListedIn>, addr: string): seq<Listed> {
    if orders == [] then []
    else
      var n := |orders| - 1;
      RowsIn(orders[..n], addr) + if ToLower(orders[n].collectionAddress) == addr then [orders[n].row] else []
  }

  lemma OneMoreRow(q: Queue, sort: Sorter, orders: seq<ListedIn>, i: nat, addr: string)
    requires i < |orders|
    ensures var before := AddAll(q, sort, RowsIn(orders[..i], addr));
      AddAll(q, sort, RowsIn(orders[..i + 1], addr)) ==
        if addr == ToLower(orders[i].collectionAddress)
        then before.Add(MaxQueueLength, sort, EntryFor(orders[i].row)) else before
  {
    var rows := RowsIn(orders[..i], addr);
    assert orders[..i + 1][..i] == orders[..i] && orders[..i + 1][i] == orders[i];
    if addr == ToLower(orders[i].collectionAddress) {
      assert RowsIn(orders[..i + 1], addr) == rows + [orders[i].row];
      AddLast(q, sort, rows, orders[i].row);
    } else {
      assert RowsIn(orders[..i + 1], addr) == rows + [] == rows;
    }
  }

  lemma AddLast(q: Queue, sort: Sorter, rows: seq<Listed>, r: Listed)
    ensures AddAll(q, sort, rows + [r]) == AddAll(q, sort, rows).Add(MaxQueueLength, sort, EntryFor(r))
  {
    assert (rows + [r])[..|rows|] == rows;
  }

  class CollectionTradeInfo {
    var floorPrice: real
    var orders: PriorityQueueMap

    constructor (floorPrice: real, sort: Sorter)
      ensures Value() == Info(floorPrice, EmptyQueue)
      ensures fresh(orders) && Configured(sort)
    {
      this.floorPrice := floorPrice;
      this.orders := new PriorityQueueMap(MaxQueueLength, sort);
    }

    ghost function Value(): Info
      reads this, orders
    {
      Info(floorPrice, orders.Value())
    }

    ghost predicate Configured(sort: Sorter)
      reads this
    {
      orders.maxLen == MaxQueueLength && orders.sort == sort
    }

    method CheckAndUpdateFloorPrice()
      modifies this`floorPrice
      ensures floorPrice == orders.Value().GetMin().1
    {
      var _, newFloorPrice := orders.GetMin();
      if newFloorPrice != floorPrice {
        floorPrice := newFloorPrice;
      }
    }

    method ReloadOrders(sort: Sorter, lowest: seq<Listed>)
      modifies this`orders
      ensures fresh(orders) && Configured(sort)
      ensures orders.Value() == AddAll(EmptyQueue, sort, lowest)
    {
      orders := new PriorityQueueMap(MaxQueueLength, sort);
      for i := 0 to |lowest|
        invariant fresh(orders) && Configured(sort)
        invariant orders.Value() == AddAll(EmptyQueue, sort, lowest[..i])
      {
        assert lowest[..i + 1][..i] == lowest[..i];
        var order := lowest[i];
        orders.Add(order.orderID, order.price, order.maker, order.tokenId);
      }
      assert lowest[..|lowest|] == lowest;
    }

    /** The loop over the recipient's valid orders. */
    method OfferUserOrders(sort: Sorter, user: seq<Listed>)
      requires Configured(sort)
      modifies orders
      ensures orders.Value() == OfferAll(old(orders.Value()), sort, user)
    {
      for i := 0 to |user|
        invariant orders.Value() == OfferAll(old(orders.Value()), sort, user[..i])
      {
        assert user[..i + 1][..i] == user[..i];
        var order := user[i];
        if !order.isOpenseaBanned {
          var _, maxPrice := orders.GetMax();
          if maxPrice > order.price {
            orders.Add(order.orderID, order.price, order.maker, order.tokenId);
          }
        }
      }
      assert user[..|user|] == user;
    }

    /** The arms of the event switch for a tracked collection. */
    method Handle(sort: Sorter, ev: TradeEvent, ans: Answers)
      requires Configured(sort)
      modifies this, orders
      ensures Value() == StepInfo(old(Value()), sort, ev, ans)
      ensures Configured(sort) && (orders == old(orders) || fresh(orders))
    {
      match ev.eventType {
        case Listing =>
          var _, price := orders.GetMax();
          if price > ev.price || orders.Len() == 0 {
            orders.Add(ev.orderId, ev.price, ev.sender, ev.tokenID);
          }
          CheckAndUpdateFloorPrice();
        case Cancel => HandleRemoval(sort, ev, ans);
        case Expired => HandleRemoval(sort, ev, ans);
        case Buy => HandleTransfer(sort, ev, ans);
        case Transfer => HandleTransfer(sort, ev, ans);
        case UpdateCollection =>
          var _, floor := orders.GetMin();
          if floor == ev.price {
            return;
          }
          ReloadOrders(sort, ans.lowest);
          CheckAndUpdateFloorPrice();
        case _ =>
      }
    }

    method HandleRemoval(sort: Sorter, ev: TradeEvent, ans: Answers)
      requires Configured(sort) && (ev.eventType.Cancel? || ev.eventType.Expired?)
      modifies this, orders
      ensures Value() == StepInfo(old(Value()), sort, ev, ans)
      ensures Configured(sort) && (orders == old(orders) || fresh(orders))
    {
      orders.Remove(ev.orderId);
      if orders.Len() == 0 {
        ReloadOrders(sort, ans.lowest);
      }
      CheckAndUpdateFloorPrice();
    }

    method HandleTransfer(sort: Sorter, ev: TradeEvent, ans: Answers)
      requires Configured(sort) && (ev.eventType.Buy? || ev.eventType.Transfer?)
      modifies this, orders
      ensures Value() == StepInfo(old(Value()), sort, ev, ans)
      ensures Configured(sort) && (orders == old(orders) || fresh(orders))
    {
      if ev.eventType.Buy? {
        orders.Remove(ev.orderId);
      }
      if orders.Len() == 0 {
        ReloadOrders(sort, ans.lowest);
      } else {
        orders.RemoveMakerOrders(ev.sender, ev.tokenID);
        OfferUserOrders(sort, ans.user);
        if orders.Len() == 0 {
          ReloadOrders(sort, ans.lowest);
        }
      }
      CheckAndUpdateFloorPrice();
    }
  }

  class OrderManager {
    /** Tracked collections by lower-case address. */
    var collectionOrders: map<string, CollectionTradeInfo>
    const sort: Sorter

    constructor (sort: Sorter)
      ensures Valid() && Infos() == map[] && this.sort == sort
    {
      this.sort, collectionOrders := sort, map[];
    }

    /** Collections share neither records nor queues. */
    ghost predicate Valid()
      reads this, collectionOrders.Values
    {
      && (forall a :: a in collectionOrders ==> collectionOrders[a].Configured(sort))
      && (forall a, b :: a in collectionOrders && b in collectionOrders && a != b ==>
            collectionOrders[a] != collectionOrders[b] && collectionOrders[a].orders != collectionOrders[b].orders)
    }

    ghost function Queues(): set<PriorityQueueMap>
      reads this, collectionOrders.Values
    {
      set a | a in collectionOrders :: collectionOrders[a].orders
    }

    ghost function Infos(): map<string, Info>
      reads this, collectionOrders.Values, Queues()
    {
      map a | a in collectionOrders :: collectionOrders[a].Value()
    }

    /** One iteration of the event loop. */
    method ProcessEvent(ev: TradeEvent, ans: Answers)
      requires Valid()
      modifies this, collectionOrders.Values, Queues()
      ensures Valid() && Infos() == StepInfos(old(Infos()), sort, ev, ans)
    {
      var addr := ToLower(ev.collectionAddr);
      if addr in collectionOrders {
        Dispatch(addr, ev, ans);
      } else if ev.eventType.ImportCollection? {
        Import(addr);
      }
    }

    method Dispatch(addr: string, ev: TradeEvent, ans: Answers)
      requires Valid() && addr in collectionOrders
      modifies collectionOrders[addr], collectionOrders[addr].orders
      ensures Valid()
      ensures collectionOrders[addr].Value() == StepInfo(old(collectionOrders[addr].Value()), sort, ev, ans)
      ensures forall a :: a in collectionOrders && a != addr ==> collectionOrders[a].Value() == old(collectionOrders[a].Value())
    {
      var tradeInfo := collectionOrders[addr];
      tradeInfo.Handle(sort, ev, ans);
    }

    method Import(addr: string)
      requires Valid() && addr !in collectionOrders
      modifies this
      ensures Valid() && Infos() == old(Infos())[addr := Info(0.0, EmptyQueue)]
    {
      var tradeInfo := new CollectionTradeInfo(0.0, sort);
      collectionOrders := collectionOrders[addr := tradeInfo];
    }

    /** The start-up load, once its rows are read: every collection is tracked, every row of a
        tracked collection enters that collection's queue, and the prices are set. */
    method LoadCollectionTradeInfo(collections: seq<Collection>, totalOrders: seq<ListedIn>)
      requires Valid() && collectionOrders == map[]
      modifies this
      ensures Valid() && collectionOrders.Keys == (set c | c in collections :: ToLower(c.address))
      ensures forall a :: a in collectionOrders ==> collectionOrders[a].Value() == LoadInfo(sort, RowsIn(totalOrders, a))
    {
      Track(collections);
      AddLoaded(totalOrders);
      UpdateFloorPrices();
    }

    method Track(collections: seq<Collection>)
      requires Valid() && collectionOrders == map[]
      modifies this
      ensures Valid() && collectionOrders.Keys == Tracked(collections)
      ensures forall a :: a in collectionOrders ==>
        && fresh(collectionOrders[a]) && fresh(collectionOrders[a].orders)
        && collectionOrders[a].orders.Value() == EmptyQueue
    {
      for i := 0 to |collections|
        invariant Valid() && collectionOrders.Keys == Tracked(collections[..i])
        invariant forall a :: a in collectionOrders ==>
          && fresh(collectionOrders[a]) && fresh(collectionOrders[a].orders)
          && collectionOrders[a].orders.Value() == EmptyQueue
      {
        TrackOne(collections[i]);
        assert collections[..i + 1] == collections[..i] + [collections[i]];
      }
      assert collections[..|collections|] == collections;
    }

    method TrackOne(collection: Collection)
      requires Valid()
      modifies this
      ensures Valid() && collectionOrders.Keys == old(collectionOrders.Keys) + {ToLower(collection.address)}
      ensures forall a :: a in collectionOrders ==>
        if a == ToLower(collection.address)
        then fresh(collectionOrders[a]) && fresh(collectionOrders[a].orders) && collectionOrders[a].orders.Value() == EmptyQueue
        else collectionOrders[a] == old(collectionOrders)[a]
    {
      var tradeInfo := new CollectionTradeInfo(collection.floorPrice, sort);
      collectionOrders := collectionOrders[ToLower(collection.address) := tradeInfo];
    }

    method AddLoaded(totalOrders: seq<ListedIn>)
      requires Valid()
      modifies Queues()
      ensures forall a :: a in collectionOrders ==>
        collectionOrders[a].orders.Value() == AddAll(old(collectionOrders[a].orders.Value()), sort, RowsIn(totalOrders, a))
    {
      ghost var start := map a | a in collectionOrders :: collectionOrders[a].orders.Value();
      for i := 0 to |totalOrders|
        invariant forall a :: a in collectionOrders ==>
          collectionOrders[a].orders.Value() == AddAll(start[a], sort, RowsIn(totalOrders[..i], a))
      {
        AddOne(totalOrders[i]);
        forall a | a in collectionOrders
          ensures collectionOrders[a].orders.Value() == AddAll(start[a], sort, RowsIn(totalOrders[..i + 1], a))
        {
          OneMoreRow(start[a], sort, totalOrders, i, a);
        }
      }
      assert totalOrders[..|totalOrders|] == totalOrders;
    }

    method AddOne(order: ListedIn)
      requires Valid()
      modifies Queues()
      ensures forall a :: a in collectionOrders ==>
        collectionOrders[a].orders.Value() ==
          if a == ToLower(order.collectionAddress)
          then old(collectionOrders[a].orders.Value()).Add(MaxQueueLength, sort, EntryFor(order.row))
          else old(collectionOrders[a].orders.Value())
    {
      var addr := ToLower(order.collectionAddress);
      if addr in collectionOrders {
        collectionOrders[addr].orders.Add(order.row.orderID, order.row.price, order.row.maker, order.row.tokenId);
      }
    }

    method UpdateFloorPrices()
      requires Valid()
      modifies collectionOrders.Values
      ensures Valid()
      ensures forall a :: a in collectionOrders ==>
        && collectionOrders[a].orders == old(collectionOrders[a].orders)
        && collectionOrders[a].floorPrice == collectionOrders[a].orders.Value().GetMin().1
    {
      var todo := collectionOrders.Keys;
      while todo != {}
        invariant Valid() && todo <= collectionOrders.Keys
        invariant forall a :: a in collectionOrders ==> collectionOrders[a].orders == old(collectionOrders[a].orders)
        invariant forall a :: a in collectionOrders && a !in todo ==>
          collectionOrders[a].floorPrice == collectionOrders[a].orders.Value().GetMin().1
      {
        var addr :| addr in todo;
        collectionOrders[addr].CheckAndUpdateFloorPrice();
        todo := todo - {addr};
      }
    }
  }
}
