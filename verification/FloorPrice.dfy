/** The floor-price cache of the order manager: what the event loop does to the cached queue
    and floor price of a collection, and what the order and item tables mean by "valid". */
module FloorPrice {
  import opened Text
  import opened PriorityQueue

  const MaxQueueLength: nat := 100
  const QueryLimit: nat := 100
  const ListingType := 1
  const StatusActive := 0
  const StatusExpired := 2
  const StatusCancelled := 3
  const StatusFilled := 4
  const OpenseaMarket := 1

  // ---- the tables of one collection ----

  datatype OrderRow = OrderRow(orderType: int, status: int, marketplaceId: int,
                               price: real, maker: string, tokenId: string)

  datatype Item = Item(owner: string, banned: bool)

  /** Orders by id, items by token id. Text columns compare without regard to case. */
  datatype Store = Store(orders: map<string, OrderRow>, items: map<string, Item>)

  const EmptyStore := Store(map[], map[])

  /** The condition all three listing queries share. */
  predicate Valid(st: Store, id: string) {
    id in st.orders &&
    var row := st.orders[id];
    && row.orderType == ListingType && row.status == StatusActive
    && ToLower(row.tokenId) in st.items
    && var item := st.items[ToLower(row.tokenId)];
       && ToLower(row.maker) == ToLower(item.owner)
       && !(item.banned && row.marketplaceId == OpenseaMarket)
  }

  function ValidIds(st: Store): set<string> {
    set id | id in st.orders && Valid(st, id)
  }

  predicate ListedBy(st: Store, id: string, tokenId: string, maker: string)
    requires id in st.orders
  {
    ToLower(st.orders[id].tokenId) == ToLower(tokenId) && ToLower(st.orders[id].maker) == ToLower(maker)
  }

  function UserIds(st: Store, tokenId: string, maker: string): set<string> {
    set id | id in ValidIds(st) && ListedBy(st, id, tokenId, maker)
  }

  /** A row of a query result. */
  datatype Listed = Listed(orderID: string, price: real, maker: string, tokenId: string, isOpenseaBanned: bool)

  predicate RowOf(st: Store, r: Listed) {
    && Valid(st, r.orderID)
    && var row := st.orders[r.orderID];
       && (r.price, r.maker, r.tokenId) == (row.price, row.maker, row.tokenId)
       && r.isOpenseaBanned == st.items[ToLower(row.tokenId)].banned
  }

  function RowIds(rows: seq<Listed>): set<string> {
    if rows == [] then {} else RowIds(rows[..|rows| - 1]) + {rows[|rows| - 1].orderID}
  }

  /** `... order by price asc limit n` over the valid orders ids: ties fall anyhow. */
  ghost predicate CheapestOf(st: Store, ids: set<string>, rows: seq<Listed>, limit: nat)
    requires ids <= ValidIds(st)
  {
    && |rows| <= limit
    && (forall i :: 0 <= i < |rows| ==> rows[i].orderID in ids && RowOf(st, rows[i]))
    && (forall i, j :: 0 <= i < j < |rows| ==> rows[i].orderID != rows[j].orderID)
    && (forall i, j :: 0 <= i < j < |rows| ==> rows[i].price <= rows[j].price)
    && (forall id :: id in ids && id !in RowIds(rows) ==>
         |rows| == limit && forall i :: 0 <= i < |rows| ==> rows[i].price <= st.orders[id].price)
  }

  // ---- events ----

  datatype EventType = Buy | Mint | Listing | Cancel | Transfer | Expired | ImportCollection | UpdateCollection

  datatype TradeEvent = TradeEvent(eventType: EventType, collectionAddr: string, tokenID: string, orderId: string,
                                   price: real, sender: string, recipient: string)

  /** What the two queries answer while an event is handled. */
  datatype Answers = Answers(lowest: seq<Listed>, user: seq<Listed>)

  datatype Info = Info(floorPrice: real, orders: Queue)

  function EntryFor(r: Listed): Entry {
    MakeEntry(r.orderID, r.price, r.maker, r.tokenId)
  }

  /** Rows added one after another, without any guard. */
  function AddAll(q: Queue, sort: Sorter, rows: seq<Listed>): Queue {
    if rows == [] then q
    else AddAll(q, sort, rows[..|rows| - 1]).Add(MaxQueueLength, sort, EntryFor(rows[|rows| - 1]))
  }

  /** A buyer's order enters the queue only when it is cheaper than the queue's maximum. */
  function Offer(q: Queue, sort: Sorter, r: Listed): Queue {
    if !r.isOpenseaBanned && q.GetMax().1 > r.price then q.Add(MaxQueueLength, sort, EntryFor(r)) else q
  }

  function OfferAll(q: Queue, sort: Sorter, rows: seq<Listed>): Queue {
    if rows == [] then q
    else Offer(OfferAll(q, sort, rows[..|rows| - 1]), sort, rows[|rows| - 1])
  }

  function Reload(sort: Sorter, ans: Answers): Queue {
    AddAll(EmptyQueue, sort, ans.lowest)
  }

  function OrReload(q: Queue, sort: Sorter, ans: Answers): Queue {
    if q.Len() == 0 then Reload(sort, ans) else q
  }

  function Admitted(q: Queue, price: real): bool {
    q.GetMax().1 > price || q.Len() == 0
  }

  /** The queue after an event for its collection. */
  function StepQueue(q: Queue, sort: Sorter, ev: TradeEvent, ans: Answers): Queue {
    match ev.eventType
    case Listing =>
      if Admitted(q, ev.price)
      then q.Add(MaxQueueLength, sort, MakeEntry(ev.orderId, ev.price, ev.sender, ev.tokenID)) else q
    case Cancel => OrReload(q.Remove(ev.orderId), sort, ans)
    case Expired => OrReload(q.Remove(ev.orderId), sort, ans)
    case Buy => StepTransfer(q.Remove(ev.orderId), sort, ev, ans)
    case Transfer => StepTransfer(q, sort, ev, ans)
    case UpdateCollection => if q.GetMin().1 == ev.price then q else Reload(sort, ans)
    case Mint => q
    case ImportCollection => q
  }

  function StepTransfer(q: Queue, sort: Sorter, ev: TradeEvent, ans: Answers): Queue {
    if q.Len() == 0 then Reload(sort, ans)
    else OrReload(OfferAll(q.RemoveMakerOrders(ev.sender, ev.tokenID), sort, ans.user), sort, ans)
  }

  /** Every handled event ends by copying the queue's minimum into the cached floor price;
      an UpdateCollection that already agrees, and an unsupported event, change nothing. */
  function StepInfo(info: Info, sort: Sorter, ev: TradeEvent, ans: Answers): Info {
    var q := StepQueue(info.orders, sort, ev, ans);
    match ev.eventType
    case Mint => info
    case ImportCollection => info
    case UpdateCollection => if info.orders.GetMin().1 == ev.price then info else Info(q.GetMin().1, q)
    case _ => Info(q.GetMin().1, q)
  }

  /** The start-up load of one collection: its valid orders in id order, unguarded. */
  function LoadInfo(sort: Sorter, rows: seq<Listed>): Info {
    var q := AddAll(EmptyQueue, sort, rows);
    Info(q.GetMin().1, q)
  }

  // ---- the whole order manager beside the tables ----

  /** An event, the answers its queries get, and the kind of order row behind a Listing. */
  datatype Tx = Tx(event: TradeEvent, answers: Answers, orderType: int, marketplaceId: int)

  /** What the tables record of an event before the event loop sees it. A new sell order
      makes its maker the owner of the token, whoever the owner was. */
  function Commit(st: Store, tx: Tx): Store {
    var ev := tx.event;
    var token := ToLower(ev.tokenID);
    match ev.eventType
    case Listing =>
      var row := OrderRow(tx.orderType, StatusActive, tx.marketplaceId, ev.price, ev.sender, ev.tokenID);
      Store(if ev.orderId in st.orders then st.orders else st.orders[ev.orderId := row],
            if token !in st.items then st.items[token := Item(ev.sender, false)]
            else if tx.orderType == ListingType then SetOwner(st.items, token, ev.sender) else st.items)
    case Cancel => st.(orders := SetStatus(st.orders, ev.orderId, StatusCancelled))
    case Expired => st.(orders := SetStatus(st.orders, ev.orderId, StatusExpired))
    case Buy => Store(SetStatus(st.orders, ev.orderId, StatusFilled), SetOwner(st.items, token, ev.recipient))
    case Transfer => st.(items := SetOwner(st.items, token, ev.recipient))
    case _ => st
  }

  function SetStatus(orders: map<string, OrderRow>, id: string, status: int): map<string, OrderRow> {
    if id in orders then orders[id := orders[id].(status := status)] else orders
  }

  function SetOwner(items: map<string, Item>, token: string, owner: string): map<string, Item> {
    if token in items then items[token := items[token].(owner := owner)] else items
  }

  /** Cached collections and tables, by lower-case collection address. */
  datatype System = System(infos: map<string, Info>, stores: map<string, Store>) {
    function StoreOf(addr: string): Store {
      if addr in stores then stores[addr] else EmptyStore
    }
  }

  function StepInfos(infos: map<string, Info>, sort: Sorter, ev: TradeEvent, ans: Answers): map<string, Info> {
    var addr := ToLower(ev.collectionAddr);
    if addr in infos then infos[addr := StepInfo(infos[addr], sort, ev, ans)]
    else if ev.eventType.ImportCollection? then infos[addr := Info(0.0, EmptyQueue)]
    else infos
  }

  /** What happens to the tables: a change that an event announces, or a sale that none does. The
      indexer records a sale and stops there when the buy order has no row. */
  datatype Move = Announced(tx: Tx) | SoldSilently(collectionAddr: string, orderId: string)

  /** The order of a sale leaves the valid ones. */
  function SoldStore(st: Store, id: string): Store {
    st.(orders := SetStatus(st.orders, id, StatusFilled))
  }

  function StepEvent(sys: System, sort: Sorter, tx: Tx): System {
    var addr := ToLower(tx.event.collectionAddr);
    System(StepInfos(sys.infos, sort, tx.event, tx.answers),
           sys.stores[addr := Commit(sys.StoreOf(addr), tx)])
  }

  function StepSilently(sys: System, collectionAddr: string, id: string): System {
    var addr := ToLower(collectionAddr);
    System(sys.infos, sys.stores[addr := SoldStore(sys.StoreOf(addr), id)])
  }

  function Step(sys: System, sort: Sorter, move: Move): System {
    match move
    case Announced(tx) => StepEvent(sys, sort, tx)
    case SoldSilently(addr, id) => StepSilently(sys, addr, id)
  }

  function Process(sys: System, sort: Sorter, moves: seq<Move>): System {
    if moves == [] then sys
    else Step(Process(sys, sort, moves[..|moves| - 1]), sort, moves[|moves| - 1])
  }
}
