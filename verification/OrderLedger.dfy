/** The order rows that the indexer keeps from Make, Match and Cancel logs, against what the order
    book contract records of the same orders. */
module OrderLedger {

  const ListingOrder := 1
  const CollectionBidOrder := 3
  const ItemBidOrder := 4
  const StatusActive := 0
  const StatusCancelled := 3
  const StatusFilled := 4
  const FixForCollection := 0
  const List := 0
  const Bid := 1
  const ZeroAddress := "0x0000000000000000000000000000000000000000"

  /** `Int64()` of an unsigned amount: its low 64 bits as a signed number. */
  function Int64(x: nat): int {
    var low := x % 0x1_0000_0000_0000_0000;
    if low < 0x8000_0000_0000_0000 then low else low - 0x1_0000_0000_0000_0000
  }

  datatype Row = Row(orderType: int, status: int, size: int, quantityRemaining: int, taker: string)

  type Rows = map<string, Row>

  /** A log of the order book contract. */
  datatype Log =
    | MakeLog(orderId: string, side: int, saleKind: int, amount: nat)
    | MatchLog(makeOrderId: string, takeOrderId: string, makeSide: int, makeMaker: string, takeMaker: string)
    | CancelLog(orderId: string)

  function OrderType(side: int, saleKind: int): int {
    if side == Bid then if saleKind == FixForCollection then CollectionBidOrder else ItemBidOrder
    else ListingOrder
  }

  function Taker(log: Log): string
    requires log.MatchLog?
  {
    if log.makeSide == Bid then log.makeMaker else log.takeMaker
  }

  function BidOf(log: Log): string
    requires log.MatchLog?
  {
    if log.makeSide == Bid then log.makeOrderId else log.takeOrderId
  }

  function SaleOf(log: Log): string
    requires log.MatchLog?
  {
    if log.makeSide == Bid then log.takeOrderId else log.makeOrderId
  }

  function SoldRow(row: Row, taker: string): Row {
    row.(status := StatusFilled, quantityRemaining := 0, taker := taker)
  }

  function FilledRow(row: Row): Row {
    if row.quantityRemaining > 1 then row.(quantityRemaining := row.quantityRemaining - 1)
    else row.(status := StatusFilled, quantityRemaining := 0)
  }

  function Sold(rows: Rows, id: string, taker: string): Rows {
    if id in rows then rows[id := SoldRow(rows[id], taker)] else rows
  }

  function Filled(rows: Rows, id: string): Rows {
    if id in rows then rows[id := FilledRow(rows[id])] else rows
  }

  function Handle(rows: Rows, log: Log): Rows {
    match log
    case MakeLog(id, side, saleKind, amount) =>
      if id in rows then rows
      else rows[id := Row(OrderType(side, saleKind), StatusActive, Int64(amount), Int64(amount), ZeroAddress)]
    case MatchLog(_, _, _, _, _) =>
      Filled(Sold(rows, SaleOf(log), Taker(log)), BidOf(log))
    case CancelLog(id) =>
      if id in rows then rows[id := rows[id].(status := StatusCancelled)] else rows
  }

  function HandleAll(rows: Rows, logs: seq<Log>): Rows {
    if logs == [] then rows else Handle(HandleAll(rows, logs[..|logs| - 1]), logs[|logs| - 1])
  }

  /** The order table and the handlers that update it row by row. */
  class OrderTable {
    var rows: Rows

    constructor ()
      ensures rows == map[]
    {
      rows := map[];
    }

    method HandleMakeEvent(orderId: string, side: int, saleKind: int, amount: nat)
      modifies this
      ensures rows == Handle(old(rows), MakeLog(orderId, side, saleKind, amount))
    {
      var orderType;
      if side == Bid {
        if saleKind == FixForCollection {
          orderType := CollectionBidOrder;
        } else {
          orderType := ItemBidOrder;
        }
      } else {
        orderType := ListingOrder;
      }
      if orderId !in rows {
        rows := rows[orderId := Row(orderType, StatusActive, Int64(amount), Int64(amount), ZeroAddress)];
      }
    }

    method HandleMatchEvent(makeOrderId: string, takeOrderId: string, makeSide: int, makeMaker: string, takeMaker: string)
      modifies this
      ensures rows == Handle(old(rows), MatchLog(makeOrderId, takeOrderId, makeSide, makeMaker, takeMaker))
    {
      if makeSide == Bid {
        UpdateSold(takeOrderId, makeMaker);
        if makeOrderId !in rows {
          return;
        }
        UpdateBuyer(makeOrderId);
      } else {
        UpdateSold(makeOrderId, takeMaker);
        if takeOrderId !in rows {
          return;
        }
        UpdateBuyer(takeOrderId);
      }
    }

    method UpdateSold(orderId: string, taker: string)
      modifies this
      ensures rows == Sold(old(rows), orderId, taker)
    {
      if orderId in rows {
        rows := rows[orderId := rows[orderId].(status := StatusFilled, quantityRemaining := 0, taker := taker)];
      }
    }

    method UpdateBuyer(orderId: string)
      requires orderId in rows
      modifies this
      ensures rows == Filled(old(rows), orderId)
    {
      var buyOrder := rows[orderId];
      if buyOrder.quantityRemaining > 1 {
        rows := rows[orderId := buyOrder.(quantityRemaining := buyOrder.quantityRemaining - 1)];
      } else {
        rows := rows[orderId := buyOrder.(status := StatusFilled, quantityRemaining := 0)];
      }
    }

    method HandleCancelEvent(orderId: string)
      modifies this
      ensures rows == Handle(old(rows), CancelLog(orderId))
    {
      if orderId in rows {
        rows := rows[orderId := rows[orderId].(status := StatusCancelled)];
      }
    }
  }

  // ---- the contract ----

  /** An order that was made: how much the contract counts as filled, how often it was matched,
      whether the contract still stores it, whether it was cancelled, and who a listing went to. */
  datatype OnChain = OnChain(isBid: bool, forCollection: bool, size: nat, filled: nat, matched: nat, stored: bool, cancelled: bool,
                             buyer: string)

  /** The orders made, and the side of every key a log has named: a key is a hash of its order. */
  datatype Chain = Chain(orders: map<string, OnChain>, sides: map<string, bool>) {
    predicate OnSide(id: string, bid: bool) {
      id in sides ==> sides[id] == bid
    }

    function Name(id: string, bid: bool): Chain {
      this.(sides := sides[id := bid])
    }

    function Put(id: string, o: OnChain): Chain {
      this.(orders := orders[id := o])
    }
  }

  const NoOrders := Chain(map[], map[])

  predicate Open(o: OnChain) { !o.cancelled && o.filled < o.size }

  predicate Stored(chain: Chain, id: string) { id in chain.orders && chain.orders[id].stored }

  /** The logs the contract emits. An edit that changes nothing cancels an order and makes it
      again, cancelled. In a match no order that was made is closed; the order of the party that
      did not send the match is stored, the other one may never have been made. */
  predicate Emits(chain: Chain, log: Log) {
    match log
    case MakeLog(id, side, _, _) => chain.OnSide(id, side == Bid) && (id in chain.orders ==> chain.orders[id].cancelled)
    case CancelLog(id) => Stored(chain, id) && Open(chain.orders[id])
    case MatchLog(_, _, side, _, _) =>
      var bid, sale := BidOf(log), SaleOf(log);
      && bid != sale && chain.OnSide(bid, true) && chain.OnSide(sale, false) && Taker(log) != ZeroAddress
      && (bid in chain.orders ==> Open(chain.orders[bid])) && (sale in chain.orders ==> Open(chain.orders[sale]))
      && Stored(chain, if side == Bid then sale else bid)
  }

  /** A buyer's own bid is filled by one and taken out; a bid that was taken out before is not
      counted again. A bid that a seller accepts is filled by one. */
  function Bought(o: OnChain, buyerSent: bool): OnChain {
    if o.stored then o.(filled := o.filled + 1, matched := o.matched + 1, stored := !buyerSent)
    else o.(matched := o.matched + 1)
  }

  /** A listing is filled whatever its size. */
  function Delivered(o: OnChain, buyerSent: bool, buyer: string): OnChain {
    if o.stored then o.(filled := o.size, matched := o.matched + 1, stored := buyerSent, buyer := buyer)
    else o.(matched := o.matched + 1)
  }

  function AfterMatch(chain: Chain, bid: string, sale: string, buyerSent: bool, buyer: string): Chain {
    var c := chain.Name(bid, true).Name(sale, false);
    var c' := if bid in c.orders then c.Put(bid, Bought(c.orders[bid], buyerSent)) else c;
    if sale in c'.orders then c'.Put(sale, Delivered(c'.orders[sale], buyerSent, buyer)) else c'
  }

  /** The log of a match, from what the contract knows: the sender's order comes first. */
  function MatchEmitted(buyerSent: bool, bid: string, buyer: string, sale: string, seller: string): Log {
    if buyerSent then MatchLog(bid, sale, Bid, buyer, seller) else MatchLog(sale, bid, List, seller, buyer)
  }

  /** The handler reads the bid, the sale and the buyer off either kind of log. */
  lemma MatchRead(buyerSent: bool, bid: string, buyer: string, sale: string, seller: string)
    ensures var log := MatchEmitted(buyerSent, bid, buyer, sale, seller);
      BidOf(log) == bid && SaleOf(log) == sale && Taker(log) == buyer && (log.makeSide == Bid <==> buyerSent)
  {
  }

  function AfterLog(chain: Chain, log: Log): Chain
    requires Emits(chain, log)
  {
    match log
    case MakeLog(id, side, saleKind, amount) =>
      var c := chain.Name(id, side == Bid);
      if id in c.orders then c
      else c.Put(id, OnChain(side == Bid, saleKind == FixForCollection, amount, 0, 0, true, false, ZeroAddress))
    case MatchLog(makeId, takeId, side, makeMaker, takeMaker) =>
      if side == Bid then AfterMatch(chain, makeId, takeId, true, makeMaker) else AfterMatch(chain, takeId, makeId, false, takeMaker)
    case CancelLog(id) => chain.Put(id, chain.orders[id].(stored := false, cancelled := true))
  }

  predicate EmitsAll(logs: seq<Log>)
    decreases |logs|, 0
  {
    logs == [] || (EmitsAll(logs[..|logs| - 1]) && Emits(AfterLogs(logs[..|logs| - 1]), logs[|logs| - 1]))
  }

  function AfterLogs(logs: seq<Log>): Chain
    requires EmitsAll(logs)
    decreases |logs|, 1
  {
    if logs == [] then NoOrders else AfterLog(AfterLogs(logs[..|logs| - 1]), logs[|logs| - 1])
  }

  /** A listing is matched at most once, and stored until then or cancelled. A bid that is
      matched more often than it is filled was taken out before. */
  ghost predicate Sound(o: OnChain) {
    && o.filled <= o.size
    && (o.stored || o.cancelled || o.matched > 0)
    && (o.isBid ==> o.matched == o.filled || (0 < o.filled < o.matched && !o.stored && !o.cancelled))
    && (!o.isBid ==> o.matched == o.filled == 0 || (o.matched == 1 && o.filled == o.size > 0 && !o.cancelled))
  }

  // ---- the rows agree with the contract ----

  /** The units the row still offers: the stored size less the matches, until it is used up. */
  function Left(o: OnChain): int {
    var size := Int64(o.size);
    if o.matched == 0 then size else if o.isBid && size > o.matched then size - o.matched else 0
  }

  function StatusOf(o: OnChain): int {
    if o.cancelled then StatusCancelled
    else if o.matched > 0 && (o.isBid ==> Int64(o.size) <= o.matched) then StatusFilled
    else StatusActive
  }

  ghost predicate RowAgrees(o: OnChain, row: Row) {
    && row.orderType == (if !o.isBid then ListingOrder else if o.forCollection then CollectionBidOrder else ItemBidOrder)
    && row.size == Int64(o.size) && row.quantityRemaining == Left(o) && row.status == StatusOf(o)
    && row.taker == (if o.isBid || o.matched == 0 then ZeroAddress else o.buyer)
  }

  ghost predicate Agree(chain: Chain, rows: Rows) {
    && chain.orders.Keys == rows.Keys
    && forall id :: id in rows ==> Agrees(chain, id, rows[id])
  }

  ghost predicate Agrees(chain: Chain, id: string, row: Row)
    requires id in chain.orders
  {
    && Sound(chain.orders[id]) && RowAgrees(chain.orders[id], row)
    && id in chain.sides && chain.sides[id] == chain.orders[id].isBid
  }

  lemma BuyAgrees(o: OnChain, row: Row, buyerSent: bool)
    requires Sound(o) && RowAgrees(o, row) && o.isBid && Open(o) && (buyerSent || o.stored)
    ensures Sound(Bought(o, buyerSent)) && RowAgrees(Bought(o, buyerSent), FilledRow(row))
  {
  }

  lemma SaleAgrees(o: OnChain, row: Row, taker: string, buyerSent: bool)
    requires Sound(o) && RowAgrees(o, row) && !o.isBid && Open(o)
    ensures Sound(Delivered(o, buyerSent, taker)) && RowAgrees(Delivered(o, buyerSent, taker), SoldRow(row, taker))
  {
  }

  function MatchedOrder(o: OnChain, log: Log, id: string): OnChain
    requires log.MatchLog?
  {
    if id == BidOf(log) then Bought(o, log.makeSide == Bid)
    else if id == SaleOf(log) then Delivered(o, log.makeSide == Bid, Taker(log)) else o
  }

  function MatchedRow(row: Row, log: Log, id: string): Row
    requires log.MatchLog?
  {
    if id == BidOf(log) then FilledRow(row) else if id == SaleOf(log) then SoldRow(row, Taker(log)) else row
  }

  /** A match changes the two orders it names, where they were made, and their rows. */
  lemma MatchAt(chain: Chain, rows: Rows, log: Log, id: string)
    requires Emits(chain, log) && log.MatchLog?
    ensures var chain', rows' := AfterLog(chain, log), Handle(rows, log);
      && chain'.orders.Keys == chain.orders.Keys && rows'.Keys == rows.Keys
      && (id in chain.orders ==> chain'.orders[id] == MatchedOrder(chain.orders[id], log, id))
      && (id in rows ==> rows'[id] == MatchedRow(rows[id], log, id))
      && (id in chain'.sides <==> id in chain.sides || id == BidOf(log) || id == SaleOf(log))
      && (id in chain.sides ==> chain'.sides[id] == chain.sides[id])
  {
  }

  lemma MatchAgrees(chain: Chain, rows: Rows, log: Log, id: string)
    requires Agree(chain, rows) && Emits(chain, log) && log.MatchLog?
    ensures AfterLog(chain, log).orders.Keys == chain.orders.Keys && Handle(rows, log).Keys == rows.Keys
    ensures id in rows ==> Agrees(AfterLog(chain, log), id, Handle(rows, log)[id])
  {
    MatchAt(chain, rows, log, id);
    if id in rows {
      assert Agrees(chain, id, rows[id]);
      if id == BidOf(log) { BuyAgrees(chain.orders[id], rows[id], log.makeSide == Bid); }
      if id == SaleOf(log) { SaleAgrees(chain.orders[id], rows[id], Taker(log), log.makeSide == Bid); }
    }
  }

  lemma HandleAgrees(chain: Chain, rows: Rows, log: Log)
    requires Agree(chain, rows) && Emits(chain, log)
    ensures Agree(AfterLog(chain, log), Handle(rows, log))
  {
    if log.MatchLog? {
      forall id ensures Handle(rows, log).Keys == rows.Keys && (id in rows ==> Agrees(AfterLog(chain, log), id, Handle(rows, log)[id])) {
        MatchAgrees(chain, rows, log, id);
      }
      MatchAgrees(chain, rows, log, "");
    } else {
      OtherAgrees(chain, rows, log);
    }
  }

  lemma OtherAgrees(chain: Chain, rows: Rows, log: Log)
    requires Agree(chain, rows) && Emits(chain, log) && !log.MatchLog?
    ensures Agree(AfterLog(chain, log), Handle(rows, log))
  {
    var chain', rows' := AfterLog(chain, log), Handle(rows, log);
    forall id | id in rows' ensures Agrees(chain', id, rows'[id]) {
      assert id in rows ==> Agrees(chain, id, rows[id]);
    }
  }

  /** After any logs there is a row for every order made; its type, what it offers, its status and
      its taker follow from the order's kind, its size, its matches, its cancellation and, for a
      delivered listing, the buyer. */
  lemma {:induction false} RowsFollowChain(logs: seq<Log>)
    requires EmitsAll(logs)
    ensures Agree(AfterLogs(logs), HandleAll(map[], logs))
  {
    if logs != [] {
      RowsFollowChain(logs[..|logs| - 1]);
      HandleAgrees(AfterLogs(logs[..|logs| - 1]), HandleAll(map[], logs[..|logs| - 1]), logs[|logs| - 1]);
    }
  }

  // ---- where the rows and the contract part ----

  /** The 64-bit conversion keeps an amount exactly when it is below the half range; otherwise it is
      off by a multiple of 2^64. */
  lemma Int64Exact(x: nat)
    ensures Int64(x) == x <==> x < 0x8000_0000_0000_0000
    ensures -0x8000_0000_0000_0000 <= Int64(x) < 0x8000_0000_0000_0000
    ensures (x - Int64(x)) % 0x1_0000_0000_0000_0000 == 0
  {
  }

  /** A row offers what the contract has left exactly when the size fits 64 bits and no match
      reused a bid that its maker had already taken out; or the order is a delivered listing. */
  lemma QuantityExact(logs: seq<Log>, id: string)
    requires EmitsAll(logs) && id in AfterLogs(logs).orders
    ensures id in HandleAll(map[], logs)
    ensures var o := AfterLogs(logs).orders[id];
      HandleAll(map[], logs)[id].quantityRemaining == o.size - o.filled <==>
        (o.size < 0x8000_0000_0000_0000 && o.matched == o.filled) || (!o.isBid && o.matched > 0)
        || (o.isBid && o.filled == o.size && Int64(o.size) <= o.matched)
  {
    RowsFollowChain(logs);
    assert Agrees(AfterLogs(logs), id, HandleAll(map[], logs)[id]);
    Int64Exact(AfterLogs(logs).orders[id].size);
  }

  // ---- conservation ----

  /** The ids made, each once. */
  function Made(logs: seq<Log>): seq<string> {
    if logs == [] then [] else AlsoMade(Made(logs[..|logs| - 1]), logs[|logs| - 1])
  }

  function AlsoMade(ids: seq<string>, log: Log): seq<string> {
    if log.MakeLog? && log.orderId !in ids then ids + [log.orderId] else ids
  }

  predicate IsBid(row: Row) { row.orderType != ListingOrder }

  /** Units taken so far from an order, if it is of the kind asked for. */
  function TakenFrom(rows: Rows, id: string, bids: bool): int {
    if id in rows && IsBid(rows[id]) == bids then rows[id].size - rows[id].quantityRemaining else 0
  }

  /** Units taken from all the bids, or all the listings, among ids. */
  function Taken(rows: Rows, ids: seq<string>, bids: bool): int {
    if ids == [] then 0 else Taken(rows, ids[..|ids| - 1], bids) + TakenFrom(rows, ids[|ids| - 1], bids)
  }

  /** What a match takes: one unit of a bid that has a row with units left, and all that is
      left of a listing that has a row. */
  function Takes(rows: Rows, log: Log, bids: bool): int {
    if !log.MatchLog? then 0
    else if bids then if BidOf(log) in rows && rows[BidOf(log)].quantityRemaining > 0 then 1 else 0
    else if SaleOf(log) in rows then rows[SaleOf(log)].quantityRemaining else 0
  }

  function TakenByMatches(logs: seq<Log>, bids: bool): int {
    if logs == [] then 0
    else
      var before := logs[..|logs| - 1];
      TakenByMatches(before, bids) + Takes(HandleAll(map[], before), logs[|logs| - 1], bids)
  }

  lemma {:induction false} TakenUnchanged(rows: Rows, rows': Rows, ids: seq<string>, bids: bool)
    requires forall id :: id in ids ==> TakenFrom(rows', id, bids) == TakenFrom(rows, id, bids)
    ensures Taken(rows', ids, bids) == Taken(rows, ids, bids)
  {
    if ids != [] { TakenUnchanged(rows, rows', ids[..|ids| - 1], bids); }
  }

  ghost predicate Distinct(ids: seq<string>) {
    forall i, j :: 0 <= i < j < |ids| ==> ids[i] != ids[j]
  }

  lemma {:induction false} TakenMore(rows: Rows, rows': Rows, ids: seq<string>, bids: bool, x: string, n: int)
    requires Distinct(ids) && x in ids
    requires forall id :: id in ids && id != x ==> TakenFrom(rows', id, bids) == TakenFrom(rows, id, bids)
    requires TakenFrom(rows', x, bids) == TakenFrom(rows, x, bids) + n
    ensures Taken(rows', ids, bids) == Taken(rows, ids, bids) + n
  {
    var last := |ids| - 1;
    assert ids == ids[..last] + [ids[last]];
    if ids[last] == x {
      assert x !in ids[..last];
      TakenUnchanged(rows, rows', ids[..last], bids);
    } else {
      TakenMore(rows, rows', ids[..last], bids, x, n);
    }
  }

  lemma {:induction false} MadeAreRows(logs: seq<Log>)
    ensures Distinct(Made(logs)) && forall id :: id in Made(logs) <==> id in HandleAll(map[], logs)
  {
    if logs != [] {
      MadeAreRows(logs[..|logs| - 1]);
    }
  }

  /** No amount reaches the half range of 64 bits. */
  ghost predicate Fits64(logs: seq<Log>) {
    forall i :: 0 <= i < |logs| && logs[i].MakeLog? ==> logs[i].amount < 0x8000_0000_0000_0000
  }

  lemma {:induction false} NoneNegative(logs: seq<Log>)
    requires Fits64(logs)
    ensures forall id :: id in HandleAll(map[], logs) ==> HandleAll(map[], logs)[id].quantityRemaining >= 0
  {
    if logs != [] {
      NoneNegative(logs[..|logs| - 1]);
    }
  }

  /** One match, seen from one order. */
  lemma MatchTakes(chain: Chain, rows: Rows, log: Log, id: string, bids: bool)
    requires Agree(chain, rows) && Emits(chain, log) && log.MatchLog?
    requires id in rows ==> rows[id].quantityRemaining >= 0
    ensures TakenFrom(Handle(rows, log), id, bids) ==
      TakenFrom(rows, id, bids) + if id == (if bids then BidOf(log) else SaleOf(log)) then Takes(rows, log, bids) else 0
  {
    MatchAt(chain, rows, log, id);
    assert id in rows ==> Agrees(chain, id, rows[id]);
  }

  lemma MatchTakesInAll(chain: Chain, rows: Rows, log: Log, ids: seq<string>, bids: bool)
    requires Agree(chain, rows) && Emits(chain, log) && log.MatchLog?
    requires forall id :: id in rows ==> rows[id].quantityRemaining >= 0
    requires Distinct(ids) && forall id :: id in ids <==> id in rows
    ensures Taken(Handle(rows, log), ids, bids) == Taken(rows, ids, bids) + Takes(rows, log, bids)
  {
    var x, rows' := if bids then BidOf(log) else SaleOf(log), Handle(rows, log);
    forall id | id in ids
      ensures TakenFrom(rows', id, bids) == TakenFrom(rows, id, bids) + if id == x then Takes(rows, log, bids) else 0
    {
      MatchTakes(chain, rows, log, id, bids);
    }
    if x in ids {
      TakenMore(rows, rows', ids, bids, x, Takes(rows, log, bids));
    } else {
      TakenUnchanged(rows, rows', ids, bids);
    }
  }

  lemma OthersTakeNone(rows: Rows, log: Log, ids: seq<string>, bids: bool)
    requires !log.MatchLog? && forall id :: id in ids <==> id in rows
    ensures Taken(Handle(rows, log), ids, bids) == Taken(rows, ids, bids)
    ensures log.MakeLog? && log.orderId !in rows ==> TakenFrom(Handle(rows, log), log.orderId, bids) == 0
  {
    TakenUnchanged(rows, Handle(rows, log), ids, bids);
  }

  lemma LogConserves(chain: Chain, rows: Rows, log: Log, ids: seq<string>, bids: bool)
    requires Agree(chain, rows) && Emits(chain, log)
    requires forall id :: id in rows ==> rows[id].quantityRemaining >= 0
    requires Distinct(ids) && forall id :: id in ids <==> id in rows
    ensures Taken(Handle(rows, log), AlsoMade(ids, log), bids) == Taken(rows, ids, bids) + Takes(rows, log, bids)
  {
    if log.MatchLog? {
      MatchTakesInAll(chain, rows, log, ids, bids);
    } else {
      OthersTakeNone(rows, log, ids, bids);
      if log.MakeLog? && log.orderId !in ids {
        assert (ids + [log.orderId])[..|ids|] == ids;
      }
    }
  }

  /** Units gone from the rows of bids, or of listings, are the units that matches took: what
      the rows lose, order by order, is what the matches take, one after another. */
  lemma {:induction false} FillsConserved(logs: seq<Log>, bids: bool)
    requires EmitsAll(logs) && Fits64(logs)
    ensures Taken(HandleAll(map[], logs), Made(logs), bids) == TakenByMatches(logs, bids)
  {
    if logs != [] {
      var before := logs[..|logs| - 1];
      FillsConserved(before, bids);
      RowsFollowChain(before);
      MadeAreRows(before);
      NoneNegative(before);
      LogConserves(AfterLogs(before), HandleAll(map[], before), logs[|logs| - 1], Made(before), bids);
    }
  }

  function Matches(logs: seq<Log>): nat {
    if logs == [] then 0 else Matches(logs[..|logs| - 1]) + if logs[|logs| - 1].MatchLog? then 1 else 0
  }

  /** Every match finds rows for both its orders, the bid with units left and the listing for
      one unit. */
  ghost predicate BothListed(logs: seq<Log>) {
    logs == [] ||
    var before, log := logs[..|logs| - 1], logs[|logs| - 1];
    BothListed(before) && (log.MatchLog? ==> Takes(HandleAll(map[], before), log, true) == Takes(HandleAll(map[], before), log, false) == 1)
  }

  lemma {:induction false} MatchesTakeOne(logs: seq<Log>, bids: bool)
    requires BothListed(logs)
    ensures TakenByMatches(logs, bids) == Matches(logs)
  {
    if logs != [] { MatchesTakeOne(logs[..|logs| - 1], bids); }
  }

  /** Then units taken from bids, units taken from listings and matches are the same number. */
  lemma FillsAreMatches(logs: seq<Log>, bids: bool)
    requires EmitsAll(logs) && Fits64(logs) && BothListed(logs)
    ensures Taken(HandleAll(map[], logs), Made(logs), bids) == Matches(logs)
  {
    FillsConserved(logs, bids);
    MatchesTakeOne(logs, bids);
  }

  // ---- at concrete logs ----

  lemma OneMoreLog(before: seq<Log>, log: Log)
    requires EmitsAll(before) && Emits(AfterLogs(before), log)
    ensures EmitsAll(before + [log]) && AfterLogs(before + [log]) == AfterLog(AfterLogs(before), log)
    ensures HandleAll(map[], before + [log]) == Handle(HandleAll(map[], before), log)
    ensures Matches(before + [log]) == Matches(before) + if log.MatchLog? then 1 else 0
    ensures forall bids :: TakenByMatches(before + [log], bids) == TakenByMatches(before, bids) + Takes(HandleAll(map[], before), log, bids)
  {
    assert (before + [log])[..|before|] == before;
  }

  const Listed := MakeLog("sale", List, 1, 1)

  /** A direct purchase: one match takes a unit from the listing and none from a bid. */
  lemma DirectPurchase()
    ensures var logs := [Listed] + [MatchLog("order", "sale", Bid, "buyer", "seller")];
      && EmitsAll(logs) && Matches(logs) == 1
      && Taken(HandleAll(map[], logs), Made(logs), true) == 0 && Taken(HandleAll(map[], logs), Made(logs), false) == 1
      && "sale" in HandleAll(map[], logs) && HandleAll(map[], logs)["sale"].taker == "buyer"
  {
    var logs := [Listed] + [MatchLog("order", "sale", Bid, "buyer", "seller")];
    assert [] + [Listed] == [Listed];
    OneMoreLog([], Listed);
    OneMoreLog([Listed], MatchLog("order", "sale", Bid, "buyer", "seller"));
    FillsConserved(logs, true);
    FillsConserved(logs, false);
  }

  /** A seller who accepts a bid with a listing of its own: the listing's taker is the bidder. */
  lemma BidAccepted()
    ensures var logs := [MakeLog("bid", Bid, 0, 1)] + [Listed] + [MatchLog("sale", "bid", List, "seller", "buyer")];
      && EmitsAll(logs) && "sale" in HandleAll(map[], logs) && HandleAll(map[], logs)["sale"].taker == "buyer"
      && "bid" in HandleAll(map[], logs) && HandleAll(map[], logs)["bid"].status == 4 && HandleAll(map[], logs)["bid"].orderType == 3
  {
    var bid := MakeLog("bid", Bid, 0, 1);
    assert [] + [bid] == [bid];
    OneMoreLog([], bid);
    OneMoreLog([bid], Listed);
    OneMoreLog([bid] + [Listed], MatchLog("sale", "bid", List, "seller", "buyer"));
  }

  /** A buyer's own bid for two units, used on one listing, is gone from the contract, while its
      row still offers the other unit. */
  lemma BidLeftBehind()
    ensures var logs := [MakeLog("bid", Bid, 0, 2)] + [Listed] + [MatchLog("bid", "sale", Bid, "buyer", "seller")];
      && EmitsAll(logs) && !Stored(AfterLogs(logs), "bid")
      && "bid" in HandleAll(map[], logs)
      && HandleAll(map[], logs)["bid"].status == StatusActive && HandleAll(map[], logs)["bid"].quantityRemaining == 1
  {
    var bid := MakeLog("bid", Bid, 0, 2);
    assert [] + [bid] == [bid];
    OneMoreLog([], bid);
    OneMoreLog([bid], Listed);
    OneMoreLog([bid] + [Listed], MatchLog("bid", "sale", Bid, "buyer", "seller"));
  }

  /** 2^63 units are stored as a negative size. */
  lemma SizeWraps()
    ensures Handle(map[], MakeLog("bid", Bid, 0, 0x8000_0000_0000_0000))["bid"].size == -0x8000_0000_0000_0000
  {
  }
}
