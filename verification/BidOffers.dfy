/** The offers made for a list of tokens: collection units to the tokens without a bid of
    their own, then the item bids, cheapest first, each replaced by the next unit if that
    pays more. */
module BidOffers {
  import opened Common
  import opened Sorting
  import opened BidBook

  const BidTypeOffset := 3

  function BidType(origin: int): int {
    if origin >= BidTypeOffset then origin - BidTypeOffset else origin
  }

  datatype ItemBid = ItemBid(marketplaceId: int, collectionAddress: string, tokenId: string, orderID: string,
                             eventTime: int, expireTime: int, price: real, salt: int,
                             bidSize: int, bidUnfilled: int, bidder: string, orderType: int)

  /** A bid as an offer for a token. */
  function Offer(b: Bid, tokenId: string, collectionAddr: string): ItemBid {
    ItemBid(b.marketplaceId, collectionAddr, tokenId, b.orderID, b.eventTime, b.expireTime, b.price, b.salt,
            b.size, b.quantityRemaining, b.maker, BidType(b.orderType))
  }

  /** The order in which a map is ranged over: any order, each key once. */
  ghost predicate Enumerates(keys: seq<string>, m: map<string, Bid>) {
    && (forall i, j :: 0 <= i < j < |keys| ==> keys[i] != keys[j])
    && (forall k :: k in keys <==> k in m)
  }

  function BidsOf(keys: seq<string>, m: map<string, Bid>): seq<Bid>
    requires forall k :: k in keys ==> k in m
  {
    seq(|keys|, i requires 0 <= i < |keys| => m[keys[i]])
  }

  function Without(tokenIds: seq<string>, best: map<string, Bid>): seq<string> {
    if tokenIds == [] then []
    else
      var n := |tokenIds| - 1;
      Without(tokenIds[..n], best) + if tokenIds[n] in best then [] else [tokenIds[n]]
  }

  /** Units 0, 1, ... for the tokens without a bid, as far as they go. */
  function Serve(tokens: seq<string>, units: seq<Bid>, addr: string): seq<ItemBid> {
    seq(Min(|tokens|, |units|), k requires 0 <= k < Min(|tokens|, |units|) => Offer(units[k], tokens[k], addr))
  }

  /** The next free unit pays more than the item bid. */
  predicate Beats(units: seq<Bid>, c: nat, b: Bid) {
    c < |units| && units[c].price > b.price
  }

  /** Item bids in turn, each replaced by the next free unit if that beats it; c is the first
      free unit. Returns the offers and the next free unit. */
  function Replace(sorted: seq<Bid>, units: seq<Bid>, c: nat, addr: string): (seq<ItemBid>, nat) {
    if sorted == [] then ([], c)
    else
      var n := |sorted| - 1;
      var (offers, next) := Replace(sorted[..n], units, c, addr);
      if Beats(units, next, sorted[n])
      then (offers + [Offer(units[next], sorted[n].tokenId, addr)], next + 1)
      else (offers + [Offer(sorted[n], sorted[n].tokenId, addr)], next)
  }

  function Process(tokenIds: seq<string>, best: map<string, Bid>, keys: seq<string>, units: seq<Bid>, addr: string): seq<ItemBid>
    requires forall k :: k in keys ==> k in best
  {
    var free := Without(tokenIds, best);
    Serve(free, units, addr) +
    Replace(StableSort(BidsOf(keys, best), Price), units, Min(|free|, |units|), addr).0
  }

  /** processBids; keys is the order in which the map is ranged over. */
  method ProcessBids(tokenIds: seq<string>, itemsBestBids: map<string, Bid>, keys: seq<string>,
                     collectionBids: seq<Bid>, collectionAddr: string) returns (resultBids: seq<ItemBid>)
    requires Enumerates(keys, itemsBestBids)
    ensures resultBids == Process(tokenIds, itemsBestBids, keys, collectionBids, collectionAddr)
  {
    var itemsSortedBids: seq<Bid> := [];
    for i := 0 to |keys|
      invariant itemsSortedBids == BidsOf(keys[..i], itemsBestBids)
    {
      itemsSortedBids := itemsSortedBids + [itemsBestBids[keys[i]]];
    }
    assert keys[..|keys|] == keys;
    itemsSortedBids := StableSort(itemsSortedBids, Price);
    var cBidIndex;
    resultBids, cBidIndex := ServeFree(tokenIds, itemsBestBids, collectionBids, collectionAddr);
    resultBids := ReplaceItemBids(itemsSortedBids, collectionBids, collectionAddr, resultBids, cBidIndex);
  }

  /** The loop over the tokens without a bid. */
  method ServeFree(tokenIds: seq<string>, itemsBestBids: map<string, Bid>, collectionBids: seq<Bid>, collectionAddr: string)
    returns (resultBids: seq<ItemBid>, cBidIndex: nat)
    ensures cBidIndex == Min(|Without(tokenIds, itemsBestBids)|, |collectionBids|)
    ensures resultBids == Serve(Without(tokenIds, itemsBestBids), collectionBids, collectionAddr)
  {
    resultBids, cBidIndex := [], 0;
    for i := 0 to |tokenIds|
      invariant cBidIndex == Min(|Without(tokenIds[..i], itemsBestBids)|, |collectionBids|)
      invariant resultBids == Serve(Without(tokenIds[..i], itemsBestBids), collectionBids, collectionAddr)
    {
      assert tokenIds[..i + 1][..i] == tokenIds[..i];
      var tokenId := tokenIds[i];
      if tokenId !in itemsBestBids {
        if cBidIndex >= |collectionBids| {
          continue;
        } else {
          resultBids := resultBids + [Offer(collectionBids[cBidIndex], tokenId, collectionAddr)];
          cBidIndex := cBidIndex + 1;
        }
      }
    }
    assert tokenIds[..|tokenIds|] == tokenIds;
  }

  /** The loop over the sorted item bids. */
  method ReplaceItemBids(itemsSortedBids: seq<Bid>, collectionBids: seq<Bid>, collectionAddr: string,
                         served: seq<ItemBid>, firstFree: nat) returns (resultBids: seq<ItemBid>)
    ensures resultBids == served + Replace(itemsSortedBids, collectionBids, firstFree, collectionAddr).0
  {
    resultBids := served;
    var cBidIndex := firstFree;
    for i := 0 to |itemsSortedBids|
      invariant resultBids == served + Replace(itemsSortedBids[..i], collectionBids, firstFree, collectionAddr).0
      invariant cBidIndex == Replace(itemsSortedBids[..i], collectionBids, firstFree, collectionAddr).1
    {
      assert itemsSortedBids[..i + 1][..i] == itemsSortedBids[..i];
      var itemBid := itemsSortedBids[i];
      if cBidIndex >= |collectionBids| {
        resultBids := resultBids + [Offer(itemBid, itemBid.tokenId, collectionAddr)];
      } else {
        var cBid := collectionBids[cBidIndex];
        if cBid.price > itemBid.price {
          resultBids := resultBids + [Offer(cBid, itemBid.tokenId, collectionAddr)];
          cBidIndex := cBidIndex + 1;
        } else {
          resultBids := resultBids + [Offer(itemBid, itemBid.tokenId, collectionAddr)];
        }
      }
    }
    assert itemsSortedBids[..|itemsSortedBids|] == itemsSortedBids;
  }
}
