/** Which order stands behind each offer, what the offer says of it, and how often it is used. */
module OfferedOrders {
  import opened Common
  import opened Sorting
  import opened BidBook
  import opened BidOffers
  import opened BidStructure

  const CollectionBidOrder := 3
  const ItemBidOrder := 4

  /** The offer repeats the bid's terms; its type is 0 for a bid on the collection and 1 for a bid
      on an item. */
  ghost predicate Repeats(o: ItemBid, b: Bid) {
    && o.orderID == b.orderID && o.bidder == b.maker && o.marketplaceId == b.marketplaceId && o.salt == b.salt
    && o.price == b.price && o.bidSize == b.size && o.bidUnfilled == b.quantityRemaining
    && o.eventTime == b.eventTime && o.expireTime == b.expireTime
    && (b.orderType == CollectionBidOrder ==> o.orderType == 0) && (b.orderType == ItemBidOrder ==> o.orderType == 1)
  }

  /** Any request: the first offers repeat the units, in order, and each later one its token's own
      best bid. */
  lemma OffersRepeatBids(tokenIds: seq<string>, best: map<string, Bid>, keys: seq<string>, units: seq<Bid>, addr: string)
    requires Enumerates(keys, best) && Keyed(best) && Descending(units)
    ensures var offers, used := Process(tokenIds, best, keys, units, addr), UnitsUsed(tokenIds, best, keys, units);
      && used <= |units|
      && (forall g :: 0 <= g < |offers| ==> offers[g].collectionAddress == addr)
      && (forall g :: 0 <= g < used && g < |offers| ==> Repeats(offers[g], units[g]))
      && (forall g :: used <= g < |offers| ==> offers[g].tokenId in best && Repeats(offers[g], best[offers[g].tokenId]))
  {
    var free, s := Without(tokenIds, best), Sorted(best, keys);
    SortedBids(best, keys);
    WithoutTokens(tokenIds, best);
    OwnBids(s, best);
    ShapeOf(free, s, best, units, Min(|free|, |units|), addr);
    NextIgnoresAddress(s, units, Min(|free|, |units|), addr, "");
  }

  // ---- tokens without a bid are served in the order asked ----

  /** How many of the tokens have no bid. */
  function NoBid(tokenIds: seq<string>, best: map<string, Bid>): nat {
    if tokenIds == [] then 0 else NoBid(tokenIds[..|tokenIds| - 1], best) + if tokenIds[|tokenIds| - 1] in best then 0 else 1
  }

  lemma {:induction false} WithoutAt(tokenIds: seq<string>, best: map<string, Bid>, i: nat)
    requires i < |tokenIds| && tokenIds[i] !in best
    ensures |Without(tokenIds, best)| == NoBid(tokenIds, best)
    ensures NoBid(tokenIds[..i], best) < NoBid(tokenIds, best)
    ensures Without(tokenIds, best)[NoBid(tokenIds[..i], best)] == tokenIds[i]
  {
    var n := |tokenIds| - 1;
    WithoutSize(tokenIds[..n], best);
    if i < n {
      WithoutAt(tokenIds[..n], best, i);
      assert tokenIds[..n][..i] == tokenIds[..i];
    }
  }

  lemma {:induction false} WithoutSize(tokenIds: seq<string>, best: map<string, Bid>)
    ensures |Without(tokenIds, best)| == NoBid(tokenIds, best)
  {
    if tokenIds != [] { WithoutSize(tokenIds[..|tokenIds| - 1], best); }
  }

  /** A token without a bid that has k such tokens before it gets unit k, or nothing if there is
      no such unit. */
  lemma ServedInTurn(tokenIds: seq<string>, best: map<string, Bid>, keys: seq<string>, units: seq<Bid>, addr: string, i: nat)
    requires forall k :: k in keys ==> k in best
    requires i < |tokenIds| && tokenIds[i] !in best
    ensures var offers, k := Process(tokenIds, best, keys, units, addr), NoBid(tokenIds[..i], best);
      && (k < |units| ==> k < |offers| && offers[k].tokenId == tokenIds[i] && Repeats(offers[k], units[k]))
      && |offers| == Min(NoBid(tokenIds, best), |units|) + |keys|
  {
    WithoutAt(tokenIds, best, i);
    ReplacedTokens(Sorted(best, keys), units, Min(|Without(tokenIds, best)|, |units|), addr);
    StableSortSorts(BidsOf(keys, best), Price);
    assert |multiset(Sorted(best, keys))| == |multiset(BidsOf(keys, best))|;
  }

  // ---- no order is used beyond its quantity ----

  /** How many of the offers from lo up to hi name an order. */
  function Naming(offers: seq<ItemBid>, id: string, lo: nat, hi: nat): nat
    requires lo <= hi <= |offers|
  {
    if lo == hi then 0 else Naming(offers, id, lo, hi - 1) + if offers[hi - 1].orderID == id then 1 else 0
  }

  lemma {:induction false} NamingSplits(offers: seq<ItemBid>, id: string, lo: nat, mid: nat, hi: nat)
    requires lo <= mid <= hi <= |offers|
    ensures Naming(offers, id, lo, hi) == Naming(offers, id, lo, mid) + Naming(offers, id, mid, hi)
  {
    if mid < hi { NamingSplits(offers, id, lo, mid, hi - 1); }
  }

  lemma {:induction false} NamingNone(offers: seq<ItemBid>, id: string, lo: nat, hi: nat)
    requires lo <= hi <= |offers| && forall g :: lo <= g < hi ==> offers[g].orderID != id
    ensures Naming(offers, id, lo, hi) == 0
  {
    if lo < hi { NamingNone(offers, id, lo, hi - 1); }
  }

  lemma {:induction false} NamingOnce(offers: seq<ItemBid>, id: string, lo: nat, hi: nat)
    requires lo <= hi <= |offers|
    requires forall g, h :: lo <= g < h < hi && offers[g].orderID == id ==> offers[h].orderID != id
    ensures Naming(offers, id, lo, hi) <= 1
  {
    if lo < hi {
      if offers[hi - 1].orderID == id { NamingNone(offers, id, lo, hi - 1); } else { NamingOnce(offers, id, lo, hi - 1); }
    }
  }

  /** Where only the units of one bid have an id, the offers name it at most as often as there are
      such units. */
  lemma {:induction false} NamingUnits(offers: seq<ItemBid>, units: seq<Bid>, n: nat, b: Bid)
    requires n <= |offers| && n <= |units|
    requires forall g :: 0 <= g < n ==> offers[g].orderID == units[g].orderID && (units[g].orderID == b.orderID ==> units[g] == b)
    ensures Naming(offers, b.orderID, 0, n) <= multiset(units[..n])[b]
  {
    if n > 0 {
      NamingUnits(offers, units, n - 1, b);
      assert units[..n] == units[..n - 1] + [units[n - 1]];
    }
  }

  /** Order ids name one bid. */
  ghost predicate DistinctOrders(units: seq<Bid>, best: map<string, Bid>) {
    && (forall i, j :: 0 <= i < |units| && 0 <= j < |units| && units[i].orderID == units[j].orderID ==> units[i] == units[j])
    && (forall s, t :: s in best && t in best && best[s].orderID == best[t].orderID ==> s == t)
    && (forall i, t :: 0 <= i < |units| && t in best ==> units[i].orderID != best[t].orderID)
  }

  /** The later offers take each token's own bid once. */
  lemma OwnBidsOnce(tokenIds: seq<string>, best: map<string, Bid>, keys: seq<string>, units: seq<Bid>, addr: string, id: string)
    requires Enumerates(keys, best) && Keyed(best) && Descending(units) && DistinctOrders(units, best)
    ensures var offers, used := Process(tokenIds, best, keys, units, addr), UnitsUsed(tokenIds, best, keys, units);
      && used <= |offers|
      && (forall g, h :: used <= g < h < |offers| && offers[g].orderID == id ==> offers[h].orderID != id)
  {
    var free, s := Without(tokenIds, best), Sorted(best, keys);
    var m := Min(|free|, |units|);
    OffersRepeatBids(tokenIds, best, keys, units, addr);
    TokensAreOffered(tokenIds, best, keys, units, addr);
    SortedBids(best, keys);
    ReplaceSplits(s, units, m, "");
    TokensOnce(Process(tokenIds, best, keys, units, addr), best, free[..m], TokensOf(s), UnitsUsed(tokenIds, best, keys, units), id);
  }

  lemma TokensOnce(offers: seq<ItemBid>, best: map<string, Bid>, served: seq<string>, owned: seq<string>, used: nat, id: string)
    requires OfferTokens(offers) == served + owned && DistinctTokens(owned) && |served| <= used <= |offers|
    requires forall g :: used <= g < |offers| ==> offers[g].tokenId in best && Repeats(offers[g], best[offers[g].tokenId])
    requires forall s, t :: s in best && t in best && best[s].orderID == best[t].orderID ==> s == t
    ensures forall g, h :: used <= g < h < |offers| && offers[g].orderID == id ==> offers[h].orderID != id
  {
    forall g, h | used <= g < h < |offers| && offers[g].orderID == id ensures offers[h].orderID != id {
      assert forall k :: used <= k < |offers| ==> offers[k].tokenId == OfferTokens(offers)[k] == owned[k - |served|];
      assert offers[g].tokenId != offers[h].tokenId;
    }
  }

  /** The offers name an order at most as often as it has units, or once if it is an item bid. */
  lemma NoOrderOverused(tokenIds: seq<string>, best: map<string, Bid>, keys: seq<string>, units: seq<Bid>, addr: string, b: Bid)
    requires Enumerates(keys, best) && Keyed(best) && Descending(units) && DistinctOrders(units, best)
    ensures var offers := Process(tokenIds, best, keys, units, addr);
      && (b in units ==> Naming(offers, b.orderID, 0, |offers|) <= multiset(units)[b])
      && (b.tokenId in best && best[b.tokenId] == b ==> Naming(offers, b.orderID, 0, |offers|) <= 1)
  {
    var offers, used := Process(tokenIds, best, keys, units, addr), UnitsUsed(tokenIds, best, keys, units);
    OffersRepeatBids(tokenIds, best, keys, units, addr);
    OwnBidsOnce(tokenIds, best, keys, units, addr, b.orderID);
    NamingSplits(offers, b.orderID, 0, used, |offers|);
    if b in units {
      NamingNone(offers, b.orderID, used, |offers|);
      NamingUnits(offers, units, used, b);
      CountPrefix(units, used, b);
    }
    if b.tokenId in best && best[b.tokenId] == b {
      NamingNone(offers, b.orderID, 0, used);
      NamingOnce(offers, b.orderID, used, |offers|);
    }
  }
}
