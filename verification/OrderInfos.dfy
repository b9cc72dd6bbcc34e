/** GetOrderInfos as a whole: the offers made from the truncated book and the best item bids
    are the best that all the bids allow. */
module OrderInfos {
  import opened Common
  import opened Sorting
  import opened BidBook
  import opened BidOffers
  import opened BidStructure
  import opened BidOptimality
  import opened OfferedOrders

  // ---- the cut made by the query costs nothing ----

  lemma {:induction false} ReplaceCut(s: seq<Bid>, units: seq<Bid>, c: nat, num: nat, addr: string)
    requires c + |s| <= num
    ensures Replace(s, Cut(units, num), c, addr) == Replace(s, units, c, addr)
    ensures c <= Replace(s, units, c, addr).1 <= c + |s|
  {
    if s != [] { ReplaceCut(s[..|s| - 1], units, c, num, addr); }
  }

  lemma {:induction false} DistinctSize(s: seq<string>)
    requires DistinctTokens(s)
    ensures |set t | t in s| == |s|
  {
    if s != [] {
      var n := |s| - 1;
      DistinctSize(s[..n]);
      assert s == s[..n] + [s[n]];
      assert (set t | t in s) == (set t | t in s[..n]) + {s[n]};
    }
  }

  lemma TokensSplit(tokenIds: seq<string>, best: map<string, Bid>, keys: seq<string>)
    requires DistinctTokens(tokenIds) && Enumerates(keys, best) && forall t :: t in best ==> t in tokenIds
    ensures |Without(tokenIds, best)| + |keys| == |tokenIds|
  {
    var free := Without(tokenIds, best);
    WithoutTokens(tokenIds, best);
    DistinctSize(tokenIds);
    DistinctSize(free);
    DistinctSize(keys);
    assert (set t | t in tokenIds) == (set t | t in free) + (set t | t in keys);
  }

  /** With as many units as tokens, further units make no difference. */
  lemma ProcessCut(tokenIds: seq<string>, best: map<string, Bid>, keys: seq<string>, units: seq<Bid>, addr: string)
    requires DistinctTokens(tokenIds) && Enumerates(keys, best) && forall t :: t in best ==> t in tokenIds
    ensures Process(tokenIds, best, keys, Cut(units, |tokenIds|), addr) == Process(tokenIds, best, keys, units, addr)
  {
    TokensSplit(tokenIds, best, keys);
    var free, s := Without(tokenIds, best), Sorted(best, keys);
    SortedSize(best, keys);
    ReplaceCut(s, units, Min(|free|, |units|), |tokenIds|, addr);
    assert Min(|free|, |Cut(units, |tokenIds|)|) == Min(|free|, |units|);
    assert Serve(free, Cut(units, |tokenIds|), addr) == Serve(free, units, addr);
  }

  lemma SortedSize(best: map<string, Bid>, keys: seq<string>)
    requires forall k :: k in keys ==> k in best
    ensures |Sorted(best, keys)| == |keys|
  {
    StableSortSorts(BidsOf(keys, best), Price);
    assert |multiset(Sorted(best, keys))| == |multiset(BidsOf(keys, best))|;
  }

  // ---- assignments from all bids ----

  /** Tokens get at most one bid each: any bid on the token itself, or a unit of any bid of the
      whole book, each unit at most once. */
  ghost predicate BookAssignment(tokenIds: seq<string>, bids: seq<Bid>, book: seq<Bid>, picks: seq<Pick>) {
    && (forall i :: 0 <= i < |picks| ==> FromBook(tokenIds, bids, book, picks[i]))
    && (forall i, j :: 0 <= i < j < |picks| ==> picks[i].token != picks[j].token)
    && (forall i, j :: 0 <= i < j < |picks| && picks[i].source.Unit? ==> picks[i].source != picks[j].source)
  }

  ghost predicate FromBook(tokenIds: seq<string>, bids: seq<Bid>, book: seq<Bid>, p: Pick) {
    && p.token in tokenIds
    && match p.source
       case Own => exists b :: b in bids && b.tokenId == p.token && b.price == p.price
       case Unit(j) => j < |Expand(book)| && p.price == Expand(book)[j].price
  }

  lemma BookWithinBest(tokenIds: seq<string>, bids: seq<Bid>, best: map<string, Bid>, book: seq<Bid>, picks: seq<Pick>)
    requires BookAssignment(tokenIds, bids, book, picks) && BestBids(bids, best)
    ensures Assignment(Universe(tokenIds, best), best, Expand(book), picks)
  {
    forall i | 0 <= i < |picks| ensures Possible(Universe(tokenIds, best), best, Expand(book), picks[i]) {
      assert FromBook(tokenIds, bids, book, picks[i]);
    }
  }

  ghost predicate OpenBook(book: seq<Bid>) {
    Descending(book) && NonNegative(book) && forall i :: 0 <= i < |book| ==> book[i].quantityRemaining >= 1
  }

  lemma UnitsNonNegative(book: seq<Bid>)
    requires Descending(book) && NonNegative(book)
    ensures Descending(Expand(book)) && NonNegative(Expand(book))
  {
    ExpandKeeps(book);
    forall i | 0 <= i < |Expand(book)| ensures Expand(book)[i].price >= 0.0 {
      assert Expand(book)[i] in book;
    }
  }

  lemma BestIsInstance(tokenIds: seq<string>, bids: seq<Bid>, best: map<string, Bid>, keys: seq<string>, units: seq<Bid>)
    requires BestBids(bids, best) && NonNegative(bids) && Enumerates(keys, best) && DistinctTokens(tokenIds)
    requires Descending(units) && NonNegative(units)
    ensures Instance(tokenIds, best, keys, units)
  {
    forall t | t in best ensures best[t].tokenId == t && best[t].price >= 0.0 {
      assert FirstDearest(bids, t, best[t]);
    }
  }

  /** The offers are worth at least any assignment drawn from all bids. */
  lemma OffersBeatBook(tokenIds: seq<string>, bids: seq<Bid>, best: map<string, Bid>, keys: seq<string>, book: seq<Bid>,
                       addr: string, picks: seq<Pick>)
    requires DistinctTokens(tokenIds) && OpenBook(book) && NonNegative(bids)
    requires forall b :: b in bids ==> b.tokenId in tokenIds
    requires BestBids(bids, best) && Enumerates(keys, best)
    requires BookAssignment(tokenIds, bids, book, picks)
    ensures var units := Cut(Expand(Cut(book, |tokenIds|)), |tokenIds|);
      Value(picks) <= Total(Process(tokenIds, best, keys, units, addr))
  {
    TopNIsWholeBook(book, |tokenIds|);
    forall t | t in best ensures t in tokenIds {
      assert FirstDearest(bids, t, best[t]);
    }
    ProcessCut(tokenIds, best, keys, Expand(book), addr);
    UnitsNonNegative(book);
    BestIsInstance(tokenIds, bids, best, keys, Expand(book));
    BookWithinBest(tokenIds, bids, best, book, picks);
    ProcessIsOptimal(tokenIds, best, keys, Expand(book), addr, picks);
  }

  /** The offers are themselves drawn from the bids. */
  lemma OffersFromBook(tokenIds: seq<string>, bids: seq<Bid>, best: map<string, Bid>, keys: seq<string>, book: seq<Bid>, addr: string)
    returns (picks: seq<Pick>)
    requires DistinctTokens(tokenIds) && OpenBook(book) && NonNegative(bids)
    requires forall b :: b in bids ==> b.tokenId in tokenIds
    requires BestBids(bids, best) && Enumerates(keys, best)
    ensures BookAssignment(tokenIds, bids, book, picks)
    ensures var units := Cut(Expand(Cut(book, |tokenIds|)), |tokenIds|);
      Value(picks) == Total(Process(tokenIds, best, keys, units, addr))
  {
    TopNIsWholeBook(book, |tokenIds|);
    forall t | t in best ensures t in tokenIds {
      assert FirstDearest(bids, t, best[t]);
    }
    ProcessCut(tokenIds, best, keys, Expand(book), addr);
    UnitsNonNegative(book);
    BestIsInstance(tokenIds, bids, best, keys, Expand(book));
    picks := OffersAreAssignment(tokenIds, best, keys, Expand(book), addr);
    BestWithinBook(tokenIds, bids, best, book, picks);
  }

  lemma BestWithinBook(tokenIds: seq<string>, bids: seq<Bid>, best: map<string, Bid>, book: seq<Bid>, picks: seq<Pick>)
    requires Assignment(Universe(tokenIds, best), best, Expand(book), picks) && BestOwn(best, picks)
    requires BestBids(bids, best) && forall t :: t in best ==> t in tokenIds
    ensures BookAssignment(tokenIds, bids, book, picks)
  {
    forall i | 0 <= i < |picks| ensures FromBook(tokenIds, bids, book, picks[i]) {
      var p := picks[i];
      assert Possible(Universe(tokenIds, best), best, Expand(book), p);
      if p.source.Own? {
        assert FirstDearest(bids, p.token, best[p.token]);
      }
    }
  }

  // ---- no order is used beyond its quantity ----

  /** Open orders, each with an id of its own. */
  ghost predicate OwnIds(bids: seq<Bid>, book: seq<Bid>) {
    && (forall i, j :: 0 <= i < j < |book| ==> book[i].orderID != book[j].orderID)
    && (forall b, c :: b in bids && c in bids && b.orderID == c.orderID ==> b == c)
    && (forall b, c :: b in bids && c in book ==> b.orderID != c.orderID)
    && (forall b :: b in bids ==> b.quantityRemaining >= 1)
  }

  lemma BestInBids(bids: seq<Bid>, best: map<string, Bid>)
    requires BestBids(bids, best)
    ensures Keyed(best) && forall t :: t in best ==> best[t] in bids
  {
    forall t | t in best ensures best[t].tokenId == t && best[t] in bids {
      assert FirstDearest(bids, t, best[t]);
    }
  }

  lemma OwnIdsDistinct(bids: seq<Bid>, best: map<string, Bid>, book: seq<Bid>, units: seq<Bid>)
    requires OwnIds(bids, book) && BestBids(bids, best) && forall x :: x in units ==> x in book
    ensures DistinctOrders(units, best)
  {
    BestInBids(bids, best);
    forall i, j | 0 <= i < |units| && 0 <= j < |units| && units[i].orderID == units[j].orderID ensures units[i] == units[j] {
      assert units[i] in book && units[j] in book;
    }
    forall i, t | 0 <= i < |units| && t in best ensures units[i].orderID != best[t].orderID {
      assert units[i] in book;
    }
  }

  /** No order, of the book or on an item, stands behind more offers than it has units left. */
  lemma WithinQuantity(tokenIds: seq<string>, bids: seq<Bid>, best: map<string, Bid>, keys: seq<string>, book: seq<Bid>,
                       addr: string, b: Bid)
    requires OpenBook(book) && OwnIds(bids, book) && BestBids(bids, best) && Enumerates(keys, best)
    requires b in book || b in bids
    ensures var offers := Process(tokenIds, best, keys, Cut(Expand(Cut(book, |tokenIds|)), |tokenIds|), addr);
      Naming(offers, b.orderID, 0, |offers|) <= b.quantityRemaining
  {
    var units := Cut(Expand(Cut(book, |tokenIds|)), |tokenIds|);
    TopNUnits(book, |tokenIds|);
    OwnIdsDistinct(bids, best, book, units);
    BestInBids(bids, best);
    NoOrderOverused(tokenIds, best, keys, units, addr, b);
    if b !in units && !(b.tokenId in best && best[b.tokenId] == b) {
      NotOffered(tokenIds, bids, best, keys, book, units, addr, b);
    }
  }

  lemma NotOffered(tokenIds: seq<string>, bids: seq<Bid>, best: map<string, Bid>, keys: seq<string>, book: seq<Bid>, units: seq<Bid>,
                   addr: string, b: Bid)
    requires OwnIds(bids, book) && BestBids(bids, best) && Enumerates(keys, best) && Descending(units)
    requires (b in book || b in bids) && b !in units && !(b.tokenId in best && best[b.tokenId] == b)
    requires forall x :: x in units ==> x in book
    ensures var offers := Process(tokenIds, best, keys, units, addr); Naming(offers, b.orderID, 0, |offers|) == 0
  {
    var offers := Process(tokenIds, best, keys, units, addr);
    BestInBids(bids, best);
    OffersRepeatBids(tokenIds, best, keys, units, addr);
    forall x | x in units ensures x.orderID != b.orderID {
      assert x in book;
    }
    NamingNone(offers, b.orderID, 0, |offers|);
  }

  /** Each token is asked for once, and the queries answer from the book and the tokens. */
  ghost predicate WellAsked(tokenIds: seq<string>, bids: seq<Bid>, book: seq<Bid>, topRows: seq<Bid>) {
    && DistinctTokens(tokenIds) && OpenBook(book) && NonNegative(bids)
    && (forall b :: b in bids ==> b.tokenId in tokenIds)
    && topRows == Cut(book, |tokenIds|)
  }

  /** GetOrderInfos after its queries: bids are the item bids, topRows the first rows of the
      collection's book. ranged is the order in which Go ranges over a map. */
  method GetOrderInfos(tokenIds: seq<string>, bids: seq<Bid>, ghost book: seq<Bid>, topRows: seq<Bid>, collectionAddr: string,
                       ranged: map<string, Bid> -> seq<string>) returns (offers: seq<ItemBid>)
    requires forall m :: Enumerates(ranged(m), m)
    ensures exists best :: (
      && BestBids(bids, best) && Enumerates(ranged(best), best)
      && offers == Process(tokenIds, best, ranged(best), Cut(Expand(topRows), |tokenIds|), collectionAddr))
    ensures WellAsked(tokenIds, bids, book, topRows) ==>
      && (forall picks :: BookAssignment(tokenIds, bids, book, picks) ==> Value(picks) <= Total(offers))
      && (exists picks :: BookAssignment(tokenIds, bids, book, picks) && Value(picks) == Total(offers))
    ensures OpenBook(book) && OwnIds(bids, book) && topRows == Cut(book, |tokenIds|) ==>
      forall b :: b in book || b in bids ==> Naming(offers, b.orderID, 0, |offers|) <= b.quantityRemaining
  {
    var itemsBestBids := FoldBestBids(bids);
    var collectionBids := TopNBid(topRows, |tokenIds|);
    offers := ProcessBids(tokenIds, itemsBestBids, ranged(itemsBestBids), collectionBids, collectionAddr);
    if OpenBook(book) && OwnIds(bids, book) && topRows == Cut(book, |tokenIds|) {
      forall b | b in book || b in bids ensures Naming(offers, b.orderID, 0, |offers|) <= b.quantityRemaining {
        WithinQuantity(tokenIds, bids, itemsBestBids, ranged(itemsBestBids), book, collectionAddr, b);
      }
    }
    if WellAsked(tokenIds, bids, book, topRows) {
      var _ := OffersFromBook(tokenIds, bids, itemsBestBids, ranged(itemsBestBids), book, collectionAddr);
      forall picks | BookAssignment(tokenIds, bids, book, picks) ensures Value(picks) <= Total(offers) {
        OffersBeatBook(tokenIds, bids, itemsBestBids, ranged(itemsBestBids), book, collectionAddr, picks);
      }
    }
  }
}
