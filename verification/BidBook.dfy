/** Bids on a collection and its items: the best bid of each item, and the collection bids
    expanded into single units. */
module BidBook {

  datatype Bid = Bid(marketplaceId: int, tokenId: string, orderID: string, eventTime: int, expireTime: int,
                     price: real, salt: int, size: int, quantityRemaining: int, maker: string, orderType: int)

  function Price(b: Bid): real { b.price }

  // ---- the best bid of each item ----

  /** One bid per token: the first of the token's dearest bids. */
  ghost predicate BestBids(bids: seq<Bid>, best: map<string, Bid>) {
    && (forall b :: b in bids ==> b.tokenId in best && b.price <= best[b.tokenId].price)
    && (forall t :: t in best ==> FirstDearest(bids, t, best[t]))
  }

  ghost predicate FirstDearest(bids: seq<Bid>, tokenId: string, b: Bid) {
    exists i :: 0 <= i < |bids| && bids[i] == b && b.tokenId == tokenId
      && forall j :: 0 <= j < i && bids[j].tokenId == tokenId ==> bids[j].price < b.price
  }

  /** The fold in GetOrderInfos. */
  method FoldBestBids(bids: seq<Bid>) returns (itemsBestBids: map<string, Bid>)
    ensures BestBids(bids, itemsBestBids)
  {
    itemsBestBids := map[];
    for i := 0 to |bids|
      invariant BestBids(bids[..i], itemsBestBids)
    {
      var bid := bids[i];
      ghost var before := itemsBestBids;
      if bid.tokenId !in itemsBestBids {
        itemsBestBids := itemsBestBids[bid.tokenId := bid];
      } else if bid.price > itemsBestBids[bid.tokenId].price {
        itemsBestBids := itemsBestBids[bid.tokenId := bid];
      }
      OneMoreBid(bids[..i], before, bid);
      assert bids[..i + 1] == bids[..i] + [bid];
    }
    assert bids[..|bids|] == bids;
  }

  lemma OneMoreBid(bids: seq<Bid>, best: map<string, Bid>, bid: Bid)
    requires BestBids(bids, best)
    ensures BestBids(bids + [bid],
              if bid.tokenId !in best || bid.price > best[bid.tokenId].price then best[bid.tokenId := bid] else best)
  {
    var dearer := bid.tokenId !in best || bid.price > best[bid.tokenId].price;
    var best' := if dearer then best[bid.tokenId := bid] else best;
    forall b | b in bids + [bid] ensures b.tokenId in best' && b.price <= best'[b.tokenId].price {
      assert b in bids || b == bid;
    }
    forall t | t in best' ensures FirstDearest(bids + [bid], t, best'[t]) {
      if dearer && t == bid.tokenId {
        NewDearest(bids, best, bid);
      } else {
        FirstDearestStays(bids, bid, t, best[t]);
      }
    }
  }

  lemma NewDearest(bids: seq<Bid>, best: map<string, Bid>, bid: Bid)
    requires BestBids(bids, best) && (bid.tokenId in best ==> bid.price > best[bid.tokenId].price)
    ensures FirstDearest(bids + [bid], bid.tokenId, bid)
  {
    var all := bids + [bid];
    assert all[|bids|] == bid;
    forall j | 0 <= j < |bids| && all[j].tokenId == bid.tokenId ensures all[j].price < bid.price {
      assert bids[j] in bids;
    }
  }

  lemma FirstDearestStays(bids: seq<Bid>, bid: Bid, tokenId: string, b: Bid)
    requires FirstDearest(bids, tokenId, b)
    ensures FirstDearest(bids + [bid], tokenId, b)
  {
    var i :| 0 <= i < |bids| && bids[i] == b && b.tokenId == tokenId
      && forall j :: 0 <= j < i && bids[j].tokenId == tokenId ==> bids[j].price < b.price;
    assert (bids + [bid])[i] == b;
  }

  // ---- collection bids as units ----

  ghost predicate Descending(bids: seq<Bid>) {
    forall i, j :: 0 <= i < j < |bids| ==> bids[i].price >= bids[j].price
  }

  function Units(b: Bid): seq<Bid> {
    if b.quantityRemaining <= 0 then [] else seq(b.quantityRemaining, _ => b)
  }

  /** Every bid once for each unit it still wants. */
  function Expand(book: seq<Bid>): seq<Bid> {
    if book == [] then [] else Expand(book[..|book| - 1]) + Units(book[|book| - 1])
  }

  function Cut<T>(s: seq<T>, n: nat): seq<T> {
    if |s| <= n then s else s[..n]
  }

  /** QueryCollectionTopNBid after its query, which returns the first num rows of the book. */
  method TopNBid(bestBids: seq<Bid>, num: nat) returns (results: seq<Bid>)
    ensures results == Cut(Expand(bestBids), num)
  {
    results := [];
    for i := 0 to |bestBids|
      invariant results == Expand(bestBids[..i])
    {
      ghost var before := results;
      var j := 0;
      while j < bestBids[i].quantityRemaining
        invariant 0 <= j && (j == 0 || j <= bestBids[i].quantityRemaining)
        invariant results == before + seq(j, _ => bestBids[i])
      {
        results := results + [bestBids[i]];
        j := j + 1;
      }
      assert bestBids[..i + 1][..i] == bestBids[..i];
    }
    assert bestBids[..|bestBids|] == bestBids;
    if num > |results| {
      return results;
    }
    return results[..num];
  }

  lemma {:induction false} ExpandAppend(a: seq<Bid>, b: seq<Bid>)
    ensures Expand(a + b) == Expand(a) + Expand(b)
  {
    if b == [] {
      assert a + b == a;
    } else {
      assert (a + b)[..|a + b| - 1] == a + b[..|b| - 1];
      ExpandAppend(a, b[..|b| - 1]);
    }
  }

  lemma {:induction false} ExpandAtLeast(book: seq<Bid>)
    requires forall i :: 0 <= i < |book| ==> book[i].quantityRemaining >= 1
    ensures |Expand(book)| >= |book|
  {
    if book != [] { ExpandAtLeast(book[..|book| - 1]); }
  }

  lemma ExpandSplit(book: seq<Bid>, num: nat)
    requires num <= |book| && forall i :: 0 <= i < |book| ==> book[i].quantityRemaining >= 1
    ensures Expand(book) == Expand(book[..num]) + Expand(book[num..])
    ensures |Expand(book[..num])| >= num
  {
    assert book == book[..num] + book[num..];
    ExpandAppend(book[..num], book[num..]);
    ExpandAtLeast(book[..num]);
  }

  /** Limiting the query to num rows loses nothing: cutting the expansion of the whole book
      to num units gives the same sequence. */
  lemma TopNIsWholeBook(book: seq<Bid>, num: nat)
    requires forall i :: 0 <= i < |book| ==> book[i].quantityRemaining >= 1
    ensures Cut(Expand(Cut(book, num)), num) == Cut(Expand(book), num)
  {
    if |book| > num {
      ExpandSplit(book, num);
      CutPrefix(Expand(book[..num]), Expand(book[num..]), num);
    }
  }

  lemma CutPrefix(a: seq<Bid>, b: seq<Bid>, n: nat)
    requires |a| >= n
    ensures Cut(a + b, n) == Cut(a, n)
  {
    assert (a + b)[..n] == a[..n];
    if |a| == n { assert a[..n] == a; }
  }

  function TotalQuantity(book: seq<Bid>): int {
    if book == [] then 0 else TotalQuantity(book[..|book| - 1]) + |Units(book[|book| - 1])|
  }

  lemma {:induction false} CountSame(n: nat, b: Bid, x: Bid)
    ensures multiset(seq(n, _ => b))[x] == if b == x then n else 0
  {
    if n > 0 {
      assert seq(n, _ => b) == seq(n - 1, _ => b) + [b];
      CountSame(n - 1, b, x);
    }
  }

  /** Units come from the book in price order, each row as often as it has units left. */
  lemma {:induction false} ExpandKeeps(book: seq<Bid>)
    requires Descending(book)
    ensures Descending(Expand(book))
    ensures |Expand(book)| == TotalQuantity(book)
    ensures forall i :: 0 <= i < |Expand(book)| ==> Expand(book)[i] in book
  {
    if book != [] {
      var n := |book| - 1;
      var e, u := Expand(book[..n]), Units(book[n]);
      ExpandKeeps(book[..n]);
      forall i | 0 <= i < |e| ensures e[i].price >= book[n].price && e[i] in book {
        var k :| 0 <= k < n && book[..n][k] == e[i];
        assert book[k] == e[i] && book[k].price >= book[n].price;
      }
      UnitsJoin(e, book[n]);
    }
  }

  lemma UnitsJoin(e: seq<Bid>, b: Bid)
    requires Descending(e) && forall i :: 0 <= i < |e| ==> e[i].price >= b.price
    ensures Descending(e + Units(b))
    ensures forall i :: |e| <= i < |e + Units(b)| ==> (e + Units(b))[i] == b
  {
  }

  lemma UnitCount(b: Bid, x: Bid)
    requires b.quantityRemaining >= 0
    ensures multiset(Units(b))[x] == if b == x then b.quantityRemaining else 0
  {
    CountSame(b.quantityRemaining, b, x);
    assert Units(b) == seq(b.quantityRemaining, _ => b);
  }

  /** Each order's units: its remaining quantity, if the book holds it. */
  lemma {:induction false} ExpandCounts(book: seq<Bid>, x: Bid)
    requires forall i, j :: 0 <= i < j < |book| ==> book[i] != book[j]
    requires forall i :: 0 <= i < |book| ==> book[i].quantityRemaining >= 0
    ensures multiset(Expand(book))[x] == if x in book then x.quantityRemaining else 0
  {
    if book != [] {
      var n := |book| - 1;
      ExpandCounts(book[..n], x);
      UnitCount(book[n], x);
      assert book == book[..n] + [book[n]];
      assert book[n] !in book[..n];
    }
  }

  lemma {:induction false} CountPrefix(s: seq<Bid>, n: nat, x: Bid)
    requires n <= |s|
    ensures multiset(s[..n])[x] <= multiset(s)[x]
  {
    assert s == s[..n] + s[n..];
  }

  /** The units returned for a price-descending book of distinct open bids: as many as asked
      for if there are that many, dearest first, none used beyond its remaining quantity. */
  lemma TopNUnits(book: seq<Bid>, num: nat)
    requires Descending(book)
    requires forall i :: 0 <= i < |book| ==> book[i].quantityRemaining >= 1
    requires forall i, j :: 0 <= i < j < |book| ==> book[i] != book[j]
    ensures var units := Cut(Expand(Cut(book, num)), num);
      && |units| == (if num <= TotalQuantity(book) then num else TotalQuantity(book))
      && Descending(units)
      && (forall x :: x in book ==> multiset(units)[x] <= x.quantityRemaining)
      && (forall x :: x in units ==> x in book)
  {
    TopNIsWholeBook(book, num);
    ExpandKeeps(book);
    var e := Expand(book);
    forall x | x in book ensures multiset(Cut(e, num))[x] <= x.quantityRemaining {
      ExpandCounts(book, x);
      if num < |e| { CountPrefix(e, num, x); }
    }
  }
}
