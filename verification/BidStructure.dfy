/** What the offers look like: units 0, 1, 2, ... go to the tokens without a bid and then to
    the cheapest item bids, and from the first kept item bid on every item bid is kept. */
module BidStructure {
  import opened Common
  import opened Sorting
  import opened BidBook
  import opened BidOffers

  ghost predicate DistinctTokens(tokens: seq<string>) {
    forall i, j :: 0 <= i < j < |tokens| ==> tokens[i] != tokens[j]
  }

  /** The bids of a map, whose keys are the bids' tokens. */
  ghost predicate Keyed(best: map<string, Bid>) {
    forall t :: t in best ==> best[t].tokenId == t
  }

  function Sorted(best: map<string, Bid>, keys: seq<string>): seq<Bid>
    requires forall k :: k in keys ==> k in best
  {
    StableSort(BidsOf(keys, best), Price)
  }

  function TokensOf(bids: seq<Bid>): seq<string> {
    seq(|bids|, i requires 0 <= i < |bids| => bids[i].tokenId)
  }

  // ---- sorting the map's bids ----

  lemma {:induction false} OccursOnce(s: seq<Bid>, b: Bid)
    requires forall i, j :: 0 <= i < j < |s| ==> s[i] != s[j]
    ensures multiset(s)[b] <= 1
  {
    if s != [] {
      var n := |s| - 1;
      OccursOnce(s[..n], b);
      assert s == s[..n] + [s[n]];
      if s[n] == b { assert b !in s[..n]; }
    }
  }

  lemma OccursTwice(s: seq<Bid>, i: nat, j: nat)
    requires i < j < |s| && s[i] == s[j]
    ensures multiset(s)[s[i]] >= 2
  {
    assert s == s[..j] + s[j..];
    assert s[i] in s[..j] && s[j] in s[j..];
  }

  /** The sorted bids are the map's bids, each once. */
  lemma SortedBids(best: map<string, Bid>, keys: seq<string>)
    requires Enumerates(keys, best) && Keyed(best)
    ensures var s := Sorted(best, keys);
      && SortedBy(s, Price)
      && (forall b :: b in s <==> b.tokenId in best && b == best[b.tokenId])
      && DistinctTokens(TokensOf(s))
  {
    var all, s := BidsOf(keys, best), Sorted(best, keys);
    StableSortSorts(all, Price);
    MapsBids(best, keys);
    forall b ensures b in s <==> b in all {
      assert b in s <==> b in multiset(s);
      assert b in all <==> b in multiset(all);
    }
    SortedOnce(all, s);
  }

  lemma MapsBids(best: map<string, Bid>, keys: seq<string>)
    requires Enumerates(keys, best) && Keyed(best)
    ensures var all := BidsOf(keys, best);
      && (forall b :: b in all <==> b.tokenId in best && b == best[b.tokenId])
      && (forall i, j :: 0 <= i < j < |all| ==> all[i] != all[j])
      && (forall b, c :: b in all && c in all && b.tokenId == c.tokenId ==> b == c)
  {
    var all := BidsOf(keys, best);
    forall i | 0 <= i < |all| ensures all[i] == best[keys[i]] && all[i].tokenId == keys[i] {
      assert keys[i] in keys;
    }
    forall b: Bid | b.tokenId in best && b == best[b.tokenId] ensures b in all {
      var i :| 0 <= i < |keys| && keys[i] == b.tokenId;
      assert all[i] == b;
    }
  }

  /** Bids that are all different, in another order: one for each token, if they were. */
  lemma SortedOnce(all: seq<Bid>, s: seq<Bid>)
    requires multiset(s) == multiset(all) && forall i, j :: 0 <= i < j < |all| ==> all[i] != all[j]
    requires forall b, c :: b in all && c in all && b.tokenId == c.tokenId ==> b == c
    ensures DistinctTokens(TokensOf(s))
  {
    forall i, j | 0 <= i < j < |s| ensures s[i].tokenId != s[j].tokenId {
      assert s[i] in multiset(s) && s[j] in multiset(s);
      if s[i] == s[j] { OccursTwice(s, i, j); }
      OccursOnce(all, s[i]);
    }
  }

  lemma {:induction false} WithoutTokens(tokenIds: seq<string>, best: map<string, Bid>)
    ensures forall t :: t in Without(tokenIds, best) <==> t in tokenIds && t !in best
    ensures DistinctTokens(tokenIds) ==> DistinctTokens(Without(tokenIds, best))
  {
    if tokenIds != [] {
      var n := |tokenIds| - 1;
      WithoutTokens(tokenIds[..n], best);
      assert tokenIds == tokenIds[..n] + [tokenIds[n]];
      if DistinctTokens(tokenIds) {
        assert tokenIds[n] !in tokenIds[..n];
      }
    }
  }

  // ---- replacing item bids ----

  /** The offers of a run of item bids: a leading part of the bids is replaced by the units
      from c up to next, in turn, each paying more; the rest is kept. */
  ghost predicate Splits(offers: seq<ItemBid>, sorted: seq<Bid>, units: seq<Bid>, c: nat, next: nat, addr: string) {
    && |offers| == |sorted| && c <= next <= |units| && next - c <= |sorted|
    && (forall i :: 0 <= i < next - c ==>
          units[c + i].price > sorted[i].price && offers[i] == Offer(units[c + i], sorted[i].tokenId, addr))
    && (forall i :: next - c <= i < |sorted| ==>
          !Beats(units, next, sorted[i]) && offers[i] == Offer(sorted[i], sorted[i].tokenId, addr))
  }

  /** Cheapest item bids first against dearest units first. */
  lemma {:induction false} ReplaceSplits(sorted: seq<Bid>, units: seq<Bid>, c: nat, addr: string)
    requires SortedBy(sorted, Price) && Descending(units) && c <= |units|
    ensures Splits(Replace(sorted, units, c, addr).0, sorted, units, c, Replace(sorted, units, c, addr).1, addr)
  {
    if sorted != [] {
      var n := |sorted| - 1;
      ReplaceSplits(sorted[..n], units, c, addr);
      var next := Replace(sorted[..n], units, c, addr).1;
      if next - c < n {
        assert Price(sorted[next - c]) <= Price(sorted[n]);
        assert !Beats(units, next, sorted[..n][next - c]);
      }
    }
  }

  // ---- the offers as a whole ----

  /** The tokens in the order they are given offers. */
  function Offered(tokenIds: seq<string>, best: map<string, Bid>, keys: seq<string>, units: seq<Bid>): seq<string>
    requires forall k :: k in keys ==> k in best
  {
    var free := Without(tokenIds, best);
    free[..Min(|free|, |units|)] + TokensOf(Sorted(best, keys))
  }

  /** The number of units given out. */
  function UnitsUsed(tokenIds: seq<string>, best: map<string, Bid>, keys: seq<string>, units: seq<Bid>): nat
    requires forall k :: k in keys ==> k in best
  {
    Replace(Sorted(best, keys), units, Min(|Without(tokenIds, best)|, |units|), "").1
  }

  lemma {:induction false} NextIgnoresAddress(sorted: seq<Bid>, units: seq<Bid>, c: nat, a: string, b: string)
    ensures Replace(sorted, units, c, a).1 == Replace(sorted, units, c, b).1
  {
    if sorted != [] { NextIgnoresAddress(sorted[..|sorted| - 1], units, c, a, b); }
  }

  /** The first used offers take units 0, 1, 2, ..., each once and for more than the token's
      own bid; all later offers are item bids. */
  ghost predicate Shape(offers: seq<ItemBid>, tokens: seq<string>, used: nat, best: map<string, Bid>, units: seq<Bid>, addr: string) {
    && |offers| == |tokens| && used <= |units| && used <= |tokens|
    && (forall g :: 0 <= g < used ==>
          && offers[g] == Offer(units[g], tokens[g], addr)
          && (tokens[g] in best ==> units[g].price > best[tokens[g]].price))
    && (forall g :: used <= g < |tokens| ==>
          tokens[g] in best && offers[g] == Offer(best[tokens[g]], tokens[g], addr))
  }

  /** No token gets two offers. Every token with an item bid gets one, never for less than
      the bid, and the units go out in order, each once; no unit goes out after the first
      kept item bid. */
  lemma OffersStructure(tokenIds: seq<string>, best: map<string, Bid>, keys: seq<string>, units: seq<Bid>, addr: string)
    requires Enumerates(keys, best) && Keyed(best) && Descending(units) && DistinctTokens(tokenIds)
    ensures var tokens := Offered(tokenIds, best, keys, units);
      && Shape(Process(tokenIds, best, keys, units, addr), tokens, UnitsUsed(tokenIds, best, keys, units), best, units, addr)
      && DistinctTokens(tokens) && (forall t :: t in best ==> t in tokens)
  {
    var free, s := Without(tokenIds, best), Sorted(best, keys);
    SortedBids(best, keys);
    WithoutTokens(tokenIds, best);
    OwnBids(s, best);
    ShapeOf(free, s, best, units, Min(|free|, |units|), addr);
    NextIgnoresAddress(s, units, Min(|free|, |units|), addr, "");
    OneOfferEach(free, s, best, Min(|free|, |units|));
  }

  lemma OneOfferEach(free: seq<string>, s: seq<Bid>, best: map<string, Bid>, m: nat)
    requires m <= |free| && DistinctTokens(free) && DistinctTokens(TokensOf(s)) && Keyed(best)
    requires (forall t :: t in free ==> t !in best) && forall b :: b in s <==> b.tokenId in best && b == best[b.tokenId]
    ensures var tokens := free[..m] + TokensOf(s);
      DistinctTokens(tokens) && forall t :: t in best ==> t in tokens
  {
    OfferedDistinct(free, s, best, m);
    OfferedCovers(free, s, best, m);
  }

  lemma OwnBids(s: seq<Bid>, best: map<string, Bid>)
    requires forall b :: b in s ==> b.tokenId in best && b == best[b.tokenId]
    ensures forall i :: 0 <= i < |s| ==> s[i].tokenId in best && s[i] == best[s[i].tokenId]
  {
    forall i | 0 <= i < |s| ensures s[i].tokenId in best && s[i] == best[s[i].tokenId] {
      assert s[i] in s;
    }
  }

  lemma OfferedCovers(free: seq<string>, s: seq<Bid>, best: map<string, Bid>, m: nat)
    requires m <= |free| && Keyed(best) && forall t :: t in best ==> best[t] in s
    ensures forall t :: t in best ==> t in free[..m] + TokensOf(s)
  {
    forall t | t in best ensures t in free[..m] + TokensOf(s) {
      var i :| 0 <= i < |s| && s[i] == best[t];
      assert TokensOf(s)[i] == t;
    }
  }

  lemma JoinShape(served: seq<ItemBid>, free: seq<string>, offers: seq<ItemBid>, s: seq<Bid>, used: nat,
                  best: map<string, Bid>, units: seq<Bid>, addr: string)
    requires |served| == |free| && Splits(offers, s, units, |free|, used, addr)
    requires forall g :: 0 <= g < |free| ==> free[g] !in best && served[g] == Offer(units[g], free[g], addr)
    requires forall i :: 0 <= i < |s| ==> s[i].tokenId in best && s[i] == best[s[i].tokenId]
    ensures Shape(served + offers, free + TokensOf(s), used, best, units, addr)
  {
    var m, all, tokens := |free|, served + offers, free + TokensOf(s);
    forall g | 0 <= g < used
      ensures all[g] == Offer(units[g], tokens[g], addr) && (tokens[g] in best ==> units[g].price > best[tokens[g]].price)
    {
      if g < m {
        assert all[g] == served[g] && tokens[g] == free[g];
      } else {
        var i := g - m;
        assert all[g] == offers[i] && tokens[g] == s[i].tokenId && units[m + i].price > s[i].price;
      }
    }
    forall g | used <= g < |tokens| ensures tokens[g] in best && all[g] == Offer(best[tokens[g]], tokens[g], addr) {
      var i := g - m;
      assert all[g] == offers[i] && tokens[g] == s[i].tokenId && s[i] == best[s[i].tokenId];
    }
  }

  lemma ServedAt(free: seq<string>, units: seq<Bid>, addr: string, best: map<string, Bid>)
    requires forall t :: t in free ==> t !in best
    ensures var m := Min(|free|, |units|);
      forall g :: 0 <= g < m ==> free[..m][g] !in best && Serve(free, units, addr)[g] == Offer(units[g], free[..m][g], addr)
  {
    var m := Min(|free|, |units|);
    forall g | 0 <= g < m ensures free[..m][g] !in best {
      assert free[g] in free;
    }
  }

  lemma ShapeOf(free: seq<string>, s: seq<Bid>, best: map<string, Bid>, units: seq<Bid>, m: nat, addr: string)
    requires m == Min(|free|, |units|) && SortedBy(s, Price) && Descending(units)
    requires forall t :: t in free ==> t !in best
    requires forall i :: 0 <= i < |s| ==> s[i].tokenId in best && s[i] == best[s[i].tokenId]
    ensures var (offers, used) := Replace(s, units, m, addr);
      Shape(Serve(free, units, addr) + offers, free[..m] + TokensOf(s), used, best, units, addr)
  {
    ReplaceSplits(s, units, m, addr);
    var (offers, used) := Replace(s, units, m, addr);
    ServedAt(free, units, addr, best);
    JoinShape(Serve(free, units, addr), free[..m], offers, s, used, best, units, addr);
  }

  lemma OfferedDistinct(free: seq<string>, s: seq<Bid>, best: map<string, Bid>, m: nat)
    requires m <= |free| && DistinctTokens(TokensOf(s))
    requires (forall t :: t in free ==> t !in best) && (forall b :: b in s ==> b.tokenId in best)
    ensures DistinctTokens(free[..m] + TokensOf(s)) <==> DistinctTokens(free[..m])
  {
    var tokens := free[..m] + TokensOf(s);
    assert forall i :: 0 <= i < m ==> tokens[i] == free[i] && free[i] in free;
    assert forall i :: m <= i < |tokens| ==> s[i - m] in s && tokens[i] == TokensOf(s)[i - m];
  }

  // ---- tokens asked for repeatedly ----

  function OfferTokens(offers: seq<ItemBid>): seq<string> {
    seq(|offers|, g requires 0 <= g < |offers| => offers[g].tokenId)
  }

  /** Each item bid yields one offer for its token, replaced or not. */
  lemma {:induction false} ReplaceTokens(sorted: seq<Bid>, units: seq<Bid>, c: nat, addr: string)
    ensures var offers := Replace(sorted, units, c, addr).0;
      |offers| == |sorted| && forall i :: 0 <= i < |sorted| ==> offers[i].tokenId == sorted[i].tokenId
  {
    if sorted != [] { ReplaceTokens(sorted[..|sorted| - 1], units, c, addr); }
  }

  lemma ReplacedTokens(sorted: seq<Bid>, units: seq<Bid>, c: nat, addr: string)
    ensures OfferTokens(Replace(sorted, units, c, addr).0) == TokensOf(sorted)
  {
    ReplaceTokens(sorted, units, c, addr);
  }

  /** The offers' tokens, repeated or not, are the tokens Offered lists. */
  lemma TokensAreOffered(tokenIds: seq<string>, best: map<string, Bid>, keys: seq<string>, units: seq<Bid>, addr: string)
    requires forall k :: k in keys ==> k in best
    ensures OfferTokens(Process(tokenIds, best, keys, units, addr)) == Offered(tokenIds, best, keys, units)
  {
    var free := Without(tokenIds, best);
    var m := Min(|free|, |units|);
    ReplacedTokens(Sorted(best, keys), units, m, addr);
    ServedTokens(free, units, addr);
    JoinTokens(Serve(free, units, addr), Replace(Sorted(best, keys), units, m, addr).0);
  }

  lemma ServedTokens(free: seq<string>, units: seq<Bid>, addr: string)
    ensures OfferTokens(Serve(free, units, addr)) == free[..Min(|free|, |units|)]
  {
  }

  lemma JoinTokens(a: seq<ItemBid>, b: seq<ItemBid>)
    ensures OfferTokens(a + b) == OfferTokens(a) + OfferTokens(b)
  {
  }

  /** Whatever tokens are asked for: no token gets two offers exactly when no token without a
      bid is served twice, that is, when the first of them, as many as there are units, differ. */
  lemma NoTokenTwiceExactly(tokenIds: seq<string>, best: map<string, Bid>, keys: seq<string>, units: seq<Bid>, addr: string)
    requires Enumerates(keys, best) && Keyed(best)
    ensures var free := Without(tokenIds, best);
      DistinctTokens(OfferTokens(Process(tokenIds, best, keys, units, addr))) <==> DistinctTokens(free[..Min(|free|, |units|)])
  {
    var free, s := Without(tokenIds, best), Sorted(best, keys);
    TokensAreOffered(tokenIds, best, keys, units, addr);
    SortedBids(best, keys);
    WithoutTokens(tokenIds, best);
    OfferedDistinct(free, s, best, Min(|free|, |units|));
  }

  /** A token asked for twice, without a bid on it, gets two units. */
  lemma TokenServedTwice(unit: Bid, addr: string)
    ensures OfferTokens(Process(["7", "7"], map[], [], [unit, unit], addr)) == ["7", "7"]
  {
    TokensAreOffered(["7", "7"], map[], [], [unit, unit], addr);
    assert ["7", "7"][..1] == ["7"] && ["7"][..0] == [];
    assert Without(["7"], map[]) == ["7"];
    assert Without(["7", "7"], map[]) == ["7", "7"];
  }
}
