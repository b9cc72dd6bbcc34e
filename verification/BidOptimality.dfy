/** No assignment of bids to tokens is worth more than the offers. The proof weighs every
    token and every unit against one threshold price that separates the units given out from
    those left, and the replaced item bids from those kept. */
module BidOptimality {
  import opened Common
  import opened Sorting
  import opened BidBook
  import opened BidOffers
  import opened BidStructure

  // ---- assignments ----

  /** Where the bid given to a token comes from: its own bids, or a unit of a collection bid. */
  datatype Source = Own | Unit(index: nat)

  datatype Pick = Pick(token: string, price: real, source: Source)

  /** The tokens that bids may be assigned to. */
  function Universe(tokenIds: seq<string>, best: map<string, Bid>): set<string> {
    (set t | t in tokenIds) + best.Keys
  }

  ghost predicate Possible(tokens: set<string>, best: map<string, Bid>, units: seq<Bid>, p: Pick) {
    && p.token in tokens
    && match p.source
       case Own => p.token in best && p.price <= best[p.token].price
       case Unit(j) => j < |units| && p.price == units[j].price
  }

  /** Each token gets at most one bid, its own or a unit, and each unit goes out at most once. */
  ghost predicate Assignment(tokens: set<string>, best: map<string, Bid>, units: seq<Bid>, picks: seq<Pick>) {
    && (forall i :: 0 <= i < |picks| ==> Possible(tokens, best, units, picks[i]))
    && (forall i, j :: 0 <= i < j < |picks| ==> picks[i].token != picks[j].token)
    && (forall i, j :: 0 <= i < j < |picks| && picks[i].source.Unit? ==> picks[i].source != picks[j].source)
  }

  /** A token's own pick is worth its best bid. */
  ghost predicate BestOwn(best: map<string, Bid>, picks: seq<Pick>) {
    forall i :: 0 <= i < |picks| && picks[i].source.Own? ==>
      picks[i].token in best && picks[i].price == best[picks[i].token].price
  }

  function Value(picks: seq<Pick>): real {
    if picks == [] then 0.0 else Value(picks[..|picks| - 1]) + picks[|picks| - 1].price
  }

  function Total(offers: seq<ItemBid>): real {
    if offers == [] then 0.0 else Total(offers[..|offers| - 1]) + offers[|offers| - 1].price
  }

  // ---- weights ----

  /** A token weighs its own bid or the threshold, whichever is more. */
  function TokenWeight(best: map<string, Bid>, price: real, t: string): real {
    if t in best && best[t].price > price then best[t].price else price
  }

  /** A unit weighs what it pays above the threshold. */
  function UnitWeight(units: seq<Bid>, price: real, j: nat): real
    requires j < |units|
  {
    if units[j].price > price then units[j].price - price else 0.0
  }

  /** The weight of those of the tokens that are in used. */
  function TokensWeigh(tokens: seq<string>, used: set<string>, best: map<string, Bid>, price: real): real {
    if tokens == [] then 0.0
    else
      var t := tokens[|tokens| - 1];
      TokensWeigh(tokens[..|tokens| - 1], used, best, price) + if t in used then TokenWeight(best, price, t) else 0.0
  }

  /** The weight of those of the first n units that are in used. */
  function UnitsWeigh(n: nat, used: set<nat>, units: seq<Bid>, price: real): real
    requires n <= |units|
  {
    if n == 0 then 0.0
    else UnitsWeigh(n - 1, used, units, price) + if n - 1 in used then UnitWeight(units, price, n - 1) else 0.0
  }

  lemma {:induction false} TokensWeighOneMore(tokens: seq<string>, used: set<string>, best: map<string, Bid>, price: real, t: string)
    requires DistinctTokens(tokens) && t !in used
    ensures TokensWeigh(tokens, used + {t}, best, price) ==
      TokensWeigh(tokens, used, best, price) + if t in tokens then TokenWeight(best, price, t) else 0.0
  {
    if tokens != [] {
      var n := |tokens| - 1;
      TokensWeighOneMore(tokens[..n], used, best, price, t);
      assert tokens == tokens[..n] + [tokens[n]];
      if tokens[n] == t { assert t !in tokens[..n]; }
    }
  }

  lemma {:induction false} UnitsWeighOneMore(n: nat, used: set<nat>, units: seq<Bid>, price: real, j: nat)
    requires n <= |units| && j !in used
    ensures UnitsWeigh(n, used + {j}, units, price) ==
      UnitsWeigh(n, used, units, price) + if j < n then UnitWeight(units, price, j) else 0.0
  {
    if n > 0 { UnitsWeighOneMore(n - 1, used, units, price, j); }
  }

  /** The weight of all the tokens. */
  function AllTokensWeigh(tokens: seq<string>, best: map<string, Bid>, price: real): real {
    if tokens == [] then 0.0
    else AllTokensWeigh(tokens[..|tokens| - 1], best, price) + TokenWeight(best, price, tokens[|tokens| - 1])
  }

  /** The weight of the first n units. */
  function AllUnitsWeigh(n: nat, units: seq<Bid>, price: real): real
    requires n <= |units|
  {
    if n == 0 then 0.0 else AllUnitsWeigh(n - 1, units, price) + UnitWeight(units, price, n - 1)
  }

  lemma {:induction false} AllTokensWeighMore(tokens: seq<string>, used: set<string>, best: map<string, Bid>, price: real)
    requires price >= 0.0
    ensures TokensWeigh(tokens, used, best, price) <= AllTokensWeigh(tokens, best, price)
  {
    if tokens != [] { AllTokensWeighMore(tokens[..|tokens| - 1], used, best, price); }
  }

  lemma {:induction false} AllUnitsWeighMore(n: nat, used: set<nat>, units: seq<Bid>, price: real)
    requires n <= |units|
    ensures UnitsWeigh(n, used, units, price) <= AllUnitsWeigh(n, units, price)
  {
    if n > 0 { AllUnitsWeighMore(n - 1, used, units, price); }
  }

  // ---- no assignment is worth more than the weights ----

  function PickedTokens(picks: seq<Pick>): set<string> {
    set i | 0 <= i < |picks| :: picks[i].token
  }

  function PickedUnits(picks: seq<Pick>): set<nat> {
    set i | 0 <= i < |picks| && picks[i].source.Unit? :: picks[i].source.index
  }

  lemma {:induction false} PicksWithinWeights(tokens: set<string>, best: map<string, Bid>, units: seq<Bid>, picks: seq<Pick>,
                                              roster: seq<string>, price: real)
    requires Assignment(tokens, best, units, picks) && price >= 0.0 && DistinctTokens(roster)
    requires forall t :: t in tokens && t !in roster ==> TokenWeight(best, price, t) == 0.0
    ensures Value(picks) <=
      TokensWeigh(roster, PickedTokens(picks), best, price) + UnitsWeigh(|units|, PickedUnits(picks), units, price)
  {
    if picks == [] {
      NothingWeighs(roster, best, price);
      NoUnitWeighs(|units|, units, price);
      assert PickedTokens([]) == {} && PickedUnits([]) == {};
    } else {
      var n := |picks| - 1;
      var p := picks[n];
      PicksWithinWeights(tokens, best, units, picks[..n], roster, price);
      LastPick(picks);
      PickWithinWeights(tokens, best, units, p, roster, price, PickedTokens(picks[..n]), PickedUnits(picks[..n]));
    }
  }

  /** One more pick adds at most its token's and its unit's weight. */
  lemma PickWithinWeights(tokens: set<string>, best: map<string, Bid>, units: seq<Bid>, p: Pick, roster: seq<string>, price: real,
                          usedTokens: set<string>, usedUnits: set<nat>)
    requires Possible(tokens, best, units, p) && price >= 0.0 && DistinctTokens(roster) && p.token !in usedTokens
    requires p.token !in roster ==> TokenWeight(best, price, p.token) == 0.0
    requires p.source.Unit? ==> p.source.index !in usedUnits
    ensures p.price + TokensWeigh(roster, usedTokens, best, price) + UnitsWeigh(|units|, usedUnits, units, price)
      <= TokensWeigh(roster, usedTokens + {p.token}, best, price)
         + UnitsWeigh(|units|, if p.source.Unit? then usedUnits + {p.source.index} else usedUnits, units, price)
  {
    TokensWeighOneMore(roster, usedTokens, best, price, p.token);
    if p.source.Unit? { UnitsWeighOneMore(|units|, usedUnits, units, price, p.source.index); }
  }

  lemma LastPick(picks: seq<Pick>)
    requires picks != []
    requires forall i, j :: 0 <= i < j < |picks| ==> picks[i].token != picks[j].token
    requires forall i, j :: 0 <= i < j < |picks| && picks[i].source.Unit? ==> picks[i].source != picks[j].source
    ensures var before, p := picks[..|picks| - 1], picks[|picks| - 1];
      && PickedTokens(picks) == PickedTokens(before) + {p.token} && p.token !in PickedTokens(before)
      && (p.source.Own? ==> PickedUnits(picks) == PickedUnits(before))
      && (p.source.Unit? ==>
           PickedUnits(picks) == PickedUnits(before) + {p.source.index} && p.source.index !in PickedUnits(before))
  {
    var n := |picks| - 1;
    var before := picks[..n];
    assert forall i :: 0 <= i < n ==> before[i] == picks[i];
    forall t | t in PickedTokens(picks) ensures t in PickedTokens(before) + {picks[n].token} {
      var i :| 0 <= i < |picks| && picks[i].token == t;
      if i < n { assert before[i].token == t; }
    }
    forall t | t in PickedTokens(before) ensures t in PickedTokens(picks) {
      var i :| 0 <= i < n && before[i].token == t;
      assert picks[i].token == t;
    }
    forall u | u in PickedUnits(picks) && !(picks[n].source.Unit? && picks[n].source.index == u) ensures u in PickedUnits(before) {
      var i :| 0 <= i < |picks| && picks[i].source.Unit? && picks[i].source.index == u;
      assert before[i].source.index == u;
    }
    forall u | u in PickedUnits(before) ensures u in PickedUnits(picks) {
      var i :| 0 <= i < n && before[i].source.Unit? && before[i].source.index == u;
      assert picks[i].source.index == u;
    }
  }

  lemma {:induction false} NothingWeighs(tokens: seq<string>, best: map<string, Bid>, price: real)
    ensures TokensWeigh(tokens, {}, best, price) == 0.0
  {
    if tokens != [] { NothingWeighs(tokens[..|tokens| - 1], best, price); }
  }

  lemma {:induction false} NoUnitWeighs(n: nat, units: seq<Bid>, price: real)
    requires n <= |units|
    ensures UnitsWeigh(n, {}, units, price) == 0.0
  {
    if n > 0 { NoUnitWeighs(n - 1, units, price); }
  }

  // ---- the offers are worth exactly the weights ----

  /** The threshold separates given units from left ones and replaced bids from kept ones. */
  ghost predicate Separates(price: real, tokens: seq<string>, used: nat, best: map<string, Bid>, units: seq<Bid>) {
    && price >= 0.0
    && (forall j :: 0 <= j < used && j < |units| ==> units[j].price >= price)
    && (forall j :: used <= j < |units| ==> units[j].price <= price)
    && (forall g :: 0 <= g < used && g < |tokens| && tokens[g] in best ==> best[tokens[g]].price <= price)
    && (forall g :: used <= g < |tokens| && tokens[g] in best ==> best[tokens[g]].price >= price)
  }

  /** The weight an offer stands for: its token's and, if it takes one, its unit's. */
  function OfferWeight(tokens: seq<string>, used: nat, best: map<string, Bid>, units: seq<Bid>, price: real, g: nat): real
    requires g < |tokens| && used <= |units|
  {
    TokenWeight(best, price, tokens[g]) + if g < used then UnitWeight(units, price, g) else 0.0
  }

  lemma OfferWorthWeight(offers: seq<ItemBid>, tokens: seq<string>, used: nat, best: map<string, Bid>,
                         units: seq<Bid>, addr: string, price: real)
    requires Shape(offers, tokens, used, best, units, addr) && Separates(price, tokens, used, best, units)
    ensures forall g :: 0 <= g < |tokens| ==> offers[g].price == OfferWeight(tokens, used, best, units, price, g)
  {
  }

  lemma {:induction false} OffersWorthWeights(offers: seq<ItemBid>, tokens: seq<string>, used: nat, best: map<string, Bid>,
                                              units: seq<Bid>, price: real)
    requires |offers| == |tokens| && used <= |units|
    requires forall g :: 0 <= g < |tokens| ==> offers[g].price == OfferWeight(tokens, used, best, units, price, g)
    ensures Total(offers) == AllTokensWeigh(tokens, best, price) + AllUnitsWeigh(Min(|tokens|, used), units, price)
  {
    if tokens != [] {
      var n := |tokens| - 1;
      forall g | 0 <= g < n ensures offers[..n][g].price == OfferWeight(tokens[..n], used, best, units, price, g) {
        assert offers[g].price == OfferWeight(tokens, used, best, units, price, g);
      }
      OffersWorthWeights(offers[..n], tokens[..n], used, best, units, price);
    }
  }

  lemma {:induction false} LeftUnitsWeighNothing(n: nat, used: nat, tokens: seq<string>, best: map<string, Bid>,
                                                 units: seq<Bid>, price: real)
    requires used <= n <= |units| && Separates(price, tokens, used, best, units)
    ensures AllUnitsWeigh(n, units, price) == AllUnitsWeigh(used, units, price)
  {
    if n > used { LeftUnitsWeighNothing(n - 1, used, tokens, best, units, price); }
  }

  /** Offers of this shape are worth at least as much as any assignment. */
  lemma SeparatedIsOptimal(offers: seq<ItemBid>, tokens: seq<string>, used: nat, universe: set<string>, best: map<string, Bid>,
                           units: seq<Bid>, addr: string, price: real, picks: seq<Pick>)
    requires Shape(offers, tokens, used, best, units, addr) && Separates(price, tokens, used, best, units)
    requires DistinctTokens(tokens) && Assignment(universe, best, units, picks)
    requires forall t :: t in universe && t !in tokens ==> TokenWeight(best, price, t) == 0.0
    ensures Value(picks) <= Total(offers)
  {
    PicksWithinWeights(universe, best, units, picks, tokens, price);
    AllTokensWeighMore(tokens, PickedTokens(picks), best, price);
    AllUnitsWeighMore(|units|, PickedUnits(picks), units, price);
    LeftUnitsWeighNothing(|units|, used, tokens, best, units, price);
    OfferWorthWeight(offers, tokens, used, best, units, addr, price);
    OffersWorthWeights(offers, tokens, used, best, units, price);
  }

  // ---- a threshold exists ----

  ghost predicate NonNegative(bids: seq<Bid>) {
    forall i :: 0 <= i < |bids| ==> bids[i].price >= 0.0
  }

  /** The dearer of the first unit left and the last item bid replaced. */
  function Threshold(s: seq<Bid>, units: seq<Bid>, m: nat, used: nat): real
    requires m <= used <= m + |s|
  {
    var left := if used < |units| then units[used].price else 0.0;
    var replaced := if used > m then s[used - m - 1].price else 0.0;
    if left > replaced then left else replaced
  }

  lemma PricesAround(s: seq<Bid>, k: nat)
    requires k < |s| && SortedBy(s, Price)
    ensures forall i :: 0 <= i <= k ==> s[i].price <= s[k].price
    ensures forall i :: k <= i < |s| ==> s[i].price >= s[k].price
  {
    forall i | 0 <= i < |s| ensures if i <= k then s[i].price <= s[k].price else s[i].price >= s[k].price {
      assert i < k ==> Price(s[i]) <= Price(s[k]);
      assert i > k ==> Price(s[k]) <= Price(s[i]);
    }
  }

  lemma ThresholdFits(s: seq<Bid>, units: seq<Bid>, m: nat, used: nat)
    requires m <= used <= m + |s| && used <= |units| && SortedBy(s, Price) && Descending(units) && NonNegative(s) && NonNegative(units)
    requires used > m ==> Beats(units, used - 1, s[used - m - 1])
    requires used < m + |s| ==> !Beats(units, used, s[used - m])
    ensures var price := Threshold(s, units, m, used);
      && price >= 0.0
      && (forall j :: 0 <= j < used ==> units[j].price >= price)
      && (forall j :: used <= j < |units| ==> units[j].price <= price)
      && (forall i :: 0 <= i < used - m ==> s[i].price <= price)
      && (forall i :: used - m <= i < |s| ==> s[i].price >= price)
  {
    if used > m { PricesAround(s, used - m - 1); }
    if used < m + |s| { PricesAround(s, used - m); }
  }

  lemma ThresholdBetween(s: seq<Bid>, units: seq<Bid>, m: nat)
    requires m <= |units| && SortedBy(s, Price) && Descending(units) && NonNegative(s) && NonNegative(units)
    ensures var used := Replace(s, units, m, "").1;
      && m <= used <= m + |s| && used <= |units|
      && var price := Threshold(s, units, m, used);
      && price >= 0.0
      && (forall j :: 0 <= j < used ==> units[j].price >= price)
      && (forall j :: used <= j < |units| ==> units[j].price <= price)
      && (forall i :: 0 <= i < used - m ==> s[i].price <= price)
      && (forall i :: used - m <= i < |s| ==> s[i].price >= price)
  {
    ReplaceSplits(s, units, m, "");
    var used := Replace(s, units, m, "").1;
    ThresholdFits(s, units, m, used);
  }

  lemma ThresholdSeparates(free: seq<string>, s: seq<Bid>, best: map<string, Bid>, units: seq<Bid>, m: nat, used: nat, price: real)
    requires m <= |free| && m <= used <= m + |s| && used <= |units| && price >= 0.0
    requires forall j :: 0 <= j < used ==> units[j].price >= price
    requires forall j :: used <= j < |units| ==> units[j].price <= price
    requires forall i :: 0 <= i < used - m ==> s[i].price <= price
    requires forall i :: used - m <= i < |s| ==> s[i].price >= price
    requires forall t :: t in free ==> t !in best
    requires forall i :: 0 <= i < |s| ==> s[i].tokenId in best && s[i] == best[s[i].tokenId]
    ensures Separates(price, free[..m] + TokensOf(s), used, best, units)
  {
    var tokens := free[..m] + TokensOf(s);
    forall g | 0 <= g < |tokens|
      ensures if g < m then tokens[g] !in best else tokens[g] in best && best[tokens[g]] == s[g - m]
    {
      if g < m { assert tokens[g] == free[g] && free[g] in free; }
    }
  }

  // ---- the offers are an assignment, and the best one ----

  /** The assignment that the offers make. */
  function OfferedPicks(offers: seq<ItemBid>, tokens: seq<string>, used: nat): seq<Pick>
    requires |offers| == |tokens|
  {
    seq(|offers|, g requires 0 <= g < |offers| => Pick(tokens[g], offers[g].price, if g < used then Unit(g) else Own))
  }

  lemma {:induction false} OfferedValue(offers: seq<ItemBid>, tokens: seq<string>, used: nat)
    requires |offers| == |tokens|
    ensures Value(OfferedPicks(offers, tokens, used)) == Total(offers)
  {
    if offers != [] {
      var n := |offers| - 1;
      OfferedValue(offers[..n], tokens[..n], used);
      assert OfferedPicks(offers, tokens, used)[..n] == OfferedPicks(offers[..n], tokens[..n], used);
    }
  }

  lemma OfferedIsAssignment(offers: seq<ItemBid>, tokens: seq<string>, used: nat, universe: set<string>, best: map<string, Bid>,
                            units: seq<Bid>, addr: string)
    requires Shape(offers, tokens, used, best, units, addr) && DistinctTokens(tokens)
    requires forall t :: t in tokens ==> t in universe
    ensures Assignment(universe, best, units, OfferedPicks(offers, tokens, used))
    ensures BestOwn(best, OfferedPicks(offers, tokens, used))
  {
    var picks := OfferedPicks(offers, tokens, used);
    forall g | 0 <= g < |picks| ensures Possible(universe, best, units, picks[g]) {
      assert tokens[g] in tokens;
    }
  }

  ghost predicate Instance(tokenIds: seq<string>, best: map<string, Bid>, keys: seq<string>, units: seq<Bid>) {
    && Enumerates(keys, best) && Keyed(best) && DistinctTokens(tokenIds)
    && Descending(units) && NonNegative(units)
    && forall t :: t in best ==> best[t].price >= 0.0
  }

  /** No assignment is worth more than the offers. */
  lemma ProcessIsOptimal(tokenIds: seq<string>, best: map<string, Bid>, keys: seq<string>, units: seq<Bid>, addr: string, picks: seq<Pick>)
    requires Instance(tokenIds, best, keys, units)
    requires Assignment(Universe(tokenIds, best), best, units, picks)
    ensures var offers := Process(tokenIds, best, keys, units, addr);
      Value(picks) <= Total(offers)
  {
    var free, s := Without(tokenIds, best), Sorted(best, keys);
    var m := Min(|free|, |units|);
    SortedBids(best, keys);
    WithoutTokens(tokenIds, best);
    OwnBids(s, best);
    var used, tokens := UnitsUsed(tokenIds, best, keys, units), Offered(tokenIds, best, keys, units);
    ThresholdBetween(s, units, m);
    var price := Threshold(s, units, m, used);
    ThresholdSeparates(free, s, best, units, m, used, price);
    OffersStructure(tokenIds, best, keys, units, addr);
    if |free| > m { NothingLeft(s, units, ""); }
    if |free| == m { assert free[..m] == free; }
    assert forall t :: t in Universe(tokenIds, best) && t !in tokens ==> TokenWeight(best, price, t) == 0.0;
    SeparatedIsOptimal(Process(tokenIds, best, keys, units, addr), tokens, used, Universe(tokenIds, best), best, units, addr, price, picks);
  }

  /** When the units run out on tokens without a bid, nothing is replaced. */
  lemma {:induction false} NothingLeft(s: seq<Bid>, units: seq<Bid>, addr: string)
    ensures Replace(s, units, |units|, addr).1 == |units|
  {
    if s != [] { NothingLeft(s[..|s| - 1], units, addr); }
  }

  /** The offers are themselves an assignment, of best bids and units. */
  lemma OffersAreAssignment(tokenIds: seq<string>, best: map<string, Bid>, keys: seq<string>, units: seq<Bid>, addr: string)
    returns (picks: seq<Pick>)
    requires Instance(tokenIds, best, keys, units)
    ensures Assignment(Universe(tokenIds, best), best, units, picks) && BestOwn(best, picks)
    ensures Value(picks) == Total(Process(tokenIds, best, keys, units, addr))
  {
    var offers, tokens := Process(tokenIds, best, keys, units, addr), Offered(tokenIds, best, keys, units);
    var used := UnitsUsed(tokenIds, best, keys, units);
    OffersStructure(tokenIds, best, keys, units, addr);
    picks := OfferedPicks(offers, tokens, used);
    OfferedValue(offers, tokens, used);
    OfferedInUniverse(tokenIds, best, keys, units);
    OfferedIsAssignment(offers, tokens, used, Universe(tokenIds, best), best, units, addr);
  }

  lemma OfferedInUniverse(tokenIds: seq<string>, best: map<string, Bid>, keys: seq<string>, units: seq<Bid>)
    requires Enumerates(keys, best) && Keyed(best)
    ensures forall t :: t in Offered(tokenIds, best, keys, units) ==> t in Universe(tokenIds, best)
  {
    var free, s := Without(tokenIds, best), Sorted(best, keys);
    SortedBids(best, keys);
    WithoutTokens(tokenIds, best);
    OwnBids(s, best);
  }

  /** The total does not depend on the order in which the map is ranged over. */
  lemma TotalIgnoresMapOrder(tokenIds: seq<string>, best: map<string, Bid>, keys: seq<string>, keys': seq<string>, units: seq<Bid>, addr: string)
    requires Instance(tokenIds, best, keys, units) && Instance(tokenIds, best, keys', units)
    ensures Total(Process(tokenIds, best, keys, units, addr)) == Total(Process(tokenIds, best, keys', units, addr))
  {
    var picks := OffersAreAssignment(tokenIds, best, keys, units, addr);
    var picks' := OffersAreAssignment(tokenIds, best, keys', units, addr);
    ProcessIsOptimal(tokenIds, best, keys, units, addr, picks');
    ProcessIsOptimal(tokenIds, best, keys', units, addr, picks);
  }
}
