/** A Buy or a Transfer whose sender is not the one whose orders on the token are queued: the
    stray orders are not removed by name, and are pushed out of the queue only by offers. */
module FloorStray {
  import opened Common
  import opened Text
  import opened PriorityQueue
  import opened QueueLaws
  import opened FloorPrice
  import opened FloorInvariant
  import opened FloorTransfer

  ghost predicate OnToken(e: Entry, ev: TradeEvent) {
    e.tokenID == ToLower(ev.tokenID)
  }

  /** The price of the queue's first, and so cheapest, entry on the token. */
  function StrayPrice(pq: seq<Entry>, token: string): real {
    if pq == [] then 0.0 else if pq[0].tokenID == token then pq[0].priority else StrayPrice(pq[1..], token)
  }

  lemma {:induction false} StrayPriceLeast(pq: seq<Entry>, token: string)
    requires forall i, j :: 0 <= i < j < |pq| ==> pq[i].priority <= pq[j].priority
    requires exists e :: e in pq && e.tokenID == token
    ensures exists e :: e in pq && e.tokenID == token && e.priority == StrayPrice(pq, token)
    ensures forall e :: e in pq && e.tokenID == token ==> StrayPrice(pq, token) <= e.priority
  {
    if pq[0].tokenID == token {
      assert pq[0] in pq;
    } else {
      assert pq == [pq[0]] + pq[1..];
      StrayPriceLeast(pq[1..], token);
    }
  }

  // ---- where the queued orders come from ----

  /** The recorded owner made all queued orders on the token, and none is the sender's. */
  lemma StraysAreOwners(st: Store, q: Queue, ev: TradeEvent)
    requires QueuedValid(st, q) && !SendersOnly(q, ev)
    ensures ToLower(ev.tokenID) in st.items
    ensures var owner := ToLower(st.items[ToLower(ev.tokenID)].owner);
      owner != ToLower(ev.sender) && forall e :: e in q.pq && OnToken(e, ev) ==> e.maker == owner
  {
    var x :| x in q.pq && OnToken(x, ev) && x.maker != ToLower(ev.sender);
    assert EntryValid(st, x);
    forall e | e in q.pq && OnToken(e, ev) ensures e.maker == ToLower(st.items[ToLower(ev.tokenID)].owner) {
      assert EntryValid(st, e);
    }
  }

  lemma {:induction false} NoneRemoved(pq: seq<Entry>, orders: map<string, Entry>, m: string, t: string)
    requires forall e :: e in pq ==> !OwnedBy(e, m, t)
    ensures WithoutMaker(pq, m, t) == pq && Unindexed(orders, pq, m, t) == orders
  {
    if pq != [] {
      var n := |pq| - 1;
      assert pq == pq[..n] + [pq[n]];
      assert pq[n] in pq;
      NoneRemoved(pq[..n], orders, m, t);
    }
  }

  /** So removing the sender's orders removes nothing. */
  lemma StraysStay(st: Store, q: Queue, ev: TradeEvent)
    requires QueuedValid(st, q) && !SendersOnly(q, ev)
    ensures q.RemoveMakerOrders(ev.sender, ev.tokenID) == q
  {
    StraysAreOwners(st, q, ev);
    NoneRemoved(q.pq, q.orders, ToLower(ev.sender), ToLower(ev.tokenID));
  }

  lemma ArmOnStrays(st: Store, q: Queue, sort: Sorter, ev: TradeEvent, ans: Answers)
    requires CheapestBut(st, q, {}) && !SendersOnly(q, ev)
    ensures q.pq != [] && StepTransfer(q, sort, ev, ans) == OrReload(OfferAll(q, sort, ans.user), sort, ans)
  {
    StraysStay(st, q, ev);
    EmptyTogether(q);
  }

  // ---- the token stays with its owner ----

  /** Two copies of a queued order. */
  ghost predicate Doubled(q: Queue, e: Entry) {
    multiset(q.pq)[e] >= 2 && e.orderID in q.orders && forall x :: x in q.pq && x.orderID == e.orderID ==> x == e
  }

  lemma DoublingStays(q: Queue, sort: Sorter, e: Entry, r: Listed)
    requires q.Sorted() && Bounded(q, MaxQueueLength) && Doubled(q, e)
    requires r.price >= e.priority && r.orderID != e.orderID
    ensures Doubled(Offer(q, sort, r), e) && Offer(q, sort, r).Sorted() && Bounded(Offer(q, sort, r), MaxQueueLength)
  {
    if !r.isOpenseaBanned && q.GetMax().1 > r.price {
      var x := EntryFor(r);
      AddEntries(q, MaxQueueLength, sort, x);
      TrimEntries(q, MaxQueueLength);
      assert e in q.pq;
      PlusOneEntries(q.Trim(MaxQueueLength).pq, q.Add(MaxQueueLength, sort, x).pq, x);
      assert q.pq[|q.pq| - 1] in q.pq;
      assert forall y :: y in q.Trim(MaxQueueLength).pq ==> y in q.pq;
    }
  }

  /** Offering a queued order that is cheaper than the maximum doubles it. */
  lemma OfferDoubles(q: Queue, sort: Sorter, r: Listed)
    requires Shaped(q) && EntryFor(r) in q.pq && r.price < q.GetMax().1 && !r.isOpenseaBanned
    ensures var q' := Offer(q, sort, r); Doubled(q', EntryFor(r)) && q'.Sorted() && Bounded(q', MaxQueueLength)
  {
    var e := EntryFor(r);
    AddEntries(q, MaxQueueLength, sort, e);
    TrimEntries(q, MaxQueueLength);
    PlusOneEntries(q.Trim(MaxQueueLength).pq, q.Add(MaxQueueLength, sort, e).pq, e);
    assert e in multiset(q.pq);
    assert forall y :: y in q.Trim(MaxQueueLength).pq ==> y in q.pq;
  }

  lemma {:induction false} FirstOfferDoubles(q: Queue, sort: Sorter, rows: seq<Listed>, k: nat)
    requires Shaped(q) && 0 < k <= |rows| && DistinctRows(rows)
    requires forall i, j :: 0 <= i < j < |rows| ==> rows[i].price <= rows[j].price
    requires EntryFor(rows[0]) in q.pq && rows[0].price < q.GetMax().1 && !rows[0].isOpenseaBanned
    ensures var q' := OfferAll(q, sort, rows[..k]); Doubled(q', EntryFor(rows[0])) && q'.Sorted() && Bounded(q', MaxQueueLength)
  {
    OneMoreOffer(q, sort, rows, k - 1);
    if k == 1 {
      OfferDoubles(q, sort, rows[0]);
    } else {
      FirstOfferDoubles(q, sort, rows, k - 1);
      DoublingStays(OfferAll(q, sort, rows[..k - 1]), sort, EntryFor(rows[0]), rows[k - 1]);
    }
  }

  lemma OneMoreOffer(q: Queue, sort: Sorter, rows: seq<Listed>, k: nat)
    requires k < |rows|
    ensures OfferAll(q, sort, rows[..k + 1]) == Offer(OfferAll(q, sort, rows[..k]), sort, rows[k])
    ensures OfferAll(q, sort, rows[..0]) == q
  {
    assert rows[..k + 1][..k] == rows[..k];
  }

  lemma DoubledBreaks(st: Store, q: Queue, sort: Sorter, ans: Answers, e: Entry)
    requires Doubled(q, e)
    ensures !CheapestPart(st, OrReload(q, sort, ans))
  {
    assert q.Len() != 0;
    assert !AtMostOnce(multiset(q.pq));
  }

  lemma {:induction false} NoneOffered(q: Queue, sort: Sorter, rows: seq<Listed>)
    requires forall i :: 0 <= i < |rows| ==> rows[i].isOpenseaBanned || q.GetMax().1 <= rows[i].price
    ensures OfferAll(q, sort, rows) == q
  {
    if rows != [] { NoneOffered(q, sort, rows[..|rows| - 1]); }
  }

  ghost predicate OwnerStays(st: Store, ev: TradeEvent) {
    ToLower(ev.tokenID) in st.items && ToLower(st.items[ToLower(ev.tokenID)].owner) == ToLower(ev.recipient)
  }

  lemma SameValidity(st: Store, st': Store, q: Queue, ev: TradeEvent)
    requires CheapestBut(st, q, {}) && OwnerStays(st, ev) && q.pq != []
    requires st' == st.(items := SetOwner(st.items, ToLower(ev.tokenID), ev.recipient))
    ensures ValidIds(st') == ValidIds(st) && CheapestPart(st', q)
  {
    forall id ensures Valid(st', id) <==> Valid(st, id) {}
    assert ValidIds(st') == ValidIds(st);
    forall e | e in q.pq ensures EntryValid(st', e) {
      assert EntryValid(st, e);
    }
    forall id | id in ValidIds(st') && id !in q.orders ensures AtLeastAll(q, st'.orders[id].price) {
      assert AtLeastAll(q, st.orders[id].price);
    }
  }

  /** All the owner's orders cost the queue's maximum or more: none is offered successfully. */
  lemma OwnersRowsDear(st: Store, q: Queue, ev: TradeEvent, ans: Answers)
    requires CheapestPart(st, q) && q.pq != [] && Answered(st, ev, ans)
    requires forall e :: e in q.pq && OnToken(e, ev) ==> q.GetMax().1 <= e.priority
    ensures forall i :: 0 <= i < |ans.user| ==> q.GetMax().1 <= ans.user[i].price
  {
    MaxIsDearest(q);
    forall i | 0 <= i < |ans.user| ensures q.GetMax().1 <= ans.user[i].price {
      var id := ans.user[i].orderID;
      assert id in UserIds(st, ev.tokenID, ev.recipient) && RowOf(st, ans.user[i]);
      if id in q.orders {
        assert EntryRecorded(st, q.orders[id]) && OnToken(q.orders[id], ev);
      } else {
        assert AtLeastAll(q, st.orders[id].price);
      }
    }
  }

  /** Otherwise the owner's cheapest order is queued and cheaper than the maximum. */
  lemma CheapestIsQueued(st: Store, q: Queue, ev: TradeEvent, ans: Answers, e: Entry)
    requires CheapestPart(st, q) && Answered(st, ev, ans)
    requires e in q.pq && OnToken(e, ev) && e.maker == ToLower(ev.recipient) && e.priority < q.GetMax().1
    ensures ans.user != [] && EntryFor(ans.user[0]) in q.pq && ans.user[0].price < q.GetMax().1
  {
    assert EntryValid(st, e);
    var rows, id := ans.user, e.orderID;
    assert id in UserIds(st, ev.tokenID, ev.recipient);
    RowIdsAre(rows);
    assert rows != [] && rows[0].price <= e.priority by {
      if id in RowIds(rows) {
        var i :| 0 <= i < |rows| && rows[i].orderID == id;
        assert RowOf(st, rows[i]);
      }
    }
    assert RowOf(st, rows[0]) && rows[0].orderID in ValidIds(st);
    MaxIsDearest(q);
    assert !AtLeastAll(q, rows[0].price);
    assert rows[0].orderID in q.orders;
    assert EntryRecorded(st, q.orders[rows[0].orderID]);
  }

  /** Nothing is offered successfully, so the queue stays. */
  lemma NothingChanges(st: Store, q: Queue, sort: Sorter, ev: TradeEvent, ans: Answers)
    requires CheapestPart(st, q) && q.pq != [] && Answered(st, ev, ans)
    requires Banned(st, ev) || forall e :: e in q.pq && OnToken(e, ev) ==> q.GetMax().1 <= e.priority
    ensures CheapestPart(st, OrReload(OfferAll(q, sort, ans.user), sort, ans))
  {
    if !Banned(st, ev) { OwnersRowsDear(st, q, ev, ans); }
    NoneOffered(q, sort, ans.user);
    EmptyTogether(q);
  }

  lemma OrderDoubles(st: Store, q: Queue, sort: Sorter, ev: TradeEvent, ans: Answers, e: Entry)
    requires CheapestPart(st, q) && Answered(st, ev, ans) && !Banned(st, ev)
    requires e in q.pq && OnToken(e, ev) && e.maker == ToLower(ev.recipient) && e.priority < q.GetMax().1
    ensures !CheapestPart(st, OrReload(OfferAll(q, sort, ans.user), sort, ans))
  {
    CheapestIsQueued(st, q, ev, ans, e);
    RowsAscend(st, ev, ans);
    FirstOfferDoubles(q, sort, ans.user, |ans.user|);
    assert ans.user[..|ans.user|] == ans.user;
    DoubledBreaks(st, OfferAll(q, sort, ans.user), sort, ans, EntryFor(ans.user[0]));
  }

  /** The token stays with the owner whose orders are queued: the arm offers them again, and
      the invariant holds exactly when that has no effect, on a banned token or when none of
      them is cheaper than the queue's maximum. */
  lemma OwnerStaysExact(st: Store, st': Store, q: Queue, sort: Sorter, ev: TradeEvent, ans: Answers)
    requires CheapestBut(st, q, {}) && !SendersOnly(q, ev) && OwnerStays(st, ev)
    requires st' == st.(items := SetOwner(st.items, ToLower(ev.tokenID), ev.recipient)) && Answered(st', ev, ans)
    ensures CheapestPart(st', StepTransfer(q, sort, ev, ans)) <==>
      Banned(st', ev) || q.GetMax().1 <= StrayPrice(q.pq, ToLower(ev.tokenID))
  {
    ArmOnStrays(st, q, sort, ev, ans);
    SameValidity(st, st', q, ev);
    var e := CheapestStray(q, ev);
    if Banned(st', ev) || q.GetMax().1 <= e.priority {
      NothingChanges(st', q, sort, ev, ans);
    } else {
      StraysAreOwners(st, q, ev);
      OrderDoubles(st', q, sort, ev, ans, e);
    }
  }

  lemma CheapestStray(q: Queue, ev: TradeEvent) returns (e: Entry)
    requires q.Sorted() && !SendersOnly(q, ev)
    ensures e in q.pq && OnToken(e, ev) && e.priority == StrayPrice(q.pq, ToLower(ev.tokenID))
    ensures forall x :: x in q.pq && OnToken(x, ev) ==> e.priority <= x.priority
  {
    StrayPriceLeast(q.pq, ToLower(ev.tokenID));
    e :| e in q.pq && OnToken(e, ev) && e.priority == StrayPrice(q.pq, ToLower(ev.tokenID));
  }

  // ---- the token goes to someone else ----

  /** The offered orders cheaper than p. */
  function Cheaper(rows: seq<Listed>, p: real): nat {
    if rows == [] then 0 else Cheaper(rows[..|rows| - 1], p) + if rows[|rows| - 1].price < p then 1 else 0
  }

  ghost predicate Ascending(rows: seq<Listed>) {
    && (forall i, j :: 0 <= i < j < |rows| ==> rows[i].price <= rows[j].price)
    && (forall i :: 0 <= i < |rows| ==> !rows[i].isOpenseaBanned)
  }

  lemma OfferAbove(q: Queue, sort: Sorter, r: Listed, p: real)
    requires q.Sorted() && Bounded(q, MaxQueueLength) && q.pq != [] && r.price >= p && !r.isOpenseaBanned
    ensures Beyond(Offer(q, sort, r), p, true) <==> Beyond(q, p, true)
  {
    if q.GetMax().1 > r.price {
      var e := EntryFor(r);
      AddEntries(q, MaxQueueLength, sort, e);
      PlusOneEntries(q.Trim(MaxQueueLength).pq, q.Add(MaxQueueLength, sort, e).pq, e);
      MaxIsDearest(q.Add(MaxQueueLength, sort, e));
    }
  }

  /** An entry at p or above is left after k cheaper offers exactly when they do not fill the queue. */
  ghost predicate BelowLeft(q: Queue, p: real, few: nat, size: nat, k: nat) {
    && q.Sorted() && Bounded(q, MaxQueueLength) && q.pq != []
    && (Beyond(q, p, true) <==> few + k < Min(size + k, MaxQueueLength + 1))
  }

  lemma AboveStep(q: Queue, sort: Sorter, r: Listed, p: real, few: nat, size: nat, k: nat)
    requires BelowLeft(q, p, few, size, k) && r.price >= p && !r.isOpenseaBanned
    ensures BelowLeft(Offer(q, sort, r), p, few, size, k)
  {
    OfferAbove(q, sort, r, p);
    OfferLowers(q, sort, r);
  }

  lemma CheaperPrefix(q: Queue, sort: Sorter, rows: seq<Listed>, p: real, k: nat)
    requires q.Sorted() && Bounded(q, MaxQueueLength) && q.pq != [] && Ascending(rows) && k <= |rows|
    requires k == 0 || rows[k - 1].price < p
    ensures BelowLeft(OfferAll(q, sort, rows[..k]), p, |UpTo(q.pq, p, true)|, |q.pq|, k)
  {
    OfferThreshold(q, sort, rows[..k], p, true);
  }

  lemma {:induction false} AboveKeeps(q: Queue, sort: Sorter, rows: seq<Listed>, p: real, few: nat, size: nat, k: nat)
    requires BelowLeft(q, p, few, size, k)
    requires forall i :: 0 <= i < |rows| ==> rows[i].price >= p && !rows[i].isOpenseaBanned
    ensures BelowLeft(OfferAll(q, sort, rows), p, few, size, k)
  {
    if rows != [] {
      var n := |rows| - 1;
      AboveKeeps(q, sort, rows[..n], p, few, size, k);
      AboveStep(OfferAll(q, sort, rows[..n]), sort, rows[n], p, few, size, k);
    }
  }

  lemma {:induction false} OfferAllAppend(q: Queue, sort: Sorter, a: seq<Listed>, b: seq<Listed>)
    ensures OfferAll(q, sort, a + b) == OfferAll(OfferAll(q, sort, a), sort, b)
  {
    if b == [] {
      assert a + b == a;
    } else {
      assert (a + b)[..|a + b| - 1] == a + b[..|b| - 1];
      OfferAllAppend(q, sort, a, b[..|b| - 1]);
    }
  }

  /** The cheaper offers come first. */
  lemma {:induction false} CheaperFirst(rows: seq<Listed>, p: real)
    requires Ascending(rows)
    ensures var c := Cheaper(rows, p);
      c <= |rows| && (c == 0 || rows[c - 1].price < p) && forall i :: c <= i < |rows| ==> rows[i].price >= p
  {
    if rows != [] {
      var n := |rows| - 1;
      CheaperFirst(rows[..n], p);
      var c := Cheaper(rows[..n], p);
      assert c == 0 || rows[..n][c - 1] == rows[c - 1];
      forall i | c <= i < n ensures rows[i].price >= p {
        assert rows[..n][i] == rows[i];
      }
      assert c == n || p <= rows[c].price <= rows[n].price;
    }
  }

  /** Only the cheaper offers matter for what is left at p or above. */
  lemma OfferedBelow(q: Queue, sort: Sorter, rows: seq<Listed>, p: real)
    requires q.Sorted() && Bounded(q, MaxQueueLength) && q.pq != [] && Ascending(rows)
    ensures BelowLeft(OfferAll(q, sort, rows), p, |UpTo(q.pq, p, true)|, |q.pq|, Cheaper(rows, p))
  {
    CheaperFirst(rows, p);
    CheaperOffered(q, sort, rows, p, Cheaper(rows, p));
  }

  lemma CheaperOffered(q: Queue, sort: Sorter, rows: seq<Listed>, p: real, c: nat)
    requires q.Sorted() && Bounded(q, MaxQueueLength) && q.pq != [] && Ascending(rows)
    requires c <= |rows| && (c == 0 || rows[c - 1].price < p) && forall i :: c <= i < |rows| ==> rows[i].price >= p
    ensures BelowLeft(OfferAll(q, sort, rows), p, |UpTo(q.pq, p, true)|, |q.pq|, c)
  {
    assert rows == rows[..c] + rows[c..];
    CheaperPrefix(q, sort, rows, p, c);
    OfferAllAppend(q, sort, rows[..c], rows[c..]);
    AboveKeeps(OfferAll(q, sort, rows[..c]), sort, rows[c..], p, |UpTo(q.pq, p, true)|, |q.pq|, c);
  }

  /** What is cheaper than the final maximum was never pushed out. */
  lemma {:induction false} KeptBelowMax(q: Queue, sort: Sorter, rows: seq<Listed>, e: Entry)
    requires q.Sorted() && Bounded(q, MaxQueueLength) && q.pq != [] && e in q.pq
    ensures var q' := OfferAll(q, sort, rows);
      && q'.Sorted() && Bounded(q', MaxQueueLength) && q'.pq != []
      && (e.priority < q'.GetMax().1 ==> e in q'.pq)
  {
    if rows != [] {
      var n := |rows| - 1;
      var before := OfferAll(q, sort, rows[..n]);
      KeptBelowMax(q, sort, rows[..n], e);
      OfferLowers(before, sort, rows[n]);
      KeptByOffer(before, sort, rows[n], e);
    }
  }

  lemma KeptByOffer(q: Queue, sort: Sorter, r: Listed, e: Entry)
    requires q.Sorted() && q.pq != [] && (e.priority < q.GetMax().1 ==> e in q.pq)
    ensures e.priority < q.GetMax().1 ==> e in Offer(q, sort, r).pq
  {
    AddEntries(q, MaxQueueLength, sort, EntryFor(r));
    TrimEntries(q, MaxQueueLength);
    PlusOneEntries(q.Trim(MaxQueueLength).pq, q.Add(MaxQueueLength, sort, EntryFor(r)).pq, EntryFor(r));
    if e.priority < q.GetMax().1 && |q.pq| > MaxQueueLength {
      assert e in multiset(q.pq) && e != q.pq[|q.pq| - 1];
      assert e in multiset(q.Trim(MaxQueueLength).pq);
    }
  }

  /** Nothing else queued or offered costs what the cheapest stray order costs. */
  ghost predicate Untied(q: Queue, ev: TradeEvent, ans: Answers) {
    var p := StrayPrice(q.pq, ToLower(ev.tokenID));
    && (forall e :: e in q.pq && e.priority == p ==> OnToken(e, ev))
    && (forall i :: 0 <= i < |ans.user| ==> ans.user[i].price != p)
  }

  /** The stray orders are gone after the offers when all that is left is cheaper. */
  lemma StraysGone(q: Queue, sort: Sorter, ev: TradeEvent, ans: Answers) returns (x: Entry)
    requires Shaped(q) && q.pq != [] && exists e :: e in q.pq && OnToken(e, ev)
    ensures var q', p := OfferAll(q, sort, ans.user), StrayPrice(q.pq, ToLower(ev.tokenID));
      && q'.Sorted() && q'.pq != []
      && x in q.pq && OnToken(x, ev) && x.priority == p && (p < q'.GetMax().1 ==> x in q'.pq)
      && (q'.GetMax().1 < p ==> forall e :: e in q.pq && OnToken(e, ev) ==> e !in q'.pq)
  {
    var q', p := OfferAll(q, sort, ans.user), StrayPrice(q.pq, ToLower(ev.tokenID));
    StrayPriceLeast(q.pq, ToLower(ev.tokenID));
    x :| x in q.pq && OnToken(x, ev) && x.priority == p;
    KeptBelowMax(q, sort, ans.user, x);
    MaxIsDearest(q');
  }

  /** Without ties, exactly then. */
  lemma StraysGoneUntied(q: Queue, sort: Sorter, ev: TradeEvent, ans: Answers)
    requires Shaped(q) && q.pq != [] && Untied(q, ev, ans) && exists e :: e in q.pq && OnToken(e, ev)
    ensures var q', p := OfferAll(q, sort, ans.user), StrayPrice(q.pq, ToLower(ev.tokenID));
      (forall e :: e in q.pq && OnToken(e, ev) ==> e !in q'.pq) ==> q'.GetMax().1 < p
  {
    var q', p := OfferAll(q, sort, ans.user), StrayPrice(q.pq, ToLower(ev.tokenID));
    var x := StraysGone(q, sort, ev, ans);
    OfferedFrom(q, sort, ans.user);
    if q'.GetMax().1 == p {
      var z := q'.pq[|q'.pq| - 1];
      assert z in q'.pq && z.priority == p;
      assert z in q.pq || FromRow(ans.user, z);
    }
  }

  lemma StraysPending(st: Store, st': Store, q: Queue, ev: TradeEvent)
    requires CheapestBut(st, q, {}) && !SendersOnly(q, ev) && !OwnerStays(st, ev)
    requires st' == st.(items := SetOwner(st.items, ToLower(ev.tokenID), ev.recipient))
    ensures SettledBut(st', q, UserIds(st', ev.tokenID, ev.recipient))
    ensures UserIds(st', ev.tokenID, ev.recipient) !! q.orders.Keys
    ensures forall e :: e in q.pq ==> (EntryValid(st', e) <==> !OnToken(e, ev))
  {
    StraysAreOwners(st, q, ev);
    forall e | e in q.pq ensures EntryRecorded(st', e) && (EntryValid(st', e) <==> !OnToken(e, ev)) {
      assert EntryValid(st, e);
    }
    forall id | id in q.orders ensures id !in UserIds(st', ev.tokenID, ev.recipient) {
      assert EntryValid(st, q.orders[id]);
    }
    forall id | id in ValidIds(st') && id !in q.orders && id !in UserIds(st', ev.tokenID, ev.recipient)
      ensures AtLeastAll(q, st'.orders[id].price)
    {
      assert Valid(st, id);
      assert AtLeastAll(q, st.orders[id].price);
    }
  }

  /** The invariant after the offers, in terms of the stray and the skipped orders. */
  lemma AfterOffers(st: Store, q: Queue, sort: Sorter, ev: TradeEvent, ans: Answers)
    requires var user := UserIds(st, ev.tokenID, ev.recipient);
      SettledBut(st, q, user) && user !! q.orders.Keys && q.pq != []
    requires forall e :: e in q.pq ==> (EntryValid(st, e) <==> !OnToken(e, ev))
    requires Answered(st, ev, ans) && !Banned(st, ev)
    ensures var q' := OfferAll(q, sort, ans.user);
      && q'.Agrees() && q'.pq != []
      && (CheapestPart(st, q') <==>
           (forall e :: e in q.pq && OnToken(e, ev) ==> e !in q'.pq) && NoneUndercuts(st, q', Skipped(st, ev, ans)))
  {
    var q', user := OfferAll(q, sort, ans.user), UserIds(st, ev.tokenID, ev.recipient);
    RowIdsAre(ans.user);
    OfferAllKeeps(st, q, sort, user, ans.user);
    OfferedFrom(q, sort, ans.user);
    OfferedValid(st, q, q', ev, ans);
    if QueuedValid(st, q') {
      PendingSettled(st, q', Skipped(st, ev, ans));
    }
  }

  lemma OfferedValid(st: Store, q: Queue, q': Queue, ev: TradeEvent, ans: Answers)
    requires Answered(st, ev, ans) && forall x :: x in q'.pq ==> x in q.pq || FromRow(ans.user, x)
    requires forall e :: e in q.pq ==> (EntryValid(st, e) <==> !OnToken(e, ev))
    ensures QueuedValid(st, q') <==> forall e :: e in q.pq && OnToken(e, ev) ==> e !in q'.pq
  {
    forall x | FromRow(ans.user, x) ensures EntryValid(st, x) {
      var i :| 0 <= i < |ans.user| && x == EntryFor(ans.user[i]);
      assert RowOf(st, ans.user[i]);
    }
  }

  lemma FilledBelow(q: Queue, sort: Sorter, ev: TradeEvent, ans: Answers)
    requires Shaped(q) && !SendersOnly(q, ev) && Ascending(ans.user)
    ensures var q', p := OfferAll(q, sort, ans.user), StrayPrice(q.pq, ToLower(ev.tokenID));
      q'.GetMax().1 < p <==> |UpTo(q.pq, p, true)| + Cheaper(ans.user, p) > MaxQueueLength
  {
    var p := StrayPrice(q.pq, ToLower(ev.tokenID));
    OfferedBelow(q, sort, ans.user, p);
    StrayCounts(q, ev, p);
  }

  ghost predicate CheaperFill(q: Queue, ev: TradeEvent, ans: Answers) {
    var p := StrayPrice(q.pq, ToLower(ev.tokenID));
    |UpTo(q.pq, p, true)| + Cheaper(ans.user, p) > MaxQueueLength
  }

  /** The stray orders are gone when the cheaper entries and offers fill the queue, and, without
      ties, only then. */
  lemma StraysGoneExact(q: Queue, sort: Sorter, ev: TradeEvent, ans: Answers)
    requires Shaped(q) && !SendersOnly(q, ev) && Ascending(ans.user)
    ensures var gone := forall e :: e in q.pq && OnToken(e, ev) ==> e !in OfferAll(q, sort, ans.user).pq;
      (CheaperFill(q, ev, ans) ==> gone) && (Untied(q, ev, ans) && gone ==> CheaperFill(q, ev, ans))
  {
    var x := StraysGone(q, sort, ev, ans);
    if Untied(q, ev, ans) { StraysGoneUntied(q, sort, ev, ans); }
    FilledBelow(q, sort, ev, ans);
  }

  lemma BannedStrays(st: Store, st': Store, q: Queue, sort: Sorter, ev: TradeEvent, ans: Answers)
    requires CheapestBut(st, q, {}) && !SendersOnly(q, ev) && Banned(st', ev) && Answered(st', ev, ans)
    requires forall e :: e in q.pq ==> (EntryValid(st', e) <==> !OnToken(e, ev))
    ensures !CheapestPart(st', OrReload(OfferAll(q, sort, ans.user), sort, ans))
  {
    var e := CheapestStray(q, ev);
    NoneOffered(q, sort, ans.user);
    EmptyTogether(q);
    assert !EntryValid(st', e);
  }

  /** The token goes from an owner whose orders are queued to someone else, and the sender is
      not that owner: the invariant holds when the token is not banned, the queue's entries and
      the offers cheaper than the cheapest stray order fill the queue, and no skipped order is
      cheaper than the cheapest entry; and, when no price is tied, only then. */
  lemma StraysExact(st: Store, st': Store, q: Queue, sort: Sorter, ev: TradeEvent, ans: Answers)
    requires CheapestBut(st, q, {}) && !SendersOnly(q, ev) && !OwnerStays(st, ev)
    requires st' == st.(items := SetOwner(st.items, ToLower(ev.tokenID), ev.recipient)) && Answered(st', ev, ans)
    ensures StraysFit(st', q, ev, ans) ==> CheapestPart(st', StepTransfer(q, sort, ev, ans))
    ensures Untied(q, ev, ans) && CheapestPart(st', StepTransfer(q, sort, ev, ans)) ==> StraysFit(st', q, ev, ans)
  {
    ArmOnStrays(st, q, sort, ev, ans);
    StraysPending(st, st', q, ev);
    if Banned(st', ev) {
      BannedStrays(st, st', q, sort, ev, ans);
    } else {
      RowsAscend(st', ev, ans);
      AfterOffers(st', q, sort, ev, ans);
      EmptyTogether(OfferAll(q, sort, ans.user));
      StraysGoneExact(q, sort, ev, ans);
      CutOffUndercut(st', q, sort, ev, ans);
    }
  }

  ghost predicate StraysFit(st: Store, q: Queue, ev: TradeEvent, ans: Answers) {
    && !Banned(st, ev)
    && CheaperFill(q, ev, ans)
    && (forall id :: id in Skipped(st, ev, ans) && id in st.orders ==> q.GetMin().1 <= st.orders[id].price)
  }

  lemma RowsAscend(st: Store, ev: TradeEvent, ans: Answers)
    requires Answered(st, ev, ans) && !Banned(st, ev)
    ensures Ascending(ans.user)
  {
    forall i | 0 <= i < |ans.user| ensures !ans.user[i].isOpenseaBanned {
      assert RowOf(st, ans.user[i]) && ans.user[i].orderID in UserIds(st, ev.tokenID, ev.recipient);
    }
  }

  lemma StrayCounts(q: Queue, ev: TradeEvent, p: real)
    requires q.Sorted() && !SendersOnly(q, ev) && p == StrayPrice(q.pq, ToLower(ev.tokenID))
    ensures |UpTo(q.pq, p, true)| < |q.pq|
  {
    StrayPriceLeast(q.pq, ToLower(ev.tokenID));
    UpToAll(q.pq, p, true);
  }

  // ---- the arm on any queue ----

  /** With stray orders queued and the token going on, what is left may hang on how the sort
      breaks a tie. */
  ghost predicate ArmDecided(st: Store, q: Queue, ev: TradeEvent, ans: Answers) {
    SendersOnly(q, ev) || OwnerStays(st, ev) || Untied(q, ev, ans)
  }

  ghost predicate ArmFits(st: Store, st': Store, q: Queue, ev: TradeEvent, ans: Answers) {
    if SendersOnly(q, ev) then TransferFits(st', q, ev, ans)
    else if OwnerStays(st, ev) then Banned(st', ev) || q.GetMax().1 <= StrayPrice(q.pq, ToLower(ev.tokenID))
    else StraysFit(st', q, ev, ans)
  }

  /** Whoever's orders are queued on the token: the arm keeps the invariant when it fits, and, unless
      a tie decides, only then. */
  lemma ArmExact(st: Store, st': Store, q: Queue, sort: Sorter, ev: TradeEvent, ans: Answers)
    requires CheapestBut(st, q, {}) && WellFormed(st')
    requires st' == st.(items := SetOwner(st.items, ToLower(ev.tokenID), ev.recipient)) && Answered(st', ev, ans)
    ensures ArmFits(st, st', q, ev, ans) ==> CheapestPart(st', StepTransfer(q, sort, ev, ans))
    ensures ArmDecided(st, q, ev, ans) && CheapestPart(st', StepTransfer(q, sort, ev, ans)) ==> ArmFits(st, st', q, ev, ans)
  {
    if SendersOnly(q, ev) {
      TransferExact(st, st', q, sort, ev, ans);
    } else if OwnerStays(st, ev) {
      OwnerStaysExact(st, st', q, sort, ev, ans);
    } else {
      StraysExact(st, st', q, sort, ev, ans);
    }
  }
}
