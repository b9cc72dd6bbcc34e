/** A Buy or a Transfer: exactly when the queue is a cheapest part of the valid listings once a
    token has changed hands. The sender's orders leave the queue, and the recipient's orders
    are offered to it, apart from those the query cuts off and those on a banned token. */
module FloorTransfer {
  import opened Common
  import opened Text
  import opened PriorityQueue
  import opened QueueLaws
  import opened FloorPrice
  import opened FloorInvariant

  // ---- offering orders up to a price ----

  predicate Within(e: Entry, p: real, below: bool) {
    if below then e.priority < p else e.priority <= p
  }

  /** The entries up to p, or below it. */
  function UpTo(s: seq<Entry>, p: real, below: bool): seq<Entry> {
    if s == [] then []
    else UpTo(s[..|s| - 1], p, below) + if Within(s[|s| - 1], p, below) then [s[|s| - 1]] else []
  }

  lemma {:induction false} UpToCounts(s: seq<Entry>, p: real, below: bool, e: Entry)
    ensures multiset(UpTo(s, p, below))[e] == if Within(e, p, below) then multiset(s)[e] else 0
  {
    if s != [] {
      UpToCounts(s[..|s| - 1], p, below, e);
      assert s == s[..|s| - 1] + [s[|s| - 1]];
    }
  }

  lemma {:induction false} UpToAll(s: seq<Entry>, p: real, below: bool)
    ensures |UpTo(s, p, below)| <= |s|
    ensures |UpTo(s, p, below)| == |s| <==> forall e :: e in s ==> Within(e, p, below)
  {
    if s != [] {
      UpToAll(s[..|s| - 1], p, below);
      assert s == s[..|s| - 1] + [s[|s| - 1]];
    }
  }

  lemma {:induction false} UpToSome(s: seq<Entry>, p: real, below: bool)
    ensures UpTo(s, p, below) != [] <==> exists e :: e in s && Within(e, p, below)
  {
    if s != [] {
      UpToSome(s[..|s| - 1], p, below);
      assert s == s[..|s| - 1] + [s[|s| - 1]];
    }
  }

  lemma UpToPlusOne(s: seq<Entry>, t: seq<Entry>, e: Entry, p: real, below: bool)
    requires multiset(t) == multiset(s) + multiset{e}
    ensures |UpTo(t, p, below)| == |UpTo(s, p, below)| + if Within(e, p, below) then 1 else 0
  {
    var more := UpTo(s, p, below) + if Within(e, p, below) then [e] else [];
    forall x ensures multiset(UpTo(t, p, below))[x] == multiset(more)[x] {
      UpToCounts(s, p, below, x);
      UpToCounts(t, p, below, x);
    }
    SameCounts(UpTo(t, p, below), more);
  }

  lemma SameCounts(s: seq<Entry>, t: seq<Entry>)
    requires forall x :: multiset(s)[x] == multiset(t)[x]
    ensures |s| == |t|
  {
    assert multiset(s) == multiset(t);
    assert |multiset(s)| == |multiset(t)|;
  }

  /** The queue holds an entry that is not within p. */
  predicate Beyond(q: Queue, p: real, below: bool) {
    if below then q.GetMax().1 >= p else q.GetMax().1 > p
  }

  lemma MaxUpTo(q: Queue, p: real, below: bool)
    requires q.Sorted() && q.pq != []
    ensures Beyond(q, p, below) <==> |UpTo(q.pq, p, below)| < |q.pq|
  {
    MaxIsDearest(q);
    UpToAll(q.pq, p, below);
  }

  /** One order within p, offered to a queue whose maximum is beyond. */
  lemma AddWithin(q: Queue, sort: Sorter, e: Entry, p: real, below: bool)
    requires q.Sorted() && Bounded(q, MaxQueueLength) && q.pq != []
    requires Within(e, p, below) && Beyond(q, p, below)
    ensures var q' := q.Add(MaxQueueLength, sort, e);
      && q'.Sorted() && Bounded(q', MaxQueueLength) && q'.pq != []
      && |q'.pq| == Min(|q.pq| + 1, MaxQueueLength + 1)
      && |UpTo(q'.pq, p, below)| == |UpTo(q.pq, p, below)| + 1
  {
    AddEntries(q, MaxQueueLength, sort, e);
    TrimEntries(q, MaxQueueLength);
    if |q.pq| > MaxQueueLength {
      UpToPlusOne(q.Trim(MaxQueueLength).pq, q.pq, q.pq[|q.pq| - 1], p, below);
    }
    UpToPlusOne(q.Trim(MaxQueueLength).pq, q.Add(MaxQueueLength, sort, e).pq, e, p, below);
  }

  /** The maximum of a queue never rises with an offer. */
  lemma OfferLowers(q: Queue, sort: Sorter, r: Listed)
    requires q.Sorted() && Bounded(q, MaxQueueLength) && q.pq != []
    ensures var q' := Offer(q, sort, r);
      q'.Sorted() && Bounded(q', MaxQueueLength) && q'.pq != [] && q'.GetMax().1 <= q.GetMax().1
  {
    if !r.isOpenseaBanned && q.GetMax().1 > r.price {
      var e := EntryFor(r);
      AddEntries(q, MaxQueueLength, sort, e);
      PlusOneEntries(q.Trim(MaxQueueLength).pq, q.Add(MaxQueueLength, sort, e).pq, e);
      MaxIsDearest(q);
      assert forall x :: x in q.Trim(MaxQueueLength).pq ==> x in q.pq;
      MaxIsDearest(q.Add(MaxQueueLength, sort, e));
    }
  }

  ghost predicate AllWithin(rows: seq<Listed>, p: real, below: bool) {
    forall i :: 0 <= i < |rows| ==> Within(EntryFor(rows[i]), p, below) && !rows[i].isOpenseaBanned
  }

  /** Of a queue with few of its entries within p, after k offers within p. */
  ghost predicate Thresholds(q: Queue, p: real, below: bool, few: nat, size: nat, k: nat) {
    && q.Sorted() && Bounded(q, MaxQueueLength) && q.pq != []
    && (Beyond(q, p, below) <==> few + k < Min(size + k, MaxQueueLength + 1))
    && (Beyond(q, p, below) ==> |q.pq| == Min(size + k, MaxQueueLength + 1) && |UpTo(q.pq, p, below)| == few + k)
  }

  lemma ThresholdStep(q: Queue, sort: Sorter, r: Listed, p: real, below: bool, few: nat, size: nat, k: nat)
    requires Thresholds(q, p, below, few, size, k) && few <= size
    requires Within(EntryFor(r), p, below) && !r.isOpenseaBanned
    ensures Thresholds(Offer(q, sort, r), p, below, few, size, k + 1)
  {
    if Beyond(q, p, below) {
      AddWithin(q, sort, EntryFor(r), p, below);
      MaxUpTo(Offer(q, sort, r), p, below);
    } else {
      OfferLowers(q, sort, r);
    }
  }

  /** Offering orders within p leaves an entry beyond p queued exactly when the queue has no room
      for all of them beside its own entries within p. */
  lemma {:induction false} OfferThreshold(q: Queue, sort: Sorter, rows: seq<Listed>, p: real, below: bool)
    requires q.Sorted() && Bounded(q, MaxQueueLength) && q.pq != [] && AllWithin(rows, p, below)
    ensures Thresholds(OfferAll(q, sort, rows), p, below, |UpTo(q.pq, p, below)|, |q.pq|, |rows|)
  {
    MaxUpTo(q, p, below);
    UpToAll(q.pq, p, below);
    if rows != [] {
      var k := |rows| - 1;
      OfferThreshold(q, sort, rows[..k], p, below);
      ThresholdStep(OfferAll(q, sort, rows[..k]), sort, rows[k], p, below, |UpTo(q.pq, p, below)|, |q.pq|, k);
    }
  }

  // ---- the owner changes ----

  /** Every queued order on the token is the sender's. */
  ghost predicate SendersOnly(q: Queue, ev: TradeEvent) {
    forall e :: e in q.pq && e.tokenID == ToLower(ev.tokenID) ==> e.maker == ToLower(ev.sender)
  }

  /** It is, when the tables record the sender as the owner. */
  lemma OwnersOnly(st: Store, q: Queue, ev: TradeEvent)
    requires QueuedValid(st, q)
    requires ToLower(ev.tokenID) in st.items ==> ToLower(st.items[ToLower(ev.tokenID)].owner) == ToLower(ev.sender)
    ensures SendersOnly(q, ev)
  {
    forall e | e in q.pq && e.tokenID == ToLower(ev.tokenID) ensures e.maker == ToLower(ev.sender) {
      assert EntryValid(st, e);
    }
  }

  ghost predicate SameOffToken(st: Store, st': Store, t: string) {
    && st'.orders == st.orders
    && forall id :: id in st.orders && ToLower(st.orders[id].tokenId) != t ==> (Valid(st', id) <==> Valid(st, id))
  }

  /** The owner of a token changes: the sender's orders go, the new owner's are pending. */
  lemma OwnerChangeKeeps(st: Store, st': Store, q: Queue, ev: TradeEvent)
    requires CheapestBut(st, q, {}) && SendersOnly(q, ev)
    requires st' == st.(items := SetOwner(st.items, ToLower(ev.tokenID), ev.recipient))
    ensures var q' := q.RemoveMakerOrders(ev.sender, ev.tokenID);
      && CheapestBut(st', q', UserIds(st', ev.tokenID, ev.recipient))
      && UserIds(st', ev.tokenID, ev.recipient) !! q'.orders.Keys
  {
    var q' := q.RemoveMakerOrders(ev.sender, ev.tokenID);
    var m, t := ToLower(ev.sender), ToLower(ev.tokenID);
    var user := UserIds(st', ev.tokenID, ev.recipient);
    RemoveMakerKeeps(q, MaxQueueLength, ev.sender, ev.tokenID);
    WithoutMakerEntries(q.pq, m, t);
    UnindexedKeeps(q.orders, q.pq, m, t);
    forall id | id in st.orders && ToLower(st.orders[id].tokenId) != t
      ensures Valid(st', id) <==> Valid(st, id)
    {
    }
    OwnerChangeQueued(st, st', q, q', m, t);
    forall id | id in q'.orders ensures ToLower(st.orders[id].tokenId) != t {
      assert q'.orders[id] in q'.pq;
    }
    OwnerChangeOutside(st, st', q, q', m, t, user);
  }

  lemma OwnerChangeQueued(st: Store, st': Store, q: Queue, q': Queue, m: string, t: string)
    requires QueuedValid(st, q) && SameOffToken(st, st', t)
    requires forall e :: e in q.pq && e.tokenID == t ==> e.maker == m
    requires forall e :: e in q'.pq ==> e in q.pq && !OwnedBy(e, m, t)
    ensures QueuedValid(st', q')
    ensures forall e :: e in q'.pq ==> ToLower(st.orders[e.orderID].tokenId) != t
  {
    forall e | e in q'.pq ensures EntryValid(st', e) && ToLower(st.orders[e.orderID].tokenId) != t {
      assert e in q.pq && EntryValid(st, e) && !OwnedBy(e, m, t);
    }
  }

  lemma OwnerChangeOutside(st: Store, st': Store, q: Queue, q': Queue, m: string, t: string, user: set<string>)
    requires q.Agrees() && QueuedValid(st, q) && OutsideDearer(st, q, {}) && SameOffToken(st, st', t)
    requires forall e :: e in q'.pq ==> e in q.pq
    requires forall id :: id in q.orders && id !in q'.orders ==> OwnedBy(q.orders[id], m, t)
    requires forall id :: id in ValidIds(st') && ToLower(st.orders[id].tokenId) == t ==> id in user
    ensures OutsideDearer(st', q', user)
  {
    forall id | id in q.orders && id !in q'.orders ensures ToLower(st.orders[id].tokenId) == t {
      assert EntryValid(st, q.orders[id]);
    }
    forall id | id in ValidIds(st') && id !in q'.orders && id !in user
      ensures AtLeastAll(q', st'.orders[id].price)
    {
      assert Valid(st, id) && id !in q.orders;
      assert AtLeastAll(q, st.orders[id].price);
    }
  }

  // ---- the transfer arm ----

  ghost predicate Banned(st: Store, ev: TradeEvent) {
    ToLower(ev.tokenID) in st.items && st.items[ToLower(ev.tokenID)].banned
  }

  /** The recipient's valid orders on the token that are never offered to the queue: all of
      them on a banned token, otherwise those beyond the query limit. */
  ghost function Skipped(st: Store, ev: TradeEvent, ans: Answers): set<string> {
    var user := UserIds(st, ev.tokenID, ev.recipient);
    if Banned(st, ev) then user else user - RowIds(ans.user)
  }

  /** What a skipped order must cost: on a banned token, where nothing is offered, as much as
      the dearest entry left; else, since a hundred orders are offered, only as much as the
      cheapest. */
  ghost function Bar(st: Store, q: Queue, ev: TradeEvent): real {
    if Banned(st, ev) then q.GetMax().1 else q.GetMin().1
  }

  /** Nothing but the sender's orders is queued, or no skipped order is too cheap. */
  ghost predicate TransferFits(st: Store, q: Queue, ev: TradeEvent, ans: Answers) {
    var left := q.RemoveMakerOrders(ev.sender, ev.tokenID);
    left.pq == [] || forall id :: id in Skipped(st, ev, ans) && id in st.orders ==> Bar(st, left, ev) <= st.orders[id].price
  }

  /** The two queries' answers. */
  ghost predicate Answered(st: Store, ev: TradeEvent, ans: Answers) {
    && CheapestOf(st, ValidIds(st), ans.lowest, QueryLimit)
    && CheapestOf(st, UserIds(st, ev.tokenID, ev.recipient), ans.user, QueryLimit)
  }

  /** The transfer arm keeps the invariant exactly when it fits. */
  lemma TransferExact(st: Store, st': Store, q: Queue, sort: Sorter, ev: TradeEvent, ans: Answers)
    requires CheapestBut(st, q, {}) && SendersOnly(q, ev) && WellFormed(st')
    requires st' == st.(items := SetOwner(st.items, ToLower(ev.tokenID), ev.recipient))
    requires Answered(st', ev, ans)
    ensures CheapestPart(st', StepTransfer(q, sort, ev, ans)) <==> TransferFits(st', q, ev, ans)
  {
    var left := q.RemoveMakerOrders(ev.sender, ev.tokenID);
    WithoutMakerEntries(q.pq, ToLower(ev.sender), ToLower(ev.tokenID));
    OwnerChangeKeeps(st, st', q, ev);
    EmptyTogether(q);
    if left.pq == [] {
      EndsInReload(st', q, left, sort, ev, ans);
    } else {
      OfferedAll(st', left, sort, ev, ans);
      EmptyTogether(OfferAll(left, sort, ans.user));
      PendingSettled(st', OfferAll(left, sort, ans.user), Skipped(st', ev, ans));
      if Banned(st', ev) {
        BannedUndercut(st', left, sort, ev, ans);
      } else {
        CutOffUndercut(st', left, sort, ev, ans);
      }
    }
  }

  lemma EndsInReload(st: Store, q: Queue, left: Queue, sort: Sorter, ev: TradeEvent, ans: Answers)
    requires WellFormed(st) && q.Agrees() && left.Agrees() && left.pq == []
    requires left == q.RemoveMakerOrders(ev.sender, ev.tokenID) && Answered(st, ev, ans)
    ensures CheapestPart(st, StepTransfer(q, sort, ev, ans))
  {
    EmptyTogether(q);
    if q.pq == [] {
      ReloadGivesCheapestPart(st, sort, ans.lowest);
    } else {
      OfferAllToEmpty(st, left, sort, ans.user);
      OrReloadKeeps(st, left, sort, ans);
    }
  }

  ghost predicate NoneUndercuts(st: Store, q: Queue, ids: set<string>) {
    forall id :: id in ids && id in st.orders ==> AtLeastAll(q, st.orders[id].price)
  }

  /** After the offers only the skipped orders are pending, banned token or not. */
  lemma OfferedAll(st: Store, q: Queue, sort: Sorter, ev: TradeEvent, ans: Answers)
    requires var user := UserIds(st, ev.tokenID, ev.recipient);
      && CheapestBut(st, q, user) && user !! q.orders.Keys && q.pq != []
      && CheapestOf(st, user, ans.user, QueryLimit)
    ensures var q', skipped := OfferAll(q, sort, ans.user), Skipped(st, ev, ans);
      CheapestBut(st, q', skipped) && skipped !! q'.orders.Keys && q'.pq != []
  {
    RowIdsAre(ans.user);
    if Banned(st, ev) {
      BannedNotOffered(q, sort, ans.user);
    } else {
      OfferAllKeeps(st, q, sort, UserIds(st, ev.tokenID, ev.recipient), ans.user);
      ValidByIds(st, q, OfferAll(q, sort, ans.user), ans.user);
    }
  }

  /** Recorded entries with ids that were queued or offered are valid. */
  lemma ValidByIds(st: Store, q: Queue, q': Queue, rows: seq<Listed>)
    requires q.Agrees() && QueuedValid(st, q) && q'.Agrees() && QueuedRecorded(st, q')
    requires q'.orders.Keys <= q.orders.Keys + RowIds(rows) && forall i :: 0 <= i < |rows| ==> RowOf(st, rows[i])
    ensures QueuedValid(st, q')
  {
    RowIdsAre(rows);
    forall e | e in q'.pq ensures EntryValid(st, e) {
      if e.orderID in q.orders { assert EntryValid(st, q.orders[e.orderID]); }
    }
  }

  lemma PendingSettled(st: Store, q: Queue, pending: set<string>)
    requires CheapestBut(st, q, pending) && q.pq != []
    requires pending <= ValidIds(st) && pending !! q.orders.Keys
    ensures CheapestPart(st, q) <==> NoneUndercuts(st, q, pending)
  {
  }

  lemma {:induction false} BannedNotOffered(q: Queue, sort: Sorter, rows: seq<Listed>)
    requires forall i :: 0 <= i < |rows| ==> rows[i].isOpenseaBanned
    ensures OfferAll(q, sort, rows) == q
  {
    if rows != [] { BannedNotOffered(q, sort, rows[..|rows| - 1]); }
  }

  lemma BannedUndercut(st: Store, q: Queue, sort: Sorter, ev: TradeEvent, ans: Answers)
    requires Banned(st, ev) && q.Sorted() && q.pq != [] && Answered(st, ev, ans)
    ensures NoneUndercuts(st, OfferAll(q, sort, ans.user), Skipped(st, ev, ans)) <==>
      forall id :: id in Skipped(st, ev, ans) && id in st.orders ==> q.GetMax().1 <= st.orders[id].price
  {
    BannedNotOffered(q, sort, ans.user);
    MaxIsDearest(q);
  }

  /** A hundred offers no dearer than a skipped order push out every entry that is dearer than
      it but the last; and that one too if any other entry of the queue is not dearer. */
  lemma CutOffUndercut(st: Store, q: Queue, sort: Sorter, ev: TradeEvent, ans: Answers)
    requires !Banned(st, ev) && Shaped(q) && q.pq != [] && Answered(st, ev, ans)
    ensures NoneUndercuts(st, OfferAll(q, sort, ans.user), Skipped(st, ev, ans)) <==>
      forall id :: id in Skipped(st, ev, ans) && id in st.orders ==> q.GetMin().1 <= st.orders[id].price
  {
    forall id | id in Skipped(st, ev, ans) && id in st.orders
      ensures AtLeastAll(OfferAll(q, sort, ans.user), st.orders[id].price) <==> q.GetMin().1 <= st.orders[id].price
    {
      HundredOffers(q, sort, ans.user, st.orders[id].price);
    }
  }

  lemma HundredOffers(q: Queue, sort: Sorter, rows: seq<Listed>, p: real)
    requires q.Sorted() && Bounded(q, MaxQueueLength) && q.pq != []
    requires AllWithin(rows, p, false) && |rows| == QueryLimit
    ensures AtLeastAll(OfferAll(q, sort, rows), p) <==> q.GetMin().1 <= p
  {
    OfferThreshold(q, sort, rows, p, false);
    MaxIsDearest(OfferAll(q, sort, rows));
    UpToSome(q.pq, p, false);
    if e :| e in q.pq && e.priority <= p { MinIsCheapest(q, e); }
    assert q.pq[0] in q.pq;
  }

  /** In particular when the recipient's orders fit one query and the token is not banned. */
  lemma TransferKeeps(st: Store, st': Store, q: Queue, sort: Sorter, ev: TradeEvent, ans: Answers)
    requires CheapestBut(st, q, {}) && SendersOnly(q, ev) && WellFormed(st')
    requires st' == st.(items := SetOwner(st.items, ToLower(ev.tokenID), ev.recipient))
    requires Answered(st', ev, ans)
    requires |UserIds(st', ev.tokenID, ev.recipient)| <= QueryLimit && !Banned(st', ev)
    ensures CheapestPart(st', StepTransfer(q, sort, ev, ans))
  {
    AllReturned(st', UserIds(st', ev.tokenID, ev.recipient), ans.user);
    assert Skipped(st', ev, ans) == {};
    TransferExact(st, st', q, sort, ev, ans);
  }

  /** A queued order of someone else on the token, who is not the recipient either, stays
      queued and so breaks the invariant, when the recipient has nothing to push it out. */
  lemma StrayOrderStays(st: Store, st': Store, q: Queue, sort: Sorter, ev: TradeEvent, ans: Answers, e: Entry)
    requires CheapestBut(st, q, {}) && WellFormed(st')
    requires st' == st.(items := SetOwner(st.items, ToLower(ev.tokenID), ev.recipient))
    requires Answered(st', ev, ans) && UserIds(st', ev.tokenID, ev.recipient) == {}
    requires e in q.pq && e.tokenID == ToLower(ev.tokenID)
    requires e.maker != ToLower(ev.sender) && e.maker != ToLower(ev.recipient)
    ensures !CheapestPart(st', StepTransfer(q, sort, ev, ans))
  {
    StrayInvalid(st, st', ev, e);
    NoneToOffer(st', ev, ans);
    StrayQueued(q, sort, ev, ans, e);
    assert CheapestPart(st', StepTransfer(q, sort, ev, ans)) ==> EntryValid(st', e);
  }

  lemma NoneToOffer(st: Store, ev: TradeEvent, ans: Answers)
    requires Answered(st, ev, ans) && UserIds(st, ev.tokenID, ev.recipient) == {}
    ensures ans.user == []
  {
    AllReturned(st, {}, ans.user);
    RowIdsSize(ans.user);
  }

  lemma StrayQueued(q: Queue, sort: Sorter, ev: TradeEvent, ans: Answers, e: Entry)
    requires q.Agrees() && ans.user == [] && e in q.pq && e.maker != ToLower(ev.sender)
    ensures e in StepTransfer(q, sort, ev, ans).pq
  {
    var left := q.RemoveMakerOrders(ev.sender, ev.tokenID);
    WithoutMakerEntries(q.pq, ToLower(ev.sender), ToLower(ev.tokenID));
    RemoveMakerKeeps(q, MaxQueueLength, ev.sender, ev.tokenID);
    EmptyTogether(q);
    EmptyTogether(left);
    assert e in left.pq && OfferAll(left, sort, []) == left;
  }

  lemma StrayInvalid(st: Store, st': Store, ev: TradeEvent, e: Entry)
    requires st' == st.(items := SetOwner(st.items, ToLower(ev.tokenID), ev.recipient)) && EntryValid(st, e)
    requires e.tokenID == ToLower(ev.tokenID) && e.maker != ToLower(ev.recipient)
    ensures !EntryValid(st', e)
  {
  }

  // ---- a banned token ----

  const BannedStore := Store(map["1" := OrderRow(ListingType, StatusActive, 0, 5.0, "carol", "8"),
                                 "2" := OrderRow(ListingType, StatusActive, 0, 1.0, "bob", "7")],
                             map["8" := Item("carol", false), "7" := Item("alice", true)])

  /** Carol's order at 5 is queued. Bob gets a banned token back that he still offers at 1 on
      another market: his order is valid again, but is not offered to the queue. */
  lemma BannedBreaks(sort: Sorter, ans: Answers)
    requires var ev := TradeEvent(Transfer, "0xc0", "7", "", 0.0, "alice", "bob");
      Answered(BannedStore.(items := SetOwner(BannedStore.items, "7", "bob")), ev, ans)
    ensures var ev := TradeEvent(Transfer, "0xc0", "7", "", 0.0, "alice", "bob");
      var st' := BannedStore.(items := SetOwner(BannedStore.items, "7", "bob"));
      var q := EmptyQueue.Add(MaxQueueLength, sort, MakeEntry("1", 5.0, "carol", "8"));
      CheapestPart(BannedStore, q) && !CheapestPart(st', StepTransfer(q, sort, ev, ans))
  {
    var ev := TradeEvent(Transfer, "0xc0", "7", "", 0.0, "alice", "bob");
    var st' := BannedStore.(items := SetOwner(BannedStore.items, "7", "bob"));
    var e := MakeEntry("1", 5.0, "carol", "8");
    var q := EmptyQueue.Add(MaxQueueLength, sort, e);
    SmallTexts();
    CarolQueued(sort, q, e);
    CarolStays(q, e);
    BobsTurn(ans);
    assert !TransferFits(st', q, ev, ans);
    TransferExact(BannedStore, st', q, sort, ev, ans);
  }

  lemma CarolStays(q: Queue, e: Entry)
    requires e == MakeEntry("1", 5.0, "carol", "8") && forall x :: x in q.pq <==> x == e
    ensures var left := q.RemoveMakerOrders("alice", "7"); left.pq != [] && left.GetMax().1 == 5.0
  {
    var left := q.RemoveMakerOrders("alice", "7");
    SmallTexts();
    WithoutMakerEntries(q.pq, ToLower("alice"), ToLower("7"));
    assert e in left.pq;
    assert left.pq[|left.pq| - 1] in left.pq;
  }

  lemma BobsTurn(ans: Answers)
    ensures var st' := BannedStore.(items := SetOwner(BannedStore.items, "7", "bob"));
      var ev := TradeEvent(Transfer, "0xc0", "7", "", 0.0, "alice", "bob");
      Banned(st', ev) && "2" in Skipped(st', ev, ans) && "2" in st'.orders && st'.orders["2"].price == 1.0
  {
    SmallTexts();
    assert "2" in UserIds(BannedStore.(items := SetOwner(BannedStore.items, "7", "bob")), "7", "bob");
  }

  lemma CarolQueued(sort: Sorter, q: Queue, e: Entry)
    requires e == MakeEntry("1", 5.0, "carol", "8") && q == EmptyQueue.Add(MaxQueueLength, sort, e)
    ensures CheapestPart(BannedStore, q) && forall x :: x in q.pq <==> x == e
  {
    assert AtMostOnce(multiset(EmptyQueue.pq));
    AddWithRoom(EmptyQueue, sort, e);
    SmallTexts();
    assert ValidIds(BannedStore) == {"1"};
    OnlyEntry(BannedStore, q, e);
  }

  lemma OnlyEntry(st: Store, q: Queue, e: Entry)
    requires Shaped(q) && EntryValid(st, e) && (forall x :: x in q.pq <==> x == e) && ValidIds(st) == {e.orderID}
    ensures CheapestPart(st, q)
  {
    assert e in q.pq;
  }

  lemma SmallTexts()
    ensures ToLower("7") == "7" && ToLower("8") == "8" && "7" != "8" && "1" != "2"
    ensures ToLower("alice") != ToLower("bob") && ToLower("alice") != ToLower("carol")
  {
    assert "7"[0] != "8"[0] && "1"[0] != "2"[0];
    assert |ToLower("alice")| == 5 && |ToLower("bob")| == 3;
    assert ToLower("alice")[0] == 'a' && ToLower("carol")[0] == 'c';
  }
}
