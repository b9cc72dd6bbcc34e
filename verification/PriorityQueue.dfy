/** The bounded price queue of a collection: a slice kept sorted by price, and an index of
    the queued orders by id. `Queue` is its value and the meaning of each operation;
    `PriorityQueueMap` is the object that the order manager mutates. */
module PriorityQueue {
  import opened Sorting
  import opened Text

  datatype Entry = Entry(orderID: string, priority: real, maker: string, tokenID: string)

  function Priority(e: Entry): real { e.priority }

  /** `sort.Sort` on a slice of entries: any function returning a sorted permutation. */
  type Sorter = f: seq<Entry> -> seq<Entry> | IsSorter(f, Priority)
    witness SomeSorter()

  function SomeSorter(): (f: seq<Entry> -> seq<Entry>)
    ensures IsSorter(f, Priority)
  {
    var f := (s: seq<Entry>) => StableSort(s, Priority);
    assert IsSorter(f, Priority) by {
      forall s: seq<Entry> ensures SortedPermutation(s, f(s), Priority) {
        StableSortSorts(s, Priority);
      }
    }
    f
  }

  /** The entry stored for an order; maker and token are kept in lower case. */
  function MakeEntry(orderID: string, price: real, maker: string, tokenID: string): Entry {
    Entry(orderID, price, ToLower(maker), ToLower(tokenID))
  }

  function WithoutId(pq: seq<Entry>, orderID: string): seq<Entry> {
    if pq == [] then []
    else
      var n := |pq| - 1;
      WithoutId(pq[..n], orderID) + if pq[n].orderID != orderID then [pq[n]] else []
  }

  predicate OwnedBy(e: Entry, maker: string, tokenID: string) {
    e.maker == maker && e.tokenID == tokenID
  }

  function WithoutMaker(pq: seq<Entry>, maker: string, tokenID: string): seq<Entry> {
    if pq == [] then []
    else
      var n := |pq| - 1;
      WithoutMaker(pq[..n], maker, tokenID) + if OwnedBy(pq[n], maker, tokenID) then [] else [pq[n]]
  }

  /** The index without the ids of the entries of (maker, tokenID). */
  function Unindexed(orders: map<string, Entry>, pq: seq<Entry>, maker: string, tokenID: string): map<string, Entry> {
    if pq == [] then orders
    else
      var n := |pq| - 1;
      var rest := Unindexed(orders, pq[..n], maker, tokenID);
      if OwnedBy(pq[n], maker, tokenID) then rest - {pq[n].orderID} else rest
  }

  ghost predicate AtMostOnce(m: multiset<Entry>) {
    forall e :: m[e] <= 1
  }

  datatype Queue = Queue(pq: seq<Entry>, orders: map<string, Entry>) {

    function Len(): nat { |orders| }

    function GetMin(): (string, real) {
      if pq == [] then ("", 0.0) else (pq[0].orderID, pq[0].priority)
    }

    function GetMax(): (string, real) {
      if pq == [] then ("", 0.0) else (pq[|pq| - 1].orderID, pq[|pq| - 1].priority)
    }

    /** Drops the dearest entry when the slice is longer than maxLen. */
    function Trim(maxLen: nat): Queue {
      if |pq| > maxLen then Queue(pq[..|pq| - 1], orders - {pq[|pq| - 1].orderID}) else this
    }

    function Add(maxLen: nat, sort: Sorter, e: Entry): Queue {
      var q := Trim(maxLen);
      Queue(sort(q.pq + [e]), q.orders[e.orderID := e])
    }

    function Remove(orderID: string): Queue {
      if orderID in orders then Queue(WithoutId(pq, orderID), orders - {orderID}) else this
    }

    function RemoveMakerOrders(maker: string, tokenID: string): Queue {
      var m, t := ToLower(maker), ToLower(tokenID);
      Queue(WithoutMaker(pq, m, t), Unindexed(orders, pq, m, t))
    }

    // ---- invariants ----

    /** Every indexed order is in the slice. */
    ghost predicate Indexed() {
      forall id :: id in orders ==> orders[id] in pq && orders[id].orderID == id
    }

    /** No entry twice and no two entries with the same id. */
    ghost predicate DistinctIds() {
      && AtMostOnce(multiset(pq))
      && (forall e, f :: e in pq && f in pq && e.orderID == f.orderID ==> e == f)
    }

    /** Slice and index hold the same orders, each once. */
    ghost predicate Agrees() {
      && DistinctIds()
      && Indexed()
      && (forall e :: e in pq ==> e.orderID in orders && orders[e.orderID] == e)
    }

    ghost predicate Sorted() {
      SortedBy(pq, Priority)
    }
  }

  const EmptyQueue := Queue([], map[])

  /** The object mutated by the order manager. */
  class PriorityQueueMap {
    var pq: seq<Entry>
    var orders: map<string, Entry>
    const maxLen: nat
    const sort: Sorter

    constructor (maxLen: nat, sort: Sorter)
      ensures Value() == EmptyQueue
      ensures this.maxLen == maxLen && this.sort == sort
    {
      this.pq, this.orders := [], map[];
      this.maxLen, this.sort := maxLen, sort;
    }

    function Value(): Queue
      reads this
    {
      Queue(pq, orders)
    }

    function Len(): nat
      reads this
    {
      |orders|
    }

    method Add(orderID: string, price: real, maker: string, tokenID: string)
      modifies this
      ensures Value() == old(Value()).Add(maxLen, sort, MakeEntry(orderID, price, maker, tokenID))
    {
      if |pq| > maxLen {
        orders := orders - {pq[|pq| - 1].orderID};
        pq := pq[0..|pq| - 1];
      }
      var entry := MakeEntry(orderID, price, maker, tokenID);
      pq := pq + [entry];
      pq := sort(pq);
      orders := orders[orderID := entry];
    }

    method GetMin() returns (id: string, price: real)
      ensures (id, price) == Value().GetMin()
    {
      if |pq| == 0 {
        return "", 0.0;
      }
      var entry := pq[0];
      return entry.orderID, entry.priority;
    }

    method GetMax() returns (id: string, price: real)
      ensures (id, price) == Value().GetMax()
    {
      if |pq| == 0 {
        return "", 0.0;
      }
      var entry := pq[|pq| - 1];
      return entry.orderID, entry.priority;
    }

    method Remove(orderID: string)
      modifies this
      ensures Value() == old(Value()).Remove(orderID)
    {
      if orderID !in orders {
        return;
      }
      var newPQ: seq<Entry> := [];
      for i := 0 to |pq|
        invariant pq == old(pq) && orders == old(orders)
        invariant newPQ == WithoutId(pq[..i], orderID)
      {
        assert pq[..i + 1][..i] == pq[..i];
        if pq[i].orderID != orderID {
          newPQ := newPQ + [pq[i]];
        }
      }
      assert pq[..|pq|] == pq;
      pq := newPQ;
      orders := orders - {orderID};
    }

    method RemoveMakerOrders(maker: string, tokenID: string)
      modifies this
      ensures Value() == old(Value()).RemoveMakerOrders(maker, tokenID)
    {
      var m, t := ToLower(maker), ToLower(tokenID);
      var newPQ: seq<Entry> := [];
      for i := 0 to |pq|
        invariant pq == old(pq)
        invariant newPQ == WithoutMaker(pq[..i], m, t)
        invariant orders == Unindexed(old(orders), pq[..i], m, t)
      {
        assert pq[..i + 1][..i] == pq[..i];
        if pq[i].maker == m && pq[i].tokenID == t {
          orders := orders - {pq[i].orderID};
        } else {
          newPQ := newPQ + [pq[i]];
        }
      }
      assert pq[..|pq|] == pq;
      pq := newPQ;
    }
  }
}
