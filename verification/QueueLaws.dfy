/** What every operation keeps true of the queue, and what it holds after any sequence of
    operations. */
module QueueLaws {
  import opened Sorting
  import opened Text
  import opened PriorityQueue

  // ---- the filters ----

  lemma {:induction false} WithoutIdEntries(pq: seq<Entry>, id: string)
    ensures forall e :: e in WithoutId(pq, id) <==> e in pq && e.orderID != id
    ensures multiset(WithoutId(pq, id)) <= multiset(pq)
    ensures |WithoutId(pq, id)| <= |pq|
  {
    if pq != [] {
      var n := |pq| - 1;
      WithoutIdEntries(pq[..n], id);
      assert pq == pq[..n] + [pq[n]];
    }
  }

  lemma {:induction false} WithoutIdSorted(pq: seq<Entry>, id: string)
    requires SortedBy(pq, Priority)
    ensures SortedBy(WithoutId(pq, id), Priority)
  {
    if pq != [] {
      var n := |pq| - 1;
      var r := WithoutId(pq[..n], id);
      WithoutIdSorted(pq[..n], id);
      WithoutIdEntries(pq[..n], id);
      forall i | 0 <= i < |r| ensures Priority(r[i]) <= Priority(pq[n]) {
        assert r[i] in pq[..n];
      }
    }
  }

  lemma {:induction false} WithoutMakerEntries(pq: seq<Entry>, m: string, t: string)
    ensures forall e :: e in WithoutMaker(pq, m, t) <==> e in pq && !OwnedBy(e, m, t)
    ensures multiset(WithoutMaker(pq, m, t)) <= multiset(pq)
    ensures |WithoutMaker(pq, m, t)| <= |pq|
  {
    if pq != [] {
      var n := |pq| - 1;
      WithoutMakerEntries(pq[..n], m, t);
      assert pq == pq[..n] + [pq[n]];
    }
  }

  lemma {:induction false} WithoutMakerSorted(pq: seq<Entry>, m: string, t: string)
    requires SortedBy(pq, Priority)
    ensures SortedBy(WithoutMaker(pq, m, t), Priority)
  {
    if pq != [] {
      var n := |pq| - 1;
      var r := WithoutMaker(pq[..n], m, t);
      WithoutMakerSorted(pq[..n], m, t);
      WithoutMakerEntries(pq[..n], m, t);
      forall i | 0 <= i < |r| ensures Priority(r[i]) <= Priority(pq[n]) {
        assert r[i] in pq[..n];
      }
    }
  }

  lemma {:induction false} UnindexedKeeps(orders: map<string, Entry>, pq: seq<Entry>, m: string, t: string)
    ensures var r := Unindexed(orders, pq, m, t);
      && (forall id :: id in r ==> id in orders && r[id] == orders[id])
      && (forall e :: e in pq && OwnedBy(e, m, t) ==> e.orderID !in r)
      && (forall id :: id in orders && id !in r ==> exists e :: e in pq && OwnedBy(e, m, t) && e.orderID == id)
  {
    if pq != [] {
      var n := |pq| - 1;
      UnindexedKeeps(orders, pq[..n], m, t);
      assert pq == pq[..n] + [pq[n]];
    }
  }

  // ---- one operation ----

  ghost predicate Bounded(q: Queue, maxLen: nat) {
    |q.pq| <= maxLen + 1
  }

  /** Add keeps the entries there were, minus the dearest one when the slice is over-full. */
  lemma AddEntries(q: Queue, maxLen: nat, sort: Sorter, e: Entry)
    ensures var q' := q.Add(maxLen, sort, e);
      && multiset(q'.pq) == multiset(q.Trim(maxLen).pq) + multiset{e}
      && |q'.pq| == |q.Trim(maxLen).pq| + 1
      && q'.Sorted()
      && (Bounded(q, maxLen) ==> Bounded(q', maxLen))
  {
    var t := q.Trim(maxLen).pq + [e];
    assert SortedPermutation(t, sort(t), Priority);
    assert |multiset(t)| == |multiset(sort(t))|;
  }

  lemma TrimEntries(q: Queue, maxLen: nat)
    requires q.Sorted()
    ensures |q.pq| <= maxLen ==> q.Trim(maxLen) == q
    ensures |q.pq| > maxLen ==>
      && multiset(q.pq) == multiset(q.Trim(maxLen).pq) + multiset{q.pq[|q.pq| - 1]}
      && forall e :: e in q.pq ==> e.priority <= q.pq[|q.pq| - 1].priority
  {
    if |q.pq| > maxLen {
      assert q.pq == q.pq[..|q.pq| - 1] + [q.pq[|q.pq| - 1]];
      assert forall e :: e in q.pq ==> exists i :: 0 <= i < |q.pq| && q.pq[i] == e;
      assert forall i :: 0 <= i < |q.pq| ==> Priority(q.pq[i]) <= Priority(q.pq[|q.pq| - 1]);
    }
  }

  lemma AddKeepsIndexed(q: Queue, maxLen: nat, sort: Sorter, e: Entry)
    requires q.Indexed()
    ensures q.Add(maxLen, sort, e).Indexed()
  {
    AddEntries(q, maxLen, sort, e);
    var t, q' := q.Trim(maxLen), q.Add(maxLen, sort, e);
    assert forall x :: x in multiset(q'.pq) ==> x in q'.pq;
    if |q.pq| > maxLen {
      assert q.pq == t.pq + [q.pq[|q.pq| - 1]];
    }
  }

  lemma TrimKeepsAgreement(q: Queue, maxLen: nat)
    requires q.Agrees()
    ensures q.Trim(maxLen).Agrees()
  {
    var t := q.Trim(maxLen);
    if |q.pq| > maxLen {
      var last := q.pq[|q.pq| - 1];
      assert q.pq == t.pq + [last];
      assert multiset(q.pq)[last] <= 1;
      assert last !in multiset(t.pq);
      assert forall x :: multiset(t.pq)[x] <= multiset(q.pq)[x];
    }
  }

  lemma PlusOneEntries(s: seq<Entry>, t: seq<Entry>, e: Entry)
    requires multiset(t) == multiset(s) + multiset{e}
    ensures forall x :: x in t <==> x in s || x == e
    ensures AtMostOnce(multiset(s)) && e !in s ==> AtMostOnce(multiset(t))
  {
    forall x ensures x in t <==> x in s || x == e {
      assert x in t <==> x in multiset(t);
    }
    if AtMostOnce(multiset(s)) && e !in s {
      forall x ensures multiset(t)[x] <= 1 {
        assert multiset(s)[x] <= 1 && multiset(s)[e] == 0;
      }
    }
  }

  lemma PlusOneAgrees(t: Queue, q: Queue, e: Entry)
    requires t.Agrees() && e.orderID !in t.orders
    requires forall x :: x in q.pq <==> x in t.pq || x == e
    requires AtMostOnce(multiset(q.pq))
    requires q.orders == t.orders[e.orderID := e]
    ensures q.Agrees()
  {
    assert q.Indexed();
    assert q.DistinctIds();
  }

  lemma AddKeepsAgreement(q: Queue, maxLen: nat, sort: Sorter, e: Entry)
    requires q.Agrees() && e.orderID !in q.orders
    ensures q.Add(maxLen, sort, e).Agrees()
  {
    TrimKeepsAgreement(q, maxLen);
    AddEntries(q, maxLen, sort, e);
    PlusOneEntries(q.Trim(maxLen).pq, q.Add(maxLen, sort, e).pq, e);
    PlusOneAgrees(q.Trim(maxLen), q.Add(maxLen, sort, e), e);
  }

  lemma SubmultisetOnce(m: multiset<Entry>, n: multiset<Entry>)
    requires m <= n && AtMostOnce(n)
    ensures AtMostOnce(m)
  {
    forall e ensures m[e] <= 1 {
      assert n[e] <= 1;
    }
  }

  lemma RemoveKeeps(q: Queue, maxLen: nat, id: string)
    requires q.Indexed()
    ensures q.Remove(id).Indexed()
    ensures q.Sorted() ==> q.Remove(id).Sorted()
    ensures q.Agrees() ==> q.Remove(id).Agrees()
    ensures Bounded(q, maxLen) ==> Bounded(q.Remove(id), maxLen)
  {
    if id in q.orders {
      WithoutIdEntries(q.pq, id);
      if q.Sorted() { WithoutIdSorted(q.pq, id); }
      if q.Agrees() { SubmultisetOnce(multiset(WithoutId(q.pq, id)), multiset(q.pq)); }
    }
  }

  lemma RemoveMakerKeeps(q: Queue, maxLen: nat, maker: string, tokenID: string)
    requires q.Indexed()
    ensures var q' := q.RemoveMakerOrders(maker, tokenID);
      && q'.Indexed()
      && (q.Sorted() ==> q'.Sorted())
      && (q.Agrees() ==> q'.Agrees())
      && (Bounded(q, maxLen) ==> Bounded(q', maxLen))
  {
    var m, t := ToLower(maker), ToLower(tokenID);
    WithoutMakerEntries(q.pq, m, t);
    UnindexedKeeps(q.orders, q.pq, m, t);
    if q.Sorted() { WithoutMakerSorted(q.pq, m, t); }
    if q.Agrees() { SubmultisetOnce(multiset(WithoutMaker(q.pq, m, t)), multiset(q.pq)); }
  }

  // ---- any sequence of operations ----

  datatype Op =
    | AddOp(e: Entry)
    | RemoveOp(id: string)
    | RemoveMakerOp(maker: string, tokenID: string)

  function Apply(q: Queue, maxLen: nat, sort: Sorter, op: Op): Queue {
    match op
    case AddOp(e) => q.Add(maxLen, sort, e)
    case RemoveOp(id) => q.Remove(id)
    case RemoveMakerOp(m, t) => q.RemoveMakerOrders(m, t)
  }

  function Run(maxLen: nat, sort: Sorter, ops: seq<Op>): Queue {
    if ops == [] then EmptyQueue
    else Apply(Run(maxLen, sort, ops[..|ops| - 1]), maxLen, sort, ops[|ops| - 1])
  }

  /** No operation adds an id that is queued already. */
  ghost predicate NeverRepeats(maxLen: nat, sort: Sorter, ops: seq<Op>) {
    ops == [] ||
    var before, op := ops[..|ops| - 1], ops[|ops| - 1];
    && NeverRepeats(maxLen, sort, before)
    && (op.AddOp? ==> op.e.orderID !in Run(maxLen, sort, before).orders)
  }

  /** Whatever the ids: sorted, at most maxLen + 1 long, every indexed order in the slice. */
  lemma {:induction false} RunKeepsIndex(maxLen: nat, sort: Sorter, ops: seq<Op>)
    ensures var q := Run(maxLen, sort, ops);
      && q.Sorted() && q.Indexed() && Bounded(q, maxLen)
      && q.Len() <= |q.pq|
  {
    if ops != [] {
      var q, op := Run(maxLen, sort, ops[..|ops| - 1]), ops[|ops| - 1];
      RunKeepsIndex(maxLen, sort, ops[..|ops| - 1]);
      match op {
        case AddOp(e) => AddEntries(q, maxLen, sort, e); AddKeepsIndexed(q, maxLen, sort, e);
        case RemoveOp(id) => RemoveKeeps(q, maxLen, id);
        case RemoveMakerOp(m, t) => RemoveMakerKeeps(q, maxLen, m, t);
      }
    }
    LenExact(Run(maxLen, sort, ops));
  }

  /** With no id added twice, slice and index agree and Len() is the slice's length. */
  lemma {:induction false} RunKeepsAgreement(maxLen: nat, sort: Sorter, ops: seq<Op>)
    requires NeverRepeats(maxLen, sort, ops)
    ensures var q := Run(maxLen, sort, ops);
      q.Agrees() && q.Len() == |q.pq| <= maxLen + 1
  {
    if ops != [] {
      var n := |ops| - 1;
      var q, op := Run(maxLen, sort, ops[..n]), ops[n];
      RunKeepsAgreement(maxLen, sort, ops[..n]);
      match op {
        case AddOp(e) => AddKeepsAgreement(q, maxLen, sort, e);
        case RemoveOp(id) => RemoveKeeps(q, maxLen, id);
        case RemoveMakerOp(m, t) => RemoveMakerKeeps(q, maxLen, m, t);
      }
    }
    RunKeepsIndex(maxLen, sort, ops);
    LenExact(Run(maxLen, sort, ops));
  }

  /** The ends of a sorted queue: the id and price of a cheapest and of a dearest entry, or "" and 0. */
  lemma EndsNamed(q: Queue)
    requires q.Sorted()
    ensures q.pq == [] ==> q.GetMin() == q.GetMax() == ("", 0.0)
    ensures q.pq != [] ==>
      exists e :: e in q.pq && q.GetMin() == (e.orderID, e.priority) && forall x :: x in q.pq ==> e.priority <= x.priority
    ensures q.pq != [] ==>
      exists e :: e in q.pq && q.GetMax() == (e.orderID, e.priority) && forall x :: x in q.pq ==> x.priority <= e.priority
  {
    if q.pq != [] {
      var first, last := q.pq[0], q.pq[|q.pq| - 1];
      forall x | x in q.pq ensures first.priority <= x.priority <= last.priority {
        var i :| 0 <= i < |q.pq| && q.pq[i] == x;
        assert Priority(q.pq[0]) <= Priority(q.pq[i]) <= Priority(q.pq[|q.pq| - 1]);
      }
      assert first in q.pq && last in q.pq;
    }
  }

  /** Len(), which counts the index, is the slice's length exactly when the two agree. */
  lemma LenExact(q: Queue)
    requires q.Indexed()
    ensures q.Len() <= |q.pq|
    ensures q.Len() == |q.pq| <==> q.Agrees()
  {
    var entries := set e | e in q.pq;
    ValuesSize(q.orders);
    SetOfSeqSize(q.pq);
    assert q.orders.Values <= entries;
    SubsetSize(q.orders.Values, entries);
    if q.Len() == |q.pq| {
      assert q.orders.Values == entries;
      forall e | e in q.pq ensures e.orderID in q.orders && q.orders[e.orderID] == e {
        assert e in q.orders.Values;
      }
    }
    if q.Agrees() {
      forall e | e in entries ensures e in q.orders.Values {
        assert q.orders[e.orderID] == e;
      }
      assert q.orders.Values == entries;
      assert AtMostOnce(multiset(q.pq));
    }
  }

  /** Distinct keys hold distinct entries, so there are as many values as keys. */
  lemma {:induction false} ValuesSize(orders: map<string, Entry>)
    requires forall id :: id in orders ==> orders[id].orderID == id
    ensures |orders.Values| == |orders|
    decreases |orders|
  {
    if orders.Keys == {} {
      assert orders.Values == {};
    } else {
      var id :| id in orders.Keys;
      var rest := orders - {id};
      ValuesSize(rest);
      assert orders[id] !in rest.Values;
      assert orders.Values == rest.Values + {orders[id]} by {
        forall v | v in orders.Values ensures v in rest.Values + {orders[id]} {
          var k :| k in orders && orders[k] == v;
          if k != id { assert k in rest && rest[k] == v; }
        }
        forall v | v in rest.Values ensures v in orders.Values {
          var k :| k in rest && rest[k] == v;
          assert k in orders && orders[k] == v;
        }
      }
      assert orders.Keys == rest.Keys + {id};
      assert |orders.Keys| == |rest.Keys| + 1;
    }
  }

  lemma {:induction false} SetOfSeqSize(s: seq<Entry>)
    ensures |set e | e in s| <= |s|
    ensures |set e | e in s| == |s| <==> AtMostOnce(multiset(s))
  {
    if s != [] {
      var n := |s| - 1;
      var r := s[..n];
      assert s == r + [s[n]];
      SetOfSeqSize(r);
      var all, some := set e | e in s, set e | e in r;
      assert all == some + {s[n]};
      if s[n] in r {
        assert all == some;
        assert multiset(s)[s[n]] > 1;
      } else {
        assert multiset(r)[s[n]] == 0;
        assert forall e :: e != s[n] ==> multiset(s)[e] == multiset(r)[e];
      }
    }
  }

  lemma {:induction false} SubsetSize<T>(a: set<T>, b: set<T>)
    requires a <= b
    ensures |a| <= |b|
    ensures |a| == |b| ==> a == b
  {
    assert b == a + (b - a);
    assert |b| == |a| + |b - a|;
  }
}
