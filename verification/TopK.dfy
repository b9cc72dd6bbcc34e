/** Add without the "cheaper than the maximum" guard, as the start-up load uses it: which of
    the orders streamed in does the queue keep? */
module TopK {
  import opened Common
  import opened Sorting
  import opened PriorityQueue
  import opened QueueLaws

  /** The queue after adding the orders of hist in turn. */
  function Fill(maxLen: nat, sort: Sorter, hist: seq<Entry>): Queue {
    if hist == [] then EmptyQueue
    else Fill(maxLen, sort, hist[..|hist| - 1]).Add(maxLen, sort, hist[|hist| - 1])
  }

  ghost predicate NotDearer(a: multiset<Entry>, b: multiset<Entry>) {
    forall e, f :: e in a && f in b ==> e.priority <= f.priority
  }

  /** What was streamed in and is no longer queued. */
  ghost function Evicted(pq: seq<Entry>, hist: seq<Entry>): multiset<Entry> {
    multiset(hist) - multiset(pq)
  }

  /** What is queued besides the order added last. */
  ghost function Older(pq: seq<Entry>, hist: seq<Entry>): multiset<Entry>
    requires hist != []
  {
    multiset(pq) - multiset{hist[|hist| - 1]}
  }

  /** pq is sorted and holds the order of hist added last; besides it only orders that are
      no dearer than anything evicted, maxLen of them once that many were added. */
  ghost predicate TopKOf(pq: seq<Entry>, hist: seq<Entry>, maxLen: nat)
    requires hist != []
  {
    && |pq| == Min(|hist|, maxLen + 1)
    && SortedBy(pq, Priority)
    && hist[|hist| - 1] in multiset(pq)
    && multiset(pq) <= multiset(hist)
    && NotDearer(Older(pq, hist), Evicted(pq, hist))
  }

  /** Any stream of orders. Ids may repeat: only prices decide. */
  lemma {:induction false} StreamingTopK(maxLen: nat, sort: Sorter, hist: seq<Entry>)
    requires hist != []
    ensures TopKOf(Fill(maxLen, sort, hist).pq, hist, maxLen)
  {
    var n := |hist| - 1;
    var init := hist[..n];
    assert hist == init + [hist[n]];
    if n == 0 {
      AddEntries(EmptyQueue, maxLen, sort, hist[0]);
    } else {
      StreamingTopK(maxLen, sort, init);
      TopKStep(Fill(maxLen, sort, init), init, maxLen, sort, hist[n]);
    }
  }

  lemma TopKStep(q: Queue, init: seq<Entry>, maxLen: nat, sort: Sorter, x: Entry)
    requires init != [] && TopKOf(q.pq, init, maxLen)
    ensures TopKOf(q.Add(maxLen, sort, x).pq, init + [x], maxLen)
  {
    AddEntries(q, maxLen, sort, x);
    if |q.pq| > maxLen {
      StepWhenFull(q.pq, init, maxLen, x, q.Trim(maxLen).pq, q.Add(maxLen, sort, x).pq);
    } else {
      StepWithRoom(q.pq, init, maxLen, x, q.Add(maxLen, sort, x).pq);
    }
  }

  lemma StepWithRoom(pq: seq<Entry>, init: seq<Entry>, maxLen: nat, x: Entry, pq': seq<Entry>)
    requires init != [] && TopKOf(pq, init, maxLen) && |pq| <= maxLen
    requires multiset(pq') == multiset(pq) + multiset{x} && |pq'| == |pq| + 1 && SortedBy(pq', Priority)
    ensures TopKOf(pq', init + [x], maxLen)
  {
    SameSizeSame(multiset(pq), multiset(init));
    assert multiset(pq') == multiset(init + [x]);
  }

  lemma SameSizeSame(a: multiset<Entry>, b: multiset<Entry>)
    requires a <= b && |a| == |b|
    ensures a == b
  {
    assert b == a + (b - a);
  }

  lemma StepWhenFull(pq: seq<Entry>, init: seq<Entry>, maxLen: nat, x: Entry, trimmed: seq<Entry>, pq': seq<Entry>)
    requires init != [] && TopKOf(pq, init, maxLen) && |pq| == maxLen + 1
    requires trimmed == pq[..maxLen]
    requires multiset(pq') == multiset(trimmed) + multiset{x} && |pq'| == |pq| && SortedBy(pq', Priority)
    ensures TopKOf(pq', init + [x], maxLen)
  {
    assert pq == trimmed + [pq[maxLen]];
    EvictionStep(pq, multiset(trimmed), init[|init| - 1], Evicted(pq, init));
    Regroup(multiset(init), multiset(pq), multiset(trimmed), pq[maxLen], x);
    assert multiset(init + [x]) == multiset(init) + multiset{x};
  }

  lemma Regroup(init: multiset<Entry>, pq: multiset<Entry>, trimmed: multiset<Entry>, m: Entry, x: Entry)
    requires pq <= init && pq == trimmed + multiset{m}
    ensures var pq' := trimmed + multiset{x};
      && pq' <= init + multiset{x}
      && pq' - multiset{x} == trimmed
      && init + multiset{x} - pq' == init - pq + multiset{m}
  {
  }

  /** Evicting the dearest entry m keeps every older entry no dearer than every evicted one. */
  lemma EvictionStep(pq: seq<Entry>, trimmed: multiset<Entry>, last: Entry, evicted: multiset<Entry>)
    requires pq != [] && SortedBy(pq, Priority)
    requires multiset(pq) == trimmed + multiset{pq[|pq| - 1]}
    requires last in multiset(pq) && NotDearer(multiset(pq) - multiset{last}, evicted)
    ensures NotDearer(trimmed, evicted + multiset{pq[|pq| - 1]})
  {
    var m := pq[|pq| - 1];
    forall e, f | e in trimmed && f in evicted + multiset{m}
      ensures e.priority <= f.priority
    {
      assert e in multiset(pq);
      assert e in pq;
      var i :| 0 <= i < |pq| && pq[i] == e;
      assert Priority(pq[i]) <= Priority(m);
      if f != m {
        assert f in evicted;
        assert m == last || m in multiset(pq) - multiset{last};
        if m == last { assert multiset(pq) - multiset{last} == trimmed; }
      }
    }
  }

  /** With room for one order besides the newest, the queue's minimum is the global one. */
  lemma FillFindsMinimum(maxLen: nat, sort: Sorter, hist: seq<Entry>)
    requires maxLen >= 1 && hist != []
    ensures var floor := Fill(maxLen, sort, hist).GetMin().1;
      && (forall e :: e in hist ==> floor <= e.priority)
      && (exists e :: e in hist && floor == e.priority)
  {
    StreamingTopK(maxLen, sort, hist);
    var pq := Fill(maxLen, sort, hist).pq;
    var older, evicted := Older(pq, hist), Evicted(pq, hist);
    assert pq[0] in multiset(pq);
    assert pq[0] in multiset(hist);
    forall e | e in hist ensures pq[0].priority <= e.priority {
      assert e in multiset(hist);
      if e in multiset(pq) {
        MinimumIsFirst(pq, e);
      } else {
        assert e in evicted;
        Sizes(pq, hist, maxLen);
        var r :| r in older;
        assert r in multiset(pq);
        MinimumIsFirst(pq, r);
      }
    }
  }

  lemma Sizes(pq: seq<Entry>, hist: seq<Entry>, maxLen: nat)
    requires hist != [] && TopKOf(pq, hist, maxLen)
    ensures |Older(pq, hist)| == |pq| - 1 && |Evicted(pq, hist)| == |hist| - |pq|
    ensures |Evicted(pq, hist)| > 0 ==> |Older(pq, hist)| == maxLen
  {
    assert multiset(hist) == multiset(pq) + Evicted(pq, hist);
    assert |multiset(hist)| == |multiset(pq)| + |Evicted(pq, hist)|;
    assert multiset(pq) == Older(pq, hist) + multiset{hist[|hist| - 1]};
  }

  lemma MinimumIsFirst(pq: seq<Entry>, e: Entry)
    requires SortedBy(pq, Priority) && e in pq
    ensures pq[0].priority <= e.priority
  {
    var i :| 0 <= i < |pq| && pq[i] == e;
    assert Priority(pq[0]) <= Priority(pq[i]);
  }

  // ---- when the queue is exactly the cheapest part of what was loaded ----

  function Below(s: seq<Entry>, p: real): seq<Entry> {
    if s == [] then []
    else Below(s[..|s| - 1], p) + if s[|s| - 1].priority < p then [s[|s| - 1]] else []
  }

  lemma {:induction false} BelowCounts(s: seq<Entry>, p: real, e: Entry)
    ensures multiset(Below(s, p))[e] == if e.priority < p then multiset(s)[e] else 0
  {
    if s != [] {
      BelowCounts(s[..|s| - 1], p, e);
      assert s == s[..|s| - 1] + [s[|s| - 1]];
    }
  }

  /** Nothing evicted is cheaper than anything queued. */
  ghost predicate CheapestKept(pq: seq<Entry>, hist: seq<Entry>) {
    NotDearer(multiset(pq), Evicted(pq, hist))
  }

  /** At most maxLen of the orders before the last are cheaper than the last. */
  predicate FewEarlierCheaper(hist: seq<Entry>, maxLen: nat)
    requires hist != []
  {
    |Below(hist[..|hist| - 1], hist[|hist| - 1].priority)| <= maxLen
  }

  /** The start-up load ends with a cheapest part of the orders exactly when at most maxLen
      of the earlier orders are cheaper than the order loaded last; in particular whenever
      there are at most maxLen + 1 orders. */
  lemma LoadKeepsCheapestExactly(maxLen: nat, sort: Sorter, hist: seq<Entry>)
    requires hist != []
    ensures CheapestKept(Fill(maxLen, sort, hist).pq, hist) <==> FewEarlierCheaper(hist, maxLen)
    ensures |hist| <= maxLen + 1 ==> FewEarlierCheaper(hist, maxLen)
  {
    StreamingTopK(maxLen, sort, hist);
    TopKExact(Fill(maxLen, sort, hist).pq, hist, maxLen);
  }

  lemma TopKExact(pq: seq<Entry>, hist: seq<Entry>, maxLen: nat)
    requires hist != [] && TopKOf(pq, hist, maxLen)
    ensures CheapestKept(pq, hist) <==> FewEarlierCheaper(hist, maxLen)
    ensures |hist| <= maxLen + 1 ==> FewEarlierCheaper(hist, maxLen)
  {
    var n := |hist| - 1;
    var x, init := hist[n], hist[..n];
    var older, evicted := Older(pq, hist), Evicted(pq, hist);
    Sizes(pq, hist, maxLen);
    assert hist == init + [x];
    Decompose(multiset(init), multiset(pq), x);
    assert multiset(init) == older + evicted;
    if v :| v in evicted && v.priority < x.priority {
      ManyCheaper(init, x.priority, older, evicted, v);
    } else {
      FewCheaper(init, x.priority, older, evicted);
      assert forall e :: e in multiset(pq) ==> e in older || e == x;
    }
  }

  lemma Decompose(init: multiset<Entry>, pq: multiset<Entry>, x: Entry)
    requires x in pq && pq <= init + multiset{x}
    ensures init == (pq - multiset{x}) + (init + multiset{x} - pq)
  {
  }

  lemma MultisetSize(a: multiset<Entry>, b: multiset<Entry>)
    requires a <= b
    ensures |a| <= |b|
  {
    assert b == a + (b - a);
  }

  lemma FewCheaper(init: seq<Entry>, p: real, older: multiset<Entry>, evicted: multiset<Entry>)
    requires multiset(init) == older + evicted
    requires forall v :: v in evicted ==> p <= v.priority
    ensures |Below(init, p)| <= |older|
  {
    var below := multiset(Below(init, p));
    forall e: Entry ensures below[e] <= older[e] {
      BelowCounts(init, p, e);
    }
    MultisetSize(below, older);
  }

  lemma ManyCheaper(init: seq<Entry>, p: real, older: multiset<Entry>, evicted: multiset<Entry>, v: Entry)
    requires multiset(init) == older + evicted
    requires v in evicted && v.priority < p && NotDearer(older, evicted)
    ensures |Below(init, p)| >= |older| + 1
  {
    var below := multiset(Below(init, p));
    forall e: Entry ensures (older + multiset{v})[e] <= below[e] {
      BelowCounts(init, p, e);
      assert e in older ==> e.priority <= v.priority;
    }
    MultisetSize(older + multiset{v}, below);
  }
}
