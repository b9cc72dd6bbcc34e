/** The expiry queue on its mutable state: an array of singly linked lists of orders, unlinked
    in place by the ticks. */
module ExpiryQueue {
  import opened Division
  import opened TimeWheel

  class Order {
    const orderID: string
    const collectionAddr: string
    var cycleCount: int
    const wheelPosition: int
    var next: Order?

    constructor (orderID: string, collectionAddr: string, cycleCount: int, wheelPosition: int)
      ensures AsTask() == Task(orderID, collectionAddr, cycleCount, wheelPosition)
      ensures next == null
    {
      this.orderID, this.collectionAddr := orderID, collectionAddr;
      this.cycleCount, this.wheelPosition, this.next := cycleCount, wheelPosition, null;
    }

    function AsTask(): Task
      reads this
    {
      Task(orderID, collectionAddr, cycleCount, wheelPosition)
    }
  }

  ghost function Nth(s: seq<Order>, j: nat): Order? {
    if j < |s| then s[j] else null
  }

  ghost predicate Distinct(s: seq<Order>) {
    forall i, j :: 0 <= i < j < |s| ==> s[i] != s[j]
  }

  /** head starts the null-terminated list of the nodes s, which hold the orders ts. */
  ghost predicate Linked(head: Order?, s: seq<Order>, ts: seq<Task>)
    reads s
  {
    && |s| == |ts| && head == Nth(s, 0) && Distinct(s)
    && forall j :: 0 <= j < |s| ==> s[j].AsTask() == ts[j] && s[j].next == Nth(s, j + 1)
  }

  /** Every slot's list, over the given nodes. */
  ghost predicate AllLinked(heads: seq<Order?>, spines: seq<seq<Order>>, slots: seq<seq<Task>>, nodes: set<Order>)
    reads nodes
  {
    && |heads| == |spines| == |slots|
    && (forall i, n :: 0 <= i < |spines| && n in spines[i] ==> n in nodes)
    && (forall i :: 0 <= i < |spines| ==> Linked(heads[i], spines[i], slots[i]))
  }

  /** A node belongs to the slot its record names, so slots share no nodes. */
  lemma SlotsApart(heads: seq<Order?>, spines: seq<seq<Order>>, w: Wheel, nodes: set<Order>, h: nat)
    requires w.Valid() && AllLinked(heads, spines, w.slots, nodes) && h < |spines|
    ensures forall i, n :: 0 <= i < |spines| && i != h && n in spines[i] ==> n in nodes && n !in spines[h]
  {
    forall i, n | 0 <= i < |spines| && n in spines[i] ensures n.wheelPosition == i {
      var j :| 0 <= j < |spines[i]| && spines[i][j] == n;
      assert n.AsTask() == w.slots[i][j];
    }
  }

  /** A new node in front of one slot's list. */
  lemma OneSlotExtended(heads: seq<Order?>, spines: seq<seq<Order>>, slots: seq<seq<Task>>, nodes: set<Order>,
                        p: nat, order: Order)
    requires AllLinked(heads, spines, slots, nodes) && p < |spines|
    requires order !in nodes && order.next == heads[p]
    ensures AllLinked(heads[p := order], spines[p := [order] + spines[p]], slots[p := [order.AsTask()] + slots[p]],
                      nodes + {order})
  {
    var s, ts := [order] + spines[p], [order.AsTask()] + slots[p];
    assert order !in spines[p];
    forall j | 0 <= j < |s| ensures s[j].AsTask() == ts[j] && s[j].next == Nth(s, j + 1) {
      if j > 0 { assert s[j] == spines[p][j - 1]; }
    }
    assert Linked(order, s, ts);
  }

  /** A new order, linked in front of a slot's list. */
  method LinkInFront(orderID: string, collectionAddr: string, cycle: int, index: int, head: Order?, ghost heads: seq<Order?>,
                     ghost spines: seq<seq<Order>>, ghost slots: seq<seq<Task>>, ghost slots': seq<seq<Task>>,
                     ghost nodes: set<Order>)
    returns (order: Order, ghost spines': seq<seq<Order>>, ghost nodes': set<Order>)
    requires AllLinked(heads, spines, slots, nodes) && 0 <= index < |spines| && head == heads[index]
    requires slots' == slots[index := [Task(orderID, collectionAddr, cycle, index)] + slots[index]]
    ensures fresh(nodes' - nodes) && AllLinked(heads[index := order], spines', slots', nodes')
  {
    order := new Order(orderID, collectionAddr, cycle, index);
    if head != null {
      order.next := head;
    }
    OneSlotExtended(heads, spines, slots, nodes, index, order);
    spines', nodes' := spines[index := [order] + spines[index]], nodes + {order};
  }

  /** Sweeping one slot leaves the others linked. */
  method SweepSlot(head: Order?, ghost heads: seq<Order?>, ghost spines: seq<seq<Order>>, ghost w: Wheel,
                   ghost nodes: set<Order>, ghost h: nat)
    returns (head': Order?, fired: seq<Task>, ghost spines': seq<seq<Order>>)
    requires w.Valid() && AllLinked(heads, spines, w.slots, nodes) && h < |spines| && head == heads[h]
    modifies spines[h]
    ensures fired == Due(w.slots[h]) && |spines'| == |spines|
    ensures AllLinked(heads[h := head'], spines', w.slots[h := Waiting(w.slots[h])], nodes)
  {
    SlotsApart(heads, spines, w, nodes, h);
    ghost var kept;
    head', fired, kept := Sweep(head, spines[h], w.slots[h]);
    spines' := spines[h := kept];
    forall i | 0 <= i < |spines| && i != h ensures Linked(heads[i], spines[i], w.slots[i]) {
      assert old(Linked(heads[i], spines[i], w.slots[i]));
      assert forall j :: 0 <= j < |spines[i]| ==> spines[i][j] in nodes && spines[i][j] !in spines[h];
    }
  }

  class ExpiryQueue {
    var timeWheel: array<Order?>
    var currentIndex: int

    ghost var model: Wheel
    ghost var spines: seq<seq<Order>>
    ghost var nodes: set<Order>

    ghost predicate Valid()
      reads this, timeWheel, nodes
    {
      && model.Valid() && model.current == currentIndex
      && AllLinked(timeWheel[..], spines, model.slots, nodes)
    }

    constructor (size: nat)
      requires size > 0
      ensures Valid() && fresh(timeWheel) && fresh(nodes)
      ensures model == Wheel(seq(size, _ => []), 0)
    {
      timeWheel := new Order?[size](_ => null);
      currentIndex := 0;
      model := Wheel(seq(size, _ => []), 0);
      spines := seq(size, _ => []);
      nodes := {};
    }

    /** Gives a slot its new head. */
    method Install(index: int, head: Order?, ghost w: Wheel, ghost s: seq<seq<Order>>, ghost ns: set<Order>)
      requires 0 <= index < timeWheel.Length && w.Valid() && w.current == currentIndex
      requires AllLinked(timeWheel[..][index := head], s, w.slots, ns)
      modifies timeWheel, this`model, this`spines, this`nodes
      ensures Valid() && model == w && nodes == ns
    {
      ghost var heads := timeWheel[..];
      timeWheel[index] := head;
      assert timeWheel[..] == heads[index := head];
      model, spines, nodes := w, s, ns;
    }

    /** addToOrderExpiryCheckQueue. A remainder below 0 is no slot index: the access panics. */
    method Add(delaySeconds: int, orderID: string, collectionAddr: string) returns (panicked: bool)
      requires Valid()
      modifies this, timeWheel
      ensures Valid() && timeWheel == old(timeWheel) && fresh(nodes - old(nodes))
      ensures panicked == !old(model).Accepts(delaySeconds)
      ensures model == if panicked then old(model) else old(model).Add(orderID, collectionAddr, delaySeconds)
    {
      var cycle, index;
      panicked, cycle, index := Place(delaySeconds);
      if panicked {
        return true;
      }
      ghost var w := model.Add(orderID, collectionAddr, delaySeconds);
      AddKeepsValid(model, orderID, collectionAddr, delaySeconds);
      var order;
      ghost var s, ns;
      order, s, ns := LinkInFront(orderID, collectionAddr, cycle, index, timeWheel[index], timeWheel[..], spines, model.slots, w.slots, nodes);
      Install(index, order, w, s, ns);
      return false;
    }

    /** The slot and the counter that a delay leads to. */
    method Place(delaySeconds: int) returns (panicked: bool, cycle: int, index: int)
      requires Valid()
      ensures panicked == !model.Accepts(delaySeconds)
      ensures !panicked ==> cycle == model.Cycles(delaySeconds) && index == model.Position(delaySeconds)
    {
      AddAsComputed(model, delaySeconds);
      var calculateValue := currentIndex + delaySeconds;
      cycle := Quo(calculateValue, timeWheel.Length);
      if cycle > 0 {
        cycle := cycle - 1;
      }
      index := Rem(calculateValue, timeWheel.Length);
      panicked := index < 0;
    }

    /** GetWheelTaskQuantity */
    method Quantity(index: nat) returns (orderNum: int)
      requires Valid() && index < timeWheel.Length
      ensures orderNum == |model.slots[index]|
    {
      orderNum := 0;
      var p := timeWheel[index];
      while p != null
        invariant 0 <= orderNum <= |spines[index]|
        invariant p == Nth(spines[index], orderNum)
        decreases |spines[index]| - orderNum
      {
        orderNum := orderNum + 1;
        p := p.next;
      }
    }

    /** One tick: fires the due orders of the slot under the hand, and counts down the rest. */
    method Tick() returns (fired: seq<Task>)
      requires Valid()
      modifies this, timeWheel, nodes
      ensures Valid() && timeWheel == old(timeWheel) && nodes == old(nodes)
      ensures model == old(model).Tick() && fired == old(model).Fired()
    {
      TickKeepsValid(model);
      if currentIndex >= timeWheel.Length {
        currentIndex := currentIndex % timeWheel.Length;
      }
      var headIndex := currentIndex;
      currentIndex := currentIndex + 1;
      var head;
      ghost var kept;
      head, fired, kept := SweepSlot(timeWheel[headIndex], timeWheel[..], spines, model, nodes, headIndex);
      Install(headIndex, head, model.Tick(), kept, nodes);
    }
  }

  /** The walk over one slot's list with its trailing node, unlinking in place. Returns
      the slot's new head. */
  method Sweep(taskLinkHead: Order?, ghost s: seq<Order>, ghost ts: seq<Task>)
    returns (head: Order?, fired: seq<Task>, ghost kept: seq<Order>)
    requires Linked(taskLinkHead, s, ts)
    modifies s
    ensures fired == Due(ts) && Linked(head, kept, Waiting(ts))
    ensures forall n :: n in kept ==> n in s
  {
    head := taskLinkHead;
    var prev := taskLinkHead;
    var p := taskLinkHead;
    fired, kept := [], [];
    ghost var i, left := 0, [];
    while p != null
      invariant Walk(head, prev, p, s, ts, i, kept, left)
      invariant fired == Due(ts[..i]) && left == Waiting(ts[..i])
      decreases |s| - i
    {
      SweepStep(ts, i);
      var now;
      head, prev, p, now, kept := SweepOne(head, prev, p, s, ts, i, kept, left);
      fired := fired + now;
      i, left := i + 1, left + IfWaiting(ts[i]);
    }
    assert ts[..i] == ts;
  }

  /** The loop's body: fires and unlinks p if it is due, and counts it down otherwise. */
  method SweepOne(head: Order?, prev: Order?, p: Order, ghost s: seq<Order>, ghost ts: seq<Task>, ghost i: nat,
                  ghost kept: seq<Order>, ghost left: seq<Task>)
    returns (head': Order?, prev': Order?, p': Order?, now: seq<Task>, ghost kept': seq<Order>)
    requires Walk(head, prev, p, s, ts, i, kept, left)
    modifies s
    ensures i < |ts| && now == IfDue(ts[i])
    ensures Walk(head', prev', p', s, ts, i + 1, kept', left + IfWaiting(ts[i]))
  {
    assert p.AsTask() == ts[i];
    if p.cycleCount == 0 {
      now, kept' := [p.AsTask()], kept;
      assert left + [] == left;
      head', prev', p' := Unlink(head, prev, p, s, ts, i, kept, left);
    } else {
      now, kept' := [], kept + [p];
      Decrement(head, prev, p, s, ts, i, kept, left);
      head', prev', p' := head, p, p.next;
    }
  }

  /** Takes p out of the list: a new head, or a new successor of the trailing node. */
  method Unlink(head: Order?, prev: Order?, p: Order, ghost s: seq<Order>, ghost ts: seq<Task>, ghost i: nat,
                ghost kept: seq<Order>, ghost left: seq<Task>) returns (head': Order?, prev': Order?, p': Order?)
    requires Walk(head, prev, p, s, ts, i, kept, left)
    modifies s
    ensures Walk(head', prev', p', s, ts, i + 1, kept, left)
  {
    if prev == p {
      DropHead(head, p, s, ts, i, kept, left);
      return p.next, p.next, p.next;
    }
    assert kept != [] && prev in kept;
    p' := DropNext(head, prev, p, s, ts, i, kept, left);
    return head, prev, p';
  }

  /** Half-way through a list: the kept nodes lead from head to p, the rest is untouched. */
  ghost predicate Walk(head: Order?, prev: Order?, p: Order?, s: seq<Order>, ts: seq<Task>, i: nat,
                       kept: seq<Order>, left: seq<Task>)
    reads s, kept
  {
    && i <= |s| == |ts| && p == Nth(s, i)
    && prev == (if kept == [] then p else kept[|kept| - 1])
    && head == (if kept == [] then p else kept[0])
    && Distinct(s) && Ahead(s, ts, i)
    && Apart(kept, s, i) && Behind(kept, left, p)
  }

  /** The part of the list the walk has not reached. */
  ghost predicate Ahead(s: seq<Order>, ts: seq<Task>, i: nat)
    requires i <= |s| == |ts|
    reads s
  {
    forall j :: i <= j < |s| ==> s[j].AsTask() == ts[j] && s[j].next == Nth(s, j + 1)
  }

  /** The part of the list the walk keeps, ending at p. */
  ghost predicate Behind(kept: seq<Order>, left: seq<Task>, p: Order?)
    reads kept
  {
    && Distinct(kept) && |kept| == |left|
    && (forall j :: 0 <= j < |kept| ==> kept[j].AsTask() == left[j])
    && (forall j :: 0 <= j < |kept| - 1 ==> kept[j].next == kept[j + 1])
    && (kept != [] ==> kept[|kept| - 1].next == p)
  }

  /** The kept nodes are nodes of the list, behind position i. */
  ghost predicate Apart(kept: seq<Order>, s: seq<Order>, i: nat)
    requires i <= |s|
  {
    && (forall n :: n in kept ==> n in s)
    && (forall k :: i <= k < |s| ==> s[k] !in kept)
  }

  lemma DropHead(head: Order?, p: Order, s: seq<Order>, ts: seq<Task>, i: nat, kept: seq<Order>, left: seq<Task>)
    requires Walk(head, p, p, s, ts, i, kept, left)
    ensures kept == [] && p.AsTask() == ts[i]
    ensures Walk(p.next, p.next, p.next, s, ts, i + 1, kept, left)
  {
  }

  /** Unlinks p from behind prev. */
  method DropNext(ghost head: Order?, prev: Order?, p: Order, ghost s: seq<Order>, ghost ts: seq<Task>, ghost i: nat,
                  ghost kept: seq<Order>, ghost left: seq<Task>) returns (p': Order?)
    requires Walk(head, prev, p, s, ts, i, kept, left) && prev != p
    modifies prev`next
    ensures p' == old(p.next) && prev in s && p.AsTask() == ts[i]
    ensures Walk(head, prev, p', s, ts, i + 1, kept, left)
  {
    assert prev == kept[|kept| - 1];
    prev.next := p.next;
    p' := p.next;
  }

  /** Counts p down; it joins the kept nodes. */
  method Decrement(ghost head: Order?, ghost prev: Order?, p: Order, ghost s: seq<Order>, ghost ts: seq<Task>, ghost i: nat,
                   ghost kept: seq<Order>, ghost left: seq<Task>)
    requires Walk(head, prev, p, s, ts, i, kept, left)
    modifies p`cycleCount
    ensures p in s && old(p.AsTask()) == ts[i] && p.AsTask() == ts[i].(cycleCount := ts[i].cycleCount - 1)
    ensures Walk(head, p, p.next, s, ts, i + 1, kept + [p], left + [p.AsTask()])
  {
    assert p !in kept;
    p.cycleCount := p.cycleCount - 1;
  }

  lemma SweepStep(ts: seq<Task>, i: nat)
    requires i < |ts|
    ensures Due(ts[..i + 1]) == Due(ts[..i]) + IfDue(ts[i])
    ensures Waiting(ts[..i + 1]) == Waiting(ts[..i]) + IfWaiting(ts[i])
  {
    assert ts[..i + 1][..i] == ts[..i];
  }
}
