/** The expiry time wheel as a value: slots of waiting orders, an index that a tick moves on,
    and per-order revolution counters. */
module TimeWheel {
  import opened Division

  datatype Task = Task(orderID: string, collectionAddr: string, cycleCount: int, wheelPosition: int)

  /** The orders of a slot whose counter is 0: those that a tick on the slot fires. */
  function Due(slot: seq<Task>): seq<Task> {
    if slot == [] then []
    else Due(slot[..|slot| - 1]) + IfDue(slot[|slot| - 1])
  }

  function IfDue(t: Task): seq<Task> {
    if t.cycleCount == 0 then [t] else []
  }

  /** The other orders of the slot, one revolution closer. */
  function Waiting(slot: seq<Task>): seq<Task> {
    if slot == [] then []
    else Waiting(slot[..|slot| - 1]) + IfWaiting(slot[|slot| - 1])
  }

  function IfWaiting(t: Task): seq<Task> {
    if t.cycleCount == 0 then [] else [t.(cycleCount := t.cycleCount - 1)]
  }

  datatype Wheel = Wheel(slots: seq<seq<Task>>, current: int) {

    function Size(): nat { |slots| }

    predicate Ready() {
      |slots| > 0 && 0 <= current
    }

    ghost predicate Valid() {
      && Ready() && current <= |slots|
      && forall i, t :: 0 <= i < |slots| && t in slots[i] ==> t.wheelPosition == i
    }

    /** The slot the next tick visits: between ticks the index may have run to the size. */
    function Hand(): int
      requires Ready()
    {
      if current >= |slots| then current % |slots| else current
    }

    /** Whether the delay names a slot. A sum below 0 leaves a negative remainder, and the slot
        index a run-time panic, unless it is a whole number of revolutions. */
    predicate Accepts(delay: int)
      requires Ready()
    {
      current + delay >= 0 || (current + delay) % |slots| == 0
    }

    /** Revolutions to wait: one less than the turns counted from the index, if there are any. */
    function Cycles(delay: int): int
      requires Ready() && Accepts(delay)
    {
      var cycle := (current + delay) / |slots|;
      if cycle > 0 then cycle - 1 else cycle
    }

    function Position(delay: int): int
      requires Ready() && Accepts(delay)
    {
      (current + delay) % |slots|
    }

    /** An order is linked in at the head of its slot. */
    function Add(orderID: string, collectionAddr: string, delay: int): Wheel
      requires Ready() && Accepts(delay)
    {
      var p := Position(delay);
      this.(slots := slots[p := [Task(orderID, collectionAddr, Cycles(delay), p)] + slots[p]])
    }

    function Tick(): Wheel
      requires Ready()
    {
      Wheel(slots[Hand() := Waiting(slots[Hand()])], Hand() + 1)
    }

    function Fired(): seq<Task>
      requires Ready()
    {
      Due(slots[Hand()])
    }
  }

  // ---- runs ----

  datatype Step = AddStep(orderID: string, collectionAddr: string, delay: int) | TickStep

  /** A step does not panic. */
  predicate Allowed(w: Wheel, step: Step)
    requires w.Ready()
  {
    step.AddStep? ==> w.Accepts(step.delay)
  }

  function Next(w: Wheel, step: Step): (w': Wheel)
    requires w.Ready() && Allowed(w, step)
    ensures w'.Ready()
  {
    match step
    case AddStep(id, addr, delay) => w.Add(id, addr, delay)
    case TickStep => w.Tick()
  }

  predicate Safe(w: Wheel, steps: seq<Step>)
    requires w.Ready()
    decreases |steps|
  {
    steps == [] || (Allowed(w, steps[0]) && Safe(Next(w, steps[0]), steps[1..]))
  }

  function Run(w: Wheel, steps: seq<Step>): Wheel
    requires w.Ready() && Safe(w, steps)
    decreases |steps|
  {
    if steps == [] then w else Run(Next(w, steps[0]), steps[1..])
  }

  function Ticks(steps: seq<Step>): nat {
    if steps == [] then 0 else (if steps[0].TickStep? then 1 else 0) + Ticks(steps[1..])
  }

  function Count(tasks: seq<Task>, id: string): nat {
    if tasks == [] then 0 else Count(tasks[..|tasks| - 1], id) + Is(tasks[|tasks| - 1], id)
  }

  function Is(task: Task, id: string): nat { if task.orderID == id then 1 else 0 }

  /** The times a step fires an order. */
  function FiredNow(w: Wheel, step: Step, id: string): nat
    requires w.Ready()
  {
    if step.TickStep? then Count(w.Fired(), id) else 0
  }

  function Repeat(n: nat, t: nat): seq<nat> {
    if n == 0 then [] else [t] + Repeat(n - 1, t)
  }

  /** The ticks of a run that fire an order, once for each time it is fired; t numbers the
      first tick of the run. */
  function FireTimes(w: Wheel, steps: seq<Step>, id: string, t: nat): seq<nat>
    requires w.Ready() && Safe(w, steps)
    decreases |steps|
  {
    if steps == [] then []
    else
      Repeat(FiredNow(w, steps[0], id), t) +
      FireTimes(Next(w, steps[0]), steps[1..], id, if steps[0].TickStep? then t + 1 else t)
  }

  predicate NeverAdds(steps: seq<Step>, id: string) {
    steps == [] || ((steps[0].AddStep? ==> steps[0].orderID != id) && NeverAdds(steps[1..], id))
  }

  // ---- one step ----

  /** Add computes with Go's division: a delay is accepted when the remainder is no negative slot
      index, and its slot and turns are then that remainder and quotient. */
  lemma AddAsComputed(w: Wheel, delay: int)
    requires w.Ready()
    ensures w.Accepts(delay) <==> Rem(w.current + delay, w.Size()) >= 0
    ensures w.Accepts(delay) ==>
      var turns := Quo(w.current + delay, w.Size());
      w.Position(delay) == Rem(w.current + delay, w.Size()) && w.Cycles(delay) == if turns > 0 then turns - 1 else turns
  {
    QuoRem(w.current + delay, w.Size());
  }

  lemma {:induction false} WaitingKeeps(slot: seq<Task>, position: int)
    requires forall t :: t in slot ==> t.wheelPosition == position
    ensures forall t :: t in Waiting(slot) ==> t.wheelPosition == position
  {
    if slot != [] {
      assert slot[|slot| - 1] in slot;
      WaitingKeeps(slot[..|slot| - 1], position);
    }
  }

  lemma AddKeepsValid(w: Wheel, id: string, addr: string, delay: int)
    requires w.Valid() && w.Accepts(delay)
    ensures w.Add(id, addr, delay).Valid()
  {
  }

  lemma TickKeepsValid(w: Wheel)
    requires w.Valid()
    ensures w.Tick().Valid()
  {
    WaitingKeeps(w.slots[w.Hand()], w.Hand());
  }

  /** k whole revolutions, in ticks. */
  function Turns(k: nat, n: nat): nat {
    if k == 0 then 0 else n + Turns(k - 1, n)
  }

  lemma {:induction false} TurnsIsProduct(k: nat, n: nat)
    ensures Turns(k, n) == k * n
  {
    if k > 0 {
      TurnsIsProduct(k - 1, n);
      assert k * n == (k - 1) * n + n;
    }
  }

  // ---- when an order fires ----

  /** Ticks before the hand reaches a slot. */
  function Wait(w: Wheel, position: int): int
    requires w.Ready()
  {
    if position >= w.Hand() then position - w.Hand() else position - w.Hand() + w.Size()
  }

  /** Ticks before an order in slot s with counter k fires. */
  function CountDown(w: Wheel, s: int, k: nat): int
    requires w.Ready()
  {
    Wait(w, s) + Turns(k, w.Size())
  }

  /** The tick, counting the next one as 0, on which an order with this delay fires when it
      is added at this index. */
  function FireTick(size: nat, current: int, delay: int): int
    requires size > 0
  {
    if delay < 0 then delay + size
    else if delay >= size && current + delay % size < size then delay - size
    else delay
  }

  /** Where c + delay falls, from the whole turns and the rest of the delay. */
  lemma TurnOf(c: int, delay: int, n: int)
    requires n > 0 && 0 <= c <= n && delay >= 0
    ensures var q, r := delay / n, delay % n;
      && 0 <= r < n && q >= 0 && (q == 0 <==> delay < n)
      && delay == q * n + r
      && (c + r < n ==> (c + delay) / n == q && (c + delay) % n == c + r)
      && (c + r >= n ==> (c + delay) / n == q + 1 && (c + delay) % n == c + r - n)
  {
    var q, r := delay / n, delay % n;
    DivisionBounds(delay, n);
    if q >= 1 { AtLeastOnce(q, n); }
    if c + r < n {
      DivisionUnique(c + delay, n, q, c + r);
    } else {
      assert (q + 1) * n == q * n + n;
      DivisionUnique(c + delay, n, q + 1, c + r - n);
    }
  }

  /** Slot and counter that Add computes mean exactly FireTick. */
  lemma AddMeansFireTick(w: Wheel, delay: int)
    requires w.Valid() && w.current + delay >= 0
    ensures w.Cycles(delay) >= 0
    ensures CountDown(w, w.Position(delay), w.Cycles(delay)) == FireTick(w.Size(), w.current, delay)
  {
    var n, c := w.Size(), w.current;
    if c == n { DivisionUnique(c, n, 1, 0); }
    if delay < 0 {
      DivisionUnique(c + delay, n, 0, c + delay);
    } else {
      TurnOf(c, delay, n);
      TurnsIsProduct(delay / n, n);
    }
  }

  /** With a delay that is not negative an order never fires late and at most one revolution
      early; a negative delay makes it a full revolution late. It fires on time exactly when
      the delay is below one revolution or the index plus the delay's remainder wraps. */
  lemma FireTickExact(size: nat, current: int, delay: int)
    requires size > 0 && 0 <= current <= size && current + delay >= 0
    ensures var f := FireTick(size, current, delay);
      && f >= 0
      && (f == delay <==> delay >= 0 && (delay < size || current + delay % size >= size))
      && (delay >= 0 && f != delay ==> f == delay - size)
      && (delay < 0 ==> f == delay + size)
  {
  }

  // ---- exactly one firing ----

  ghost predicate Absent(w: Wheel, id: string) {
    forall i :: 0 <= i < |w.slots| ==> Count(w.slots[i], id) == 0
  }

  /** The order is in the wheel once: in slot s with counter k. */
  ghost predicate At(w: Wheel, id: string, s: nat, k: nat) {
    && s < |w.slots|
    && (forall i :: 0 <= i < |w.slots| ==> Count(w.slots[i], id) == if i == s then 1 else 0)
    && (forall t :: t in w.slots[s] && t.orderID == id ==> t.cycleCount == k)
  }

  lemma {:induction false} CountZero(tasks: seq<Task>, id: string)
    ensures Count(tasks, id) == 0 <==> forall t :: t in tasks ==> t.orderID != id
  {
    if tasks != [] {
      CountZero(tasks[..|tasks| - 1], id);
      assert tasks == tasks[..|tasks| - 1] + [tasks[|tasks| - 1]];
    }
  }

  /** A tick on a slot fires all entries of an order or counts all of them down. */
  lemma {:induction false} SlotTick(slot: seq<Task>, id: string, k: nat)
    requires forall t :: t in slot && t.orderID == id ==> t.cycleCount == k
    ensures Count(Due(slot), id) == if k == 0 then Count(slot, id) else 0
    ensures Count(Waiting(slot), id) == if k == 0 then 0 else Count(slot, id)
    ensures forall t :: t in Waiting(slot) && t.orderID == id ==> t.cycleCount == k - 1
  {
    if slot != [] {
      var rest, last := slot[..|slot| - 1], slot[|slot| - 1];
      assert last in slot;
      SlotTick(rest, id, k);
      CountAppend(Due(rest), IfDue(last), id);
      CountAppend(Waiting(rest), IfWaiting(last), id);
      CountOne(last, id);
    }
  }

  lemma CountOne(task: Task, id: string)
    ensures Count(IfDue(task), id) == if task.cycleCount == 0 then Is(task, id) else 0
    ensures Count(IfWaiting(task), id) == if task.cycleCount == 0 then 0 else Is(task, id)
  {
    assert Count([], id) == 0;
    assert IfDue(task) != [] ==> IfDue(task)[..0] == [];
    assert IfWaiting(task) != [] ==> IfWaiting(task)[..0] == [];
  }

  lemma {:induction false} CountAppend(a: seq<Task>, b: seq<Task>, id: string)
    ensures Count(a + b, id) == Count(a, id) + Count(b, id)
  {
    if b == [] {
      assert a + b == a;
    } else {
      assert (a + b)[..|a + b| - 1] == a + b[..|b| - 1];
      CountAppend(a, b[..|b| - 1], id);
    }
  }

  /** Counting an order in every slot after one is added. */
  lemma AddCounts(w: Wheel, o: string, addr: string, delay: int, id: string)
    requires w.Valid() && w.Accepts(delay)
    ensures var w' := w.Add(o, addr, delay);
      forall i :: 0 <= i < |w.slots| ==>
        Count(w'.slots[i], id) == Count(w.slots[i], id) + if i == w.Position(delay) && o == id then 1 else 0
  {
    var task := Task(o, addr, w.Cycles(delay), w.Position(delay));
    CountAppend([task], w.slots[w.Position(delay)], id);
    assert [task][..0] == [] && Count([task], id) == Is(task, id);
  }

  /** Every entry of the order, if there is one, has a negative counter. */
  ghost predicate NeverDue(w: Wheel, id: string) {
    forall i, t :: 0 <= i < |w.slots| && t in w.slots[i] && t.orderID == id ==> t.cycleCount < 0
  }

  lemma {:induction false} SlotNeverDue(slot: seq<Task>, id: string)
    requires forall t :: t in slot && t.orderID == id ==> t.cycleCount < 0
    ensures Count(Due(slot), id) == 0
    ensures forall t :: t in Waiting(slot) && t.orderID == id ==> t.cycleCount < 0
  {
    if slot != [] {
      var rest, last := slot[..|slot| - 1], slot[|slot| - 1];
      assert last in slot;
      SlotNeverDue(rest, id);
      CountAppend(Due(rest), IfDue(last), id);
      CountOne(last, id);
    }
  }

  lemma AbsentIsNeverDue(w: Wheel, id: string)
    requires Absent(w, id)
    ensures NeverDue(w, id)
  {
    forall i | 0 <= i < |w.slots| ensures forall t :: t in w.slots[i] ==> t.orderID != id {
      CountZero(w.slots[i], id);
    }
  }

  /** An order that is not in the wheel, or counts down from below 0, does not fire. */
  lemma {:induction false} NeverDueNeverFires(w: Wheel, steps: seq<Step>, id: string, t: nat)
    requires w.Valid() && Safe(w, steps) && NeverDue(w, id) && NeverAdds(steps, id)
    ensures FireTimes(w, steps, id, t) == []
    decreases |steps|
  {
    if steps != [] {
      match steps[0] {
        case AddStep(o, addr, delay) => AddKeepsValid(w, o, addr, delay);
        case TickStep =>
          TickKeepsValid(w);
          SlotNeverDue(w.slots[w.Hand()], id);
      }
      NeverDueNeverFires(Next(w, steps[0]), steps[1..], id, if steps[0].TickStep? then t + 1 else t);
    }
  }

  lemma NextHand(w: Wheel)
    requires w.Valid()
    ensures w.Tick().Hand() == if w.Hand() + 1 == w.Size() then 0 else w.Hand() + 1
  {
    if w.Hand() + 1 == w.Size() { DivisionUnique(w.Size(), w.Size(), 1, 0); }
  }

  /** One tick brings an order one tick closer, or fires it. */
  lemma TickMoves(w: Wheel, id: string, s: nat, k: nat)
    requires w.Valid() && At(w, id, s, k)
    ensures if s == w.Hand() && k == 0
      then Absent(w.Tick(), id) && Count(w.Fired(), id) == 1
      else
        && Count(w.Fired(), id) == 0
        && var k' := if s == w.Hand() then k - 1 else k;
           At(w.Tick(), id, s, k') && CountDown(w.Tick(), s, k') == CountDown(w, s, k) - 1
  {
    var h := w.Hand();
    if s == h {
      SlotTick(w.slots[h], id, k);
    } else {
      CountZero(w.slots[h], id);
      SlotTick(w.slots[h], id, 0);
    }
    if s != h || k > 0 {
      TickCountsDown(w, s, k);
    }
  }

  lemma TickCountsDown(w: Wheel, s: nat, k: nat)
    requires w.Valid() && s < w.Size() && (s == w.Hand() ==> k > 0)
    ensures CountDown(w.Tick(), s, if s == w.Hand() then k - 1 else k) == CountDown(w, s, k) - 1
  {
    NextHand(w);
  }

  lemma AddMisses(w: Wheel, o: string, addr: string, delay: int, id: string, s: nat, k: nat)
    requires w.Valid() && w.Accepts(delay) && o != id && At(w, id, s, k)
    ensures At(w.Add(o, addr, delay), id, s, k)
    ensures CountDown(w.Add(o, addr, delay), s, k) == CountDown(w, s, k)
  {
    AddCounts(w, o, addr, delay, id);
  }

  /** The counter of an order in slot s after a step that does not fire it. */
  function NextCount(w: Wheel, step: Step, s: nat, k: nat): int
    requires w.Ready()
  {
    if step.TickStep? && s == w.Hand() then k - 1 else k
  }

  predicate FiresNow(w: Wheel, step: Step, s: nat, k: nat)
    requires w.Ready()
  {
    step.TickStep? && s == w.Hand() && k == 0
  }

  lemma StepMoves(w: Wheel, step: Step, id: string, s: nat, k: nat)
    requires w.Valid() && Allowed(w, step) && At(w, id, s, k)
    requires step.AddStep? ==> step.orderID != id
    ensures Next(w, step).Valid()
    ensures FiresNow(w, step, s, k) ==>
      FiredNow(w, step, id) == 1 && Absent(Next(w, step), id) && CountDown(w, s, k) == 0
    ensures !FiresNow(w, step, s, k) ==>
      && FiredNow(w, step, id) == 0
      && NextCount(w, step, s, k) >= 0 && At(Next(w, step), id, s, NextCount(w, step, s, k))
      && CountDown(Next(w, step), s, NextCount(w, step, s, k)) == CountDown(w, s, k) - if step.TickStep? then 1 else 0
  {
    match step {
      case AddStep(o, addr, delay) =>
        AddKeepsValid(w, o, addr, delay);
        AddMisses(w, o, addr, delay, id, s, k);
      case TickStep =>
        TickKeepsValid(w);
        TickMoves(w, id, s, k);
    }
  }

  /** The order is in the wheel once and fires after n more ticks. */
  ghost predicate Pending(w: Wheel, id: string, n: int)
    requires w.Ready()
  {
    exists s: nat, k: nat :: At(w, id, s, k) && CountDown(w, s, k) == n
  }

  lemma StepPending(w: Wheel, step: Step, id: string, n: int)
    requires w.Valid() && Allowed(w, step) && Pending(w, id, n)
    requires step.AddStep? ==> step.orderID != id
    ensures Next(w, step).Valid()
    ensures if step.TickStep? && n == 0
      then FiredNow(w, step, id) == 1 && Absent(Next(w, step), id)
      else FiredNow(w, step, id) == 0 && Pending(Next(w, step), id, if step.TickStep? then n - 1 else n)
  {
    var s: nat, k: nat :| At(w, id, s, k) && CountDown(w, s, k) == n;
    StepMoves(w, step, id, s, k);
    assert !FiresNow(w, step, s, k) ==> At(Next(w, step), id, s, NextCount(w, step, s, k));
  }

  /** The tick after n others, if there are that many; t numbers the first. */
  function OnceAt(ticks: nat, n: nat, t: nat): seq<nat> {
    if ticks > n then [t + n] else []
  }

  lemma {:induction false} FiresOnce(w: Wheel, steps: seq<Step>, id: string, n: nat, t: nat)
    requires w.Valid() && Safe(w, steps) && Pending(w, id, n) && NeverAdds(steps, id)
    ensures FireTimes(w, steps, id, t) == OnceAt(Ticks(steps), n, t)
    decreases |steps|
  {
    if steps != [] {
      if steps[0].TickStep? && n == 0 {
        FiresFirst(w, steps, id, t);
      } else {
        var w', rest, n', t' := FiresLater(w, steps, id, n, t);
        FiresOnce(w', rest, id, n', t');
      }
    }
  }

  /** An order due on the next tick fires on it, and never again. */
  lemma FiresFirst(w: Wheel, steps: seq<Step>, id: string, t: nat)
    requires w.Valid() && Safe(w, steps) && Pending(w, id, 0) && steps != [] && steps[0].TickStep? && NeverAdds(steps, id)
    ensures FireTimes(w, steps, id, t) == [t]
  {
    Unroll(w, steps, id, t);
    StepPending(w, steps[0], id, 0);
    AbsentIsNeverDue(Next(w, steps[0]), id);
    NeverDueNeverFires(Next(w, steps[0]), steps[1..], id, t + 1);
  }

  /** Otherwise the rest of the run decides. */
  lemma FiresLater(w: Wheel, steps: seq<Step>, id: string, n: nat, t: nat)
    returns (w': Wheel, rest: seq<Step>, n': nat, t': nat)
    requires w.Valid() && Safe(w, steps) && Pending(w, id, n) && steps != [] && NeverAdds(steps, id)
    requires steps[0].TickStep? ==> n > 0
    ensures w'.Valid() && Safe(w', rest) && Pending(w', id, n') && NeverAdds(rest, id) && |rest| < |steps|
    ensures OnceAt(Ticks(rest), n', t') == OnceAt(Ticks(steps), n, t)
    ensures FireTimes(w, steps, id, t) == FireTimes(w', rest, id, t')
  {
    w', rest, t' := Next(w, steps[0]), steps[1..], if steps[0].TickStep? then t + 1 else t;
    n' := t + n - t';
    OneStepLess(steps, n, t);
    Unroll(w, steps, id, t);
    StepPending(w, steps[0], id, n);
  }

  lemma OneStepLess(steps: seq<Step>, n: nat, t: nat)
    requires steps != [] && (steps[0].TickStep? ==> n > 0)
    ensures var k := if steps[0].TickStep? then 1 else 0;
      OnceAt(Ticks(steps[1..]), n - k, t + k) == OnceAt(Ticks(steps), n, t)
  {
  }

  lemma Unroll(w: Wheel, steps: seq<Step>, id: string, t: nat)
    requires w.Ready() && Safe(w, steps) && steps != []
    ensures var later := FireTimes(Next(w, steps[0]), steps[1..], id, if steps[0].TickStep? then t + 1 else t);
      && (FiredNow(w, steps[0], id) == 0 ==> FireTimes(w, steps, id, t) == later)
      && (FiredNow(w, steps[0], id) == 1 ==> FireTimes(w, steps, id, t) == [t] + later)
  {
    assert Repeat(0, t) == [];
    assert Repeat(1, t) == [t] + Repeat(0, t) == [t];
  }

  lemma AddPlaces(w: Wheel, id: string, addr: string, delay: int)
    requires w.Valid() && w.current + delay >= 0 && Absent(w, id)
    ensures w.Cycles(delay) >= 0 && At(w.Add(id, addr, delay), id, w.Position(delay), w.Cycles(delay))
  {
    var p, k := w.Position(delay), w.Cycles(delay);
    DivisionBounds(w.current + delay, w.Size());
    CountZero(w.slots[p], id);
    AddCounts(w, id, addr, delay, id);
  }

  /** Whatever is added and however often the wheel ticks after an order is added, it fires
      on exactly one tick, the one FireTick names; or never, if it was due whole revolutions
      before the start of the wheel. */
  lemma FiresExactlyOnce(w: Wheel, id: string, addr: string, delay: int, steps: seq<Step>)
    requires w.Valid() && w.Accepts(delay) && Absent(w, id) && NeverAdds(steps, id)
    requires Safe(w.Add(id, addr, delay), steps)
    ensures var f := FireTick(w.Size(), w.current, delay);
      FireTimes(w.Add(id, addr, delay), steps, id, 0) == if w.current + delay >= 0 && Ticks(steps) > f then [f] else []
  {
    AddKeepsValid(w, id, addr, delay);
    if w.current + delay >= 0 {
      AddMeansFireTick(w, delay);
      AddPlaces(w, id, addr, delay);
      FireTickExact(w.Size(), w.current, delay);
      FiresOnce(w.Add(id, addr, delay), steps, id, FireTick(w.Size(), w.current, delay), 0);
    } else {
      AddedTooLate(w, id, addr, delay);
      NeverDueNeverFires(w.Add(id, addr, delay), steps, id, 0);
    }
  }

  lemma AddedTooLate(w: Wheel, id: string, addr: string, delay: int)
    requires w.Valid() && w.Accepts(delay) && w.current + delay < 0 && Absent(w, id)
    ensures NeverDue(w.Add(id, addr, delay), id)
  {
    AbsentIsNeverDue(w, id);
    NegativeQuotient(w.current + delay, w.Size());
  }

  lemma NegativeQuotient(a: int, n: int)
    requires a < 0 && n > 0
    ensures a / n < 0
  {
  }

  // ---- counters ----

  ghost predicate CountersPositive(w: Wheel) {
    forall i, t :: 0 <= i < |w.slots| && t in w.slots[i] ==> t.cycleCount >= 0
  }

  /** No added order was due before the start of the wheel. */
  ghost predicate InTime(w: Wheel, steps: seq<Step>)
    requires w.Ready() && Safe(w, steps)
    decreases |steps|
  {
    steps == [] || ((steps[0].AddStep? ==> w.current + steps[0].delay >= 0) && InTime(Next(w, steps[0]), steps[1..]))
  }

  lemma {:induction false} WaitingPositive(slot: seq<Task>)
    requires forall t :: t in slot ==> t.cycleCount >= 0
    ensures forall t :: t in Waiting(slot) ==> t.cycleCount >= 0
  {
    if slot != [] {
      assert slot[|slot| - 1] in slot;
      WaitingPositive(slot[..|slot| - 1]);
    }
  }

  /** Then no counter ever falls below 0. */
  lemma {:induction false} CountersStayPositive(w: Wheel, steps: seq<Step>)
    requires w.Valid() && Safe(w, steps) && CountersPositive(w) && InTime(w, steps)
    ensures CountersPositive(Run(w, steps))
    decreases |steps|
  {
    if steps != [] {
      match steps[0] {
        case AddStep(id, addr, delay) =>
          AddKeepsValid(w, id, addr, delay);
          DivisionBounds(w.current + delay, w.Size());
        case TickStep =>
          TickKeepsValid(w);
          WaitingPositive(w.slots[w.Hand()]);
      }
      CountersStayPositive(Next(w, steps[0]), steps[1..]);
    }
  }

  // ---- the listed failures, at their least inputs ----

  /** A delay of one revolution at index 0 fires at once; so it is a revolution early. */
  lemma FiresRevolutionEarly()
    ensures FireTick(3600, 0, 3600) == 0
  {
  }

  /** An order that is one second past when it is added at index 1 fires after 3599 ticks. */
  lemma FiresRevolutionLate()
    ensures FireTick(3600, 1, -1) == 3599
  {
  }
}
