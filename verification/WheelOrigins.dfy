/** What the orders in the wheel carry: each keeps the collection address it was added with, up to
    the tick that fires it. */
module WheelOrigins {
  import opened TimeWheel

  // ---- nothing is mixed up ----

  datatype Origin = Origin(orderID: string, collectionAddr: string)

  function OriginOf(task: Task): Origin { Origin(task.orderID, task.collectionAddr) }

  /** How often tasks carry an origin. */
  function Carrying(tasks: seq<Task>, o: Origin): nat {
    if tasks == [] then 0 else Carrying(tasks[..|tasks| - 1], o) + if OriginOf(tasks[|tasks| - 1]) == o then 1 else 0
  }

  function Held(slots: seq<seq<Task>>, o: Origin): nat {
    if slots == [] then 0 else Carrying(slots[0], o) + Held(slots[1..], o)
  }

  function FiredNowOf(w: Wheel, step: Step, o: Origin): nat
    requires w.Ready()
  {
    if step.TickStep? then Carrying(w.Fired(), o) else 0
  }

  function Fired(w: Wheel, steps: seq<Step>, o: Origin): nat
    requires w.Ready() && Safe(w, steps)
    decreases |steps|
  {
    if steps == [] then 0 else FiredNowOf(w, steps[0], o) + Fired(Next(w, steps[0]), steps[1..], o)
  }

  function AddedNow(step: Step, o: Origin): nat {
    if step.AddStep? && Origin(step.orderID, step.collectionAddr) == o then 1 else 0
  }

  function Added(steps: seq<Step>, o: Origin): nat {
    if steps == [] then 0 else AddedNow(steps[0], o) + Added(steps[1..], o)
  }

  lemma {:induction false} CarryingAppend(a: seq<Task>, b: seq<Task>, o: Origin)
    ensures Carrying(a + b, o) == Carrying(a, o) + Carrying(b, o)
  {
    if b == [] {
      assert a + b == a;
    } else {
      assert (a + b)[..|a + b| - 1] == a + b[..|b| - 1];
      CarryingAppend(a, b[..|b| - 1], o);
    }
  }

  lemma CarryingOne(task: Task, o: Origin)
    ensures Carrying([task], o) == if OriginOf(task) == o then 1 else 0
    ensures Carrying(IfDue(task), o) + Carrying(IfWaiting(task), o) == Carrying([task], o)
  {
    assert Carrying([], o) == 0;
    assert [task][..0] == [] && [task.(cycleCount := task.cycleCount - 1)][..0] == [];
  }

  lemma {:induction false} CarryingSplits(slot: seq<Task>, o: Origin)
    ensures Carrying(slot, o) == Carrying(Due(slot), o) + Carrying(Waiting(slot), o)
  {
    if slot != [] {
      var rest, last := slot[..|slot| - 1], slot[|slot| - 1];
      CarryingSplits(rest, o);
      CarryingAppend(Due(rest), IfDue(last), o);
      CarryingAppend(Waiting(rest), IfWaiting(last), o);
      CarryingOne(last, o);
    }
  }

  lemma {:induction false} HeldUpdate(slots: seq<seq<Task>>, i: nat, slot: seq<Task>, o: Origin)
    requires i < |slots|
    ensures Held(slots[i := slot], o) + Carrying(slots[i], o) == Held(slots, o) + Carrying(slot, o)
  {
    var slots' := slots[i := slot];
    if i == 0 {
      assert slots'[1..] == slots[1..];
    } else {
      HeldUpdate(slots[1..], i - 1, slot, o);
      assert slots'[1..] == slots[1..][i - 1 := slot];
    }
  }

  lemma OriginsStep(w: Wheel, step: Step, o: Origin)
    requires w.Valid() && Allowed(w, step)
    ensures Next(w, step).Valid()
    ensures Held(Next(w, step).slots, o) + FiredNowOf(w, step, o) == Held(w.slots, o) + AddedNow(step, o)
  {
    match step {
      case AddStep(id, addr, delay) =>
        AddKeepsValid(w, id, addr, delay);
        var p := w.Position(delay);
        var task := Task(id, addr, w.Cycles(delay), p);
        HeldUpdate(w.slots, p, [task] + w.slots[p], o);
        CarryingAppend([task], w.slots[p], o);
        CarryingOne(task, o);
      case TickStep =>
        TickKeepsValid(w);
        HeldUpdate(w.slots, w.Hand(), Waiting(w.slots[w.Hand()]), o);
        CarryingSplits(w.slots[w.Hand()], o);
    }
  }

  /** In any run the orders held and fired, with their collection addresses, are those held at the
      start and those added, each as often. */
  lemma {:induction false} OriginsConserved(w: Wheel, steps: seq<Step>, o: Origin)
    requires w.Valid() && Safe(w, steps)
    ensures Held(Run(w, steps).slots, o) + Fired(w, steps, o) == Held(w.slots, o) + Added(steps, o)
    decreases |steps|
  {
    if steps != [] {
      OriginsStep(w, steps[0], o);
      OriginsConserved(Next(w, steps[0]), steps[1..], o);
    }
  }

  // ---- what fires, and when ----

  /** The addresses of an order's tasks, in order. */
  function AddressesOf(tasks: seq<Task>, id: string): seq<string> {
    if tasks == [] then []
    else
      var last := tasks[|tasks| - 1];
      AddressesOf(tasks[..|tasks| - 1], id) + if last.orderID == id then [last.collectionAddr] else []
  }

  function FiredAt(t: nat, addrs: seq<string>): seq<(nat, string)> {
    if addrs == [] then [] else FiredAt(t, addrs[..|addrs| - 1]) + [(t, addrs[|addrs| - 1])]
  }

  /** The ticks of a run that fire an order, with the collection address it is fired with. */
  function Firings(w: Wheel, steps: seq<Step>, id: string, t: nat): seq<(nat, string)>
    requires w.Ready() && Safe(w, steps)
    decreases |steps|
  {
    if steps == [] then []
    else
      FiredAt(t, if steps[0].TickStep? then AddressesOf(w.Fired(), id) else []) +
      Firings(Next(w, steps[0]), steps[1..], id, if steps[0].TickStep? then t + 1 else t)
  }

  /** Every task of the order has the address. */
  ghost predicate Carries(w: Wheel, id: string, addr: string) {
    forall i, t :: 0 <= i < |w.slots| && t in w.slots[i] && t.orderID == id ==> t.collectionAddr == addr
  }

  lemma {:induction false} SlotCarries(slot: seq<Task>, id: string, addr: string)
    requires forall t :: t in slot && t.orderID == id ==> t.collectionAddr == addr
    ensures forall t :: t in Due(slot) && t.orderID == id ==> t.collectionAddr == addr
    ensures forall t :: t in Waiting(slot) && t.orderID == id ==> t.collectionAddr == addr
  {
    if slot != [] {
      assert slot[|slot| - 1] in slot;
      SlotCarries(slot[..|slot| - 1], id, addr);
    }
  }

  lemma StepCarries(w: Wheel, step: Step, id: string, addr: string)
    requires w.Valid() && Allowed(w, step) && Carries(w, id, addr)
    requires step.AddStep? && step.orderID == id ==> step.collectionAddr == addr
    ensures Next(w, step).Valid() && Carries(Next(w, step), id, addr)
    ensures forall t :: t in w.Fired() && t.orderID == id ==> t.collectionAddr == addr
  {
    SlotCarries(w.slots[w.Hand()], id, addr);
    match step {
      case AddStep(o, a, delay) => AddKeepsValid(w, o, a, delay);
      case TickStep => TickKeepsValid(w);
    }
  }

  function WithAddress(times: seq<nat>, addr: string): seq<(nat, string)> {
    if times == [] then [] else [(times[0], addr)] + WithAddress(times[1..], addr)
  }

  lemma {:induction false} WithAddressAppend(a: seq<nat>, b: seq<nat>, addr: string)
    ensures WithAddress(a + b, addr) == WithAddress(a, addr) + WithAddress(b, addr)
  {
    if a == [] {
      assert a + b == b;
    } else {
      assert (a + b)[1..] == a[1..] + b;
      WithAddressAppend(a[1..], b, addr);
    }
  }

  lemma {:induction false} RepeatAtEnd(n: nat, t: nat)
    ensures Repeat(n + 1, t) == Repeat(n, t) + [t]
  {
    if n > 0 { RepeatAtEnd(n - 1, t); }
  }

  lemma OneMoreFiring(t: nat, addrs: seq<string>, addr: string, n: nat)
    requires FiredAt(t, addrs) == WithAddress(Repeat(n, t), addr)
    ensures FiredAt(t, addrs + [addr]) == WithAddress(Repeat(n + 1, t), addr)
  {
    assert (addrs + [addr])[..|addrs|] == addrs;
    RepeatAtEnd(n, t);
    WithAddressAppend(Repeat(n, t), [t], addr);
    assert WithAddress([t], addr) == [(t, addr)];
  }

  lemma {:induction false} SlotFirings(tasks: seq<Task>, id: string, addr: string, t: nat)
    requires forall x :: x in tasks && x.orderID == id ==> x.collectionAddr == addr
    ensures FiredAt(t, AddressesOf(tasks, id)) == WithAddress(Repeat(Count(tasks, id), t), addr)
  {
    if tasks != [] {
      var n := |tasks| - 1;
      SlotFirings(tasks[..n], id, addr, t);
      var before := AddressesOf(tasks[..n], id);
      if tasks[n].orderID == id {
        OneMoreFiring(t, before, addr, Count(tasks[..n], id));
      } else {
        assert before + [] == before;
      }
    }
  }

  lemma {:induction false} FiringsCarry(w: Wheel, steps: seq<Step>, id: string, addr: string, t: nat)
    requires w.Valid() && Safe(w, steps) && Carries(w, id, addr) && NeverAdds(steps, id)
    ensures Firings(w, steps, id, t) == WithAddress(FireTimes(w, steps, id, t), addr)
    decreases |steps|
  {
    if steps != [] {
      var t' := if steps[0].TickStep? then t + 1 else t;
      StepCarries(w, steps[0], id, addr);
      FiringsCarry(Next(w, steps[0]), steps[1..], id, addr, t');
      FiringsStep(w, steps, id, addr, t, FireTimes(Next(w, steps[0]), steps[1..], id, t'));
    }
  }

  lemma FiringsStep(w: Wheel, steps: seq<Step>, id: string, addr: string, t: nat, later: seq<nat>)
    requires w.Ready() && Safe(w, steps) && steps != []
    requires forall x :: x in w.Fired() && x.orderID == id ==> x.collectionAddr == addr
    ensures FiredAt(t, if steps[0].TickStep? then AddressesOf(w.Fired(), id) else []) + WithAddress(later, addr)
      == WithAddress(Repeat(FiredNow(w, steps[0], id), t) + later, addr)
  {
    if steps[0].TickStep? { SlotFirings(w.Fired(), id, addr, t); }
    WithAddressAppend(Repeat(FiredNow(w, steps[0], id), t), later, addr);
  }

  lemma AbsentCarries(w: Wheel, id: string, addr: string, delay: int)
    requires w.Valid() && w.Accepts(delay) && Absent(w, id)
    ensures Carries(w.Add(id, addr, delay), id, addr)
  {
    AbsentIsNeverDue(w, id);
    forall i | 0 <= i < |w.slots| ensures forall t :: t in w.slots[i] ==> t.orderID != id {
      CountZero(w.slots[i], id);
    }
  }

  /** An order that is added once fires once, on the tick that FireTick names and with the address
      it was added with; or never, if it was due whole revolutions before the start of the wheel. */
  lemma FiresWithAddress(w: Wheel, id: string, addr: string, delay: int, steps: seq<Step>)
    requires w.Valid() && w.Accepts(delay) && Absent(w, id) && NeverAdds(steps, id)
    requires Safe(w.Add(id, addr, delay), steps)
    ensures var f := FireTick(w.Size(), w.current, delay);
      Firings(w.Add(id, addr, delay), steps, id, 0) == if w.current + delay >= 0 && Ticks(steps) > f then [(f, addr)] else []
  {
    AddKeepsValid(w, id, addr, delay);
    AbsentCarries(w, id, addr, delay);
    FiresExactlyOnce(w, id, addr, delay, steps);
    FiringsCarry(w.Add(id, addr, delay), steps, id, addr, 0);
    if w.current + delay >= 0 { FireTickExact(w.Size(), w.current, delay); }
    assert forall f: nat :: [f][1..] == [];
  }
}
