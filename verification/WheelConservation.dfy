/** Nothing is lost in the wheel and nothing is fired that was not added. */
module WheelConservation {
  import opened TimeWheel

  /** How often an order is in the wheel. */
  function HeldCount(slots: seq<seq<Task>>, id: string): nat {
    if slots == [] then 0 else Count(slots[0], id) + HeldCount(slots[1..], id)
  }

  /** How often a run fires an order. */
  function FiredCount(w: Wheel, steps: seq<Step>, id: string): nat
    requires w.Ready() && Safe(w, steps)
    decreases |steps|
  {
    if steps == [] then 0
    else FiredNow(w, steps[0], id) + FiredCount(Next(w, steps[0]), steps[1..], id)
  }

  function AddedNow(step: Step, id: string): nat {
    if step.AddStep? && step.orderID == id then 1 else 0
  }

  function AddedCount(steps: seq<Step>, id: string): nat {
    if steps == [] then 0 else AddedNow(steps[0], id) + AddedCount(steps[1..], id)
  }

  lemma {:induction false} CountSplits(slot: seq<Task>, id: string)
    ensures Count(slot, id) == Count(Due(slot), id) + Count(Waiting(slot), id)
  {
    if slot != [] {
      var rest, last := slot[..|slot| - 1], slot[|slot| - 1];
      CountSplits(rest, id);
      CountAppend(Due(rest), IfDue(last), id);
      CountAppend(Waiting(rest), IfWaiting(last), id);
      CountOne(last, id);
    }
  }

  lemma {:induction false} SizeSplits(slot: seq<Task>)
    ensures |slot| == |Due(slot)| + |Waiting(slot)|
  {
    if slot != [] { SizeSplits(slot[..|slot| - 1]); }
  }

  lemma {:induction false} HeldUpdate(slots: seq<seq<Task>>, i: nat, slot: seq<Task>, id: string)
    requires i < |slots|
    ensures HeldCount(slots[i := slot], id) + Count(slots[i], id) == HeldCount(slots, id) + Count(slot, id)
  {
    var slots' := slots[i := slot];
    if i == 0 {
      assert slots'[1..] == slots[1..];
    } else {
      HeldUpdate(slots[1..], i - 1, slot, id);
      assert slots'[1..] == slots[1..][i - 1 := slot];
    }
  }

  lemma StepConserves(w: Wheel, step: Step, id: string)
    requires w.Valid() && Allowed(w, step)
    ensures Next(w, step).Valid()
    ensures HeldCount(Next(w, step).slots, id) + FiredNow(w, step, id) == HeldCount(w.slots, id) + AddedNow(step, id)
  {
    match step {
      case AddStep(o, addr, delay) =>
        AddKeepsValid(w, o, addr, delay);
        var p := w.Position(delay);
        var task := Task(o, addr, w.Cycles(delay), p);
        HeldUpdate(w.slots, p, [task] + w.slots[p], id);
        CountAppend([task], w.slots[p], id);
        assert [task][..0] == [];
      case TickStep =>
        TickKeepsValid(w);
        HeldUpdate(w.slots, w.Hand(), Waiting(w.slots[w.Hand()]), id);
        CountSplits(w.slots[w.Hand()], id);
    }
  }

  /** Over any run and for every order: times in the wheel plus times fired is times in the
      wheel before plus times added. Every order sits in the slot its record names. */
  lemma {:induction false} WheelConserves(w: Wheel, steps: seq<Step>, id: string)
    requires w.Valid() && Safe(w, steps)
    ensures Run(w, steps).Valid()
    ensures HeldCount(Run(w, steps).slots, id) + FiredCount(w, steps, id) == HeldCount(w.slots, id) + AddedCount(steps, id)
    decreases |steps|
  {
    if steps != [] {
      StepConserves(w, steps[0], id);
      WheelConserves(Next(w, steps[0]), steps[1..], id);
    }
  }

  // ---- the slot quantities ----

  /** The sum of the slots' quantities. */
  function Quantity(slots: seq<seq<Task>>): nat {
    if slots == [] then 0 else |slots[0]| + Quantity(slots[1..])
  }

  function Fires(w: Wheel, steps: seq<Step>): nat
    requires w.Ready() && Safe(w, steps)
    decreases |steps|
  {
    if steps == [] then 0
    else (if steps[0].TickStep? then |w.Fired()| else 0) + Fires(Next(w, steps[0]), steps[1..])
  }

  function Adds(steps: seq<Step>): nat {
    if steps == [] then 0 else (if steps[0].AddStep? then 1 else 0) + Adds(steps[1..])
  }

  lemma {:induction false} QuantityUpdate(slots: seq<seq<Task>>, i: nat, slot: seq<Task>)
    requires i < |slots|
    ensures Quantity(slots[i := slot]) + |slots[i]| == Quantity(slots) + |slot|
  {
    var slots' := slots[i := slot];
    if i == 0 {
      assert slots'[1..] == slots[1..];
    } else {
      QuantityUpdate(slots[1..], i - 1, slot);
      assert slots'[1..] == slots[1..][i - 1 := slot];
    }
  }

  /** The quantities of all slots sum to what was there, plus adds, minus fires. */
  lemma {:induction false} QuantityConserved(w: Wheel, steps: seq<Step>)
    requires w.Valid() && Safe(w, steps)
    ensures Quantity(Run(w, steps).slots) + Fires(w, steps) == Quantity(w.slots) + Adds(steps)
    decreases |steps|
  {
    if steps != [] {
      StepConserves(w, steps[0], "");
      QuantityStep(w, steps[0]);
      QuantityConserved(Next(w, steps[0]), steps[1..]);
    }
  }

  lemma QuantityStep(w: Wheel, step: Step)
    requires w.Valid() && Allowed(w, step)
    ensures Quantity(Next(w, step).slots) + (if step.TickStep? then |w.Fired()| else 0)
      == Quantity(w.slots) + if step.AddStep? then 1 else 0
  {
    match step {
      case AddStep(o, addr, delay) =>
        var p := w.Position(delay);
        QuantityUpdate(w.slots, p, [Task(o, addr, w.Cycles(delay), p)] + w.slots[p]);
      case TickStep =>
        QuantityUpdate(w.slots, w.Hand(), Waiting(w.slots[w.Hand()]));
        SizeSplits(w.slots[w.Hand()]);
    }
  }
}
