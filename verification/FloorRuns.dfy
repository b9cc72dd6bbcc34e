/** Runs of events and silent sales over all collections: exactly when the invariant holds all
    along, and so the cached floor prices are the true ones. */
module FloorRuns {
  import opened Text
  import opened PriorityQueue
  import opened FloorPrice
  import opened FloorInvariant
  import opened FloorListing
  import opened FloorTransfer
  import opened FloorStray
  import opened FloorSales

  /** The event can happen, and its queries answer from the tables. A new order has a new id. */
  ghost predicate PossibleEvent(sys: System, tx: Tx) {
    var ev := tx.event;
    var addr := ToLower(ev.collectionAddr);
    var st := sys.StoreOf(addr);
    && Answered(Commit(st, tx), ev, tx.answers)
    && match ev.eventType
       case Listing => ev.orderId !in st.orders && ev.price >= 0.0
       case _ => true
  }

  /** No tie decides what becomes of stray orders. */
  ghost predicate DecidedEvent(sys: System, tx: Tx) {
    var ev := tx.event;
    var addr := ToLower(ev.collectionAddr);
    var st := sys.StoreOf(addr);
    match ev.eventType
    case Buy =>
      addr in sys.infos ==> ArmDecided(SoldStore(st, ev.orderId), sys.infos[addr].orders.Remove(ev.orderId), ev, tx.answers)
    case Transfer => addr in sys.infos ==> ArmDecided(st, sys.infos[addr].orders, ev, tx.answers)
    case _ => true
  }

  /** The event finds a queue that it can keep exact. */
  ghost predicate FitsEvent(sys: System, tx: Tx) {
    var ev := tx.event;
    var addr := ToLower(ev.collectionAddr);
    var st := sys.StoreOf(addr);
    match ev.eventType
    case Listing => addr in sys.infos ==> ListingFits(st, sys.infos[addr].orders, tx)
    case Buy =>
      addr in sys.infos ==>
        ArmFits(SoldStore(st, ev.orderId), Commit(st, tx), sys.infos[addr].orders.Remove(ev.orderId), ev, tx.answers)
    case Transfer => addr in sys.infos ==> ArmFits(st, Commit(st, tx), sys.infos[addr].orders, ev, tx.answers)
    case ImportCollection => addr !in sys.infos ==> ValidIds(st) == {}
    case _ => true
  }

  ghost predicate Possible(sys: System, move: Move) {
    move.Announced? ==> PossibleEvent(sys, move.tx)
  }

  ghost predicate Decided(sys: System, move: Move) {
    move.Announced? ==> DecidedEvent(sys, move.tx)
  }

  /** A sale that is not announced must not be of a queued order. */
  ghost predicate Fits(sys: System, move: Move) {
    match move
    case Announced(tx) => FitsEvent(sys, tx)
    case SoldSilently(addr, id) => ToLower(addr) in sys.infos ==> id !in sys.infos[ToLower(addr)].orders.orders
  }

  ghost predicate Invariant(sys: System) {
    && (forall addr :: WellFormed(sys.StoreOf(addr)))
    && (forall addr :: addr in sys.infos ==> InfoExact(sys.StoreOf(addr), sys.infos[addr]))
  }

  lemma CommitWellFormed(st: Store, tx: Tx)
    requires WellFormed(st) && (tx.event.eventType.Listing? ==> tx.event.price >= 0.0)
    ensures WellFormed(Commit(st, tx))
  {
  }

  lemma BuyExact(st: Store, q: Queue, sort: Sorter, tx: Tx)
    requires tx.event.eventType.Buy? && CheapestPart(st, q)
    requires WellFormed(Commit(st, tx)) && Answered(Commit(st, tx), tx.event, tx.answers)
    ensures var sold, left, kept := SoldStore(st, tx.event.orderId), q.Remove(tx.event.orderId),
                                    CheapestPart(Commit(st, tx), StepQueue(q, sort, tx.event, tx.answers));
      && (ArmFits(sold, Commit(st, tx), left, tx.event, tx.answers) ==> kept)
      && (ArmDecided(sold, left, tx.event, tx.answers) && kept ==> ArmFits(sold, Commit(st, tx), left, tx.event, tx.answers))
  {
    var ev := tx.event;
    RetireKeeps(st, SoldStore(st, ev.orderId), q, ev.orderId, StatusFilled);
    ArmExact(SoldStore(st, ev.orderId), Commit(st, tx), q.Remove(ev.orderId), sort, ev, tx.answers);
  }

  lemma RemovalKeeps(st: Store, q: Queue, sort: Sorter, tx: Tx)
    requires (tx.event.eventType.Cancel? || tx.event.eventType.Expired?) && CheapestPart(st, q)
    requires Answered(Commit(st, tx), tx.event, tx.answers)
    ensures CheapestPart(Commit(st, tx), StepQueue(q, sort, tx.event, tx.answers))
  {
    var status := if tx.event.eventType.Cancel? then StatusCancelled else StatusExpired;
    RetireKeeps(st, Commit(st, tx), q, tx.event.orderId, status);
    OrReloadKeeps(Commit(st, tx), q.Remove(tx.event.orderId), sort, tx.answers);
  }

  /** One event on a tracked collection. */
  lemma StepInfoExact(sys: System, info: Info, sort: Sorter, tx: Tx)
    requires PossibleEvent(sys, tx)
    requires var addr := ToLower(tx.event.collectionAddr);
      && addr in sys.infos && info == sys.infos[addr]
      && WellFormed(sys.StoreOf(addr)) && InfoExact(sys.StoreOf(addr), info)
    ensures var kept := InfoExact(Commit(sys.StoreOf(ToLower(tx.event.collectionAddr)), tx), StepInfo(info, sort, tx.event, tx.answers));
      (FitsEvent(sys, tx) ==> kept) && (DecidedEvent(sys, tx) && kept ==> FitsEvent(sys, tx))
  {
    var st := sys.StoreOf(ToLower(tx.event.collectionAddr));
    CommitWellFormed(st, tx);
    match tx.event.eventType {
      case Listing => ListingExact(st, info.orders, sort, tx);
      case Cancel => RemovalKeeps(st, info.orders, sort, tx);
      case Expired => RemovalKeeps(st, info.orders, sort, tx);
      case Buy => BuyExact(st, info.orders, sort, tx);
      case Transfer => ArmExact(st, Commit(st, tx), info.orders, sort, tx.event, tx.answers);
      case UpdateCollection =>
        if info.orders.GetMin().1 != tx.event.price { ReloadGivesCheapestPart(Commit(st, tx), sort, tx.answers.lowest); }
      case _ =>
    }
  }

  lemma EventExact(sys: System, sort: Sorter, tx: Tx)
    requires Invariant(sys) && PossibleEvent(sys, tx)
    ensures FitsEvent(sys, tx) ==> Invariant(StepEvent(sys, sort, tx))
    ensures DecidedEvent(sys, tx) && Invariant(StepEvent(sys, sort, tx)) ==> FitsEvent(sys, tx)
  {
    var addr := ToLower(tx.event.collectionAddr);
    var st, sys' := sys.StoreOf(addr), StepEvent(sys, sort, tx);
    CommitWellFormed(st, tx);
    OthersUntouched(sys, sort, tx);
    if addr in sys.infos {
      StepInfoExact(sys, sys.infos[addr], sort, tx);
    } else if tx.event.eventType.ImportCollection? {
      EmptyIsCheapestPart(st);
      assert addr in sys'.infos;
    }
  }

  lemma OthersUntouched(sys: System, sort: Sorter, tx: Tx)
    requires Invariant(sys)
    ensures var addr, sys' := ToLower(tx.event.collectionAddr), StepEvent(sys, sort, tx);
      && sys'.StoreOf(addr) == Commit(sys.StoreOf(addr), tx)
      && (forall a :: a != addr ==> WellFormed(sys'.StoreOf(a)))
      && (forall a :: a in sys'.infos && a != addr ==> InfoExact(sys'.StoreOf(a), sys'.infos[a]))
  {
    var addr, sys' := ToLower(tx.event.collectionAddr), StepEvent(sys, sort, tx);
    forall a | a != addr ensures sys'.StoreOf(a) == sys.StoreOf(a) {}
  }

  lemma SoldWellFormed(st: Store, id: string)
    requires WellFormed(st)
    ensures WellFormed(SoldStore(st, id))
  {
  }

  lemma SilentOthers(sys: System, addr: string, id: string)
    requires Invariant(sys)
    ensures var a, sys' := ToLower(addr), StepSilently(sys, addr, id);
      && sys'.infos == sys.infos && sys'.StoreOf(a) == SoldStore(sys.StoreOf(a), id)
      && (forall x :: WellFormed(sys'.StoreOf(x)))
      && (forall x :: x in sys'.infos && x != a ==> InfoExact(sys'.StoreOf(x), sys'.infos[x]))
  {
    var a, sys' := ToLower(addr), StepSilently(sys, addr, id);
    forall x ensures WellFormed(sys'.StoreOf(x)) {
      if x == a { SoldWellFormed(sys.StoreOf(a), id); } else { assert sys'.StoreOf(x) == sys.StoreOf(x); }
    }
    forall x | x in sys'.infos && x != a ensures InfoExact(sys'.StoreOf(x), sys'.infos[x]) {
      assert sys'.StoreOf(x) == sys.StoreOf(x);
    }
  }

  lemma SilentSaleStep(sys: System, addr: string, id: string)
    requires Invariant(sys)
    ensures Invariant(StepSilently(sys, addr, id)) <==> (ToLower(addr) in sys.infos ==> id !in sys.infos[ToLower(addr)].orders.orders)
  {
    var a := ToLower(addr);
    SilentOthers(sys, addr, id);
    if a in sys.infos {
      SilentSaleExact(sys.StoreOf(a), sys.infos[a].orders, id);
    }
  }

  /** One move keeps the invariant of all collections when it fits, and, unless a tie decides, only
      then. */
  lemma StepExact(sys: System, sort: Sorter, move: Move)
    requires Invariant(sys) && Possible(sys, move)
    ensures Fits(sys, move) ==> Invariant(Step(sys, sort, move))
    ensures Decided(sys, move) && Invariant(Step(sys, sort, move)) ==> Fits(sys, move)
  {
    match move {
      case Announced(tx) => EventExact(sys, sort, tx);
      case SoldSilently(addr, id) => SilentSaleStep(sys, addr, id);
    }
  }

  // ---- runs ----

  ghost predicate PossibleRun(sys: System, sort: Sorter, moves: seq<Move>) {
    moves == [] ||
    var before := moves[..|moves| - 1];
    PossibleRun(sys, sort, before) && Possible(Process(sys, sort, before), moves[|moves| - 1])
  }

  ghost predicate DecidedRun(sys: System, sort: Sorter, moves: seq<Move>) {
    moves == [] ||
    var before := moves[..|moves| - 1];
    DecidedRun(sys, sort, before) && Decided(Process(sys, sort, before), moves[|moves| - 1])
  }

  ghost predicate FitsRun(sys: System, sort: Sorter, moves: seq<Move>) {
    moves == [] ||
    var before := moves[..|moves| - 1];
    FitsRun(sys, sort, before) && Fits(Process(sys, sort, before), moves[|moves| - 1])
  }

  /** The invariant holds at the start and after every move. */
  ghost predicate HoldsAlong(sys: System, sort: Sorter, moves: seq<Move>) {
    Invariant(Process(sys, sort, moves)) && (moves == [] || HoldsAlong(sys, sort, moves[..|moves| - 1]))
  }

  /** It does when every move fits, and, unless a tie decides, only then. */
  lemma {:induction false} RunExact(sys: System, sort: Sorter, moves: seq<Move>)
    requires Invariant(sys) && PossibleRun(sys, sort, moves)
    ensures FitsRun(sys, sort, moves) ==> HoldsAlong(sys, sort, moves)
    ensures DecidedRun(sys, sort, moves) && HoldsAlong(sys, sort, moves) ==> FitsRun(sys, sort, moves)
  {
    if moves != [] {
      var before := moves[..|moves| - 1];
      RunExact(sys, sort, before);
      if HoldsAlong(sys, sort, before) { StepExact(Process(sys, sort, before), sort, moves[|moves| - 1]); }
    }
  }

  /** After every move of a run whose moves fit, every tracked collection's cached queue is a
      cheapest part of its valid listings and its cached floor price is the true floor. */
  lemma {:induction false} FloorAlwaysExact(sys: System, sort: Sorter, moves: seq<Move>)
    requires Invariant(sys) && PossibleRun(sys, sort, moves) && FitsRun(sys, sort, moves)
    ensures Invariant(Process(sys, sort, moves))
    ensures var sys' := Process(sys, sort, moves);
      forall addr :: addr in sys'.infos ==> IsFloor(sys'.StoreOf(addr), sys'.infos[addr].floorPrice)
  {
    RunExact(sys, sort, moves);
    var sys' := Process(sys, sort, moves);
    forall addr | addr in sys'.infos ensures IsFloor(sys'.StoreOf(addr), sys'.infos[addr].floorPrice) {
      CheapestPartGivesFloor(sys'.StoreOf(addr), sys'.infos[addr].orders);
    }
  }
}
