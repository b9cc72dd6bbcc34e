/** Handling a round of logs twice, as the indexer does when it failed to store its cursor:
    exactly when the order rows come out the same. */
module OrderReplay {
  import opened OrderLedger

  lemma {:induction false} HandleAllAppend(rows: Rows, a: seq<Log>, b: seq<Log>)
    ensures HandleAll(rows, a + b) == HandleAll(HandleAll(rows, a), b)
  {
    if b == [] {
      assert a + b == a;
    } else {
      assert (a + b)[..|a + b| - 1] == a + b[..|b| - 1];
      HandleAllAppend(rows, a, b[..|b| - 1]);
    }
  }

  /** Some log matches the order, as a bid or as a sale. */
  ghost predicate Matched(logs: seq<Log>, id: string, bid: bool) {
    exists i :: 0 <= i < |logs| && Names(logs[i], id, bid)
  }

  predicate Names(log: Log, id: string, bid: bool) {
    log.MatchLog? && id == if bid then BidOf(log) else SaleOf(log)
  }

  ghost predicate Cancels(logs: seq<Log>, id: string) {
    CancelLog(id) in logs
  }

  lemma MatchedInFront(log: Log, rest: seq<Log>, id: string, bid: bool)
    ensures Matched([log] + rest, id, bid) <==> Names(log, id, bid) || Matched(rest, id, bid)
    ensures Cancels([log] + rest, id) <==> log == CancelLog(id) || Cancels(rest, id)
  {
    var logs := [log] + rest;
    if Names(log, id, bid) { assert Names(logs[0], id, bid); }
    if i :| 0 <= i < |rest| && Names(rest[i], id, bid) { assert Names(logs[i + 1], id, bid); }
    if Matched(logs, id, bid) && !Names(log, id, bid) {
      var i :| 0 <= i < |logs| && Names(logs[i], id, bid);
      assert logs[i] == rest[i - 1];
    }
  }

  lemma MatchedAtEnd(before: seq<Log>, log: Log, id: string, bid: bool)
    ensures Matched(before + [log], id, bid) <==> Matched(before, id, bid) || Names(log, id, bid)
  {
    var logs := before + [log];
    if Names(log, id, bid) { assert Names(logs[|before|], id, bid); }
    if i :| 0 <= i < |before| && Names(before[i], id, bid) { assert Names(logs[i], id, bid); }
    if Matched(logs, id, bid) && !Names(log, id, bid) {
      var i :| 0 <= i < |logs| && Names(logs[i], id, bid);
      assert logs[i] == before[i];
    }
  }

  // ---- what handling logs again does to the rows ----

  /** Handling logs never raises a quantity that is not negative, and lowers a matched bid's. */
  lemma {:induction false} QuantityFalls(rows: Rows, logs: seq<Log>, id: string)
    requires id in rows && rows[id].quantityRemaining >= 0
    ensures var rows' := HandleAll(rows, logs);
      && id in rows' && 0 <= rows'[id].quantityRemaining <= rows[id].quantityRemaining
      && (Matched(logs, id, true) && rows[id].quantityRemaining > 0 ==> rows'[id].quantityRemaining < rows[id].quantityRemaining)
  {
    if logs != [] {
      var n := |logs| - 1;
      assert logs == logs[..n] + [logs[n]];
      MatchedAtEnd(logs[..n], logs[n], id, true);
      QuantityFalls(rows, logs[..n], id);
    }
  }

  /** A bid without units comes out filled or cancelled. */
  lemma {:induction false} UsedUpStays(rows: Rows, logs: seq<Log>, id: string)
    requires id in rows && rows[id].quantityRemaining <= 0
    ensures var rows' := HandleAll(rows, logs);
      && id in rows' && rows'[id].quantityRemaining <= 0
      && (Matched(logs, id, true) ==> rows'[id].quantityRemaining == 0 && rows'[id].status != StatusActive)
  {
    if logs != [] {
      var n := |logs| - 1;
      assert logs == logs[..n] + [logs[n]];
      MatchedAtEnd(logs[..n], logs[n], id, true);
      UsedUpStays(rows, logs[..n], id);
    }
  }

  ghost predicate RealTakers(logs: seq<Log>) {
    forall i :: 0 <= i < |logs| && logs[i].MatchLog? ==> Taker(logs[i]) != ZeroAddress
  }

  /** A sold order comes out with a taker. */
  lemma {:induction false} TakerIsSet(rows: Rows, logs: seq<Log>, id: string)
    requires id in rows && RealTakers(logs)
    ensures id in HandleAll(rows, logs)
    ensures Matched(logs, id, false) ==> HandleAll(rows, logs)[id].taker != ZeroAddress
  {
    if logs != [] {
      var n := |logs| - 1;
      assert logs == logs[..n] + [logs[n]];
      MatchedAtEnd(logs[..n], logs[n], id, false);
      TakerIsSet(rows, logs[..n], id);
    }
  }

  // ---- what the contract says of later logs ----

  lemma {:induction false} EmitsFirst(a: seq<Log>, b: seq<Log>)
    requires EmitsAll(a + b)
    ensures EmitsAll(a)
  {
    if b == [] {
      assert a + b == a;
    } else {
      assert (a + b)[..|a + b| - 1] == a + b[..|b| - 1];
      EmitsFirst(a, b[..|b| - 1]);
    }
  }

  /** Sides, matches and cancellations stay; new ones are in the later logs. */
  ghost predicate Grows(c: Chain, c': Chain, b: seq<Log>, id: string) {
    && (id in c.sides ==> id in c'.sides && c'.sides[id] == c.sides[id])
    && (id in c.orders ==> id in c'.orders && GrowsOrder(c.orders[id], c'.orders[id], b, id))
    && (id in c'.orders && id !in c.orders ==> GrowsOrder(OnChain(c'.orders[id].isBid, true, 0, 0, 0, true, false, ZeroAddress), c'.orders[id], b, id))
  }

  ghost predicate GrowsOrder(o: OnChain, o': OnChain, b: seq<Log>, id: string) {
    && o'.isBid == o.isBid && o.matched <= o'.matched && o.filled <= o'.filled
    && (o.cancelled ==> o'.cancelled) && (o'.cancelled ==> o.cancelled || Cancels(b, id))
    && (o'.matched > o.matched ==> Matched(b, id, o.isBid))
  }

  lemma OneLogGrows(c: Chain, c': Chain, b: seq<Log>, log: Log, id: string)
    requires Grows(c, c', b, id) && Emits(c', log)
    requires forall x :: x in c'.orders ==> x in c'.sides && c'.sides[x] == c'.orders[x].isBid && Sound(c'.orders[x])
    ensures Grows(c, AfterLog(c', log), b + [log], id)
  {
    MatchedAtEnd(b, log, id, true);
    MatchedAtEnd(b, log, id, false);
    if log.MatchLog? {
      MatchAt(c', map[], log, id);
    }
  }

  lemma {:induction false} ChainGrows(a: seq<Log>, b: seq<Log>, id: string)
    requires EmitsAll(a + b)
    ensures EmitsAll(a) && Grows(AfterLogs(a), AfterLogs(a + b), b, id)
  {
    if b == [] {
      assert a + b == a;
    } else {
      var b', log := b[..|b| - 1], b[|b| - 1];
      assert (a + b)[..|a + b| - 1] == a + b' && b == b' + [log];
      ChainGrows(a, b', id);
      RowsFollowChain(a + b');
      SidesKnown(AfterLogs(a + b'), HandleAll(map[], a + b'));
      OneLogGrows(AfterLogs(a), AfterLogs(a + b'), b', log, id);
    }
  }

  lemma SidesKnown(chain: Chain, rows: Rows)
    requires Agree(chain, rows)
    ensures forall x :: x in chain.orders ==> x in chain.sides && chain.sides[x] == chain.orders[x].isBid && Sound(chain.orders[x])
  {
    forall x | x in chain.orders
      ensures x in chain.sides && chain.sides[x] == chain.orders[x].isBid && Sound(chain.orders[x])
    {
      assert Agrees(chain, x, rows[x]);
    }
  }

  // ---- what the rows at the end say of a round's logs ----

  /** A row that is filled, or was filled and is cancelled by the logs to come. */
  ghost predicate EndsFilled(row: Row, id: string, rest: seq<Log>) {
    row.quantityRemaining == 0 && (row.status == StatusFilled || (row.status == StatusCancelled && Cancels(rest, id)))
  }

  /** A sold row, with this taker or that of a later match. */
  ghost predicate EndsSold(row: Row, id: string, taker: string, rest: seq<Log>) {
    row.quantityRemaining == 0 && row.status == StatusFilled && (row.taker == taker || Matched(rest, id, false))
  }

  /** The final rows already show what the log does. */
  ghost predicate Settled(rows: Rows, log: Log, rest: seq<Log>) {
    match log
    case MakeLog(id, _, _, _) => id in rows
    case CancelLog(id) => id in rows && rows[id].status == StatusCancelled
    case MatchLog(_, _, _, _, _) =>
      && BidOf(log) != SaleOf(log)
      && (BidOf(log) in rows ==> EndsFilled(rows[BidOf(log)], BidOf(log), rest))
      && (SaleOf(log) in rows ==> EndsSold(rows[SaleOf(log)], SaleOf(log), Taker(log), rest))
  }

  ghost predicate AllSettled(rows: Rows, round: seq<Log>) {
    round == [] || (Settled(rows, round[0], round[1..]) && AllSettled(rows, round[1..]))
  }

  /** The orders of a match, where they have rows in the end: the sale is filled, and the bid has
      no units left and is filled or cancelled. */
  ghost predicate MatchDone(rows: Rows, log: Log)
    requires log.MatchLog?
  {
    && (SaleOf(log) in rows ==> rows[SaleOf(log)].status == StatusFilled)
    && (BidOf(log) in rows ==> rows[BidOf(log)].quantityRemaining == 0 && rows[BidOf(log)].status != StatusActive)
  }

  ghost predicate MatchesDone(rows: Rows, round: seq<Log>) {
    forall i :: 0 <= i < |round| && round[i].MatchLog? ==> MatchDone(rows, round[i])
  }

  /** The logs up to and with one log, and all of them. */
  lemma LogInRun(before: seq<Log>, log: Log, rest: seq<Log>, id: string)
    requires EmitsAll(before + [log] + rest)
    ensures EmitsAll(before) && EmitsAll(before + [log]) && Emits(AfterLogs(before), log)
    ensures AfterLogs(before + [log]) == AfterLog(AfterLogs(before), log)
    ensures Grows(AfterLogs(before), AfterLogs(before + [log]), [log], id)
    ensures Grows(AfterLogs(before + [log]), AfterLogs(before + [log] + rest), rest, id)
  {
    ChainGrows(before + [log], rest, id);
    ChainGrows(before, [log], id);
    assert (before + [log])[..|before|] == before;
  }

  /** A sold listing keeps its taker. */
  lemma TakerStep(chain: Chain, rows: Rows, log: Log, id: string)
    requires Agree(chain, rows) && Emits(chain, log) && id in rows
    requires !chain.orders[id].isBid && chain.orders[id].matched > 0
    ensures id in Handle(rows, log) && Handle(rows, log)[id].taker == rows[id].taker
  {
    assert Agrees(chain, id, rows[id]);
    if log.MatchLog? { MatchAt(chain, rows, log, id); }
  }

  lemma {:induction false} TakerStays(a: seq<Log>, b: seq<Log>, id: string)
    requires EmitsAll(a + b) && EmitsAll(a) && id in AfterLogs(a).orders
    requires !AfterLogs(a).orders[id].isBid && AfterLogs(a).orders[id].matched > 0
    ensures id in HandleAll(map[], a) && id in HandleAll(map[], a + b)
    ensures HandleAll(map[], a + b)[id].taker == HandleAll(map[], a)[id].taker
  {
    if b == [] {
      RowsFollowChain(a);
      assert a + b == a;
    } else {
      var b' := b[..|b| - 1];
      assert (a + b)[..|a + b| - 1] == a + b';
      TakerStays(a, b', id);
      ChainGrows(a, b', id);
      RowsFollowChain(a + b');
      TakerStep(AfterLogs(a + b'), HandleAll(map[], a + b'), b[|b| - 1], id);
    }
  }

  lemma MakeSettled(before: seq<Log>, log: Log, rest: seq<Log>)
    requires EmitsAll(before + [log] + rest) && !log.MatchLog?
    ensures Settled(HandleAll(map[], before + [log] + rest), log, rest)
  {
    LogInRun(before, log, rest, log.orderId);
    RowsFollowChain(before + [log] + rest);
    var rows := HandleAll(map[], before + [log] + rest);
    assert log.orderId in AfterLogs(before + [log]).orders;
    assert Agrees(AfterLogs(before + [log] + rest), log.orderId, rows[log.orderId]);
  }

  lemma BidSettled(before: seq<Log>, log: Log, rest: seq<Log>)
    requires EmitsAll(before + [log] + rest) && log.MatchLog?
    ensures var rows, id := HandleAll(map[], before + [log] + rest), BidOf(log);
      id in rows && rows[id].quantityRemaining == 0 && rows[id].status != StatusActive ==> EndsFilled(rows[id], id, rest)
  {
    var rows, id := HandleAll(map[], before + [log] + rest), BidOf(log);
    LogInRun(before, log, rest, id);
    RowsFollowChain(before + [log] + rest);
    MatchAt(AfterLogs(before), map[], log, id);
    if id in rows { assert Agrees(AfterLogs(before + [log] + rest), id, rows[id]); }
  }

  lemma SaleSettled(before: seq<Log>, log: Log, rest: seq<Log>)
    requires EmitsAll(before + [log] + rest) && log.MatchLog?
    ensures var rows, id := HandleAll(map[], before + [log] + rest), SaleOf(log);
      id in rows && rows[id].status == StatusFilled ==> EndsSold(rows[id], id, Taker(log), rest)
  {
    var rows, id := HandleAll(map[], before + [log] + rest), SaleOf(log);
    LogInRun(before, log, rest, id);
    RowsFollowChain(before + [log] + rest);
    MatchAt(AfterLogs(before), HandleAll(map[], before), log, id);
    if id in rows {
      assert Agrees(AfterLogs(before + [log] + rest), id, rows[id]);
      if id in AfterLogs(before).orders { SoldNow(before, log, rest); }
    }
  }

  lemma SoldNow(before: seq<Log>, log: Log, rest: seq<Log>)
    requires EmitsAll(before + [log] + rest) && log.MatchLog?
    requires EmitsAll(before) && SaleOf(log) in AfterLogs(before).orders
    ensures var rows := HandleAll(map[], before + [log] + rest);
      SaleOf(log) in rows && rows[SaleOf(log)].taker == Taker(log)
  {
    var id := SaleOf(log);
    LogInRun(before, log, rest, id);
    RowsFollowChain(before);
    SidesKnown(AfterLogs(before), HandleAll(map[], before));
    MatchAt(AfterLogs(before), HandleAll(map[], before), log, id);
    assert (before + [log])[..|before|] == before;
    TakerStays(before + [log], rest, id);
  }

  lemma LogSettled(before: seq<Log>, log: Log, rest: seq<Log>)
    requires EmitsAll(before + [log] + rest)
    requires log.MatchLog? ==> MatchDone(HandleAll(map[], before + [log] + rest), log)
    ensures Settled(HandleAll(map[], before + [log] + rest), log, rest)
  {
    if log.MatchLog? {
      LogInRun(before, log, rest, "");
      BidSettled(before, log, rest);
      SaleSettled(before, log, rest);
    } else {
      MakeSettled(before, log, rest);
    }
  }

  lemma {:induction false} RoundSettled(before: seq<Log>, round: seq<Log>, rows: Rows)
    requires EmitsAll(before + round) && rows == HandleAll(map[], before + round) && MatchesDone(rows, round)
    ensures AllSettled(rows, round)
    decreases |round|
  {
    if round != [] {
      var log, rest := round[0], round[1..];
      assert before + round == before + [log] + rest;
      LogSettled(before, log, rest);
      RoundSettled(before + [log], rest, rows);
    }
  }

  // ---- handling settled logs again ----

  /** The row is the final one, but for a cancellation or a sale still to come. */
  ghost predicate NearRow(row: Row, now: Row, id: string, rest: seq<Log>) {
    && now.(status := row.status, taker := row.taker) == row
    && (now.status == row.status || (row.status == StatusCancelled && now.status == StatusFilled && Cancels(rest, id)))
    && (now.taker == row.taker || Matched(rest, id, false))
  }

  ghost predicate Near(rows: Rows, now: Rows, rest: seq<Log>) {
    now.Keys == rows.Keys && forall id :: id in rows ==> NearRow(rows[id], now[id], id, rest)
  }

  lemma RowStaysNear(rows: Rows, now: Rows, log: Log, rest: seq<Log>, id: string)
    requires now.Keys == rows.Keys && id in rows && NearRow(rows[id], now[id], id, [log] + rest) && Settled(rows, log, rest)
    ensures Handle(now, log).Keys == rows.Keys && NearRow(rows[id], Handle(now, log)[id], id, rest)
  {
    MatchedInFront(log, rest, id, false);
  }

  lemma StaysNear(rows: Rows, now: Rows, log: Log, rest: seq<Log>)
    requires Near(rows, now, [log] + rest) && Settled(rows, log, rest)
    ensures Near(rows, Handle(now, log), rest)
  {
    forall id | id in rows ensures NearRow(rows[id], Handle(now, log)[id], id, rest) {
      RowStaysNear(rows, now, log, rest, id);
    }
  }

  lemma {:induction false} SettledAgain(rows: Rows, now: Rows, round: seq<Log>)
    requires Near(rows, now, round) && AllSettled(rows, round)
    ensures HandleAll(now, round) == rows
  {
    if round == [] {
      assert forall id :: id in rows ==> now[id] == rows[id];
    } else {
      assert round == [round[0]] + round[1..];
      StaysNear(rows, now, round[0], round[1..]);
      SettledAgain(rows, Handle(now, round[0]), round[1..]);
      HandleAllAppend(now, [round[0]], round[1..]);
      assert [round[0]][..0] == [];
      assert HandleAll(now, [round[0]]) == Handle(now, round[0]);
    }
  }

  // ---- a match that is not done ----

  lemma {:induction false} TakersReal(logs: seq<Log>)
    requires EmitsAll(logs)
    ensures RealTakers(logs)
  {
    if logs != [] {
      TakersReal(logs[..|logs| - 1]);
      assert logs == logs[..|logs| - 1] + [logs[|logs| - 1]];
    }
  }

  /** The rows of a match's orders: the sale, unless filled, has no taker. */
  lemma UnsoldHasNoTaker(before: seq<Log>, round: seq<Log>, i: nat)
    requires EmitsAll(before + round) && i < |round| && round[i].MatchLog?
    ensures var rows, id := HandleAll(map[], before + round), SaleOf(round[i]);
      id in rows && rows[id].status != StatusFilled ==> rows[id].taker == ZeroAddress
  {
    var rows, id := HandleAll(map[], before + round), SaleOf(round[i]);
    assert before + round == before + round[..i] + [round[i]] + round[i + 1..];
    LogInRun(before + round[..i], round[i], round[i + 1..], id);
    MatchAt(AfterLogs(before + round[..i]), map[], round[i], id);
    RowsFollowChain(before + round);
    if id in rows { assert Agrees(AfterLogs(before + round), id, rows[id]); }
  }

  lemma NotDoneChanges(before: seq<Log>, round: seq<Log>, i: nat)
    requires EmitsAll(before + round) && i < |round| && round[i].MatchLog?
    requires !MatchDone(HandleAll(map[], before + round), round[i])
    ensures HandleAll(HandleAll(map[], before + round), round) != HandleAll(map[], before + round)
  {
    var rows, bid, sale := HandleAll(map[], before + round), BidOf(round[i]), SaleOf(round[i]);
    assert Names(round[i], bid, true) && Names(round[i], sale, false);
    if sale in rows && rows[sale].status != StatusFilled {
      UnsoldHasNoTaker(before, round, i);
      TakersReal(before + round);
      assert forall j :: 0 <= j < |round| ==> round[j] == (before + round)[|before| + j];
      TakerIsSet(rows, round, sale);
    } else if rows[bid].quantityRemaining > 0 {
      QuantityFalls(rows, round, bid);
    } else {
      UsedUpStays(rows, round, bid);
    }
  }

  /** A round of logs handled again changes no row exactly when every match in it is done. */
  lemma ReplayExact(before: seq<Log>, round: seq<Log>)
    requires EmitsAll(before + round)
    ensures var rows := HandleAll(map[], before + round);
      HandleAll(rows, round) == rows <==> MatchesDone(rows, round)
  {
    var rows := HandleAll(map[], before + round);
    if MatchesDone(rows, round) {
      RoundSettled(before, round, rows);
      SettledAgain(rows, rows, round);
    } else {
      var i :| 0 <= i < |round| && round[i].MatchLog? && !MatchDone(rows, round[i]);
      NotDoneChanges(before, round, i);
    }
  }

  // ---- the condition in units ----

  /** Every amount is positive and fits 64 bits. */
  ghost predicate PlainAmounts(logs: seq<Log>) {
    forall i :: 0 <= i < |logs| && logs[i].MakeLog? ==> 0 < logs[i].amount < 0x8000_0000_0000_0000
  }

  lemma {:induction false} PlainSizes(logs: seq<Log>)
    requires EmitsAll(logs) && PlainAmounts(logs)
    ensures forall id :: id in AfterLogs(logs).orders ==> 0 < AfterLogs(logs).orders[id].size < 0x8000_0000_0000_0000
  {
    if logs != [] {
      var n := |logs| - 1;
      PlainSizes(logs[..n]);
      if logs[n].MatchLog? {
        forall id | id in AfterLogs(logs).orders ensures AfterLogs(logs).orders[id].size == AfterLogs(logs[..n]).orders[id].size {
          MatchAt(AfterLogs(logs[..n]), map[], logs[n], id);
        }
      }
    }
  }

  lemma SideOf(before: seq<Log>, round: seq<Log>, i: nat, id: string, bid: bool)
    requires EmitsAll(before + round) && i < |round| && Names(round[i], id, bid)
    ensures var chain, rows := AfterLogs(before + round), HandleAll(map[], before + round);
      id in rows ==> id in chain.orders && chain.orders[id].isBid == bid && Agrees(chain, id, rows[id])
  {
    SideKnown(before, round, i, id, bid);
    RowsFollowChain(before + round);
    var chain, rows := AfterLogs(before + round), HandleAll(map[], before + round);
    if id in rows { assert Agrees(chain, id, rows[id]); }
  }

  lemma SideKnown(before: seq<Log>, round: seq<Log>, i: nat, id: string, bid: bool)
    requires EmitsAll(before + round) && i < |round| && Names(round[i], id, bid)
    ensures var sides := AfterLogs(before + round).sides; id in sides && sides[id] == bid
  {
    assert before + round == before + round[..i] + [round[i]] + round[i + 1..];
    SideInRun(before + round[..i], round[i], round[i + 1..], id, bid);
  }

  lemma SideInRun(before: seq<Log>, log: Log, rest: seq<Log>, id: string, bid: bool)
    requires EmitsAll(before + [log] + rest) && Names(log, id, bid)
    ensures var sides := AfterLogs(before + [log] + rest).sides; id in sides && sides[id] == bid
  {
    LogInRun(before, log, rest, id);
    SideNamed(AfterLogs(before), log, id, bid);
  }

  lemma SideNamed(chain: Chain, log: Log, id: string, bid: bool)
    requires Emits(chain, log) && Names(log, id, bid)
    ensures var sides := AfterLog(chain, log).sides; id in sides && sides[id] == bid
  {
  }

  lemma RowDone(o: OnChain, row: Row)
    requires Sound(o) && RowAgrees(o, row) && 0 < o.size < 0x8000_0000_0000_0000
    ensures row.quantityRemaining == 0 <==>
      if o.isBid then row.quantityRemaining == 0 && row.status != StatusActive else row.status == StatusFilled
  {
  }

  /** Then a match is done exactly when neither of its orders has units left. */
  lemma DoneInUnits(before: seq<Log>, round: seq<Log>, i: nat)
    requires EmitsAll(before + round) && PlainAmounts(before + round) && i < |round| && round[i].MatchLog?
    ensures var rows, log := HandleAll(map[], before + round), round[i];
      MatchDone(rows, log) <==>
        && (SaleOf(log) in rows ==> rows[SaleOf(log)].quantityRemaining == 0)
        && (BidOf(log) in rows ==> rows[BidOf(log)].quantityRemaining == 0)
  {
    var chain, rows := AfterLogs(before + round), HandleAll(map[], before + round);
    var bid, sale := BidOf(round[i]), SaleOf(round[i]);
    SideOf(before, round, i, bid, true);
    SideOf(before, round, i, sale, false);
    PlainSizes(before + round);
    if bid in rows { RowDone(chain.orders[bid], rows[bid]); }
    if sale in rows { RowDone(chain.orders[sale], rows[sale]); }
  }

  // ---- one log ----

  /** A single log handled again right away changes nothing, except a match whose bid is stored
      and had more than one unit left: that takes a second unit. */
  lemma RepeatExact(rows: Rows, log: Log)
    ensures Handle(Handle(rows, log), log) == Handle(rows, log) <==>
      !(log.MatchLog? && BidOf(log) != SaleOf(log) && BidOf(log) in rows && rows[BidOf(log)].quantityRemaining > 1)
  {
    if log.MatchLog? && BidOf(log) in rows {
      var once := Handle(rows, log);
      assert Handle(once, log)[BidOf(log)].quantityRemaining <= once[BidOf(log)].quantityRemaining;
    }
  }

  /** A seller's match with one unit of a bid for two, handled again, takes the second unit. */
  lemma ReplayTakesSecondUnit()
    ensures var before, round := [MakeLog("bid", Bid, 0, 2)], [MatchLog("order", "bid", 0, "seller", "buyer")];
      var rows := HandleAll(map[], before + round);
      && EmitsAll(before + round) && !MatchesDone(rows, round)
      && "bid" in HandleAll(rows, round) && HandleAll(rows, round)["bid"].quantityRemaining == 0
  {
    var bid, sold := MakeLog("bid", Bid, 0, 2), MatchLog("order", "bid", 0, "seller", "buyer");
    assert [] + [bid] == [bid];
    OneMoreLog([], bid);
    OneMoreLog([bid], sold);
    var rows := HandleAll(map[], [bid] + [sold]);
    assert [sold][..0] == [];
    assert HandleAll(rows, [sold]) == Handle(rows, sold);
    assert [sold][0].MatchLog? && !MatchDone(rows, [sold][0]);
  }
}
