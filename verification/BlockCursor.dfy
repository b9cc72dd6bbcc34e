/** The order-book indexer's block cursor: which block ranges it fetches, and what it has
    handled when rounds fail and the process restarts. Block numbers are 64-bit unsigned. */
module BlockCursor {
  import opened Common

  const SyncBlockPeriod := 1000
  const MinSyncBlocks := 500
  const TwoTo64 := 0x1_0000_0000_0000_0000
  const MaxInt64 := 0x7FFF_FFFF_FFFF_FFFF

  type Block = b: int | 0 <= b < TwoTo64

  /** The result of one 64-bit unsigned addition or subtraction. */
  function Wrap(b: int): Block
    requires -TwoTo64 <= b < 2 * TwoTo64
  {
    if b < 0 then b + TwoTo64 else if b >= TwoTo64 then b - TwoTo64 else b
  }

  /** MultiChainMaxBlockDifference; a chain that is not listed reads as 0. */
  function ConfirmationDepth(chain: string): Block {
    if chain in ["eth", "optimism", "base", "sepolia"] then 8 else 0
  }

  /** What happens around one round of the loop: the head query fails, or it returns a head
      and the log queries and the cursor update succeed or not. */
  datatype Round = HeadFails | Head(head: Block, logsOk: bool, retryOk: bool, storeOk: bool)

  /** A handled range of blocks, whether the cursor behind it was stored, and the chain's head at
      the time. */
  datatype Scan = Scan(lo: Block, hi: Block, kept: bool, head: Block)

  datatype Cursor = Cursor(last: Block, stored: Block, running: bool, scans: seq<Scan>)

  /** The end of the range to fetch from last, when last is not beyond safeEnd. */
  function RangeEnd(last: Block, safeEnd: Block): Block {
    if Wrap(safeEnd - last + 1) >= MinSyncBlocks
    then if Wrap(last + SyncBlockPeriod) > safeEnd then safeEnd else Wrap(last + SyncBlockPeriod)
    else safeEnd
  }

  /** The end of the range whose logs the round obtains, if it obtains any. */
  function Fetched(last: Block, depth: Block, round: Round): Option<Block> {
    if round.HeadFails? || last > Wrap(round.head - depth) then None
    else
      var end := RangeEnd(last, Wrap(round.head - depth));
      if round.logsOk then Some(end)
      else if Wrap(end - last) > 1 && round.retryOk then Some(last)
      else None
  }

  function AfterRound(c: Cursor, depth: Block, round: Round): Cursor {
    if !c.running then c
    else
      match Fetched(c.last, depth, round)
      case None => c
      case Some(end) =>
        var last := Wrap(end + 1);
        Cursor(last, if round.storeOk then last else c.stored, round.storeOk, c.scans + [Scan(c.last, end, round.storeOk, round.head)])
  }

  function AfterRounds(c: Cursor, depth: Block, rounds: seq<Round>): Cursor {
    if rounds == [] then c
    else AfterRound(AfterRounds(c, depth, rounds[..|rounds| - 1]), depth, rounds[|rounds| - 1])
  }

  /** A start reads the stored cursor. */
  function Restarted(c: Cursor): Cursor {
    c.(last := c.stored, running := true)
  }

  class Indexer {
    var lastSyncBlock: Block
    var lastIndexedBlock: Block
    var running: bool
    var scans: seq<Scan>
    const depth: Block

    constructor (chain: string, lastIndexedBlock: Block)
      ensures depth == ConfirmationDepth(chain)
      ensures Value() == Cursor(lastIndexedBlock, lastIndexedBlock, false, [])
    {
      depth := ConfirmationDepth(chain);
      this.lastIndexedBlock, lastSyncBlock, running, scans := lastIndexedBlock, lastIndexedBlock, false, [];
    }

    function Value(): Cursor
      reads this
    {
      Cursor(lastSyncBlock, lastIndexedBlock, running, scans)
    }

    /** SyncOrderBookEventLoop, from its start until the rounds end or it returns. */
    method SyncOrderBookEventLoop(rounds: seq<Round>)
      modifies this
      ensures Value() == AfterRounds(Restarted(old(Value())), depth, rounds)
    {
      lastSyncBlock := lastIndexedBlock;
      running := true;
      for i := 0 to |rounds|
        invariant Value() == AfterRounds(Restarted(old(Value())), depth, rounds[..i])
      {
        assert rounds[..i + 1][..i] == rounds[..i];
        if running {
          SyncRound(rounds[i]);
        }
      }
      assert rounds[..|rounds|] == rounds;
    }

    /** The choice of the batch. */
    method BatchEnd(startBlock: Block, safeEndBlock: Block) returns (endBlock: Block)
      ensures endBlock == RangeEnd(startBlock, safeEndBlock)
    {
      var availableBlocks := Wrap(safeEndBlock - startBlock + 1);
      if availableBlocks >= MinSyncBlocks {
        endBlock := Wrap(startBlock + SyncBlockPeriod);
        if endBlock > safeEndBlock {
          endBlock := safeEndBlock;
        }
      } else {
        endBlock := safeEndBlock;
      }
    }

    method SyncRound(round: Round)
      requires running
      modifies this
      ensures Value() == AfterRound(old(Value()), depth, round)
    {
      if round.HeadFails? {
        return;
      }
      var safeEndBlock := Wrap(round.head - depth);
      if lastSyncBlock > safeEndBlock {
        return;
      }
      var startBlock := lastSyncBlock;
      var endBlock: Block := BatchEnd(startBlock, safeEndBlock);
      if !round.logsOk {
        if Wrap(endBlock - startBlock) > 1 {
          endBlock := startBlock;
          if !round.retryOk {
            return;
          }
        } else {
          return;
        }
      }
      scans := scans + [Scan(startBlock, endBlock, round.storeOk, round.head)];
      lastSyncBlock := Wrap(endBlock + 1);
      if !round.storeOk {
        running := false;
        return;
      }
      lastIndexedBlock := lastSyncBlock;
    }
  }

  // ---- one round ----

  /** Heads are at least the confirmation depth and fit the 64-bit signed column. */
  ghost predicate SaneRound(depth: Block, round: Round) {
    round.Head? ==> depth <= round.head <= MaxInt64
  }

  /** A fetched range starts at the cursor, ends at or before the head minus the depth, and
      holds between 1 and SyncBlockPeriod + 1 blocks. */
  lemma FetchedRange(last: Block, depth: Block, round: Round)
    requires SaneRound(depth, round)
    ensures var f := Fetched(last, depth, round);
      f.Some? ==> last <= f.value <= round.head - depth && f.value + 1 - last <= SyncBlockPeriod + 1
  {
  }

  /** What a round fetches: nothing behind the cursor; the whole range, at most SyncBlockPeriod + 1
      blocks and no further than the head less the depth; and, when its logs do not come, the
      cursor's block alone if the range was longer than two blocks and the retry succeeds. */
  lemma FetchedExactly(last: Block, depth: Block, round: Round)
    requires SaneRound(depth, round)
    ensures round.HeadFails? ==> Fetched(last, depth, round) == None
    ensures round.Head? ==>
      var end := Min(last + SyncBlockPeriod, round.head - depth);
      && (Fetched(last, depth, round).Some? <==>
            last <= round.head - depth && (round.logsOk || (end - last > 1 && round.retryOk)))
      && (Fetched(last, depth, round).Some? ==> Fetched(last, depth, round).value == if round.logsOk then end else last)
  {
  }

  /** A round that fetches stays at or below the head exactly when the head is at least the
      depth, or only the single block at the cursor is fetched and the head has reached it. With
      a head below the depth the subtraction wraps around, and a full batch is asked for, or, when
      the count of available blocks wraps around too, every block there can be. */
  lemma WithinHeadExactly(chain: string, last: Block, round: Round)
    requires round.Head? && round.head <= MaxInt64 && last <= MaxInt64
    requires Fetched(last, ConfirmationDepth(chain), round).Some?
    ensures Fetched(last, ConfirmationDepth(chain), round).value <= round.head <==>
      ConfirmationDepth(chain) <= round.head || (!round.logsOk && last <= round.head)
    ensures round.head < ConfirmationDepth(chain) && round.logsOk ==>
      Fetched(last, ConfirmationDepth(chain), round).value ==
        if last == 0 && round.head + 1 == ConfirmationDepth(chain) then TwoTo64 - 1 else last + SyncBlockPeriod
  {
    if ConfirmationDepth(chain) <= round.head { FetchedRange(last, ConfirmationDepth(chain), round); }
  }

  /** At head 3 a new chain of depth 8 is read up to block 1000. */
  lemma FetchesBeyondHead()
    ensures Fetched(0, ConfirmationDepth("eth"), Head(3, true, true, true)) == Some(1000)
  {
  }

  /** On a chain of depth 8, a head at 8 confirms block 0 and no more. */
  lemma HeadAtDepth(chain: string)
    requires chain in {"eth", "optimism", "base", "sepolia"}
    ensures Fetched(0, ConfirmationDepth(chain), Head(8, true, true, true)) == Some(0)
  {
  }

  /** A round makes progress exactly when the head is known and not behind the cursor, and its
      logs come at once, or on the retry of a range of more than two blocks. */
  lemma ProgressExactly(c: Cursor, depth: Block, round: Round)
    requires SaneRound(depth, round) && c.running
    ensures AfterRound(c, depth, round) != c <==>
      && round.Head? && c.last <= round.head - depth
      && (round.logsOk || (round.retryOk && round.head - depth >= c.last + 2))
  {
    if Fetched(c.last, depth, round).Some? {
      FetchedRange(c.last, depth, round);
      assert |AfterRound(c, depth, round).scans| == |c.scans| + 1;
    }
  }

  // ---- runs ----

  /** The kept scans, in order, are consecutive ranges from lo up to hi. */
  ghost predicate Consecutive(scans: seq<Scan>, lo: int, hi: int) {
    if scans == [] then lo == hi
    else
      var before, s := scans[..|scans| - 1], scans[|scans| - 1];
      if s.kept then s.lo <= s.hi && s.hi + 1 == hi && Consecutive(before, lo, s.lo)
      else Consecutive(before, lo, hi)
  }

  function Covers(s: Scan, b: int): nat { if s.lo <= b <= s.hi then 1 else 0 }

  /** How often a block was handled; with kept, only by scans whose cursor was stored. */
  function Handled(scans: seq<Scan>, b: int): nat {
    if scans == [] then 0 else Handled(scans[..|scans| - 1], b) + Covers(scans[|scans| - 1], b)
  }

  function HandledUnstored(scans: seq<Scan>, b: int): nat {
    if scans == [] then 0
    else
      var s := scans[|scans| - 1];
      HandledUnstored(scans[..|scans| - 1], b) + if s.kept then 0 else Covers(s, b)
  }

  lemma {:induction false} ConsecutiveHandlesOnce(scans: seq<Scan>, lo: int, hi: int, b: int)
    requires Consecutive(scans, lo, hi)
    ensures lo <= hi
    ensures Handled(scans, b) == (if lo <= b < hi then 1 else 0) + HandledUnstored(scans, b)
  {
    if scans != [] {
      var s := scans[|scans| - 1];
      ConsecutiveHandlesOnce(scans[..|scans| - 1], lo, if s.kept then s.lo else hi, b);
    }
  }

  /** Starts and rounds in any order. */
  datatype Event = Start | Try(round: Round)

  function After(c: Cursor, depth: Block, events: seq<Event>): Cursor {
    if events == [] then c
    else
      var before := After(c, depth, events[..|events| - 1]);
      match events[|events| - 1]
      case Start => Restarted(before)
      case Try(round) => AfterRound(before, depth, round)
  }

  ghost predicate Sane(depth: Block, events: seq<Event>) {
    forall i :: 0 <= i < |events| && events[i].Try? ==> SaneRound(depth, events[i].round)
  }

  ghost predicate CursorInvariant(c: Cursor, initial: Block) {
    && Consecutive(c.scans, initial, c.stored)
    && (c.running ==> c.last == c.stored)
  }

  lemma {:induction false} CursorInvariantHolds(c: Cursor, depth: Block, events: seq<Event>, initial: Block)
    requires CursorInvariant(c, initial) && Sane(depth, events)
    ensures CursorInvariant(After(c, depth, events), initial)
  {
    if events != [] {
      var n := |events| - 1;
      CursorInvariantHolds(c, depth, events[..n], initial);
      var before := After(c, depth, events[..n]);
      if events[n].Try? {
        FetchedRange(before.last, depth, events[n].round);
        var after := After(c, depth, events);
        if after.scans != before.scans { assert after.scans[..|before.scans|] == before.scans; }
      }
    }
  }

  /** In any run of starts, heads and failures each block from the initial cursor to the stored
      one is handled exactly once by a round that stored its cursor, and otherwise only by
      rounds that failed to store theirs; so every block below the stored cursor is handled. */
  lemma BlocksHandledExactly(initial: Block, depth: Block, events: seq<Event>, b: int)
    requires Sane(depth, events)
    ensures var c := After(Cursor(initial, initial, false, []), depth, events);
      && initial <= c.stored
      && Handled(c.scans, b) == (if initial <= b < c.stored then 1 else 0) + HandledUnstored(c.scans, b)
  {
    CursorInvariantHolds(Cursor(initial, initial, false, []), depth, events, initial);
    ConsecutiveHandlesOnce(After(Cursor(initial, initial, false, []), depth, events).scans, initial,
                           After(Cursor(initial, initial, false, []), depth, events).stored, b);
  }

  /** A round whose cursor update succeeds changes nothing or appends the next range. */
  lemma RoundAppends(c: Cursor, depth: Block, round: Round)
    requires c.running && SaneRound(depth, round) && (round.Head? ==> round.storeOk)
    ensures var c' := AfterRound(c, depth, round);
      c' == c || (round.Head? && c'.running && c'.last > c.last && c'.scans == c.scans + [Scan(c.last, c'.last - 1, true, round.head)])
  {
    FetchedRange(c.last, depth, round);
  }

  ghost predicate Contiguous(c: Cursor, start: Block, b: int) {
    c.running && Consecutive(c.scans, start, c.last) && HandledUnstored(c.scans, b) == 0
  }

  lemma ContiguousGrows(c: Cursor, c': Cursor, start: Block, b: int, head: Block)
    requires Contiguous(c, start, b)
    requires c'.running && c'.last > c.last && c'.scans == c.scans + [Scan(c.last, c'.last - 1, true, head)]
    ensures Contiguous(c', start, b)
  {
    assert c'.scans[..|c.scans|] == c.scans;
  }

  ghost predicate AllStored(depth: Block, rounds: seq<Round>) {
    forall i :: 0 <= i < |rounds| ==> SaneRound(depth, rounds[i]) && (rounds[i].Head? ==> rounds[i].storeOk)
  }

  lemma {:induction false} StaysContiguous(c: Cursor, depth: Block, rounds: seq<Round>, b: int)
    requires c.running && c.scans == [] && AllStored(depth, rounds)
    ensures Contiguous(AfterRounds(c, depth, rounds), c.last, b)
  {
    if rounds != [] {
      var n := |rounds| - 1;
      StaysContiguous(c, depth, rounds[..n], b);
      RoundKeepsContiguous(AfterRounds(c, depth, rounds[..n]), depth, rounds[n], c.last, b);
    }
  }

  lemma RoundKeepsContiguous(c: Cursor, depth: Block, round: Round, start: Block, b: int)
    requires Contiguous(c, start, b) && SaneRound(depth, round) && (round.Head? ==> round.storeOk)
    ensures Contiguous(AfterRound(c, depth, round), start, b)
  {
    RoundAppends(c, depth, round);
    var c' := AfterRound(c, depth, round);
    if c' != c { ContiguousGrows(c, c', start, b, round.head); }
  }

  /** While every cursor update succeeds, the scanned ranges are exactly the blocks from the
      initial cursor to the current one, with no gap and no repeat. */
  lemma NoGapNoRepeat(c: Cursor, depth: Block, rounds: seq<Round>, b: int)
    requires c.running && c.scans == [] && AllStored(depth, rounds)
    ensures var c' := AfterRounds(c, depth, rounds);
      && Consecutive(c'.scans, c.last, c'.last)
      && Handled(c'.scans, b) == (if c.last <= b < c'.last then 1 else 0)
  {
    StaysContiguous(c, depth, rounds, b);
    ConsecutiveHandlesOnce(AfterRounds(c, depth, rounds).scans, c.last, AfterRounds(c, depth, rounds).last, b);
  }

  // ---- whether the blocks existed ----

  /** Every block was at or below the head when it was handled. */
  ghost predicate Existed(scans: seq<Scan>) {
    forall i :: 0 <= i < |scans| ==> scans[i].hi <= scans[i].head
  }

  /** A round that fetches has a head of at least the depth, or falls back to a block the head
      has reached. */
  predicate StaysInHead(last: Block, depth: Block, round: Round) {
    Fetched(last, depth, round).Some? ==> depth <= round.head || (!round.logsOk && last <= round.head)
  }

  ghost predicate AllInHead(c: Cursor, depth: Block, events: seq<Event>) {
    events == [] ||
    var before, e := After(c, depth, events[..|events| - 1]), events[|events| - 1];
    && AllInHead(c, depth, events[..|events| - 1])
    && (e.Try? && before.running ==> StaysInHead(before.last, depth, e.round))
  }

  /** Heads and cursors fit the 64-bit signed column. */
  ghost predicate AllInRange(c: Cursor, depth: Block, events: seq<Event>) {
    events == [] ||
    var before, e := After(c, depth, events[..|events| - 1]), events[|events| - 1];
    && AllInRange(c, depth, events[..|events| - 1])
    && (e.Try? && e.round.Head? ==> e.round.head <= MaxInt64 && before.last <= MaxInt64)
  }

  lemma OneRoundExisted(chain: string, c: Cursor, round: Round)
    requires c.running && (round.Head? ==> round.head <= MaxInt64 && c.last <= MaxInt64)
    ensures var depth := ConfirmationDepth(chain);
      Existed(AfterRound(c, depth, round).scans) <==> Existed(c.scans) && StaysInHead(c.last, depth, round)
  {
    var depth := ConfirmationDepth(chain);
    var c' := AfterRound(c, depth, round);
    if Fetched(c.last, depth, round).Some? {
      WithinHeadExactly(chain, c.last, round);
      assert c'.scans[|c.scans|].hi <= c'.scans[|c.scans|].head <==> StaysInHead(c.last, depth, round);
      assert forall i :: 0 <= i < |c.scans| ==> c'.scans[i] == c.scans[i];
    }
  }

  /** In any run every block that counts as handled existed at the time exactly when every round
      that fetched stayed in the head. */
  lemma {:induction false} ExistedExactly(chain: string, initial: Block, events: seq<Event>)
    requires AllInRange(Cursor(initial, initial, false, []), ConfirmationDepth(chain), events)
    ensures var c, depth := Cursor(initial, initial, false, []), ConfirmationDepth(chain);
      Existed(After(c, depth, events).scans) <==> AllInHead(c, depth, events)
  {
    var c, depth := Cursor(initial, initial, false, []), ConfirmationDepth(chain);
    if events != [] {
      var n := |events| - 1;
      ExistedExactly(chain, initial, events[..n]);
      var before := After(c, depth, events[..n]);
      if events[n].Try? && before.running {
        OneRoundExisted(chain, before, events[n].round);
      }
    }
  }

  /** On a new chain of depth 8 with head 3 the cursor passes 997 blocks that do not exist yet. */
  lemma PassesMissingBlocks()
    ensures var c := After(Cursor(0, 0, false, []), ConfirmationDepth("eth"), [Start, Try(Head(3, true, true, true))]);
      c.stored == 1001 && c.scans == [Scan(0, 1000, true, 3)] && !Existed(c.scans)
  {
    var e := Try(Head(3, true, true, true));
    assert [Start][..0] == [] && [Start, e][..1] == [Start];
    assert After(Cursor(0, 0, false, []), 8, [Start]) == Cursor(0, 0, true, []);
    assert After(Cursor(0, 0, false, []), 8, [Start, e]) == Cursor(1001, 1001, true, [Scan(0, 1000, true, 3)]);
    assert [Scan(0, 1000, true, 3)][0].hi > 3;
  }

  /** A round that does not store its cursor, a restart and another round handle block 0 twice. */
  lemma HandledTwice()
    ensures var a, b := Try(Head(10, true, true, false)), Try(Head(10, true, true, true));
      Handled(After(Cursor(0, 0, false, []), 8, [Start, a, Start, b]).scans, 0) == 2
  {
    var a, b := Try(Head(10, true, true, false)), Try(Head(10, true, true, true));
    var c, s, t := Cursor(0, 0, false, []), Scan(0, 2, false, 10), Scan(0, 2, true, 10);
    assert [Start][..0] == [] && [Start, a][..1] == [Start];
    assert [Start, a, Start][..2] == [Start, a] && [Start, a, Start, b][..3] == [Start, a, Start];
    assert After(c, 8, [Start]) == Cursor(0, 0, true, []);
    assert After(c, 8, [Start, a]) == Cursor(3, 0, false, [s]);
    assert After(c, 8, [Start, a, Start]) == Cursor(0, 0, true, [s]);
    assert After(c, 8, [Start, a, Start, b]).scans == [s, t];
    assert [s, t][..1] == [s] && [s][..0] == [];
    assert Handled([s], 0) == 1;
  }
}
