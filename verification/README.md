# EasySwap order book: models and proofs

This project models, in Dafny, the parts of the EasySwap marketplace that keep state over
time or rest on an argument that no single function shows:

- the floor-price cache: a bounded price queue kept in step with the order and item tables;
- the expiry queue: a time wheel of linked lists that expires orders;
- the assignment of bids to the tokens a seller asks for;
- the order-book indexer: its block cursor, and the order rows it keeps from chain logs;
- smaller cores: digit grouping, two address checksums that must agree, the session cipher,
  and page by page table scans.

`dafny verify dfyconfig.toml` checks everything.

## How the model is laid out

| files | what they hold |
|---|---|
| `Common`, `Sorting`, `Text`, `Division` | shared definitions, sorted permutations and stable sorting, ASCII characters, facts about whole division |
| `PriorityQueue`, `QueueLaws`, `TopK` | the queue as a value and as the mutable object, what every operation keeps, what unguarded adding keeps |
| `FloorPrice`, `FloorProcess` | tables and event steps, and the event loop on its mutable state |
| `FloorInvariant`, `FloorListing`, `FloorTransfer`, `FloorStray`, `FloorSales`, `FloorRuns` | the invariant; what a listing, a sale or transfer, one that leaves orders behind, and an unannounced sale do to it; every run |
| `FloorStartup`, `FloorCancels` | the start-up load, and what becomes of a load that does not fit |
| `TimeWheel`, `WheelConservation`, `WheelOrigins`, `ExpiryQueue`, `ExpiryStartup`, `ExpiryEvents` | the wheel as a value, conservation, what the orders in it carry, the linked lists in memory, what feeds the wheel, what the cache makes of its events |
| `BidBook`, `BidOffers`, `BidStructure`, `OfferedOrders`, `BidOptimality`, `OrderInfos` | best bids and unit expansion, the greedy assignment, its shape, the orders behind the offers, its optimality, the whole request |
| `BlockCursor`, `OrderLedger`, `OrderReplay` | the indexer's cursor, the order rows against the order book contract, logs handled twice |
| `NumberFormat`, `Checksum`, `SessionCipher`, `KeysetScan` | the smaller cores |

Where the original changes state step by step there is a class or a method with a loop, and
its contract equates the result with a function on values. The properties are lemmas about
those functions, over all runs.

## Choices

- Prices are decimals in the original and reals here. Nothing modelled divides or rounds them.
- `sort.Sort` is not stable: the queue takes any function that returns a sorted permutation.
  `sort.SliceStable` is a stable insertion sort.
- SQL text columns compare without regard to letter case, as the tables' collation does; case
  folding is ASCII. The tables are partitioned by collection. A query whose order leaves ties
  open answers with any rows its text allows (`CheapestOf`).
- The tables change together with the event that announces the change, with one exception: a sale
  whose buy order has no row fills the sold order and is announced to no one
  (orderbookindexer/service.go:424-443). Store calls succeed.
  A new sell order makes its maker the recorded owner of the token
  (orderbookindexer/service.go:1425-1446); a bid does so only for a token without an item row.
- The wheel has any positive number of slots; the original's is 3600 (service.go:24). Add and
  Tick are atomic. A slot's head is written once, when the walk over its list is done.
- Block numbers are 64-bit unsigned with wrap-around written out. Order quantities go through
  the original's 64-bit signed conversion.
- A Go panic on an index or slice is a result of its own (`Panic`, `Panicked`, `panicked`). The
  hash and the block cipher are arbitrary functions.

## What the proofs found out about the code

Each failure has a lemma that says exactly when it occurs, but for one case: for orders left behind
by a transfer (`StraysExact`) whose price another order ties with, the condition is only sufficient. Where a failure is not plain to see, a
second lemma shows it at a concrete input.

- The queue holds up to `maxLen + 1` orders: the length test is `>` and comes before the insertion
  (queue.go:47). The start-up load adds without the guard that events apply. Its floor is always
  right, but its queue is a cheapest part of the listings exactly when at most 100 earlier rows
  are cheaper than the last row (`LoadExact`); otherwise some run of cancellations makes the
  cached price wrong (`StartupExact`, `LoadOf102Unfit`).
- A sell order by someone other than the recorded owner ends the validity of the old owner's
  orders on the token, and begins that of the maker's older ones, but the queue hears only of the new
  order. `ListingExact` says when that is harmless, `NewOwnerBreaks` shows it going wrong.
- The listing loop announces every new order, bids included, as a Listing. `ListingPriceExact`
  says when the cached price survives that; `BidBecomesFloor` shows a bid becoming the floor price.
- After a sale or transfer, the recipient's orders beyond the hundredth, and all of them on a banned
  token, are never offered to the queue. `TransferExact` says when that is harmless,
  `BannedBreaks` shows it going wrong.
- Only the sender's orders on the token leave the queue. If the token's recorded owner is someone else,
  that owner's orders stay queued. When the owner is the recipient they are offered a second time, and
  one of them is then queued twice, unless the token is banned or none is cheaper than the queue's
  maximum (`OwnerStaysExact`). Otherwise they are no longer valid, and are gone only if cheaper orders
  push all of them out (`StraysExact`, `StrayOrderStays`).
- A purchase whose buy order was never made on chain, the ordinary one, fills the sold order without
  an event. The queue stays exact only if that order was not queued (`SilentSaleExact`), the cached
  price only if another valid listing costs the same or the last one was free (`SilentPriceExact`,
  `SilentSaleBreaks`). A later update of the collection with the true floor sets the price right, whatever is
  queued (`UpdateRecovers`).
- A newly imported collection starts with an empty queue and no reload. That is exact only when
  it has no valid listing (`EmptyIsCheapestPart`, `ZeroIsFloor`).
- The wheel's revolution count lets an order fire a whole revolution early when its delay is at
  least one revolution and the index plus the delay's remainder does not wrap (`FireTickExact`,
  `FiresRevolutionEarly`). The clock is read twice per order; if it passes the expiry in between, the order
  fires a whole revolution late (`QueuedFiresOnTime`, `FiresRevolutionLate`). If it passes it by more
  than the index, the slot index is negative and the insertion panics, or the order never fires, when
  the sum is a whole number of revolutions (`FiresExactlyOnce`). At start-up such a panic leaves every
  past order as it was and the wheel without ticks (`LoadOrdersToQueue`). A past row without an order
  id ends the announcements with an error after all ids have been set to expired.
- `processBids` serves a token asked for twice twice (`NoTokenTwiceExactly`, `TokenServedTwice`).
- With a chain head below the confirmation depth the subtraction wraps around and the indexer
  asks for a full batch beyond the head; with the cursor at 0 and the head one short of the depth, for
  every block up to the largest number (`WithinHeadExactly`, `FetchesBeyondHead`). A comment at
  `SyncBlockPeriod` (orderbookindexer/service.go:40) speaks of 8 blocks; the constant is 1000, and a
  round takes up to 1001. The cursor then passes blocks that do not exist yet, which are never read
  (`ExistedExactly`, `PassesMissingBlocks`).
- A round that handles its logs but fails to store the cursor is handled again after a restart
  (`BlocksHandledExactly`, `HandledTwice`). That is harmless to the order rows exactly when, of the orders
  it matched, each sold one is still filled in the end, and each bid has no units left and is not active
  (`ReplayExact`, `DoneInUnits`, `ReplayTakesSecondUnit`).
- A buyer who accepts a listing with a stored bid for several units loses the whole bid: the contract
  takes it out (NFTMarket-contract/src/EasySwapOrderBook.sol:464-476), while its row goes on offering the units left
  (`QuantityExact`, `BidLeftBehind`).
- An order for 2^63 units or more is stored with another size, often a negative one (`Int64Exact`,
  `SizeWraps`).
- Decryption of a session checks only the last padding byte (`AcceptedExactly`, `AcceptsUnpadded`).
- `UnifyAddress` refuses the prefix `0X` although the address test lets it through
  (`UpperPrefixRefused`). Its mismatch branch would return an empty address without an error, but is
  never taken (`UnifyExact`).

## Model

| member | source | states |
|---|---|---|
| PriorityQueue.PriorityQueueMap.Add | EasySwapBase/ordermanager/queue.go:46-56 | drops the dearest entry and its index when the slice is longer than maxLen, then inserts in price order; the new state is `Queue.Add` of the old |
| PriorityQueue.PriorityQueueMap.Remove | EasySwapBase/ordermanager/queue.go:74-89 | an indexed id leaves slice and index, an unknown id changes nothing; the rest keeps its order |
| PriorityQueue.PriorityQueueMap.RemoveMakerOrders | EasySwapBase/ordermanager/queue.go:91-105 | exactly the entries of that maker on that token leave slice and index, letter case ignored |
| PriorityQueue.PriorityQueueMap.GetMin | EasySwapBase/ordermanager/queue.go:58-64 | the first entry's id and price, or "" and 0 |
| PriorityQueue.PriorityQueueMap.GetMax | EasySwapBase/ordermanager/queue.go:66-72 | the last entry's id and price, or "" and 0 |
| QueueLaws.EndsNamed | EasySwapBase/ordermanager/queue.go:58-72 | GetMin and GetMax name the id and price of a cheapest and of a dearest entry, or "" and 0 |
| QueueLaws.AddEntries | EasySwapBase/ordermanager/queue.go:46-56 | whichever way ties sort, the entries after Add are those after the trim plus the new one, sorted, at most maxLen + 1 |
| QueueLaws.RunKeepsIndex | EasySwapBase/ordermanager/queue.go:42-105 | after any operations, ids repeated or not: price-sorted, at most maxLen + 1 long, every indexed order in the slice |
| QueueLaws.RunKeepsAgreement | EasySwapBase/ordermanager/queue.go:42-105 | when no queued id is added again, slice and index hold the same orders once each and Len() is the slice's length |
| QueueLaws.LenExact | EasySwapBase/ordermanager/queue.go:42-44 | Len(), which counts the index, equals the slice's length if and only if slice and index agree |
| TopK.StreamingTopK | EasySwapBase/ordermanager/queue.go:46-56 | after any stream of adds the queue has min(n, maxLen + 1) entries: the newest, and others none dearer than anything evicted |
| TopK.FillFindsMinimum | EasySwapBase/ordermanager/queue.go:46-64 | with maxLen >= 1 the queue's minimum is the least price ever added |
| TopK.LoadKeepsCheapestExactly | EasySwapBase/ordermanager/floorprice.go:281-289 | nothing evicted is cheaper than anything kept if and only if at most maxLen earlier orders are cheaper than the last |
| FloorProcess.CollectionTradeInfo.Handle | EasySwapBase/ordermanager/floorprice.go:103-234 | each arm of the event switch on the mutable record gives `StepInfo`; a reload replaces the queue object |
| FloorProcess.CollectionTradeInfo.ReloadOrders | EasySwapBase/ordermanager/floorprice.go:387-410 | a fresh queue with the queried orders added in turn |
| FloorProcess.CollectionTradeInfo.CheckAndUpdateFloorPrice | EasySwapBase/ordermanager/floorprice.go:321-348 | the cached price becomes the queue's minimum, the queue stays |
| FloorProcess.CollectionTradeInfo.OfferUserOrders | EasySwapBase/ordermanager/floorprice.go:167-175 | the recipient's orders are added where not banned and cheaper than the current maximum |
| FloorProcess.OrderManager.ProcessEvent | EasySwapBase/ordermanager/floorprice.go:91-234 | one event changes its own collection by `StepInfo`, or imports it, and leaves every other collection alone |
| FloorProcess.OrderManager.LoadCollectionTradeInfo | EasySwapBase/ordermanager/floorprice.go:238-304 | tracks every collection and routes each row to its own collection's queue, skipping untracked ones; each record ends as `LoadInfo` of its own rows |
| FloorInvariant.CheapestPartGivesFloor | EasySwapBase/ordermanager/floorprice.go:321-348 | when the queue is a cheapest part of the valid listings, its minimum is their least price, or 0 if there are none |
| FloorInvariant.ReloadGivesCheapestPart | EasySwapBase/ordermanager/floorprice.go:365-410 | a reload from the 100 cheapest valid listings yields a cheapest part, whichever way the query breaks ties |
| FloorListing.ListingCommit | NFTMarket-sync/service/orderbookindexer/service.go:293-327 | which orders are valid once a new order is recorded: a sell order hands the token to its maker |
| FloorListing.ListingExact | EasySwapBase/ordermanager/floorprice.go:105-117 | a Listing keeps the invariant if and only if the order, if admitted, is listable, the queue keeps no order of an earlier owner of the token, and no order that turns valid is cheaper than anything then queued |
| FloorListing.ListingPriceExact | EasySwapBase/ordermanager/floorprice.go:105-117 | while the owner stays, as with every bid, the cached price is right if and only if the order is listable, is not admitted, or the queue holds an order no dearer |
| FloorListing.NewOwnerPriceExact | EasySwapBase/ordermanager/floorprice.go:105-117 | when the token changes hands, the cached price is right if and only if no order that turns valid is cheaper and some valid order costs just that, or none is left and it is 0 |
| FloorInvariant.RetireKeeps | EasySwapBase/ordermanager/floorprice.go:119-131 | removing an order that stops being active keeps the queue a cheapest part apart from emptiness, and only that order stops being valid |
| FloorTransfer.OwnerChangeKeeps | EasySwapBase/ordermanager/floorprice.go:155-157 | after an owner change and the removal of the sender's orders, only the recipient's valid orders on the token are unaccounted for |
| FloorTransfer.OfferThreshold | EasySwapBase/ordermanager/floorprice.go:167-175 | offering orders up to a price, or below it, leaves an entry beyond it queued if and only if the queue's own entries on the near side and the offers do not fill it |
| FloorTransfer.TransferKeeps | EasySwapBase/ordermanager/floorprice.go:145-186 | the Buy and Transfer arm restores the invariant when the recipient's orders fit one query and the token is not banned |
| FloorTransfer.TransferExact | EasySwapBase/ordermanager/floorprice.go:145-186 | the arm, reloads included, restores the invariant if and only if the sender's orders were all that was queued, or no skipped order is cheaper than the dearest entry left, on a banned token, or the cheapest, otherwise |
| FloorTransfer.StrayOrderStays | EasySwapBase/ordermanager/floorprice.go:155-175 | an order queued on the token for someone who is neither sender nor recipient stays queued and breaks the invariant, when the recipient has no orders there |
| FloorStray.OwnerStaysExact | EasySwapBase/ordermanager/floorprice.go:145-186 | when the queued orders on the token are those of the recipient, who owns it already, the arm keeps the invariant if and only if the token is banned or none of them is cheaper than the queue's maximum |
| FloorStray.StraysExact | EasySwapBase/ordermanager/floorprice.go:145-186 | when they are a third party's, it does if the token is not banned, the entries and offers cheaper than the cheapest of them number more than 100, and no skipped order is cheaper than the queue's cheapest entry; when no price is tied, only if |
| FloorStray.ArmExact | EasySwapBase/ordermanager/floorprice.go:145-186 | whoever's orders are queued on the token, the condition under which the arm keeps the invariant, exact unless a tie decides |
| FloorSales.SilentSaleExact | NFTMarket-sync/service/orderbookindexer/service.go:424-443 | a sale that is not announced leaves the queue a cheapest part if and only if the sold order is not queued |
| FloorSales.SilentPriceExact | NFTMarket-sync/service/orderbookindexer/service.go:424-443 | the cached price stays right if and only if the sold order was not valid, another valid order costs the floor, or it was the only one and free |
| FloorSales.UpdateExact | EasySwapBase/ordermanager/floorprice.go:210-229 | from any queue whose minimum is the cached price, an update leaves the price right if and only if it names another price than the minimum, or the minimum is right |
| FloorSales.UpdateRecovers | EasySwapBase/ordermanager/floorprice.go:210-229 | an update with the true floor leaves the cached price right |
| FloorInvariant.EmptyIsCheapestPart | EasySwapBase/ordermanager/floorprice.go:196-208 | the empty queue of a new import is exact if and only if the tables hold no valid listing |
| FloorInvariant.ZeroIsFloor | EasySwapBase/ordermanager/floorprice.go:204-208 | the price 0 of a new import is right if and only if there is no valid listing or one that costs nothing |
| FloorRuns.StepExact | EasySwapBase/ordermanager/floorprice.go:91-234 | an event, or a sale without one, on any collection keeps every tracked collection's invariant and cached price exact if it fits its collection's queue, and, unless a tie decides, only if |
| FloorRuns.RunExact | EasySwapBase/ordermanager/floorprice.go:58-235 | the invariant holds after every event and every unannounced sale of a run if all of them fit, and, unless a tie decides, only if |
| FloorRuns.FloorAlwaysExact | EasySwapBase/ordermanager/floorprice.go:58-235 | over every run of events and unannounced sales that fit, each tracked collection's cached price is the least price over its valid active listings, or 0 |
| FloorStartup.LoadExact | EasySwapBase/ordermanager/floorprice.go:281-301 | the start-up price is always the true floor; the queue is a cheapest part if and only if few earlier rows are cheaper than the last, so for up to 101 rows |
| FloorStartup.FloorExactFromStartup | EasySwapBase/ordermanager/floorprice.go:58-301 | from start-up loads in which few earlier rows are cheaper than the last, every run of fitting events and sales keeps every cached price the true floor |
| FloorCancels.StartupExact | EasySwapBase/ordermanager/floorprice.go:58-301 | every run of fitting events and sales from a start-up load keeps all cached prices right if and only if every load is such |
| FloorStartup.BidBecomesFloor | EasySwapBase/ordermanager/service.go:148-156 | a bid announced as a Listing to a collection without listings makes the cached price wrong |
| TimeWheel.AddMeansFireTick | EasySwapBase/ordermanager/expiredorder.go:171-183 | the slot and counter that Add computes make the ticks to wait exactly `FireTick` |
| TimeWheel.AddAsComputed | EasySwapBase/ordermanager/expiredorder.go:171-194 | a delay is accepted if and only if Go's remainder of index plus delay is not negative; slot and counter are then that remainder, and the quotient less one if positive |
| TimeWheel.FireTickExact | EasySwapBase/ordermanager/expiredorder.go:171-183 | with a delay >= 0 never late and at most a revolution early; on time if and only if the delay is below a revolution or index plus remainder wraps; a revolution late for a negative delay |
| TimeWheel.FiresExactlyOnce | EasySwapBase/ordermanager/expiredorder.go:37-78 | whatever is added and ticked afterwards, an order fires on exactly one tick, the one `FireTick` names; never, if its index plus delay is a negative whole number of revolutions |
| TimeWheel.CountersStayPositive | EasySwapBase/ordermanager/expiredorder.go:72-76 | no counter falls below 0 while no order is added before the start of the wheel |
| WheelConservation.WheelConserves | EasySwapBase/ordermanager/expiredorder.go:37-78 | over any run and for each order, times held plus times fired equals times held before plus times added; every order sits in the slot it names |
| WheelConservation.QuantityConserved | EasySwapBase/ordermanager/expiredorder.go:207-218 | the slot quantities sum to what was there plus adds minus fires |
| WheelOrigins.OriginsConserved | EasySwapBase/ordermanager/expiredorder.go:37-78 | over any run the pairs of order id and collection address held and fired are those held before and added, each as often |
| WheelOrigins.FiresWithAddress | EasySwapBase/ordermanager/expiredorder.go:54-62 | the one firing of an order is on the tick `FireTick` names and carries the collection address it was added with |
| ExpiryQueue.ExpiryQueue.Add | EasySwapBase/ordermanager/expiredorder.go:166-205 | links a new node in front of its slot's list, and the lists hold `Wheel.Add`; or panics and changes nothing, exactly when Go's remainder is negative |
| ExpiryQueue.ExpiryQueue.Tick | EasySwapBase/ordermanager/expiredorder.go:37-78 | fires the due orders of one slot and advances the index; every other slot's list is unchanged, and the new lists hold `Wheel.Tick` |
| ExpiryQueue.Sweep | EasySwapBase/ordermanager/expiredorder.go:48-78 | in place: unlinks exactly the nodes whose counter is 0, counts the others down by one and keeps their order; the walk ends |
| ExpiryQueue.ExpiryQueue.Quantity | EasySwapBase/ordermanager/expiredorder.go:208-218 | the number of orders in a slot |
| ExpiryStartup.LoadOrdersToQueue | EasySwapBase/ordermanager/expiredorder.go:89-155 | the ids set to expired, batch after batch, and the events sent are those of the past rows, and every other row is added to the wheel; events end with an error at the first past row without an order id; after the first row that panics nothing more happens |
| ExpiryStartup.ListenNewListing | EasySwapBase/ordermanager/service.go:124-169 | a listing without an id is refused; one already past is announced as expired; any other is announced as listed, unless it is free, and added to the wheel, unless that panics |
| ExpiryStartup.PastIdsExact | EasySwapBase/ordermanager/expiredorder.go:115-128 | an id is expired if and only if its row's expiry is before the first clock reading, and no id twice |
| ExpiryStartup.PastRowsExact | EasySwapBase/ordermanager/expiredorder.go:113-117 | the rows that events are sent for are those with the expired ids, in the same order |
| ExpiryStartup.QueueableExact | EasySwapBase/ordermanager/expiredorder.go:115-123 | handling a row panics if and only if its expiry is not before the first reading and Go's remainder of index plus expiry less second reading is negative |
| ExpiryStartup.LoadedFires | EasySwapBase/ordermanager/expiredorder.go:114-128 | after any load a row whose order is loaded once never fires if its expiry is before the first reading, and else fires once, with its address, on the tick `FireTick` names for its expiry less the second reading |
| ExpiryStartup.ExpiredOrQueued | EasySwapBase/ordermanager/expiredorder.go:115-128 | each loaded order is expired or put in the wheel, as often as it was loaded |
| ExpiryStartup.QueuedFiresOnTime | EasySwapBase/ordermanager/expiredorder.go:118-123 | a queued order fires at its expiry if and only if the second clock reading is not past it and the revolutions come out exact; past it, a revolution late |
| ExpiryEvents.ExpiredEventDrops | EasySwapBase/ordermanager/expiredorder.go:222-237 | the event of an expired order removes that order from the queue of its collection, letter case ignored, and touches no other collection |
| ExpiryEvents.FiredOrdersLeave | EasySwapBase/ordermanager/expiredorder.go:54-62 | once the events of all orders a tick fired are handled, none of them is queued in its collection |
| ExpiryEvents.ListingEvents | EasySwapBase/ordermanager/service.go:130-156 | a listing's expiry event removes its order; its Listing event adds an entry with its id, price, maker and token if the queue admits the price |
| BidBook.FoldBestBids | NFTMarket-backend/src/service/v1/order.go:28-38 | each token that has bids maps to the first of its dearest bids |
| BidBook.TopNBid | NFTMarket-backend/src/dao/items.go:457-467 | each row repeated by its remaining quantity, cut to num units |
| BidBook.TopNIsWholeBook | NFTMarket-backend/src/dao/items.go:429-467 | reading only the first num rows gives the same units as expanding the whole book |
| BidBook.TopNUnits | NFTMarket-backend/src/dao/items.go:429-467 | the units number min(num, total), never rise in price, and use each order at most its remaining quantity |
| BidOffers.ProcessBids | NFTMarket-backend/src/service/v1/order.go:48-139 | the three loops compute `Process` for any order in which the map is ranged over |
| Sorting.StableSortIsStable | NFTMarket-backend/src/service/v1/order.go:54-57 | bids of equal price keep their order |
| OfferedOrders.OffersRepeatBids | NFTMarket-backend/src/service/v1/order.go:59-138 | any request: each offer repeats the id, maker, times, price, salt, size, remaining quantity and marketplace of the unit or item bid behind it; its type is 0 for a collection bid and 1 for an item bid |
| OfferedOrders.ServedInTurn | NFTMarket-backend/src/service/v1/order.go:61-83 | a token without a bid that has k such tokens before it gets unit k, or nothing if there are not so many units |
| OfferedOrders.NoOrderOverused | NFTMarket-backend/src/service/v1/order.go:59-138 | the offers name a collection order at most as often as it has units, and an item bid at most once |
| BidStructure.OffersStructure | NFTMarket-backend/src/service/v1/order.go:59-138 | no token twice; every token with a bid gets one offer, never below it; units go out in order, each once, none after the first kept item bid |
| BidStructure.ReplaceSplits | NFTMarket-backend/src/service/v1/order.go:85-136 | a leading run of the cheapest item bids is replaced by dearer units; no later one is beaten by the next unit |
| BidStructure.TokensAreOffered | NFTMarket-backend/src/service/v1/order.go:61-136 | the tokens of the offers, repeated or not, are the served tokens without a bid and then the tokens of the sorted item bids |
| BidStructure.NoTokenTwiceExactly | NFTMarket-backend/src/service/v1/order.go:61-83 | whatever tokens are asked for, no token gets two offers if and only if the served tokens without a bid differ |
| BidOptimality.ProcessIsOptimal | NFTMarket-backend/src/service/v1/order.go:48-139 | no assignment of own bids and units, one a token and each unit once, is worth more than the offers |
| BidOptimality.OffersAreAssignment | NFTMarket-backend/src/service/v1/order.go:48-139 | the offers are themselves such an assignment, of best bids, with the same total |
| BidOptimality.TotalIgnoresMapOrder | NFTMarket-backend/src/service/v1/order.go:50-52 | the total does not depend on the order in which the map is ranged over |
| OrderInfos.ProcessCut | NFTMarket-backend/src/service/v1/order.go:40-45 | units beyond the number of tokens change nothing |
| OrderInfos.OffersBeatBook | NFTMarket-backend/src/service/v1/order.go:28-45 | the offers are worth at least any assignment drawn from all item bids and the whole collection book |
| OrderInfos.OffersFromBook | NFTMarket-backend/src/service/v1/order.go:28-45 | the offers are an assignment drawn from those bids |
| OrderInfos.WithinQuantity | NFTMarket-backend/src/service/v1/order.go:28-45 | no order of the book or on an item stands behind more offers than its remaining quantity |
| OrderInfos.GetOrderInfos | NFTMarket-backend/src/service/v1/order.go:28-45 | fold, expansion and assignment together, for any request; when each token is asked for once, the offers total the maximum over all assignments from all bids; when each order has its own id, none is offered beyond its remaining quantity |
| BlockCursor.Indexer.SyncOrderBookEventLoop | NFTMarket-sync/service/orderbookindexer/service.go:117-230 | the loop from its start until the rounds end or it returns computes `AfterRounds` from the stored cursor |
| BlockCursor.Indexer.SyncRound | NFTMarket-sync/service/orderbookindexer/service.go:136-224 | one round: batch choice, fallback to a single block, the three failures |
| BlockCursor.FetchedRange | NFTMarket-sync/service/orderbookindexer/service.go:143-200 | a fetched range starts at the cursor, stays at or below head minus depth, and has 1 to SyncBlockPeriod + 1 blocks |
| BlockCursor.FetchedExactly | NFTMarket-sync/service/orderbookindexer/service.go:143-200 | what a round fetches when the head is at least the depth: up to the lesser of cursor plus 1000 and head less depth, or the cursor's block alone, or nothing |
| BlockCursor.WithinHeadExactly | NFTMarket-sync/service/orderbookindexer/service.go:143-200 | a round that fetches stays at or below the head if and only if the head is at least the depth, or only the block at the cursor is fetched and the head has reached it; how far it goes otherwise |
| BlockCursor.ProgressExactly | NFTMarket-sync/service/orderbookindexer/service.go:136-200 | when exactly a round makes progress |
| BlockCursor.NoGapNoRepeat | NFTMarket-sync/service/orderbookindexer/service.go:127-224 | while cursor updates succeed, the ranges are exactly the blocks from the initial cursor to the current one, each once |
| BlockCursor.BlocksHandledExactly | NFTMarket-sync/service/orderbookindexer/service.go:117-224 | across failures and restarts, each block below the stored cursor is handled once by a round that stored its cursor; any other handling is by rounds that failed to |
| BlockCursor.ExistedExactly | NFTMarket-sync/service/orderbookindexer/service.go:117-224 | over any run and its restarts, every block handled was at or below the head at the time if and only if each fetching round had a head of at least the depth, or fell back to one block that the head had reached |
| OrderLedger.OrderTable.HandleMakeEvent | NFTMarket-sync/service/orderbookindexer/service.go:262-298 | a new id gets an active row of its type and full quantity; a known id changes nothing |
| OrderLedger.OrderTable.HandleMatchEvent | NFTMarket-sync/service/orderbookindexer/service.go:416-513 | the sold order is filled; a stored bid loses one unit, or is filled with its last |
| OrderLedger.MatchRead | NFTMarket-contract/src/EasySwapOrderBook.sol:443-484 | from either kind of match log the contract emits, the handler reads the bid, the sale and the buyer |
| OrderLedger.OrderTable.HandleCancelEvent | NFTMarket-sync/service/orderbookindexer/service.go:576-584 | a stored order is cancelled, its quantity stays |
| OrderLedger.RowsFollowChain | NFTMarket-sync/service/orderbookindexer/service.go:262-298 | over any logs the contract can emit, made and never-made orders in matches included: exactly the made orders have rows, and each row's type, size, remaining quantity, status and taker follow from the order's kind, size, matches, cancellation and buyer on chain |
| OrderLedger.FillsConserved | NFTMarket-sync/service/orderbookindexer/service.go:416-513 | the units gone from the rows of bids, or of listings, are those the matches took one after another: one unit of a bid with a row and units left, all that is left of a listing with a row |
| OrderLedger.FillsAreMatches | NFTMarket-sync/service/orderbookindexer/service.go:416-513 | when every match finds both its orders with units left, the listing for one, units taken from bids, units taken from listings and matches are the same number |
| OrderLedger.QuantityExact | NFTMarket-contract/src/EasySwapOrderBook.sol:421-500 | when exactly a row offers what the contract has left of the order |
| OrderLedger.Int64Exact | NFTMarket-sync/service/orderbookindexer/service.go:288-289 | the stored size is the size on chain if and only if that is below 2^63, and always equal to it modulo 2^64 |
| OrderReplay.ReplayExact | NFTMarket-sync/service/orderbookindexer/service.go:416-513 | a round of logs handled again changes nothing if and only if after it, of the orders it matched and that have rows, every sold one is filled, and every bid has no units left and is not active |
| OrderReplay.DoneInUnits | NFTMarket-sync/service/orderbookindexer/service.go:416-513 | with amounts from 1 to 2^63 - 1 that is: neither order of any match has units left |
| OrderReplay.RepeatExact | NFTMarket-sync/service/orderbookindexer/service.go:446-465 | a single log handled again right away changes nothing, unless it is a match whose stored bid had more than one unit |
| NumberFormat.Group | EasySwapBase/kit/math/math.go:596-609 | the right-to-left fill stays in bounds, ends at position -1 and leaves the grouped digits in the whole buffer |
| NumberFormat.BufferSize | EasySwapBase/kit/math/math.go:596-598 | the computed buffer size is the length of the grouped digits, for any separator length |
| NumberFormat.DigitInFront | EasySwapBase/kit/math/math.go:600-607 | a separator goes before a digit exactly when a positive multiple of three digits follow |
| NumberFormat.UngroupGives | EasySwapBase/kit/math/math.go:600-609 | taking the separators out by position gives the digits back, for any separator |
| NumberFormat.DigitsSurvive | EasySwapBase/kit/math/math.go:600-609 | deleting all but the digits gives the digits back when the separator has none |
| NumberFormat.Format | EasySwapBase/kit/math/math.go:596-616 | sign, grouped digits, and a fraction when places are asked for |
| Checksum.ToCheckSumAddress | EasySwapBase/evm/eip/eip55.go:11-42 | the byte-wise loop yields the EIP-55 form of the lower-cased digits, an error for empty text, odd length or a character that is not hexadecimal, a panic beyond 64 digits |
| Checksum.CheckSumOutcome | EasySwapBase/evm/eip/eip55.go:11-42 | an error for empty text or what is no whole number of hex bytes; of the rest a panic if and only if a digit lies beyond the hash |
| Checksum.ToValidateAddress | NFTMarket-backend/src/common/utils/utils.go:49-73 | the in-place loop over the lower-cased text turns exactly the letters whose hash bit is set to upper case; it panics if a letter lies beyond the hash |
| Checksum.ValidatedOutcome | NFTMarket-backend/src/common/utils/utils.go:49-73 | any text: a panic if and only if a character that is no digit lies beyond the hash; else letters are in upper case exactly where the hash's digit is at least 8, and digits stay |
| Checksum.ImplementationsAgree | NFTMarket-backend/src/common/address.go:16-23 | for any hash, wherever the byte-wise form exists the bit-string one gives the same text, on the address and on the result |
| Checksum.UnifyExact | NFTMarket-backend/src/common/address.go:11-26 | 40 hex digits, bare or after 0x, come back in EIP-55 form, all else is an error, and the mismatch branch is never taken |
| Checksum.CaseFollowsHash | NFTMarket-backend/src/common/address.go:11-26 | the result is the address given but for case, and each letter is in upper case if and only if the hash of the lower-case digits has a digit of at least 8 in its place |
| Checksum.UnifyIdempotent | NFTMarket-backend/src/common/address.go:11-26 | unifying twice is unifying once |
| Checksum.UnifyIgnoresCase | NFTMarket-backend/src/common/address.go:11-26 | the letter case of the digits does not matter |
| SessionCipher.PaddingRoundTrip | NFTMarket-backend/src/common/utils/crypto.go:87-98 | the padded length is the next multiple of the block size strictly above the length, and taking the padding off gives the message back |
| SessionCipher.XorBits | NFTMarket-backend/src/common/utils/crypto.go:64-65 | each bit of the exclusive or is set if and only if just one of the two bits is |
| SessionCipher.OutputFeedback | NFTMarket-backend/src/common/utils/crypto.go:64-65 | the key stream is the enciphered vector, and then each block of it enciphered again |
| SessionCipher.AesEncryptOFB | NFTMarket-backend/src/common/utils/crypto.go:55-68 | the buffer holds the initialization vector, and then bytes that differ from the padded message's in exactly the bits set in the key stream's |
| SessionCipher.AesDecryptOFB | NFTMarket-backend/src/api/middleware/auth.go:98-119 | every outcome: the message, the length error, or a panic on short data or padding |
| SessionCipher.DecryptsTo | NFTMarket-backend/src/api/middleware/auth.go:98-119 | exactly when decryption panics, reports the length, or yields which message |
| SessionCipher.SessionRoundTrip | NFTMarket-backend/src/api/middleware/auth.go:98-119 | what the one side encrypts the other decrypts to the message, for every message, vector and block cipher |
| SessionCipher.AcceptedExactly | NFTMarket-backend/src/api/middleware/auth.go:114-119 | data is an encryption of a message if and only if it decrypts to it and its padding is right throughout |
| KeysetScan.ScanAll | EasySwapBase/ordermanager/expiredorder.go:90-108 | the page by page scan ends and returns every row once, in order |
| KeysetScan.QueryAllCollectionInfo | NFTMarket-backend/src/dao/collection.go:48-76 | fails if and only if all three attempts at some page of the scan fail or the commit does; otherwise returns every row once, in order |
| KeysetScan.Batches | EasySwapBase/ordermanager/expiredorder.go:131-141 | batches of 100, the last of 1 to 100, that together hold every id once, in order |

## Left out

- Redis, gorm, SQL text, JSON, logging, sleeping and goroutines: state and atomic steps instead. Two loops that touch the wheel at once are not modelled.
- Failing store calls inside the floor-price handlers, and an event queue that lags behind the tables.
- The database copy of the floor price and the collection status channel: written next to the cached price, never read back here.
- FloorAlwaysExact: besides that the events fit, asks that a new order has a new id.
- StraysExact: with a price tied with that of a third party's cheapest order (`Untied`), its condition is sufficient, not necessary: which of equally dear entries an eviction takes depends on the sort. So it is for ArmExact, StepExact and RunExact.
- TransferExact: asks that the orders queued on the token are the sender's, as they are when the tables record the sender as its owner (`OwnersOnly`). `ArmExact` is the rest.
- FiredOrdersLeave: the events of one tick in any order, with each status set before any of their queries; that each fired order has a goroutine of its own is not modelled.
- FetchedExactly: heads at or above the depth; below it, `WithinHeadExactly` states the fetched end.
- SyncOrderBookEventLoop: takes the chain heads and call results of its rounds as input and ends with them.
- ExpiryQueue.ExpiryQueue.Add: index plus delay is an unbounded integer here, not one of 64 bits.
- NumberFormat's rounding of a float to text: the digits before and after the point are the input.
- QueryAllCollectionInfo: a query that fails after it has already delivered rows is not modelled.
- ToValidateAddress: ASCII text only, so that one character is one byte.
- Go's `hex`, `%08b`, OFB and AES are modelled by what they return; Keccak and AES are arbitrary functions.
- Fork handling and order rollback, the activity rows, all item columns but owner and ban, listing counts, ABI decoding, token metadata, HTTP handlers, the other queries in `dao`, and the small slice, time and conversion helpers.
