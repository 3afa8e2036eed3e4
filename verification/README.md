# Order matching engine: a verified model

The repository is an order matching engine: a price-time priority book per symbol, a pool of order
slots, a TCP gateway in C++ with an event log, a gateway in Python that numbers and frames orders, and an
asynchronous logger.  This project models those parts in Dafny and proves what a trading venue relies on,
for every order, every stream of bytes and every run.

`dafny verify dfyconfig.toml` checks everything.

## How it is built

Two descriptions of the engine stand side by side.

* The **reference engine** (`NaiveBook`, `SweepLaws`, `FillOrKill`, `ReferenceEngine`, `ReferenceRuns`,
  `ReferenceTrades`, `ReferenceCounts`) keeps one list of open orders per symbol in arrival order and finds each maker by a
  linear scan for the best price and, among equals, the earliest arrival.  It has no price levels, no index
  and no slots.  What price-time priority, conservation, the fill ledger and the never-crossed book mean is
  stated and proved here, on unbounded integers; `ReferenceTrades` says what a call and a history may be with
  every comparison and every field written out.
* The **engine itself** (`ObjectPool`, `OrderBook`, `MatchingEngine`) is imperative, as the source is:
  classes over a fixed array of slots, a stack of free indices, two ladders of list nodes, an identifier
  index holding a pointer and a list iterator, loops that write fills in place, and machine arithmetic that
  wraps at 2^64.  `Ladder`, `BookModel`, `EngineModel`, `ScanLoop` and `EngineRefinement` hold its
  invariants and the steps that keep them.  A pointer to an order is the index of its slot; a list iterator
  is the identity of a list node.  As ghosts run the naive book and the owner of each slot.

`process_new_order` is one function in the source; here `ProcessNewOrder` hands over to `ProcessAdmitted`,
`MatchOrKill`, `MatchAndDispose` and `Dispose`, in that order, and the bodies of the two matching loops share
`TradeWith`, `Settle`, `Reduce`, `Unlink` and `Release`, so that each step has its own contract.

`MatchingEngine.ProcessNewOrder` and `CancelOrder` return exactly what the reference engine returns and end
in a state that stands for the reference engine's, so every theorem about reference runs is one about the
engine; `EngineRuns.Execute` says so for whole runs.

The way from a PlaceOrder call through frames, arbitrary read boundaries and decoding to the engine, and from
the event log back to the same state, is covered by `Wire` and `OrderMessages` (bytes), `GatewayModel` and
`GatewayRuns` (what the C++ gateway does to sessions, engine, log and senders, on values, packet by packet
and over whole lives of the process), `ClientGateway` (the gateway itself, a class proved to do that),
`GatewayReports` (every field that is sent), `LoginGate` (a connection that has not logged in has no effect),
`PythonGateway`, `NullBook` (the orders on which the process ends) and `EndToEnd`.  `Logger` is the logger as
a step machine over all interleavings.

An arriving order has no fill yet; that is the caller's duty in the source as well.  Identifiers are the
sender's: nothing is assumed of them where nothing is needed.  `ProcessNewOrder` does what the reference engine
does for every order, and leaves the engine consistent if and only if the order does not come to rest under an
identifier that still rests in its symbol's book; runs of orders that all keep to this are called admissible,
and `Execute` is about them, reused identifiers included.  Open, submitted and uncrossed books hold for every
run, unique identifiers exactly for the admissible ones, and the fill ledger for every identifier of an
admissible run that was used once.  The orders of one Python gateway process that serves one call at a time
form an admissible run (`EndToEnd.OrdersArriveAsMeant`, `ReferenceRuns.WellPosedIsAdmissible`); a restarted
gateway counts from 1 again while its old orders may still rest, and its worker threads share the counter
without a lock.

## What the code does, where its documentation says otherwise

* docs/DESIGN.md:44 asks a fill-or-kill order to be matched when there is enough liquidity.  The scan in
  src/matching_engine.cpp:152-181 subtracts in unsigned arithmetic and accepts only on an exact hit, and for
  a seller it starts at the lowest bid and stops there if that lies below the limit.
  `FillOrKill.ScanKillsFillableOrders` gives two fillable orders it kills, `ScanIsRightIff` says exactly
  when it decides as intended, `AcceptedIsCompleted` that it never accepts wrongly, and
  `RepairedScanIsRight` that a scan from the best price, accepting at "at least", is always right.
* A killed fill-or-kill order and the remainder of a market order keep their slot
  (src/matching_engine.cpp:27-30 and 46-49), although the comment at line 51 says that market orders give
  theirs back.  `ReferenceEngine.SlotLostIff` says exactly which calls lose a slot, `ReferenceCounts.RunCounts`,
  `LostSlotsAreLosingCalls` and `EngineRuns.PoolIsPartitioned` keep the account over whole runs, and
  `UnfillablesExhaustThePool` and `EndToEnd.MarketOrdersExhaustThePool` show where it leads.
* After each trade the gateway looks the order's book up again by the packet's symbol, read as a C string, and
  uses the result unchecked (src/client_gateway.cpp:234-235).  Nothing ends that string at ten bytes, a NUL
  inside the symbol ends it early, and the book is kept under the cleaned symbol.  `NullBook.FatalIff` says, for
  every packed order and in terms of the state before it, when it ends the process on a null book;
  `NeverFatalIff` says which names can never do so, `PlainNameIsSafeIff` that without NUL they are those that
  survive cleaning and are not ten-byte sells.  `TenByteSellEndsTheGateway` and `NulSymbolEndsTheGateway` are
  inputs on which the process ends; `SafeOrdersAreServed` says that orders under safe names are all performed.
* The report on a maker goes to the taker's connection and carries the maker's order number as its user
  (src/client_gateway.cpp:225-229 and 244); `GatewayModel.MakerReport` follows the code.
* Cancels are written to the same log as orders, as records of another size, and replay reads order records
  only (src/client_gateway.cpp:267-282 and 332-335).  `GatewayRuns.RestartRecovers` therefore speaks of lives
  that cancel nothing; `EndToEnd.ReplayForgetsCancel` shows a cancelled order come back, and
  `GatewayRuns.TrailingCancelReplaysIff` says when a last cancel does no harm.
* A length field of zero makes the Python listener loop forever, and a short snapshot ends it
  (gateway/gateway.py:92-112); `PythonGateway.ListenInTwo` covers these streams too.
* `flush` waits for an empty queue, not for the file (logging/logger.hpp:42-45); `Logger.FlushLeavesAtMostOne`
  bounds what it can miss and `FlushCanReturnEarly` shows that it can miss it.
* `MatchingEngine::cancel_order` ignores its `side`; `total_orders` counts orders that came to rest;
  docs/DESIGN.md speaks of a multi-threaded server where src/tcp_server.cpp has one loop.

## Model

| member | source | states |
|---|---|---|
| Types.NoWrap | include/types.h:59-63 | While an order is not over-filled its unsigned remaining quantity and fill update are the exact ones. |
| NaiveBook.First | src/order_book.cpp:62-76 | The order chosen has the extreme price of its side and is the earliest arrival at it; none is chosen only when the side is empty. |
| NaiveBook.QueueIsSorted | src/order_book.cpp:62-76 | Choosing repeatedly gives an order sorted by price, made of that side's orders. |
| NaiveBook.QueueIsStable | src/order_book.cpp:62-76 | At every price the choosing order is exactly the arrival order, none lost or repeated. |
| SweepLaws.SweepTakesInOrder | src/matching_engine.cpp:58-109 | A sweep's i-th trade is with the i-th order in priority, at its price, within the limit, taking it whole unless the taker is completed; the rest of the queue is left as it was. |
| SweepLaws.SweepPricesWorsen | src/matching_engine.cpp:58-109 | Trade prices only worsen for the taker, and unless it is MARKET none is above a buyer's or below a seller's price. |
| SweepLaws.SweepFillIsVolume | src/matching_engine.cpp:58-109 | The taker's fill is the sum of the trade quantities. |
| SweepLaws.SweepConserves | src/matching_engine.cpp:58-109 | The other side loses exactly the traded volume; the taker's own side is untouched. |
| SweepLaws.SweepFillsExactly | src/matching_engine.cpp:58-109 | A sweep trades the lesser of what the taker wants and what the book holds within its reach. |
| SweepLaws.SweepIsAmortised | src/matching_engine.cpp:58-109 | Every trade but one that completes the taker removes a maker. |
| SweepLaws.SweepUncrossed | src/matching_engine.cpp:33-49 | An uncrossed book stays uncrossed after a sweep, also with a limited remainder appended. |
| SweepLaws.TakerLedger | src/matching_engine.cpp:58-129 | The trades naming the taker add up to its fill. |
| SweepLaws.SweepLedger | src/matching_engine.cpp:58-129 | For every other identifier the trades naming it are exactly its new fill, and it leaves the book exactly when that completes it. |
| SweepLaws.SweepIsSymmetric | src/matching_engine.cpp:58-109 | Sell sweeps are buy sweeps of the price-reversed book, trade for trade: orders, users and quantities with the sides exchanged, under the same symbol. |
| FillOrKill.CompletesIffEnough | src/matching_engine.cpp:58-109 | Matching completes an order exactly when the eligible resting quantity is at least what it wants. |
| FillOrKill.WhatTheScanSees | src/matching_engine.cpp:152-181 | A buyer's scan sees all orders within reach; a seller's sees all or, once a bid lies below the limit, none. |
| FillOrKill.AcceptedIsCompleted | src/matching_engine.cpp:152-181 | With no bound on the book and despite wrap-around, an accepted order is completed by the sweep. |
| FillOrKill.ScanIsRightIff | src/matching_engine.cpp:152-181 | The scan decides as intended if and only if there is too little quantity, or some leading run hits the quantity exactly modulo 2^64 and, for a seller, no bid lies below the limit. |
| FillOrKill.ScanKillsFillableOrders | src/matching_engine.cpp:152-181 | Two concrete fillable orders that the scan kills. |
| FillOrKill.RepairedScanIsRight | docs/DESIGN.md:44 | A scan from the best price that accepts at "at least" accepts exactly the orders matching would complete. |
| ReferenceEngine.FillOrKillIsAllOrNothing | src/matching_engine.cpp:27-47 | A fill-or-kill order trades all or nothing, never rests, and killed leaves every book as it was. |
| ReferenceEngine.NewOrderTakesInOrder | src/matching_engine.cpp:8-56 | Price-time priority of a whole call, for all order types. |
| ReferenceEngine.NewOrderConserves | src/matching_engine.cpp:8-129 | A call's volume is what the opposite side lost; the own side gains the remainder, last in line, exactly when a limit or good-for-day order was not completed; other symbols keep still. |
| ReferenceEngine.NewOrderTradesExactly | src/matching_engine.cpp:8-56 | An admitted order trades the lesser of its quantity and what rests within its reach; killed or refused orders trade nothing. |
| ReferenceEngine.TradesIff | src/matching_engine.cpp:8-56 | A call trades if and only if the order is admitted, is not killed by the scan, and something rests within its reach. |
| ReferenceEngine.SlotLostIff | src/matching_engine.cpp:26-53 | A call loses a slot if and only if it is a fill-or-kill order the scan kills, or a market order that wants more than rests on the other side; and never more than one. |
| ReferenceEngine.UniqueIffNoClash | src/matching_engine.cpp:46-48 | Identifiers stay unique in every book if and only if the order does not come to rest under one that rests there still. |
| ReferenceRuns.AdmissibleConcat | src/matching_engine.cpp:8-56 | A run is admissible if and only if its first part is, and its second part from where the first led. |
| ReferenceRuns.AdmissibleIffUnique | src/matching_engine.cpp:46-48 | The runs in which no order comes to rest under a resting identifier are exactly those that never leave one twice in a book. |
| ReferenceRuns.BooksStaySound | src/matching_engine.cpp:8-210 | After every run, whatever identifiers it reuses, each book is uncrossed and holds only open orders that were submitted to it, with nothing but their fill changed. |
| ReferenceRuns.NeverCrossed | src/matching_engine.cpp:33-49 | After every run each resting bid is below each resting ask. |
| ReferenceRuns.WellPosedIsAdmissible | gateway/gateway.py:88-90 | Identifiers used once per symbol never rest when they arrive, so such a run is admissible. |
| ReferenceRuns.RunLedger | src/matching_engine.cpp:58-129 | After every admissible run, for every identifier used once: a resting order's fill is the sum of the history's trades naming it, below its quantity, and it is never over-filled. |
| ReferenceRuns.CancelReportsLedger | src/matching_engine.cpp:200-210 | The snapshot a cancel returns is of a submitted order up to its fill, which for an identifier used once is exactly the ledger total; the order is gone and history unchanged. |
| ReferenceTrades.AdmittedIff | src/matching_engine.cpp:131-150 | An order has no effect unless a slot is free, quantity and price are positive (a zero price will do for all but LIMIT) and the symbol is not empty; otherwise its book is opened. |
| ReferenceTrades.TradeTerms | src/matching_engine.cpp:58-129 | Each trade of a call is with an order of the other side, at that order's price and for no more than it has left, within the limit of the order that came unless that is MARKET; buyer and seller are the one that buys and the one that sells. |
| ReferenceTrades.TradesWhatItCanReach | src/matching_engine.cpp:8-109 | The traded quantity, with admission and limits written out: the lesser of what is wanted and what rests within the limit. |
| ReferenceTrades.NothingInReachIsLeft | src/matching_engine.cpp:58-109 | An order let through and not completed leaves no opposite order within its limit, a MARKET order none at all. |
| ReferenceTrades.CountersMove | src/matching_engine.cpp:46-48 | The counters move by the orders that come to rest, the trades and their quantity, modulo 2^64. |
| ReferenceTrades.HistoryIsFair | src/matching_engine.cpp:8-210 | Behind every trade of every run stand a submitted buyer and a submitted seller of its symbol that both admit its price, which is the price of the one that came first. |
| ReferenceCounts.RunCounts | src/matching_engine.cpp:8-129 | Over any run free, resting and lost slots add up to the capacity; trades plus resting orders never exceed the orders submitted; the counters are the history's size and volume modulo 2^64. |
| ReferenceCounts.ExhaustedForever | src/matching_engine.cpp:8-13 | Once every slot is lost nothing ever trades or rests again. |
| ReferenceCounts.LostSlotsAreLosingCalls | src/matching_engine.cpp:8-56 | Over any run the lost slots are as many as the losing calls, and none is lost exactly when there is none. |
| ReferenceCounts.UnfillablesExhaustThePool | src/matching_engine.cpp:27-53 | As many unfillable orders as slots, fill-or-kill or market, bring that about. |
| Ladder.EndIsFirst | src/order_book.cpp:62-76 | The head of the extreme level is the order a linear scan chooses. |
| Ladder.WalkIsQueue | src/matching_engine.cpp:156-166 | Walking levels upward and each from its head is repeated linear selection. |
| Ladder.AppendCouples | src/order_book.cpp:17-20 | Pushing back at a price keeps the levels equal to the arrival order grouped by price. |
| Ladder.EraseCouples | src/order_book.cpp:33-39 | Erasing an order anywhere in its level keeps all others in order and drops the level only when it was the last. |
| BookModel.IteratorIsRight | src/order_book.cpp:27-37 | The stored iterator denotes the node holding that very order, at its place in the level of its own side and price. |
| BookModel.AddedInv | src/order_book.cpp:11-25 | Adding keeps ladders and index in agreement if and only if the order is of the book's symbol and its identifier does not rest there yet. |
| BookModel.ErasedInv | src/order_book.cpp:27-46 | Cancelling keeps them in agreement, and removes exactly that order. |
| BookModel.FilledInv | src/matching_engine.cpp:72-73 | Writing a resting order's fill in place keeps them in agreement. |
| BookModel.FrameInv | src/matching_engine.cpp:72-78 | Writing slots a book does not index leaves it valid. |
| BookModel.BestIsFirst | src/order_book.cpp:62-76 | The best pointer is to the order the naive book would choose, as indexed. |
| BookModel.CancelUndoesAdd | src/order_book.cpp:11-46 | Adding a fresh order and cancelling it restores ladders, index and contents exactly. |
| ObjectPool.ObjectPool.constructor | include/object_pool.h:11-16 | All slots start on the free stack, in index order. |
| ObjectPool.ObjectPool.Allocate | include/object_pool.h:23-30 | The most recently freed slot, or nothing exactly when none is free. |
| ObjectPool.ObjectPool.Deallocate | include/object_pool.h:36-40 | The slot goes on top of the free stack. |
| OrderBook.OrderBook.AddOrder | src/order_book.cpp:11-25 | The order is last in arrival, ladders and index follow, an index entry of the same identifier is overwritten; the book stays consistent exactly when there was none. |
| OrderBook.OrderBook.CancelOrder | src/order_book.cpp:27-46 | Found exactly when resting; returns its pointer, removes it and nothing else; otherwise changes nothing. |
| OrderBook.OrderBook.GetOrderById | src/order_book.cpp:48-60 | The pointer to the resting order of that identifier, or nothing exactly when none rests. |
| OrderBook.OrderBook.GetBestBid | src/order_book.cpp:62-68 | The highest, earliest bid. |
| OrderBook.OrderBook.GetBestAsk | src/order_book.cpp:70-76 | The lowest, earliest ask. |
| OrderBook.OrderBook.GetL1Quote | src/order_book.cpp:89-98 | Prices and exact remaining quantities of the two best orders, zeros for an empty side. |
| OrderBook.OrderBook.GetL2Quote | src/order_book.cpp:100-129 | The best levels of each side in strictly worsening price, each with its whole quantity modulo 2^64, leaving out only worse ones. |
| OrderBook.OrderBook.LevelQuantity | src/order_book.cpp:108-111 | The sum of what remains at a level, modulo 2^64. |
| OrderBook.DepthStartsAtBest | src/order_book.cpp:89-129 | The first depth entry has the best price and, without wrap, covers the best order. |
| OrderBook.OrderBook.GetBuyOrders | src/order_book.cpp:131-137 | The number of resting bids. |
| OrderBook.OrderBook.GetSellOrders | src/order_book.cpp:138-144 | The number of resting asks. |
| OrderBook.OrderBook.GetTotalOrders | src/order_book.cpp:145-147 | The index counts all resting orders, bids plus asks. |
| EngineModel.TakeSlot | src/matching_engine.cpp:9-14 | Handing out a free slot and writing it disturbs no book. |
| EngineModel.GiveBack | include/object_pool.h:36-40 | A slot in hand may be freed: it is not already free and rests nowhere. |
| EngineModel.Lose | src/matching_engine.cpp:27-30 | A slot in hand that nobody returns adds one to the lost ones. |
| EngineModel.ToRest | src/matching_engine.cpp:46-48 | A slot in hand becomes a resting one of exactly its symbol's book. |
| EngineModel.FillResting | src/matching_engine.cpp:72-73 | Filling an order of one symbol leaves every other book valid and unchanged. |
| EngineModel.RemoveResting | src/matching_engine.cpp:75-78 | Taking an order out of its book frees its slot from every book. |
| MatchingEngine.MatchingEngine.constructor | include/matching_engine.h:20-21 | The engine starts as the empty reference engine with every slot free. |
| MatchingEngine.MatchingEngine.CreateTrade | src/matching_engine.cpp:111-129 | The trade's parties, price and quantity; history grows by it and the counters move, wrapping. |
| MatchingEngine.MatchingEngine.Unlink | src/matching_engine.cpp:75-77 | The order leaves its book and nothing else does; its slot is then in hand. |
| MatchingEngine.MatchingEngine.Release | include/object_pool.h:36-40 | A slot in hand goes on top of the free stack. |
| MatchingEngine.MatchingEngine.Forget | src/matching_engine.cpp:27-30 | A slot in hand is lost, and counted as such. |
| MatchingEngine.MatchingEngine.Reduce | src/matching_engine.cpp:71-73 | Both orders' fills grow by the trade and nothing else changes. |
| MatchingEngine.MatchingEngine.Settle | src/matching_engine.cpp:100-106 | The maker is part-filled in place, or gone with its slot freed. |
| MatchingEngine.MatchingEngine.TradeWith | src/matching_engine.cpp:67-78 | One step of the sweep: the trade with its buyer, seller, price and quantity, the fills, the book, the slots. |
| MatchingEngine.MatchingEngine.MatchAgainstBuyOrders | src/matching_engine.cpp:58-81 | Terminates with the trades, taker and book of the reference sweep, none below the price of a taker that is not MARKET. |
| MatchingEngine.MatchingEngine.MatchAgainstSellOrders | src/matching_engine.cpp:83-109 | The same for the other side, none above. |
| MatchingEngine.MatchingEngine.CanFillCompletely | src/matching_engine.cpp:152-181 | True if and only if some non-empty leading run in scan order, up to the first ineligible level, adds up to the quantity modulo 2^64. |
| MatchingEngine.MatchingEngine.GetOrCreateOrderBook | src/matching_engine.cpp:183-190 | The symbol's book, fresh and empty exactly when there was none. |
| MatchingEngine.MatchingEngine.GetOrderBook | src/matching_engine.cpp:192-198 | The symbol's book, or nothing exactly when there is none. |
| MatchingEngine.MatchingEngine.Admit | src/matching_engine.cpp:9-14 | A slot holding the incoming order, or nothing exactly when the pool is exhausted. |
| MatchingEngine.MatchingEngine.Rest | src/matching_engine.cpp:46-48 | The remainder is last in line in its book; slots and books stay consistent unless its identifier rests there. |
| MatchingEngine.MatchingEngine.Dispose | src/matching_engine.cpp:39-52 | What becomes of order and slot for each type. |
| MatchingEngine.MatchingEngine.MatchAndDispose | src/matching_engine.cpp:32-55 | Trades, book, history, counters and slots of an order that is matched. |
| MatchingEngine.MatchingEngine.MatchOrKill | src/matching_engine.cpp:26-55 | The same with the fill-or-kill scan before it; a killed order changes nothing but loses its slot. |
| MatchingEngine.MatchingEngine.ProcessAdmitted | src/matching_engine.cpp:24-55 | A valid order in its slot does to the engine what the reference engine does. |
| MatchingEngine.MatchingEngine.ProcessNewOrder | src/matching_engine.cpp:8-56 | From every valid state and for every order, reused identifiers included, same trades and same new state as the reference engine, each trade in the order's own name and within its limit; the engine stays valid if and only if the order does not come to rest under an identifier that rests still. |
| MatchingEngine.MatchingEngine.CancelOrder | src/matching_engine.cpp:200-210 | Same answer and new state as the reference engine, whatever side is given. |
| EngineRuns.Execute | src/matching_engine.cpp:8-210 | Over every admissible run, all replies and the final state are the reference engine's. |
| EngineRuns.PoolIsPartitioned | include/object_pool.h:23-40 | In every valid engine each slot is exactly one of free (once), lost, or resting under one identifier of one book. |
| Wire.FromToLE | gateway/gateway.py:22-23 | A fixed-width little-endian field reads back as written. |
| Wire.ToLEAt | gateway/gateway.py:22-23 | Byte k of a field is digit k of the number to the base 256, the least significant first. |
| Wire.FrameHeader | gateway/gateway.py:58-61 | A frame's header announces its own length and type, and the payload follows. |
| Wire.FrameBytes | gateway/gateway.py:58-61 | A frame is two zeros, the type, the total length in two bytes, low byte first, and the payload. |
| Wire.HeaderDecides | src/client_gateway.cpp:58-78 | A stream gives a packet exactly when its bytes 3 and 4 hold a length from 5 to the limit and that many bytes are there. |
| Wire.ParseInTwo | src/client_gateway.cpp:54-80 | Parsing a kept suffix with the next read is parsing both reads at once. |
| Wire.ChunkingIsIrrelevant | src/client_gateway.cpp:54-80 | For every stream and every split into reads, the packets and the kept suffix are those of parsing the whole once. |
| Wire.ParseConserves | src/client_gateway.cpp:74-78 | Packets and kept suffix are the bytes received. |
| Wire.StuckForever | src/client_gateway.cpp:66-69 | After a header with a bad length nothing is ever dispatched. |
| Wire.ParseFrames | src/client_gateway.cpp:54-80 | A stream of whole frames parses into them. |
| OrderMessages.SymbolSurvivesIff | src/client_gateway.cpp:16-25 | A symbol survives padding and cleaning if and only if it has at most ten bytes, no NUL and no trailing white space. |
| OrderMessages.CleanIs | src/client_gateway.cpp:16-25 | Of what remains without NULs, cleaning cuts off exactly the trailing white space. |
| OrderMessages.UpToZeroIs | src/client_gateway.cpp:234 | A C string is the bytes before the first zero, if there is one. |
| OrderMessages.DecodeUndoesPack | gateway/gateway.py:171-183 | Decoding a packed order gives back identifier, user, side, type, price bytes and quantity, and the cleaned symbol. |
| OrderMessages.DecodeUndoesCancel | gateway/gateway.py:226-236 | Decoding a packed cancel gives back the order's number, the user's in its own place, and the cleaned symbol. |
| OrderMessages.PacketMeans | src/client_gateway.cpp:82-135 | By type byte and offsets: what a packet makes the engine do and the log hold, before and after a log-in. |
| OrderMessages.TruncatedReplay | src/client_gateway.cpp:274-278 | A log cut anywhere replays to a leading part of the operations. |
| OrderMessages.LogRecordsTheOps | src/client_gateway.cpp:123-135 | A session that cancels nothing logs exactly the operations it performs, in whole records. |
| GatewayModel.TradeReportsAt | src/client_gateway.cpp:204-248 | The reports on an order's trades alternate between its sender and the maker. |
| GatewayModel.RanStopsAtFatal | src/client_gateway.cpp:74-78 | No packet before the last one dispatched is fatal, and if any is left out, that one is. |
| GatewayReports.ReportsOnTrade | src/client_gateway.cpp:205-244 | All fields of the two reports on trade k: the sender's with the sum so far as fill, status 2 exactly when that is the whole order; the maker's. |
| GatewayReports.SingleReports | src/client_gateway.cpp:220-261 | All fields when nothing trades, and when the book is not found. |
| GatewayReports.FillsAddUp | src/client_gateway.cpp:205-220 | Over a call's reports each fill is the one before plus the report's quantity, up to the total traded, never above the order; at most the last says it is complete. |
| GatewayReports.OrderIsReported | src/client_gateway.cpp:169-265 | For an order packet of a logged-in session exactly these reports are sent, in order and to that session. |
| GatewayReports.CancelIsAnswered | src/client_gateway.cpp:327-363 | A cancel as the Python gateway packs it takes one order of that number and symbol out of its book, and its terms and fill go back with status 3; with none there, nothing changes and status 4 goes back. |
| GatewayModel.DispatchIsSession | src/client_gateway.cpp:54-135 | A read dispatches exactly the packets now complete, all or those up to the first fatal one; engine, log, reports and log-in are exactly what these packets mean; the process ends if and only if one is fatal; and otherwise exactly the unconsumed suffix is kept. |
| GatewayRuns.AfterSane | src/client_gateway.cpp:38-135 | After every life of the process the engine is where the operations made lead, books are kept under cleaned symbols, and a log that began in step replays to these operations as long as none is a cancel. |
| GatewayRuns.LivesAreSound | src/client_gateway.cpp:38-135 | In every life, on any log file and with any connections, reads and identifiers, up to a crash: books are uncrossed and hold only open orders submitted to them, and identifiers are unique as long as no order clashed. |
| GatewayRuns.LivesTradeFairly | src/client_gateway.cpp:38-135 | In every life every trade is between a buyer and a seller received, within both limits and at the price of the one that came first. |
| GatewayRuns.LengthDecides | src/client_gateway.cpp:57-79 | The length in bytes 3 and 4 of the buffer, from 5 to 1024, decides whether a packet is dispatched. |
| LoginGate.LoggedOutPacket | src/client_gateway.cpp:123-135 | Before a log-in every packet of another type than 76 leaves engine, log, reports and sessions as they were. |
| LoginGate.NewConnectionIsSilent | src/client_gateway.cpp:38-135 | A new connection is logged out, and whatever it sends without a log-in, cut and interleaved anyhow, leaves engine, log, reports and all other sessions as if it had not come. |
| GatewayRuns.SplitReadsAreOneRead | src/client_gateway.cpp:54-80 | For every state and every split of a stream into reads, engine, log, reports and sessions end where one read of the whole would leave them. |
| GatewayRuns.StreamIsServed | src/client_gateway.cpp:54-135 | A stream of whole packets, none fatal, is taken packet by packet however it is cut, and nothing is left in the buffer. |
| GatewayRuns.RestartRecovers | src/client_gateway.cpp:267-282 | After every life that began on a replayed or empty log and cancelled nothing, over any connections and reads and even if it crashed, a restart on its log has the same engine; a log cut anywhere brings back a leading part. |
| GatewayRuns.TrailingCancelReplaysIff | src/client_gateway.cpp:327-338 | With one cancel at the end the restart has the engine's state if and only if the cancel's book existed and held no such order. |
| ClientGateway.ClientGateway.CleanSymbol | src/client_gateway.cpp:16-25 | NUL bytes and trailing white space are removed. |
| ClientGateway.ClientGateway.OnConnection | src/client_gateway.cpp:38-42 | The session starts anew: logged out, with an empty buffer. |
| ClientGateway.ClientGateway.OnDisconnection | src/client_gateway.cpp:44-52 | The session is gone and nothing else changes. |
| ClientGateway.ClientGateway.ReportOnMaker | src/client_gateway.cpp:222-244 | The report on the maker, with the fill of the taker's order in the book looked up or else the trade's quantity; without a book the process ends. |
| ClientGateway.ClientGateway.SendReports | src/client_gateway.cpp:204-263 | All reports on an order in the order they are sent, the sender's with running fill, status and its other fields; if there are trades and the C string in the packet names no book, the process ends after the first. |
| ClientGateway.ClientGateway.HandleNewOrderInternal | src/client_gateway.cpp:169-265 | The decoded order goes through the engine; reports go out exactly when it is not a replay, and the process ends exactly when the order then trades and its book is not found. |
| ClientGateway.ClientGateway.HandleOrderCancel | src/client_gateway.cpp:327-363 | The order whose number is in bytes 5 to 12 is cancelled in the engine, and the report carries it as it stood, fill included, or a rejection. |
| ClientGateway.ClientGateway.ProcessPacket | src/client_gateway.cpp:82-135 | Only logged-in sessions reach engine and log, each packet with exactly its effect, its reports, and its end of the process if it is fatal. |
| ClientGateway.ClientGateway.OnMessage | src/client_gateway.cpp:54-80 | The loop ends with the state of GatewayModel.Receive, of which DispatchIsSession and SplitReadsAreOneRead speak: dispatching stops at a fatal packet, a bad length or an unfinished packet. |
| ClientGateway.ClientGateway.Serve | src/tcp_server.cpp:64-98 | Any sequence of connections, reads and disconnections brings the gateway to the state of GatewayModel.After. |
| ClientGateway.ClientGateway.ReplayEvents | src/client_gateway.cpp:267-282 | Replay runs exactly the log's whole records and reports nothing. |
| ClientGateway.Live | src/main.cpp:15-29 | A process started on a log file, with or without replay, serves its events. |
| ClientGateway.LiveAndRestart | src/main.cpp:22-25 | On the classes: a gateway that replays, serves anything but cancels and stops, and a fresh one that replays the file it left, have the same books, history, counters and pool. |
| NullBook.LookupFindsIff | src/client_gateway.cpp:234 | The look-up finds a book for a packed order if and only if the symbol's field up to its first zero byte, or for a buy the whole field, is the key of one. |
| NullBook.FatalIff | src/client_gateway.cpp:204-248 | Every packed order ends the process if and only if it is admitted, something rests within its reach, and that string is no key of the books. |
| NullBook.NeverFatalIff | src/client_gateway.cpp:234-235 | A valid order ends the process in no state whatever if and only if that string is the key its own book is kept under. |
| NullBook.PlainNameIsSafeIff | src/client_gateway.cpp:16-25 | Without NUL that holds exactly for symbols that, cut to the field, survive cleaning and are shorter than it or in a buy. |
| NullBook.SafeOrdersAreServed | src/client_gateway.cpp:54-265 | Orders under safe names, however the stream is cut, are all performed and the process lives on. |
| NullBook.PlacedOrdersAreExecuted | gateway/gateway.py:171-186 | Orders placed at a fresh Python gateway under safe names, sent after its log-in and cut anyhow, bring a fresh engine to where these orders, numbered from 1, lead. |
| NullBook.PairEndsTheGateway | src/client_gateway.cpp:234-235 | Two orders that trade with each other, the second under an unsafe name, end the process. |
| NullBook.TenByteSellEndsTheGateway | src/client_gateway.cpp:234-235 | A buy and a sell for ABCDEFGHIJ at 100.0, sent to a fresh engine, end the process. |
| NullBook.NulSymbolEndsTheGateway | src/client_gateway.cpp:234-235 | A sell for ABCD and a buy for AB, NUL, CD at 100.0, sent to a fresh engine, end the process. |
| PythonGateway.GatewayService.SendToOme | gateway/gateway.py:58-61 | The frame is appended to the wire. |
| PythonGateway.GatewayService.constructor | gateway/gateway.py:35-70 | Numbering starts at zero and the log-in is the first thing sent. |
| PythonGateway.GatewayService.PlaceOrder | gateway/gateway.py:171-186 | The next number is drawn and the order's frame sent under it. |
| PythonGateway.GatewayService.PlaceOrders | gateway/gateway.py:171-186 | A sequence of calls sends exactly the frames of its orders, one after the other and numbered upward without a gap. |
| PythonGateway.GatewayService.CancelOrder | gateway/gateway.py:226-236 | The cancel's frame is sent. |
| PythonGateway.GatewayService.ReceiveFromOme | gateway/gateway.py:92-112 | For every read: the payloads handed over, the bytes kept, and whether the listener waits, ended on a closed connection or a short snapshot, or loops forever on a zero length. |
| PythonGateway.ListenIs | gateway/gateway.py:92-112 | By type byte and length bytes, for every stream: what is handed over, dropped, waited for, ends the listener or makes it loop. |
| PythonGateway.ListenToFrame | gateway/gateway.py:100-135 | Snapshots of 178 bytes and reports of 60 are handed over, shorter reports and other types dropped, a shorter snapshot ends the listener. |
| PythonGateway.ListenInTwo | gateway/gateway.py:92-112 | What is heard does not depend on how any stream, well-formed or not, is cut into reads; after an end or a zero length nothing more is heard. |
| PythonGateway.ListenIsParse | gateway/gateway.py:92-125 | On streams with sound lengths and full snapshots the listener hands over exactly the handled packets' payloads and keeps the unfinished rest. |
| EndToEnd.OrdersArriveAsMeant | gateway/gateway.py:171-186 | Framed orders, concatenated and split anyhow, reach the engine one for one with every field as sent, the symbol exactly when it can travel, and form a run with unique identifiers. |
| EndToEnd.MarketOrdersExhaustThePool | src/client_gateway.cpp:169-186 | Market orders as the wire carries them, as many as slots, take every slot for good. |
| EndToEnd.ReplayForgetsCancel | src/client_gateway.cpp:332-342 | With a cancel it does not: the cancelled order rests again after replay. |
| Logger.StepKeepsOrder | logging/logger.cpp:54-78 | Every step keeps written, in-flight and queued lines equal to the lines pushed, in order. |
| Logger.RunKeepsOrder | logging/logger.cpp:46-78 | So does every interleaving. |
| Logger.WrittenIsPrefixOfPushed | logging/logger.cpp:61-72 | The file only grows, always by the next line pushed. |
| Logger.ExitDrains | logging/logger.cpp:74-77 | When the consumer leaves, every line pushed until then is in the file. |
| Logger.FlushLeavesAtMostOne | logging/logger.hpp:42-45 | When flush returns at most one line is unwritten, and exactly when the consumer is writing it. |
| Logger.FlushCanReturnEarly | logging/logger.hpp:42-45 | A run in which flush returns with a line unwritten. |
| Logger.NothingAfterExit | logging/logger.cpp:74-77 | Once the consumer left, nothing more is written. |

## Left out

- Sockets and the select loop (src/tcp_server.cpp): only library calls; what they deliver is the sequence of events that `Serve` takes.
- Floating-point prices: prices are exact reals without NaN, and reading a price's eight bytes is a parameter.
- MatchingEngine.MatchingEngine.ProcessNewOrder: the call itself is proved for reused identifiers too; what later calls do to an engine that holds one identifier twice in a book is not modelled.
- Order status and timestamps, and trade timestamps: never read by the engine, or clock values.
- Trade updates, market data snapshots, subscriptions and log-in responses (src/client_gateway.cpp:108-167, 284-325, 367-399): no effect on engine, log or execution reports.  `sent` holds execution reports only; on the connection the others come between them.
- GatewayModel.LookedUp: when no zero byte follows the symbol the C string runs past the packet; what it would find there is not modelled, and the look-up counts as failed.
- The session's user identifier and descriptor, and the execution and symbol fields of reports: constants, copies or never read.
- ClientGateway.ClientGateway.OnMessage: requires that no packet dispatched is shorter than the struct it is cast to (the cast reads outside the buffer) and that no order clashes; reassembly itself is proved for every byte stream.
- GatewayRuns.RestartRecovers: speaks of lives that start on whole records, replayed or none, and cancel nothing, because cancels are not replayable records and a torn one shifts what is appended after it.
- PythonGateway.GatewayService.PlaceOrder: the counter is below 2^64, beyond which the source's packing raises; concurrent calls by several worker threads, a failed connection, and a call refused for its token, which draws a number and sends nothing, are not modelled.
- Logger: lines are those that passed the level test; the file is open; liveness is not claimed, because the exit flag is set outside the mutex.
- The spread, pool sizes, statistics reset and printing, string conversions, command-line configuration, JWT, gRPC, the user interface and the load scripts: easy members or library calls.
