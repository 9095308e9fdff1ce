# A verified model of the limit order book

The engine keeps the same orders in several forms that must agree after every call: price
levels sorted by a side's comparator, a queue per level held as a doubly linked list and a
hash index, a cached total per level, an index from order id to side and price, a buffer of
filled nodes that are unlinked later than they are filled, and an outgoing feed of level
updates. This project models that machinery class by class and proves that it refines a
small reference book, in which each side is one flat list sorted by price and then by
arrival, orders are filled greedily from the front, and cancelling deletes by id. The
properties users rely on are then proved of the reference book over every run, and carried
back to the machine by `Sessions.Session`.

## How it is laid out

The machine, one module per source file, with the source's fields updated in place:

- `Orders.dfy`, `HashedLinkedList.dfy`, `MatchingEngine.dfy`, `PriceLevel.dfy`,
  `OrderBookData.dfy`, `BookSide.dfy`, `OrderBook.dfy`
- `RingBuffer.dfy` and `PoolAllocator.dfy`, the two smaller stateful parts

The reference, on values:

- `Types.dfy`; `Sweeps.dfy` (greedy filling); `FlatBook.dfy` (insertion, deletion, level
  totals); `Books.dfy` (one call on the whole book); `Runs.dfy` (whole runs)

What joins the two: `SideViews.dfy` and `SideSweeps.dfy` read a side level by level as its
flat list.

The theorems: `Soundness.dfy` (what every call keeps), `Priority.dfy` (who trades, how much,
at what price), `Calls.dfy` (single calls), `Runs.dfy` (soundness and time priority),
`Statuses.dfy` (what an order's status says), `DepthFeed.dfy` (the level feed), `Ledger.dfy`
(every order's account), `Lifecycles.dfy` (where everything booked, reported and traded comes
from, and when an order is live), `Sessions.dfy` (the machine over a whole run).

A source method with a loop is often split here: `PriceLevel.MatchOrder` uses `FillQueue`,
`Offer` and `MatchNode`; `BookSide.MatchOrder` uses `SweepLevels`, `SweepNext`, `MatchLevel`
and `EraseSwept`; the loops of `OrderBook.MatchOrder` are `NotifyOrders`,
`BookSide.UnlinkFilled`, `NotifyTrades` and `NotifyLevels`, called by `SweepSide`.

## What a caller must respect

`Books.Admissible`: a LIMIT order has a nonzero id (`order_forge/price_level.cpp:6` asserts
it; one supplied by the id generator is the parameter `newId`), wants something, and the
uint64 total of the level it would rest on has room for it. Nothing is asked of MARKET and
FILL_AND_KILL orders. Quantities are uint64 and prices int64; every addition and subtraction
of a quantity in the machine is proved to stay in range. The order object is not one of the
book's own (`push` copies, so it never is).

Runs come in three kinds. `Runs.PlayableRun`: the commands submit new orders (quantity
positive, nothing traded, status OPEN) that are admissible, under any ids. The machine refines
the reference book, the book is never crossed, the level feed is right and the statuses agree
over every one of these. `Runs.LegalRun`: in addition no LIMIT order is submitted under an id
that the id index holds, which the index needs in order to be right about every live order.
`Ledger.ToldApart`: in addition no other order is submitted under the id of a live one, which
the accounts and the lifecycles need, because trades and notices name orders by id alone.

## Where the code does less than its names promise

- A limit price is compared once, with the best opposite level; the sweep does not look at
  it again. `Calls.LimitIsNotKept` shows a LIMIT order to buy at 100 paying 200.
  `Calls.LimitKeptIff` gives the condition under which every trade is within the limit:
  nothing is offered within it, or the order wants no more than is offered within it, or
  nothing is offered beyond it. The first trade always is (`Calls.TradesIff`).
  `order_forge/tests/test_order_book.cpp:273-284` covers only a case that meets it.
- The ring buffer takes a number of blocks but nothing in it stops a writer from leaving a
  second block behind. `RingBuffers.WrapIsSafeIff`: after a wrap the reader goes on being told
  the truth, until it has read everything, if and only if it was in the writer's block (and,
  in a buffer of one block, had read all of it). `RingBuffers.LappedReader` says what happens
  otherwise, for every such wrap.
- An id that was used before can be given to a new LIMIT order although the index still holds
  it (a filled order's entry stays until it is cancelled). `emplace` then keeps the old entry:
  `Soundness.RestSoundIff` says exactly when the book stays sound, and `Calls.CancelMissesIff`
  exactly when a cancel no longer finds the order, which is then beyond reach.
- Trades and notices name orders by id alone, so a MARKET or FILL_AND_KILL order under the id
  of a live one leaves accounts that do not balance, always: `Ledger.AddBalancedIff`.
- A filled passive order stays in the id index until it is cancelled. `Calls.CancelStale`
  gives the effect of that cancel: the sides stay, the entry goes, and the level's present
  total is published again.

## Model

| member | source | states |
|---|---|---|
| Sessions.Session | order_forge/order_book.cpp:16-153 | for every run from an empty book, whatever ids its orders have, the machine's two sides, id index, trades, level updates and order notices are those of the reference book; its sides are live, in order and never crossed; replaying its level updates gives its depth, and no prefix of them shows a bid at or above an ask; every notice's status agrees with its quantities; whatever is live or reported is an order that was submitted, and every trade is between two of them;  if the run is legal the id index is right about every live order; if orders can be told apart by id, every account balances, and an order is live if and only if it is a LIMIT order last reported OPEN or PARTIAL and not withdrawn since |
| Sessions.Execute | order_forge/order_book.cpp:16-72 | one command takes the machine where the reference step goes, and the feeds grow by exactly what it reports |
| OrderBooks.OrderBook.constructor | order_forge/order_book.cpp:5-14 | a new book is empty and has told nobody anything |
| OrderBooks.OrderBook.AddOrder | order_forge/order_book.cpp:16-48 | an order for another symbol changes nothing; any other keeps the id it brings or gets the new one if it brings none, has the effect of the reference `Add`, and its own final notice, under that id, comes last |
| OrderBooks.OrderBook.RemoveOrder | order_forge/order_book.cpp:50-72 | has the effect of the reference `Cancel`: delete the id where the index says, tell the level's new total, and do nothing for an unknown id |
| OrderBooks.OrderBook.LimitOrder | order_forge/order_book.cpp:74-96 | sweeps the other side if anything there is within its price; whatever is left of it then stands in its own side, unless its id rests at its price already; the level's total is published after the sweep's updates |
| OrderBooks.OrderBook.MarketOrder | order_forge/order_book.cpp:98-105 | sweeps the other side if there is anything, and is rejected otherwise; never rests |
| OrderBooks.OrderBook.FillAndKillOrder | order_forge/order_book.cpp:107-113 | sweeps the other side if anything there is within its price, and is rejected otherwise; never rests |
| OrderBooks.OrderBook.MatchOrder | order_forge/order_book.cpp:115-153 | leaves the opposite side, the order and all three feeds as one greedy sweep of the flat opposite side does |
| OrderBooks.OrderBook.SweepSide | order_forge/order_book.cpp:119-152 | the same for one side: notices show each touched order as it stands after the whole sweep, and afterwards no filled order is linked in the side |
| OrderBooks.OrderBook.RestOrder | order_forge/order_book.cpp:82-95 | the order joins the flat list behind everything at least as good, unless its id rests at that price already, and the index learns its side and price, unless it has the id already |
| OrderBooks.OrderBook.IsCrossingOrder | order_forge/order_book.cpp:155-162 | looking at the best price only, true exactly when some live order of the other side is within the order's price |
| OrderBooks.OrderBook.RejectOrder | order_forge/order_book.cpp:164-167 | only the status changes |
| OrderBooks.OrderBook.AddOrderHelper | order_forge/order_book.cpp:169-172 | as emplace: an existing entry is kept |
| OrderBooks.OrderBook.NeverCrossed | order_forge/order_book.cpp:74-90 | while the book is live and in order, if both sides have levels then the first bid level is below the first ask level |
| BookSides.BookSide.AddOrder | order_forge/book_side.h:32-38 | find-or-create and append come to insertion by price and arrival in the flat list, unless the id already rests at that price; the update tells the flat list's total there |
| BookSides.BookSide.RemoveOrder | order_forge/book_side.h:40-48 | deletes the id at that price from the flat list; a level that was created only for the lookup, or that is now empty, is not in the map afterwards |
| BookSides.BookSide.MatchOrder | order_forge/book_side.h:61-77 | the nested loops come to one greedy sweep of the flat list; one update per price that traded, in order, with its total afterwards; the engine is handed exactly the swept levels, and every level with marks is among them |
| BookSides.BookSide.SweepLevels | order_forge/book_side.h:63-68 | after the first loop the sweep is complete in all its results, with filled orders still linked and emptied levels still in the map |
| BookSides.BookSide.EraseSwept | order_forge/book_side.h:70-74 | the second loop erases exactly the emptied levels, which are a prefix |
| BookSides.BookSide.UnlinkFilled | order_forge/order_book.cpp:132-134 | afterwards every swept level, erased from the map or not, has an empty mark buffer and links exactly the orders that were live; the flat list is unchanged and the side is whole again |
| BookSides.BookSide.LevelsAreLive | order_forge/book_side.h:44-46 | between calls there is a level for exactly the prices at which something is live; its list is not empty and its cached total is positive and is what is live there |
| BookSides.BookSide.BestIsFirst | order_forge/order_book_data.h:42-42 | the map is empty exactly when no order is live; its first price is that of the first order of the flat list, and no order of the side has a better one |
| OrderBookData.OrderBookDataMap.GetBookLevel | order_forge/order_book_data.h:44-51 | returns the level there is, or creates an empty one in comparator order and leaves the others as they are |
| OrderBookData.OrderBookDataMap.AddBookLevel | order_forge/order_book_data.h:53-56 | as emplace: a level that exists is returned and nothing changes; otherwise the new level is empty and stands in comparator order among the others |
| OrderBookData.OrderBookDataMap.RemoveBookLevel | order_forge/order_book_data.h:58-58 | erases the level at this price if there is one, and nothing else |
| OrderBookData.FoundAtLowerBound | order_forge/order_book_data.h:45-46 | looking up a price in the sorted map finds its level exactly when there is one |
| PriceLevels.PriceLevel.AddOrder | order_forge/price_level.cpp:4-20 | appends a copy and adds its remaining quantity to the total, or changes nothing if the id is in the list |
| PriceLevels.PriceLevel.RemoveOrder | order_forge/price_level.cpp:24-34 | deletes exactly the order with this id, keeping the order of the rest, or changes nothing |
| PriceLevels.PriceLevel.RemoveMarkedOrderNodes | order_forge/price_level.cpp:36-42 | each marked node is linked when it is unlinked; afterwards the list is what was live and the mark buffer is empty |
| PriceLevels.PriceLevel.MatchOrder | order_forge/price_level.cpp:44-62 | the visible queue, the crossing order, the trades and the touched orders are those of a greedy sweep of the queue; the level registers itself exactly if it traded |
| PriceLevels.PriceLevel.MatchNode | order_forge/price_level.cpp:51-54 | one fill of the oldest live order: the total drops by what traded, and the node is marked exactly if it is filled |
| PriceLevels.PriceLevel.FillQueue | order_forge/price_level.cpp:48-56 | when the loop over the list ends, the sweep has got as far as it can: the queue or the crossing order is exhausted |
| PriceLevels.PriceLevel.MarkedAreTheFilled | order_forge/price_level.cpp:51-53 | the marked nodes are a prefix of the list and are exactly the FILLED orders, which are exactly those with nothing remaining |
| PriceLevels.PriceLevel.TotalIsExact | order_forge/price_level.cpp:17-50 | in every state, also between filling and unlinking, the cached total is the sum over the linked orders and over the live ones |
| PriceLevels.PriceLevel.IdIndex | order_forge/price_level.cpp:12-26 | the level's hash index finds an id exactly when the queue holds it, and the queue holds it once |
| PriceLevels.SweepStep | order_forge/price_level.cpp:49-56 | filling the oldest live order is the first step of sweeping the live orders |
| MatchingEngines.MatchingEngine.MatchOrder | order_forge/matching_engine.cpp:9-39 | both orders lose the smaller of what they wanted; each ends FILLED or PARTIAL by whether it still wants something; one trade, field by field: the passive price, that quantity, the crossing side, and the accounts and ids of both in their places; the passive order is logged |
| Orders.Order.ReduceQty | order_forge/data_types/order.h:60-67 | subtracts, or refuses a reduction that is too large |
| Orders.Order.Copy | order_forge/data_types/hashed_linked_list.h:67-69 | the resting order is a new object that reads the same |
| HashedLinkedList.HashLinkedList.ThreeViewsAgree | order_forge/data_types/hashed_linked_list.h:109-111 | the right chain from the front, the left chain from the back and the index describe one and the same finite sequence of nodes, and no other |
| HashedLinkedList.HashLinkedList.Push | order_forge/data_types/hashed_linked_list.h:67-78 | a node is appended to the chain; the index keeps an entry that it has, so the list stays whole if and only if the id is new |
| HashedLinkedList.HashLinkedList.Find | order_forge/data_types/hashed_linked_list.h:60-65 | finds the node with this id exactly when the index has the id |
| HashedLinkedList.HashLinkedList.Remove | order_forge/data_types/hashed_linked_list.h:90-94 | deletes exactly the node with this id, or nothing |
| HashedLinkedList.HashLinkedList.RemoveNode | order_forge/data_types/hashed_linked_list.h:80-88 | deletes exactly this node at front, back or middle, keeping the order of the rest |
| HashedLinkedList.HashLinkedList.PopFront | order_forge/data_types/hashed_linked_list.h:113-126 | deletes the first node, if any |
| HashedLinkedList.HashLinkedList.PopBack | order_forge/data_types/hashed_linked_list.h:128-141 | deletes the last node, if any |
| HashedLinkedList.HashLinkedList.PopMiddle | order_forge/data_types/hashed_linked_list.h:143-148 | deletes an inner node |
| HashedLinkedList.HashLinkedList.Traverse | order_forge/data_types/hashed_linked_list.h:47-57 | iteration ends, having visited exactly the sequence |
| HashedLinkedList.HashLinkedList.Destroy | order_forge/data_types/hashed_linked_list.h:102-106 | the destructor ends with nothing linked |
| HashedLinkedList.IndexSize | order_forge/data_types/hashed_linked_list.h:42-43 | the index has as many entries as the list has nodes |
| HashedLinkedList.ChainIsUnique | order_forge/data_types/hashed_linked_list.h:49-49 | the pointers determine the sequence |
| SideViews.AddInLevel | order_forge/book_side.h:36-37 | appending to the level of a price is inserting into the flat list by price and arrival |
| SideViews.RemovedFromLevel | order_forge/book_side.h:42-46 | deleting from one level and erasing it if that leaves nothing is deleting from the flat list |
| SideSweeps.LevelThenRest | order_forge/book_side.h:64-68 | sweeping the next level and then what follows is sweeping the flat list |
| SideSweeps.SideDone | order_forge/book_side.h:61-77 | a finished sweep of the levels is the flat sweep, and its updates are the totals, in what is left, of the prices that traded |
| Sweeps.SweepAppend | order_forge/book_side.h:64-68 | a sweep of two stretches is a sweep of the first, continued on what it left followed by the second |
| Priority.PriceTimePriority | order_forge/price_level.cpp:44-61 | the orders that trade are a prefix of the queue; each gets exactly what those ahead leave it of the demand; all but the last are filled, and a partly filled one stays in front |
| Priority.PricesFromBestOutward | order_forge/matching_engine.cpp:33-34 | each trade is at its passive order's price, and prices never improve from one trade to the next |
| Priority.SweepConserves | order_forge/matching_engine.cpp:16-18 | what was traded is the drop in the crossing order and the drop in the opposite side |
| Priority.SplitSweep | order_forge/price_level.cpp:44-61 | sweeping for a and then for b leaves the same queue as sweeping for a + b and takes as much from each passive order |
| Soundness.MatchSound | order_forge/order_book.cpp:115-134 | matching keeps the book sorted, uncrossed, covered by the index, with every id resting once |
| Soundness.RestSound | order_forge/order_book.cpp:82-90 | so does resting an order that does not cross |
| Soundness.AddSound | order_forge/order_book.cpp:30-43 | so does every legal order; a partly filled one rests only once the opposite side is empty |
| Soundness.CancelSound | order_forge/order_book.cpp:50-64 | so does every cancel |
| Soundness.AddLive | order_forge/order_book.cpp:30-43 | every order, whatever its id, leaves both sides live and in order and the book uncrossed |
| Soundness.DeleteLive | order_forge/book_side.h:42-46 | deleting at a price leaves a side live and in order, with no better best price |
| Soundness.RestSoundIff | order_forge/order_book.cpp:169-172 | an order can rest and leave the book sound if and only if its id is new to the index or the index has it for this side and price |
| Soundness.MatchExhausts | order_forge/book_side.h:61-77 | after a match the order is filled or the opposite side is empty |
| Soundness.CrossesIff | order_forge/order_book.cpp:155-162 | on a side in order, comparing with the best price decides whether anything is within the limit |
| Soundness.AddSides | order_forge/order_book.cpp:74-113 | both sides, the order and the trades of every call follow from whether the order meets anything |
| Soundness.IndexedPrice | order_forge/order_book.cpp:53-60 | on a sound book the index gives the one side and price where an id can rest |
| Soundness.CancelById | order_forge/order_book.cpp:53-61 | on a sound book a cancel at the indexed price deletes exactly by id |
| Runs.ReachableLive | order_forge/order_book.cpp:16-72 | in every run, whatever ids its orders have, the sides hold only live orders in priority order and the book is never crossed |
| Runs.ReachableSound | order_forge/order_book.cpp:16-72 | every book reachable by a legal run is moreover right about ids: every live id rests once and is indexed with its true side and price |
| Statuses.StatusesAgree | order_forge/matching_engine.cpp:16-31 | in every run, every order ever reported and every live one wants no more than at first and is FILLED, PARTIAL, OPEN or REJECTED exactly as its quantities say; only LIMIT orders rest |
| Statuses.SweepTruthful | order_forge/matching_engine.cpp:20-29 | a sweep leaves and reports only orders whose status agrees |
| Runs.TimePriority | order_forge/data_types/hashed_linked_list.h:67-78 | in every book reachable by a legal run, orders at one price stand in the order in which they were submitted |
| DepthFeed.FeedIsDepth | order_forge/order_book.cpp:66-95 | for every run, replaying the level updates over an empty map gives exactly the depth of the live orders |
| DepthFeed.NeverShowsCrossed | order_forge/order_book.cpp:74-152 | for every run and every prefix of its level updates, also one that ends inside a call, what the prefix shows has every bid below every ask |
| DepthFeed.CallNotCrossed | order_forge/order_book.cpp:74-152 | the same for the updates of one call, from any right view of an uncrossed book |
| DepthFeed.MatchShown | order_forge/order_book.cpp:147-152 | a sweep's updates take the shown depth from before the sweep to after it |
| DepthFeed.RestShown | order_forge/order_book.cpp:84-95 | the update of a resting order does |
| DepthFeed.CancelShown | order_forge/order_book.cpp:53-71 | the update of a cancel does, also for an id that was filled long ago |
| Ledger.LedgerBalances | order_forge/matching_engine.cpp:16-39 | for every legal run in which no order is submitted under the id of a live one, each order has quantity = remaining + all that trades naming it, on either side, have moved since it was submitted; trades name nobody else; every live order is as its owner last heard |
| Ledger.AddBalancedIff | order_forge/matching_engine.cpp:33-34 | a legal order leaves the accounts balanced if and only if its id is not that of a live order |
| Ledger.FreshLedger | order_forge/matching_engine.cpp:16-39 | if no id is ever given twice, that is all trades of the run |
| Ledger.SweepQuantities | order_forge/matching_engine.cpp:16-34 | the trades of a sweep move each passive order by its share and the crosser by the sum, and name nobody else |
| Ledger.SweepReports | order_forge/order_book.cpp:126-130 | the notices of a sweep report each touched order with its share gone, and nobody else |
| Ledger.SweepNames | order_forge/matching_engine.cpp:33-34 | trade i of a sweep is at the price of order i of the queue, on the crosser's side, and carries the ids and accounts of both |
| Lifecycles.NothingMadeUp | order_forge/order_book.cpp:16-48 | in every run, whatever is live or reported is an order that was submitted, with its side, price, quantity, type and account, under the id it brought or else the one it was given |
| Lifecycles.TradesArePaired | order_forge/matching_engine.cpp:33-34 | in every run, each trade is between a LIMIT order and a later order of the other side, at the first one's price and in the second one's direction, and carries the ids and accounts of both |
| Lifecycles.NoticesFollowTrades | order_forge/order_book.cpp:45-130 | a call reports the resting order of each of its trades, in turn, and last the order itself |
| Lifecycles.LiveIff | order_forge/order_book.cpp:74-90 | in every run whose orders can be told apart, an order is live if and only if it is a LIMIT order last reported OPEN or PARTIAL and no cancel has come for its id since |
| Lifecycles.WhatBecomes | order_forge/order_book.cpp:16-72 | a LIMIT order is known under the id it brought or was given, and is live on its side as last reported if and only if it is not FILLED and no cancel for that id has come since |
| Lifecycles.LatestReports | order_forge/order_book.cpp:45-47 | the last notice under an id is about the last order submitted under it |
| Lifecycles.GoneIff | order_forge/price_level.cpp:51-53 | a sweep takes out exactly the orders that get all they want |
| Calls.SweepsUntilExhausted | order_forge/order_book.cpp:98-134 | an order that traded is filled or has emptied the other side; REJECTED if and only if not LIMIT and nothing traded; OPEN if and only if LIMIT and nothing traded; what was traded is what both sides lost; a MARKET or FILL_AND_KILL order changes neither its own side nor the index |
| Calls.TradesIff | order_forge/order_book.cpp:98-162 | a MARKET order trades if and only if the other side is not empty, a LIMIT or FILL_AND_KILL order if and only if something there is within its price, and then its first trade is within it; one that does not trade leaves the other side alone, and if not LIMIT is only rejected |
| Calls.LeftoverRests | order_forge/order_book.cpp:78-95 | something is left of a LIMIT order if and only if it stands in its side afterwards, in its place, with the orders from before and no others; its side then wants that much more, the index has its side and price, and the level's new total is published last |
| Calls.UpdatesAreChanges | order_forge/order_book.cpp:92-152 | a call publishes exactly the levels whose total it changed, each of them once |
| Calls.CancelUnknown | order_forge/order_book.cpp:62-64 | cancelling an id that the index does not hold does nothing, and no such order is live |
| Calls.MarketSplit | order_forge/order_book.cpp:98-105 | two MARKET orders for a and b leave the book that one for a + b leaves, and take as much from each passive order |
| Calls.CancelLive | order_forge/order_book.cpp:50-61 | takes out that order and nothing else, and tells the level's smaller total |
| Calls.CancelStale | order_forge/order_book.cpp:50-61 | leaves both sides as they are |
| Calls.AddThenCancel | order_forge/order_book.cpp:50-90 | adding a LIMIT order that does not cross and cancelling it restores the book exactly, and the last update restates the total from before |
| Calls.CancelMissesIff | order_forge/order_book.cpp:50-64 | after an order has come to rest, a cancel by its id leaves it there if and only if the index had that id at another place; either way no second cancel can find it |
| Calls.LimitKeptIff | order_forge/order_book.cpp:155-162 | all trades of a LIMIT or FILL_AND_KILL order are within its price if and only if nothing is offered within it, or the order wants no more than is offered within it, or nothing is offered beyond it |
| Calls.LimitIsNotKept | order_forge/book_side.h:64-68 | a legal run of three LIMIT orders, the last of which trades beyond its price |
| RingBuffers.RingBuffer.constructor | logger/ring_buffer.h:8-14 | a new buffer stands at the start of its first block, with no end marked and no record |
| RingBuffers.RingBuffer.GetWritePointer | logger/ring_buffer.h:16-29 | if the wanted bytes fit behind the write offset, that place and nothing changes; otherwise the start of the next block, with the old block's end marked at the old offset; if it fits or the reader may be left, no unread record is lost |
| RingBuffers.RingBuffer.LeavingIsSafeIff | logger/ring_buffer.h:20-26 | of a buffer with these unread records: a wrap leaves its reader told the truth until all are read if and only if the reader may be left |
| RingBuffers.RingBuffer.StoreRecord | logger/logger.h:47-60 | the reserved bytes become the record and no unread byte changes |
| RingBuffers.RingBuffer.ForwardWritePointer | logger/ring_buffer.h:31-34 | what was stored becomes the newest unread record |
| RingBuffers.RingBuffer.CanRead | logger/ring_buffer.h:36-48 | true exactly when there is an unread record |
| RingBuffers.RingBuffer.GetReadPointer | logger/ring_buffer.h:49-52 | points at all the bytes of the oldest unread record |
| RingBuffers.RingBuffer.ForwardReadPointer | logger/ring_buffer.h:54-54 | the oldest record is read and the rest stay |
| RingBuffers.RingBuffer.CheckWrapReadPointer | logger/ring_buffer.h:76-83 | moves the reader on from the end of a finished block and loses nothing |
| RingBuffers.WriterStep | logger/logger.h:47-60 | any one step of the writer (reserve, store, forward) leaves the positions where the step takes them and the unread records as in a plain queue |
| RingBuffers.ReaderStep | logger/logger.h:62-82 | so does any one step of the reader (poll, locate, forward), and what it is told and shown is what the queue would say |
| RingBuffers.Interleave | logger/logger.h:47-82 | however the single steps of writer and reader fall between one another, if the writer leaves a block only when it may then every answer of can_read and every record read is that of a plain queue: no write is refused, lost, doubled or moved |
| RingBuffers.FittingIsOrderly | logger/ring_buffer.h:20-26 | a schedule whose records fit in one block is orderly wherever the reader is |
| RingBuffers.InStepTruth | logger/ring_buffer.h:36-54 | while writer and reader are in step, can_read answers truly until everything is read |
| RingBuffers.WrapIsSafeIff | logger/ring_buffer.h:20-26 | after a wrap a reader that just keeps reading is told the truth until everything is read if and only if it was in the writer's block (with one block: and had read all of it); then the two are still in step |
| RingBuffers.LappedReader | logger/ring_buffer.h:36-83 | for every wrap with the reader in another block: on finishing its block it enters the one left behind, and at the end of it is told that there is more and stays where it is; with two blocks it is told that there is nothing while its own block is unread |
| RingBuffers.LaidAppend | logger/ring_buffer.h:31-34 | a record stored right after those laid in a block joins them |
| PoolAllocators.PoolAllocator.constructor | order_forge/data_types/pool_allocator.h:19-19 | starts with one block of the initial size, all free |
| PoolAllocators.PoolAllocator.ExpandPool | order_forge/data_types/pool_allocator.h:56-65 | adds one block of the larger of the planned and the wanted size, all of it free, and plans twice that next |
| PoolAllocators.PoolAllocator.Allocate | order_forge/data_types/pool_allocator.h:24-31 | hands out one slot that was not live, the last of the free list, growing first exactly when fewer than n are free |
| PoolAllocators.PoolAllocator.Deallocate | order_forge/data_types/pool_allocator.h:33-33 | a live slot becomes free |
| PoolAllocators.PartitionGrows | order_forge/data_types/pool_allocator.h:59-63 | with a new block, every slot is still exactly one of free and live |
| PoolAllocators.PoolAllocator.DoublesEachTime | order_forge/data_types/pool_allocator.h:57-64 | after k expansions the free and live slots together are at least initial * (2^k - 1) |
| PoolAllocators.GrowOnce | order_forge/data_types/pool_allocator.h:57-64 | one expansion keeps the planned size and the slots created at what doubling every time would give |
| PoolAllocators.SlotsConserved | order_forge/data_types/pool_allocator.h:24-33 | free and live slots together are as many as were ever created |

## Left out

- Books.Admissible: a LIMIT order for a zero quantity is not modelled; the code would let it rest on a level whose total may be 0.
- Ledger.LedgerBalances: not stated for runs in which an order is submitted under the id of a live one; `Ledger.AddBalancedIff` says that it fails there.
- RingBuffers.Interleave: not stated for schedules in which the writer leaves a block when it may not; `RingBuffers.WrapIsSafeIff` and `RingBuffers.LappedReader` say what happens there.
- RingBuffers.RingBuffer.GetWritePointer: each method is one atomic step, so the memory order of the several stores inside one is not modelled; nor is a request for more than a block, for which there is no room anywhere.
- PoolAllocators.PoolAllocator.Allocate: size_t is unbounded here and the system allocator never fails; the bytes of a slot are not modelled.
- OrderBookData.OrderBookDataMap.GetBookLevel: std::flat_map is a sorted sequence of levels, its keys being the levels' own prices.
- Freeing memory: `delete` of list nodes, leaked levels that were erased from the map, and the pmr resources.
- The public last-trade update, which repeats price, quantity and side of the trade, and trade ids, order timestamps and client order ids, which are only copied.
- The symbol carried by trades and updates, which is always the book's, and the tick size, which matching never uses.
- Handlers are taken to be installed: the three feeds are what they have been given. Logging is left out.
- BookSide::remove_orders, which nothing calls; the clock of the id generator; scaled-integer construction from floating point.
- The event loop, the applications, the JSON protocol and the logger's formatting and files.
