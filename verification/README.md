# A verified model of the market-data pipeline

This project models the three cores of the low-latency trading repository and proves what they are for.

* **Order table, books and market state** (`OrderTable`, `Masking`, `Book`, `Levels`, `Reference`, `MarketState`,
  `Runs`, `MessageEffects`, `FullTable`). The open-addressed order table is an array of slots with linear probing and
  backward-shift deletion, and is proved to be a finite map. The market state drives it together with price levels
  that orders reach through direct handles. `Reference` is what the Nasdaq TotalView-ITCH 5.0 order messages mean on a
  plain map of resting orders; levels and quotes are sums and extremes over that map. Every handler is proved to do to
  its two redundant structures what the reference does to the map, and runs of the reference carry the properties of
  whole runs. `MessageEffects` says of the reference, in prices, sides, shares and counters, what each message does.
* **The lock-free ring and its threads** (`SpscRing`, `Drain`). `push` and `pop` are split into their atomic steps,
  interleaved by an arbitrary schedule, with the stale cached indices; the receiver loop, `runQueued` and the event
  consumer run on the same steps.
* **Pack, lose, sequence, recover** (`Wire`, `Codec`, `BinaryFile`, `Packing`, `SequenceRecovery`, `IndexFile`,
  `Recovery`, `StaleIndex`, `FeedHandler`, `EndToEnd`, `QueuedFeed`). The MoldUDP64 codec, the BinaryFILE reader, the
  load generator's packing loop, the sparse index and its file, gap recovery and the feed handler, up to two theorems:
  however the datagrams of a file are lost, repeated or reordered, recovery source, feed handler and market state
  together end as the reference run over the file's own records (`EndToEnd.RunPipeline`); and so they do with the
  receiver's thread and a ring that may be full in between, at every exit of `runQueued`
  (`QueuedFeed.QueuedFeedIsSlice`, `QueuedFeed.FeedMarket`), where a drained exit leaves nothing out that was queued in
  time (`QueuedFeed.DrainedFeedLosesNothing`). `Arithmetic` holds what all of these share about numbers.

Code that changes things step by step is modelled by classes and methods with loops; each method is tied by its
contract to a specification function, and the lemmas are about those functions. Concurrent code is a step system.

Where the code does not do what a reader might expect, the exact condition is proved:

* a deletion from the order table ends if and only if the table is not full (`OrderTable.FullTableNeverStops`,
  `OrderTable.OrderStore.RemoveAt`), and for every capacity there is a run that fills it: every removal then scans
  for ever (`FullTable.FillTable`);
* an Add keeps book and table in agreement if and only if its id is known or a slot is free, because the level is
  changed before the table refuses (`MarketState.ItchMarketState.OnAdd`); a run reaches that too
  (`FullTable.FullTableBreaks`);
* `size()`, `full()` and `empty()` of the ring are exact for the two owning threads, and `size()` is not for a third
  one (`SpscRing.SizeIsExactForOwners`, `SpscRing.FullIsExactForOwners`, `SpscRing.EmptyIsExactForOwners`,
  `SpscRing.SizeMisleadsOthers`);
* a stored index is tied to its file by the file's size only. One written for an earlier file of that size is
  accepted, and recovery can then return the wrong record under the right sequence number
  (`StaleIndex.StaleIndexMisleads`). An accepted index answers every request rightly if and only if no recoverable
  record lies beyond the messages it counts and every mark leads to the records it is there for
  (`StaleIndex.AnswersAllIff`); where all records are short and the count is right, that means the rest of the file
  (`StaleIndex.FollowsIff`). Marks at equal offsets in both files are enough (`StaleIndex.StaleIndexAnswers`) and what
  it takes to describe the new file (`Recovery.DescribesOtherIff`), but more than it takes to answer
  (`StaleIndex.OtherMarksMayAnswer`).

`dafny verify dfyconfig.toml` checks the whole project.

## Model

| member | source | states |
|---|---|---|
| OrderTable.OrderStore.constructor | common/market_data/normalized/OrderStore.h:247-266 | A new table is well formed, stores nothing and has peak 0, for any capacity above zero and any hash below it. |
| OrderTable.OrderStore.FindIndex | common/market_data/normalized/OrderStore.h:561-592 | The probe loop finds the slot of an id if and only if the id is stored, and that slot holds its stored order. |
| OrderTable.OrderStore.Contains | common/market_data/normalized/OrderStore.h:429-435 | Membership in the table is membership in the map. |
| OrderTable.OrderStore.Occupy | common/market_data/normalized/OrderStore.h:307-327 | Filling the first empty slot of a probe path inserts exactly that order, counts it, and raises the peak only past the old one. |
| OrderTable.OrderStore.FindFree | common/market_data/normalized/OrderStore.h:299-335 | The probe loop of an insertion stops at the first empty slot on the path of an id that is not stored; without one, the id is stored or every slot is taken. |
| OrderTable.OrderStore.Add | common/market_data/normalized/OrderStore.h:291-338 | Insert if absent: refused exactly when the id is stored or every slot is occupied; otherwise the map gains exactly this order. |
| OrderTable.OrderStore.SetQuantity | common/market_data/normalized/OrderStore.h:409-421 | Writing the quantity through the stored reference changes one order's quantity in the map and nothing else. |
| OrderTable.OrderStore.ShiftStep | common/market_data/normalized/OrderStore.h:471-503 | One step of the scan moves an order into the hole exactly when the hole lies on its probe path, and keeps every stored order. |
| OrderTable.OrderStore.ShiftBack | common/market_data/normalized/OrderStore.h:462-509 | The scan ends with a well-formed table that stores exactly the kept orders, every probe path occupied again. |
| OrderTable.OrderStore.RemoveAt | common/market_data/normalized/OrderStore.h:462-509 | With an empty slot somewhere, exactly one id goes and every other id keeps its order; it terminates. |
| OrderTable.OrderStore.Remove | common/market_data/normalized/OrderStore.h:441-456 | True exactly for a stored id; afterwards the map without that id. |
| OrderTable.OrderStore.Apply | common/market_data/normalized/OrderStore.h:291-456 | Any one operation changes and answers like the map operation it stands for. |
| OrderTable.OrderStore.Perform | common/market_data/normalized/OrderStore.h:291-536 | For every operation sequence the table ends and answers like the map, and peakSize is the largest size ever reached. |
| OrderTable.PeakIsLargest | common/market_data/normalized/OrderStore.h:307-327 | The peak of a run is the largest of the old peak and the sizes after each operation, and no larger. |
| OrderTable.FullIffNoEmptySlot | common/market_data/normalized/OrderStore.h:299-338 | A well-formed table has an empty slot exactly when it stores fewer orders than it has slots. |
| OrderTable.ProbeMisses | common/market_data/normalized/OrderStore.h:561-592 | An empty slot reached along the probe path proves that the id is stored nowhere. |
| OrderTable.InsertKeepsShape | common/market_data/normalized/OrderStore.h:307-327 | The probe-path invariant survives filling the first empty slot of a new id's path. |
| OrderTable.UpdateKeepsShape | common/market_data/normalized/OrderStore.h:409-421 | The invariant survives rewriting a stored order in place. |
| OrderTable.VacateKeepsIndex | common/market_data/normalized/OrderStore.h:462-470 | Taking an order out leaves a hole that may cut only paths of orders the scan has not reached. |
| OrderTable.MoveKeepsMap | common/market_data/normalized/OrderStore.h:488-500 | Moving an order to the hole changes where it is, not what is stored. |
| OrderTable.MoveKeepsPaths | common/market_data/normalized/OrderStore.h:482-500 | Moving an order whose path crosses the hole repairs every path up to the new hole. |
| OrderTable.SkipKeepsPaths | common/market_data/normalized/OrderStore.h:482-502 | An order whose path does not cross the hole can stay. |
| OrderTable.ScanEnds | common/market_data/normalized/OrderStore.h:471-509 | When the scan meets an empty slot, no path crosses the hole any more. |
| OrderTable.FullTableNeverStops | common/market_data/normalized/OrderStore.h:471-503 | On a full table every slot the scan ever looks at is occupied, after any number of steps: the loop has no end. |
| Masking.AndWithMask | common/market_data/normalized/OrderStore.h:262-266 | Conjunction with 2^k - 1 is the remainder modulo 2^k, for every k. |
| Masking.MaskIsMod | common/market_data/normalized/OrderStore.h:265-266 | `& Mask` is the remainder modulo 2^22. |
| Masking.MaskedNext | common/market_data/normalized/OrderStore.h:333-334 | `(index + 1) & Mask` is the cyclically next slot. |
| Masking.MaskedDistance | common/market_data/normalized/OrderStore.h:482-486 | `(b - a) & Mask`, the 64-bit subtraction wrapping, is the cyclic distance from a to b. |
| Book.BookSide.Add | common/market_data/book/BookSide.h:51-66 | Finds or creates the level and adds the order; live handles stay live and only the returned one can become live. |
| Book.BookSide.Reduce | common/market_data/book/BookSide.h:68-75 | Through a live handle the level loses the quantity, or nothing changes if it has less; no handle dies. |
| Book.BookSide.RemoveOrder | common/market_data/book/BookSide.h:94-111 | Through a live handle one order leaves the level; exactly the handles of an erased level die. |
| Book.BookSide.Best | common/market_data/book/BookSide.h:161-175 | Nothing exactly for a side without levels; otherwise the highest key of the level map for bids, the lowest for asks, with its quantity. |
| Book.OrderBook.BboNow | common/market_data/book/OrderBook.h:127-146 | The quote read off the book is made of the best levels of its two sides. |
| Book.BookStore.GetOrCreate | common/market_data/book/BookStore.h:119-137 | The instrument's one book; exactly this instrument joins those ever created, and the size counts them. |
| Book.BookStore.Find | common/market_data/book/BookStore.h:140-153 | A book exactly for the instruments that GetOrCreate was ever called for, and the one it returned. |
| LevelAlgebra.LevelBound | common/market_data/book/PriceLevel.h:16-55 | A level's quantity is at most orderCount * (2^32 - 1), and below 2^54 with fewer than 2^22 orders. |
| LevelAlgebra.ExactDeposit | common/market_data/book/PriceLevel.h:16-23 | The wrapping 64-bit additions of a level are exact sums. |
| LevelAlgebra.SideAfterInsert | common/market_data/book/BookSide.h:51-66 | Adding an order to its level turns the levels of its side into those of the larger order set, and touches no other side. |
| LevelAlgebra.OwnSideAfterDelete | common/market_data/book/PriceLevel.h:39-56 | Removing an order from its level turns the levels into those of the smaller order set, and is never refused. |
| LevelAlgebra.OwnSideAfterTaking | common/market_data/book/PriceLevel.h:25-56 | Taking shares reduces the level, or removes the order when they were all it had; never refused. |
| LevelAlgebra.OtherSideAfterChange | common/market_data/book/BookSide.h:68-111 | Changing or removing an order leaves every other side's levels as they were. |
| LevelAlgebra.ReduceThenWithdraw | common/market_data/itch/ItchMarketState.h:506-528 | Reducing a level by all of an order and then removing it with nothing left is removing it outright. |
| LevelAlgebra.DepositShows | common/market_data/itch/ItchMarketState.h:359-370 | A level change that no order backs cannot go unnoticed: the levels differ. |
| LevelAlgebra.TopOfLevels | common/market_data/book/BookSide.h:161-175 | The best level carries the best resting price and the sum of everything resting there. |
| MarketState.ItchMarketState.constructor | common/market_data/itch/ItchMarketState.h:1017-1046 | A new state has empty, agreeing structures and no error counted. |
| MarketState.ItchMarketState.TakeKeepsAgreement | common/market_data/itch/ItchMarketState.h:506-536 | Taking shares off one order in both structures keeps levels, table and handles in agreement. |
| MarketState.ItchMarketState.InsertKeepsAgreement | common/market_data/itch/ItchMarketState.h:359-370 | Adding an order to both structures keeps them in agreement, its handle live at its price. |
| MarketState.ItchMarketState.RefusedInsertTears | common/market_data/itch/ItchMarketState.h:359-370 | If the table refuses after the level was changed, the structures disagree. |
| MarketState.ItchMarketState.Shrink | common/market_data/itch/ItchMarketState.h:506-564 | The reduction, and removal when nothing is left, take exactly these shares from both structures; no defensive branch is taken. |
| MarketState.ItchMarketState.Erase | common/market_data/itch/ItchMarketState.h:841-853 | The order leaves both structures. |
| MarketState.ItchMarketState.Insert | common/market_data/itch/ItchMarketState.h:350-370 | The order enters both structures if a slot is free; otherwise only the level changes and they disagree. |
| MarketState.ItchMarketState.NotifyTrade | common/market_data/itch/ItchMarketState.h:261-279 | One trade event if a handler is installed, and nothing else. |
| MarketState.ItchMarketState.BboIs | common/market_data/book/OrderBook.h:127-146 | In an agreeing state the book's quote is the best bid and ask over the resting orders, which MessageEffects.QuoteIsBest spells out in prices. |
| MarketState.ItchMarketState.NotifyBboChange | common/market_data/itch/ItchMarketState.h:242-259 | One quote event exactly when a handler is installed and the quote moved. |
| MarketState.ItchMarketState.OnAdd | common/market_data/itch/ItchMarketState.h:326-442 | A and F: the reference Add, in agreement afterwards, exactly if the id is known or a slot is free; otherwise counted as duplicate and in disagreement. |
| MarketState.ItchMarketState.OnOrderExecuted | common/market_data/itch/ItchMarketState.h:444-564 | E is the reference execution at the order's price, error counters included. |
| MarketState.ItchMarketState.OnOrderExecutedWithPrice | common/market_data/itch/ItchMarketState.h:566-682 | C is the reference execution at the message's price, error counters included. |
| MarketState.ItchMarketState.OnOrderCancel | common/market_data/itch/ItchMarketState.h:684-791 | X is the reference cancel, error counters included. |
| MarketState.ItchMarketState.OnOrderDelete | common/market_data/itch/ItchMarketState.h:793-868 | D is the reference delete, error counter included. |
| MarketState.ItchMarketState.OnOrderReplace | common/market_data/itch/ItchMarketState.h:870-994 | U is the reference replace, onto another id or the same one; the insertion is never refused. MessageEffects.ReplaceEffect says what that is in the message's own fields. |
| MarketState.ItchMarketState.OnTrade | common/market_data/itch/ItchMarketState.h:996-1013 | P notifies one trade and changes no order. |
| MarketState.ItchMarketState.OnTaking | common/market_data/itch/ItchMarketState.h:444-791 | E, C and X take exactly the shares from the order, remove it exactly when they consume all that was left of it, and touch no other order. |
| MarketState.ItchMarketState.OnMessage | common/market_data/itch/ItchMarketState.h:33-44 | Any message that removes nothing from a full table: with room it does to the two structures what the reference does to a map of orders, and they agree again; an Add without room is counted as a duplicate and leaves them in disagreement. |
| MarketState.ItchMarketState.OnMessages | common/market_data/itch/ItchMarketState.h:326-1013 | After every run with room for its messages the state is the reference run's, levels, table and handles agree, missingBooks, failedBookReductions and failedBookRemovals have not moved, and notified quotes follow the books. |
| FullTable.FillingFills | common/market_data/normalized/OrderStore.h:299-338 | For every number of orders up to the capacity, Adds of that many different ids always have room, and exactly they rest afterwards. |
| FullTable.FullHasNoRoom | common/market_data/normalized/OrderStore.h:299-338 | The run that fills the table leaves no room for one more Add, nor for a removal. |
| FullTable.FillTable | common/market_data/itch/ItchMarketState.h:326-442 | For every capacity, a market state whose table has every slot taken, reached by a run that has room throughout; the removal of any resting order would scan for ever. |
| FullTable.RemovalNeverEnds | common/market_data/normalized/OrderStore.h:471-503 | In any valid market state with a full table, the scan of a removal still sees an occupied slot after any number of steps. |
| FullTable.FullTableBreaks | common/market_data/itch/ItchMarketState.h:359-370 | One more Add of a new id there is counted as a duplicate and leaves levels and table in disagreement. |
| Runs.BelowCapacityHasRoom | common/market_data/normalized/OrderStore.h:299-338 | Active orders strictly below the capacity before each message are room enough for the whole run. |
| Runs.RunConcat | common/market_data/itch/ItchMarketState.h:33-44 | Runs compose. |
| Runs.QuotesEqual | common/market_data/book/OrderBook.h:19-61 | Between quotes of books, operator== is equality of everything. |
| Runs.ChangeKeepsQuotes | common/market_data/itch/ItchMarketState.h:242-259 | Comparing quotes before and after one change keeps every instrument's last notified quote current. |
| Runs.QuotesReconstructBooks | common/market_data/itch/ItchMarketState.h:242-259 | With a handler from the start, after any run the last quote notified of each instrument is its best bid and ask, and no notification repeats the one before. |
| MessageEffects.QuoteIsBest | common/market_data/book/OrderBook.h:127-146 | Every resting buy is priced at most the bid and every resting sell at least the ask; each is some order's price, with the whole level's quantity; a side is quoted exactly if an order of it rests. |
| MessageEffects.LastQuoteIsBest | common/market_data/itch/ItchMarketState.h:242-259 | After any run from the start with a handler, the last quote noted for an instrument bounds every resting order's price so. |
| MessageEffects.AddEffect | common/market_data/itch/ItchMarketState.h:326-442 | An accepted A or F rests with the message's id, instrument, time, price and shares, on the buy side for 'B' and the sell side otherwise; the level there gains its shares and one order, and nothing else changes; a known id changes no order. |
| MessageEffects.ReplaceEffect | common/market_data/itch/ItchMarketState.h:870-994 | An accepted U removes the old order and puts one with the message's id, time, price and shares on the same side of the same instrument; the level at the new price gains exactly that, nothing else changes; any other U changes no order. |
| MessageEffects.DeleteEffect | common/market_data/itch/ItchMarketState.h:793-868 | D of a known order removes it and takes what was left of it from its level. |
| MessageEffects.TakeEffect | common/market_data/itch/ItchMarketState.h:444-791 | E, C and X of enough remaining shares take exactly those off the order and its level, the order going when they were all; otherwise no order changes. |
| MessageEffects.TradeEffect | common/market_data/itch/ItchMarketState.h:483-613 | With a handler E notes a trade at the order's price, C at the message's, P the message's own, each with its instrument, side, time and shares; no other message notes one. |
| MessageEffects.QuoteEffect | common/market_data/itch/ItchMarketState.h:242-259 | With a handler exactly one quote is noted if some instrument's quote moved: its new one, under the message's time; otherwise none. |
| MessageEffects.CounterEffect | common/market_data/itch/ItchMarketState.h:326-994 | Each error counter grows by one exactly for the messages it counts. |
| Runs.ExecutionNotifies | common/market_data/itch/ItchMarketState.h:483-506 | An execution notifies exactly its shares, once, before the quote it may cause. |
| Runs.RecordKeepsBalance | common/market_data/itch/ItchMarketState.h:444-994 | One message keeps every order's account balanced. |
| Runs.SharesConserved | common/market_data/itch/ItchMarketState.h:444-791 | Over every run and for every lifetime of an order: initial = executed + cancelled + remaining (or withdrawn), and the notified shares are the executed ones. |
| Runs.EveryLifeAddsUp | common/market_data/itch/ItchMarketState.h:326-994 | From the start of a session, after any messages, the account of every order that rests or ever rested adds up. |
| SpscRing.FullTest | common/ring_buffer/SpscRingBuffer.h:286-302 | The index test against a possibly stale read position says full exactly when the ring would be full if that position were current. |
| SpscRing.SameSlot | common/ring_buffer/SpscRingBuffer.h:393-408 | Within one round two positions share a slot only if they are the same. |
| SpscRing.ConstructKeepsInv | common/ring_buffer/SpscRingBuffer.h:305-311 | The slot a push constructs in is dead, and no other position's slot changes. |
| SpscRing.MoveKeepsInv | common/ring_buffer/SpscRingBuffer.h:411-417 | The slot a pop moves from is alive and holds the oldest published value. |
| SpscRing.DestroyKeepsInv | common/ring_buffer/SpscRingBuffer.h:419-420 | What a pop destroys was moved from and not destroyed before. |
| SpscRing.ReleaseKeepsInv | common/ring_buffer/SpscRingBuffer.h:422-426 | Releasing a slot makes it the last of the next round. |
| SpscRing.StepKeepsInv | common/ring_buffer/SpscRingBuffer.h:270-429 | Every step of either thread keeps the window of real and cached positions and the state of every slot. |
| SpscRing.SafeUnderEverySchedule | common/ring_buffer/SpscRingBuffer.h:270-429 | Under every interleaving: popped is a prefix of pushed, storage is never misused, and cachedRead <= read <= cachedWrite <= write <= cachedRead + Capacity - 1. |
| SpscRing.StepRefinesQueue | common/ring_buffer/SpscRingBuffer.h:270-429 | Publishing appends to a queue, releasing takes its head, and no other step is visible in it. |
| SpscRing.RefusedIffFull | common/ring_buffer/SpscRingBuffer.h:289-302 | push is refused if and only if the queue holds Capacity - 1 values at the refresh. |
| SpscRing.EmptyHandedIffEmpty | common/ring_buffer/SpscRingBuffer.h:393-408 | pop returns nothing if and only if the queue is empty at the refresh. |
| SpscRing.RefreshesOnlyIfNeeded | common/ring_buffer/SpscRingBuffer.h:286-302 | push loads the read index only if the cached one says full, pop the write index only if the cached one says empty. |
| SpscRing.PushAloneAppends | common/ring_buffer/SpscRingBuffer.h:325-376 | A push with nothing in between appends, or leaves a full queue alone. |
| SpscRing.PopAloneTakes | common/ring_buffer/SpscRingBuffer.h:381-429 | A pop with nothing in between takes the head, or leaves an empty queue alone. |
| SpscRing.SizeIsExactForOwners | common/ring_buffer/SpscRingBuffer.h:470-492 | size() counts the values between the two positions exactly if the read position has not overtaken the write position loaded: for the producer it is exact at its second load, for the consumer at its first. |
| SpscRing.FullIsExactForOwners | common/ring_buffer/SpscRingBuffer.h:450-467 | full() with any steps of the other thread between its two loads: exact for the producer at the second load, for the consumer at the first. |
| SpscRing.EmptyIsExactForOwners | common/ring_buffer/SpscRingBuffer.h:433-447 | empty() with any steps of the other thread between its two loads: exact for the consumer at the second load, for the producer at the first. |
| SpscRing.SizeMisleadsOthers | common/ring_buffer/SpscRingBuffer.h:470-492 | For a third thread size() of a ring empty before and after can be Capacity - 1. |
| SpscRing.SpscRingBuffer.constructor | common/ring_buffer/SpscRingBuffer.h:240-247 | A new ring of any capacity above zero is an empty queue. |
| SpscRing.SpscRingBuffer.Push | common/ring_buffer/SpscRingBuffer.h:270-376 | The object does the machine's push: false exactly when Capacity - 1 values are queued, otherwise the value is appended. |
| SpscRing.SpscRingBuffer.Place | common/ring_buffer/SpscRingBuffer.h:305-321 | Construct and publish: exactly this value joins the queue at its end. |
| SpscRing.SpscRingBuffer.Pop | common/ring_buffer/SpscRingBuffer.h:381-429 | The object does the machine's pop: nothing exactly when nothing is queued, otherwise the oldest value. |
| SpscRing.SpscRingBuffer.Take | common/ring_buffer/SpscRingBuffer.h:411-426 | Move, destroy, release: the oldest value comes out and its slot is dead. |
| SpscRing.SpscRingBuffer.IsEmpty | common/ring_buffer/SpscRingBuffer.h:433-447 | Equal indices mean an empty queue. |
| SpscRing.SpscRingBuffer.IsFull | common/ring_buffer/SpscRingBuffer.h:450-467 | Between calls full() means Capacity - 1 queued values; SpscRing.FullIsExactForOwners says what it means while the other thread moves. |
| SpscRing.SpscRingBuffer.Size | common/ring_buffer/SpscRingBuffer.h:470-492 | size() is the length of the queue. |
| SpscRing.SpscRingBuffer.Destroy | common/ring_buffer/SpscRingBuffer.h:507-520 | After destruction no slot holds a live value. |
| Drain.LoopStepKeepsInv | common/market_data/MarketEventConsumer.h:22-45 | Every step of producer and consumer loop keeps the consumed count equal to what was popped. |
| Drain.DrainedOnReturn | common/market_data/MarketEventConsumer.h:30-44 | run returns only after consuming, in order, everything published before producerDone was raised; everything, if the producer then keeps quiet. |
| Drain.ReturnsWhenDone | common/market_data/MarketEventConsumer.h:30-44 | Once producerDone is up and nothing is queued, run returns with its next look. |
| Drain.FeedStepKeepsInv | feed_handler/MoldItchFeedHandler.cpp:473-518 | Every step of receiver, handler and stop requests keeps the counters, the bound on what is in flight, and that a loop has ended only if its flag fell. |
| Drain.LeavesOnlyIfStopped | feed_handler/MoldItchFeedHandler.cpp:510-518 | Under every schedule runQueued leaves for a stop request only if one was made, and drained or with the receive loop ended only if the receiver was stopped. |
| Drain.IdlePollDecides | feed_handler/MoldItchFeedHandler.cpp:473-518 | With nothing queued, a poll of runQueued leaves drained if the receiver has stopped, else for a stop request if there was one, else it is back at its pop. |
| Drain.CountsOutcome | common/market_data/moldudp64/MoldUdpReceiver.cpp:166-309 | A refused push counts a drop and measures nothing; an accepted one counts as queued and is followed by the measurement. |
| Drain.MeasuresContents | common/market_data/moldudp64/MoldUdpReceiver.cpp:166-309 | The occupancy measured is the number of datagrams queued, and the largest so far is kept. |
| Drain.EveryDatagramCounted | common/market_data/moldudp64/MoldUdpReceiver.cpp:166-309 | At every receive-loop head received = queued + queueFullDrops, queued is what was published, and the occupancy never exceeded Capacity - 1. |
| Drain.DrainedAfterReceiverStopped | feed_handler/MoldItchFeedHandler.cpp:473-518 | runQueued leaving by the receiver-stopped branch has processed everything queued before the flag fell; at most one datagram in flight is left. |
| Drain.DatagramsConserved | feed_handler/MoldItchFeedHandler.cpp:473-518 | With both threads ended, received = processed + dropped + left in the queue + the one malformed datagram, if any. |
| Wire.FromTo | common/market_data/moldudp64/MoldUdp64Codec.cpp:27-139 | Reading back a big-endian word gives the word. |
| Wire.ToFrom | common/market_data/moldudp64/MoldUdp64Codec.cpp:27-139 | Writing back a read word gives the bytes. |
| Wire.BlockAt | common/market_data/moldudp64/MoldUdp64Codec.cpp:311-339 | Where a block lies, its prefix reads as the payload's length and the payload follows. |
| Codec.WriteU16 | common/market_data/moldudp64/MoldUdp64Codec.cpp:27-39 | Writes the two big-endian bytes and nothing else. |
| Codec.WriteU64 | common/market_data/moldudp64/MoldUdp64Codec.cpp:42-78 | Writes the eight big-endian bytes and nothing else. |
| Codec.U64Read | common/market_data/moldudp64/MoldUdp64Codec.cpp:97-139 | The shifted and joined bytes are the word encoded there. |
| Codec.HeaderDecodes | common/market_data/moldudp64/MoldUdp64Codec.cpp:255-285 | A header is decoded if and only if twenty bytes are there, and it is the one encoded in them. |
| Codec.HeaderRoundTrip | common/market_data/moldudp64/MoldUdp64Codec.cpp:142-285 | Decoding an encoded header gives it back. |
| Codec.PacketLayout | common/market_data/moldudp64/MoldUdp64Codec.cpp:142-252 | Session in bytes 0-9, sequence number in 10-17, message count in 18-19 with its high byte first, blocks from 20 on. |
| Codec.BlockFound | common/market_data/moldudp64/MoldUdp64Codec.cpp:288-342 | A block that is found is the encoding of its payload. |
| Codec.NextMessage | common/market_data/moldudp64/MoldUdp64Codec.cpp:288-342 | Reads the block at the offset and moves past it; a cut payload still moves the offset past the length. |
| Codec.MessagesTile | feed_handler/MoldItchFeedHandler.cpp:279-317 | The messages of an accepted datagram tile it exactly from byte 20 to its end. |
| Codec.DecodeEncode | common/market_data/moldudp64/MoldUdp64Codec.cpp:142-342 | decode(encode(p)) is p for every packet. |
| Codec.EncodeDecode | common/market_data/moldudp64/MoldUdp64Codec.cpp:255-342 | encode(decode(d)) is d for every datagram that decodes. |
| Codec.BeginPacket | common/market_data/moldudp64/MoldUdp64Codec.cpp:142-171 | The buffer holds an open packet without messages, twenty bytes long. |
| Codec.AppendMessage | common/market_data/moldudp64/MoldUdp64Codec.cpp:174-240 | Appends exactly one block if the message is non-empty, short enough, countable and fits; otherwise nothing changes. |
| Codec.AppendKeepsOpen | common/market_data/moldudp64/MoldUdp64Codec.cpp:219-239 | After an append the buffer holds the open packet with one more message. |
| Codec.FinalizePacket | common/market_data/moldudp64/MoldUdp64Codec.cpp:243-252 | Writes the message count into the header. |
| Codec.FinalizedIsEncoded | common/market_data/moldudp64/MoldUdp64Codec.cpp:142-252 | begin, appends and finalize leave exactly the packet's encoding in the buffer. |
| BinaryFile.ItchStreamReader.ReadNext | common/market_data/itch/ItchStreamReader.cpp:26-114 | By the bytes at the position: end of session exactly at two zero bytes, incomplete exactly if fewer than two bytes are left or fewer than the non-zero length announces, else as many payload bytes as it announces. |
| BinaryFile.ReadMeans | common/market_data/itch/ItchStreamReader.cpp:26-114 | The same of a read at any offset, and where it leaves the stream. |
| BinaryFile.RecordAt | common/market_data/itch/ItchStreamReader.cpp:26-114 | Repeated reads yield the k-th record at the k-th offset, and stop being messages exactly after the last. |
| BinaryFile.OffsetsGrow | common/market_data/itch/ItchStreamReader.cpp:68-113 | Offsets grow by at least three bytes with every record. |
| BinaryFile.ReadBack | common/market_data/itch/ItchStreamReader.cpp:26-114 | Reading framed payloads gives exactly those payloads, then end of session if two zero bytes follow, incomplete if nothing or a cut record follows. |
| BinaryFile.FileIsFramed | common/market_data/itch/ItchStreamReader.cpp:26-114 | Every file begins with its records, framed. |
| Packing.GreedyPacks | app/itch_mold_udp_load_gen.cpp:1278-1507 | The groups joined are the records, each non-empty, at most 1400 bytes and at most 460 messages. |
| Packing.GreedyIsMinimal | app/itch_mold_udp_load_gen.cpp:1363-1438 | No in-order packing of the same records uses fewer datagrams. |
| Packing.TightIsGreedy | app/itch_mold_udp_load_gen.cpp:1367-1438 | Closing a datagram only when the next record does not fit is greedy packing. |
| Packing.PackedDecodes | app/itch_mold_udp_load_gen.cpp:1231-1276 | Datagram k decodes to group k under sequence number 1 plus all earlier messages. |
| Packing.Packer.BeginCurrentPacket | app/itch_mold_udp_load_gen.cpp:1202-1229 | An open packet starting at the next sequence number. |
| Packing.Packer.FinalizeCurrentPacket | app/itch_mold_udp_load_gen.cpp:1231-1276 | The open packet, if it holds anything, becomes the next finished datagram. |
| Packing.Packer.Place | app/itch_mold_udp_load_gen.cpp:1347-1450 | The record joins the open datagram exactly if it fits, else starts the next one; it takes exactly one sequence number. |
| Packing.Packer.Take | app/itch_mold_udp_load_gen.cpp:1288-1467 | One round keeps the groups tight and holding exactly the records read. |
| Packing.Packer.Finish | app/itch_mold_udp_load_gen.cpp:1504-1507 | The flush leaves the datagrams of the greedy packing. |
| Packing.PackNext | app/itch_mold_udp_load_gen.cpp:1283-1501 | One turn reads and packs the next record, or finds the end, or a record that fits no datagram. |
| Packing.PackAll | app/itch_mold_udp_load_gen.cpp:1278-1502 | The loop packs everything read, or meets a record that fits no datagram; it terminates. |
| Packing.SmallIffFits | app/itch_mold_udp_load_gen.cpp:1330-1336 | The check of a record's size accepts exactly those that alone fit a datagram of 1400 bytes. |
| Packing.ReadsRequested | app/itch_mold_udp_load_gen.cpp:1283-1288 | What is read are the file's first records, as many as requested or all. |
| Packing.Pack | app/itch_mold_udp_load_gen.cpp:1278-1515 | Succeeds if and only if something was read and every record alone fits a datagram; then the datagrams are those of the greedy packing. |
| SequenceRecovery.Recover | common/market_data/moldudp64/MoldItchSequenceRecovery.cpp:18-102 | For any source: Process exactly when its answer is exactly the missing messages in order; Ignore exactly without a gap; otherwise Stop with nothing. |
| IndexFile.LoadSerialize | common/market_data/moldudp64/FileMoldItchRecoverySource.cpp:265-631 | load(save(index)) is the index. |
| IndexFile.SerializeLoad | common/market_data/moldudp64/FileMoldItchRecoverySource.cpp:413-631 | An accepted file is byte for byte the one written for its index, whose sequences are 1 + i * interval and whose offsets strictly increase from zero. |
| IndexFile.IndexLayout | common/market_data/moldudp64/FileMoldItchRecoverySource.cpp:264-360 | The byte offset of every field of an index file. |
| IndexFile.U64Means | common/market_data/moldudp64/FileMoldItchRecoverySource.cpp:264-360 | A word is written low byte first. |
| IndexFile.PlausibleMeans | common/market_data/moldudp64/FileMoldItchRecoverySource.cpp:481-602 | What loading checks, for all indexes: the first checkpoint is message 1 at offset 0, each other one comes interval messages and some bytes later, and the last message counted is within an interval of the last. |
| IndexFile.SequencesFit | common/market_data/moldudp64/FileMoldItchRecoverySource.cpp:550-564 | 1 + i * interval never exceeds the message count, so it never overflows. |
| IndexFile.EntryChecks | common/market_data/moldudp64/FileMoldItchRecoverySource.cpp:550-602 | The checks of one loading round, in wrapping arithmetic, accept exactly the entries that belong there. |
| IndexFile.SaveIndex | common/market_data/moldudp64/FileMoldItchRecoverySource.cpp:264-360 | The bytes of the index file, or nothing when there is nothing to index. |
| IndexFile.ReadMetadata | common/market_data/moldudp64/FileMoldItchRecoverySource.cpp:481-509 | Accepted exactly if interval and source size are the present ones, neither is the message count zero nor the interval, and the checkpoint count is the one the message count implies. |
| IndexFile.BadMetadata | common/market_data/moldudp64/FileMoldItchRecoverySource.cpp:481-509 | Wrong metadata refuses the file, whatever entries follow. |
| IndexFile.ReadEntries | common/market_data/moldudp64/FileMoldItchRecoverySource.cpp:521-607 | All entries if all are there and right, otherwise none. |
| IndexFile.LoadIndex | common/market_data/moldudp64/FileMoldItchRecoverySource.cpp:413-631 | Accepts exactly the files that saving some plausible index for this interval and file size writes, and returns that index. |
| Recovery.FileMoldItchRecoverySource.Initialize | common/market_data/moldudp64/FileMoldItchRecoverySource.cpp:85-140 | A stored index that loads is used, whatever file it was written for; otherwise the file is scanned, ready means it has a record, and the index describes the file; the bytes saved are that index. |
| Recovery.FileMoldItchRecoverySource.BuildIndex | common/market_data/moldudp64/FileMoldItchRecoverySource.cpp:161-261 | The scan's index describes the file: every interval-th record with its offset, and the number of records. |
| Recovery.FileMoldItchRecoverySource.FindCheckpoint | common/market_data/moldudp64/FileMoldItchRecoverySource.cpp:634-671 | The last checkpoint at or before a sequence, by binary search. |
| Recovery.FileMoldItchRecoverySource.ScanFromMark | common/market_data/moldudp64/FileMoldItchRecoverySource.cpp:752-880 | From any mark, right or wrong: exactly what counting records on from there finds, or nothing. |
| Recovery.FileMoldItchRecoverySource.SkipTo | common/market_data/moldudp64/FileMoldItchRecoverySource.cpp:767-788 | The scan from the mark reads exactly from - mark records to reach the first requested one, and fails exactly if there are fewer. |
| Recovery.FileMoldItchRecoverySource.ReadRange | common/market_data/moldudp64/FileMoldItchRecoverySource.cpp:810-914 | Exactly the requested number of records from where the stream stands with their sequences, or nothing if one is missing or longer than 2048 bytes. |
| Recovery.FileMoldItchRecoverySource.Verify | common/market_data/moldudp64/FileMoldItchRecoverySource.cpp:880-909 | The defensive check accepts exactly the answers that cover the interval in order. |
| Recovery.FileMoldItchRecoverySource.Recover | common/market_data/moldudp64/FileMoldItchRecoverySource.cpp:674-915 | With any index that was accepted: exactly what scanning from its nearest mark finds, or nothing; with an index that describes the file, the answer of a linear scan; fewer than interval records are skipped. |
| Recovery.DescribedIsPlausible | common/market_data/moldudp64/FileMoldItchRecoverySource.cpp:161-261 | What a scan builds passes every check of loading. |
| Recovery.NearestMark | common/market_data/moldudp64/FileMoldItchRecoverySource.cpp:634-671 | The checkpoint found marks a record fewer than interval before the one wanted. |
| Recovery.ReopenedIndexDescribes | common/market_data/moldudp64/FileMoldItchRecoverySource.cpp:105-140 | The index file written for a file is accepted on reopening and still describes it. |
| Recovery.LoadedDescribesIff | common/market_data/moldudp64/FileMoldItchRecoverySource.cpp:413-631 | A stored index that loads describes the file if and only if its bytes are those a scan of the file would save. |
| Recovery.AnswerIs | common/market_data/moldudp64/FileMoldItchRecoverySource.cpp:674-915 | A linear scan succeeds if and only if 1 <= from < to <= records + 1 and all records in range fit 2048 bytes, and covers exactly the half-open interval asked for with exactly those records. |
| Recovery.RightMarkAnswers | common/market_data/moldudp64/FileMoldItchRecoverySource.cpp:634-671 | One request whose nearest mark is right is answered like a linear scan if and only if the index counts enough messages for it, or the file has too few anyway. |
| Recovery.DescribedAnswers | common/market_data/moldudp64/FileMoldItchRecoverySource.cpp:674-915 | An index that describes the file answers every request like a linear scan. |
| Recovery.DescribesOtherIff | common/market_data/moldudp64/FileMoldItchRecoverySource.cpp:413-631 | The index of one file describes another if and only if they have equally many records and every interval-th one begins at the same offset. |
| StaleIndex.AnswersAllIff | common/market_data/moldudp64/FileMoldItchRecoverySource.cpp:413-671 | Any index that passes loading answers every request like a linear scan if and only if nothing recoverable lies beyond the messages it counts and every mark leads to its records: all up to the next mark, and past it as far as every record on the way can be recovered. |
| StaleIndex.MarkLeadsIff | common/market_data/moldudp64/FileMoldItchRecoverySource.cpp:634-915 | The same for the requests that start from one mark. |
| StaleIndex.BeyondIff | common/market_data/moldudp64/FileMoldItchRecoverySource.cpp:674-719 | Refusing every request past the index's message count is right if and only if nothing recoverable lies there. |
| StaleIndex.FollowsIff | common/market_data/moldudp64/FileMoldItchRecoverySource.cpp:413-671 | With as many messages counted as the file has, all of at most 2048 bytes: every request is answered rightly if and only if from each mark on the scan begins with the rest of the file. |
| StaleIndex.StaleIndexAnswers | common/market_data/moldudp64/FileMoldItchRecoverySource.cpp:481-494 | An index written for an earlier file of the same size is accepted, answers every request rightly exactly under that condition, and in particular if the marks of the two files agree. |
| StaleIndex.OtherMarksMayAnswer | common/market_data/moldudp64/FileMoldItchRecoverySource.cpp:481-494 | Two files of one size whose marks differ where the index of the first still answers every request on the second rightly. |
| StaleIndex.StaleIndexMisleads | common/market_data/moldudp64/FileMoldItchRecoverySource.cpp:481-494 | Two files of one size and as many records where the accepted index of the first makes recovery return a wrong record of the second under the right sequence number. |
| FeedHandler.MoldItchFeedHandler.ProcessMessage | feed_handler/MoldItchFeedHandler.cpp:81-107 | A decodable live message is applied and counted once; otherwise nothing changes. |
| FeedHandler.MoldItchFeedHandler.ProcessRecoveredMessage | feed_handler/MoldItchFeedHandler.cpp:110-139 | A usable recovered message is applied and counted once; otherwise nothing changes. |
| FeedHandler.MoldItchFeedHandler.CheckSequence | feed_handler/MoldItchFeedHandler.cpp:142-238 | First, expected, old and early messages each have their specified effect, an early one after filling the gap; 64-bit wrap-around included. |
| FeedHandler.MoldItchFeedHandler.FillIn | feed_handler/MoldItchFeedHandler.cpp:213-223 | Recovered messages are applied in order up to the first unusable one. |
| FeedHandler.MoldItchFeedHandler.Validate | feed_handler/MoldItchFeedHandler.cpp:279-317 | Pass 1 accepts exactly the datagrams that decode to a packet, and touches nothing. |
| FeedHandler.MoldItchFeedHandler.ProcessMessages | feed_handler/MoldItchFeedHandler.cpp:324-383 | Pass 2 sees the views pass 1 saw, never fails on framing, and applies the messages in order. |
| FeedHandler.MoldItchFeedHandler.ProcessDatagram | feed_handler/MoldItchFeedHandler.cpp:241-384 | A datagram whose framing is wrong changes nothing; any other is its messages accepted one after another. |
| FeedHandler.MoldItchFeedHandler.StartLifecycle | feed_handler/MoldItchFeedHandler.cpp:35-60 | Sequence state and counters are reset; what was applied stays applied. |
| FeedHandler.MoldItchFeedHandler.Start | feed_handler/MoldItchFeedHandler.cpp:386-428 | The run over what the socket delivers: state, counters and Failed or Stopped are those of the specification. |
| FeedHandler.MoldItchFeedHandler.ReceiveLoop | feed_handler/MoldItchFeedHandler.cpp:391-422 | The loop itself ends as the specified run over the same deliveries, datagrams counted. |
| FeedHandler.AcceptKeepsOrder | feed_handler/MoldItchFeedHandler.cpp:142-238 | Accepting any message, with any answer of the recovery source, keeps the applied messages consecutive. |
| FeedHandler.AcceptEffect | feed_handler/MoldItchFeedHandler.cpp:142-238 | An old message only counts as ignored; the first or expected one is applied and counted exactly if it is not empty and decodes; an early one counts a gap and stops without the missing messages. |
| FeedHandler.DeliverRefuses | feed_handler/MoldItchFeedHandler.cpp:241-317 | A datagram with wrong framing or without messages is refused and changes nothing. |
| FeedHandler.RunAccepts | feed_handler/MoldItchFeedHandler.cpp:386-428 | A run that does not fail accepts as many datagrams as arrive, up to the number asked for. |
| FeedHandler.RunKeepsOrder | feed_handler/MoldItchFeedHandler.cpp:241-428 | For any deliveries and any recovery source: at every loop head while Running the applied messages are consecutive modulo 2^64, counted once, and the next is expected; a failed run applied nothing out of order. |
| FeedHandler.ExactlyOnce | feed_handler/MoldItchFeedHandler.cpp:142-238 | Below the wrap-around the applied messages are first..expected-1 once each, and processed + recovered = expected - first. |
| FeedHandler.LaterLifecycle | feed_handler/MoldItchFeedHandler.cpp:35-60 | Restarted, a handler applies behind what it had applied exactly what a first lifecycle would, consecutively. |
| EndToEnd.GapIsAnswered | common/market_data/moldudp64/FileMoldItchRecoverySource.cpp:674-915 | A gap between packed records is always answered with exactly the missing ones. |
| EndToEnd.RecoveryExtends | feed_handler/MoldItchFeedHandler.cpp:205-223 | Recovered records extend the applied slice to the end of the gap, or to one that cannot be decoded. |
| EndToEnd.AcceptCatchesUp | feed_handler/MoldItchFeedHandler.cpp:142-238 | A record arriving early, in turn, late or again leaves everything up to it applied. |
| EndToEnd.DatagramHolds | app/itch_mold_udp_load_gen.cpp:1278-1507 | Each datagram holds a non-empty run of the file's records under the right sequence number. |
| EndToEnd.RunCatchesUp | feed_handler/MoldItchFeedHandler.cpp:386-428 | After any further arrivals everything up to the furthest one is applied. |
| EndToEnd.LossIsInvisible | feed_handler/MoldItchFeedHandler.cpp:241-428 | For any lost, repeated or reordered datagrams, what is applied is exactly the file's records from the beginning of the first datagram that arrived to the end of the furthest; or exactly those before the first one in between that cannot be decoded. |
| EndToEnd.SliceMeans | feed_handler/MoldItchFeedHandler.cpp:81-107 | The slice fed is, record by record, what the decoder makes of the file's records, applied under their sequence numbers. |
| EndToEnd.WiredRecovers | common/market_data/moldudp64/FileMoldItchRecoverySource.cpp:674-915 | A handler wired to a recovery source whose index describes the file has every gap answered from the file. |
| EndToEnd.RunPipeline | feed_handler/MoldItchFeedHandler.cpp:386-428 | Recovery source, feed handler and market state together, over any arrivals: the market state ends valid and as the reference run over the file's own records from the first arrival to the furthest, or to the first undecodable one; the handler ends Failed exactly in that case. |
| EndToEnd.FailsIffUndecodable | feed_handler/MoldItchFeedHandler.cpp:241-428 | The handler fails if and only if a record between the first arrival and the furthest cannot be decoded. |
| QueuedFeed.StepKeepsInv | feed_handler/MoldItchFeedHandler.cpp:473-518 | With packed datagrams in the ring, every step of receiver, handler and stop requests keeps the handler where processing the datagrams given to it so far, in order, puts it, a refused one included. |
| QueuedFeed.HandledIsRun | feed_handler/MoldItchFeedHandler.cpp:473-518 | Datagrams popped and processed one by one without a refusal are a run of the handler that accepted all of them. |
| QueuedFeed.DeliveredIsRun | feed_handler/MoldItchFeedHandler.cpp:473-518 | Up to and including a refused datagram, they are a run of the handler that ends as it did. |
| QueuedFeed.QueuedFeedIsSlice | feed_handler/MoldItchFeedHandler.cpp:473-518 | Under every schedule, with loss on the wire and drops on a full ring, at every moment and at each of the three exits: what is applied is exactly the file's records from the first datagram given to the handler to the end of the furthest one, or those before the undecodable one it failed at; at an exit these datagrams are everything popped. |
| QueuedFeed.DrainedFeedLosesNothing | feed_handler/MoldItchFeedHandler.cpp:473-518 | When runQueued leaves drained, that slice ends exactly with the furthest datagram popped, and no earlier than any datagram queued before the receiver's flag fell. |
| QueuedFeed.LeavesOnlyIfStopped | feed_handler/MoldItchFeedHandler.cpp:510-518 | The same of the composed feed: no stop-request exit without a stop request, no drained exit with the receiver running. |
| QueuedFeed.FeedMarket | feed_handler/MoldItchFeedHandler.cpp:473-518 | A market state that takes what the queued handler applied ends valid and as the reference run over that slice of the file's own records. |

## Left out

- MarketState.ItchMarketState.OnMessages: no message adds an order to a full table or removes one from it; OnMessage and FullTable say what those two do, but not what further messages do once levels and table disagree, where level sums may wrap and a removal would not end.
- MarketState.ItchMarketState.OnMessage: no order is removed from a full table, which the code does by scanning for ever; FullTable.RemovalNeverEnds says so.
- Drain.DrainedAfterReceiverStopped: whether a datagram processes cleanly is left to the environment there; QueuedFeed puts the handler in its place.
- FeedHandler.MoldItchFeedHandler.Start: also stands for `run`, which is the same loop without a datagram count; the sequence of deliveries ends where the handler is told to stop.
- QueuedFeed.FeedMarket: the market state takes the applied messages after the schedule rather than between its steps; nothing it does reaches the threads.
- EndToEnd.RunPipeline: the market state takes the applied messages after the handler has run rather than one by one during it; nothing it does reaches the handler. The handler asks a function that answers what Recover is proved to return, and the request counters of the source do not move.
- ITCH payload decoders and the dispatcher: an arbitrary partial function from bytes to messages.
- Messages that carry no order (system events, trading actions and the like), the instrument store and replay counters: one unhandled message.
- Installing or removing a notification handler during a run: each is present or absent from the start.
- Weak-memory ordering: steps are sequentially consistent; acquire and release are only why one step is atomic.
- Liveness, fairness, thread creation and join, restarting a receiver: safety only.
- The receiver's timing statistics and the load generator's byte and minimum/maximum counters: they decide nothing.
- Sockets, file handles, temporary files and renaming: files and index files are byte sequences and reads do not fail, so the reader's I/O error status does not occur.
- Memory exhaustion, such as reserving room for the entries an index file announces.
- Counters wrapping at 2^64: error counters, gap and message counts are unbounded here; sequence numbers, level sums and index arithmetic wrap.
- The hash function of the order table: any function below the capacity.
- A slot's state and value are one sum type, so the stale value of an empty slot is not represented.
- PriceLevel as an object of its own: a level is a value in its side's map, its price the key, and a handle names the map node, so iterator stability is the invariant that live handles stay live.
- The price-addressed overloads of BookSide reduce and removeOrder: the market state uses the handle-based ones.
- removeCalls_ and levelEraseCount_ of BookSide: never initialised or updated.
- Heartbeats and end-of-session packets of MoldUDP64: the handler rejects a count of zero and gives 0xFFFF no meaning.
- The older UDP feed handlers, recovery sources and codecs: the MoldUDP64 ones have their properties.
