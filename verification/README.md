# Verified models of the repository's algorithms

The repository is a collection of small projects. This one models, in Dafny, the parts whose
correctness is an argument rather than a glance, and proves what they are meant to guarantee.

* **Limit order book** (`PriceTimePriority`, `OrderBookRuns`, `LimitOrderBook`, `EngineRuns`). `PriceTimePriority`
  says on values what the engine does (insert, match front against front, look for FillAndKill orders
  at the two fronts) and what it should do (sweep the opposite side in price-time order), and proves
  the two equal in every uncrossed book. `OrderBookRuns` proves what any run keeps: an uncrossed book
  without FillAndKill orders, and conservation of quantity. `LimitOrderBook` is the engine in its own
  form, with two maps of lists of shared orders and an index, each method proved to do what its value
  counterpart says; `EngineRuns` runs it through any sequence of operations.
* **Alias tables** (`AliasTable`). The one-pass build over exact reals; the finished table samples
  exactly the given weights.
* **Vectorised Mersenne Twister** (`Twister`, `Mt19937`, `ParallelEngine`). A circular state refilled half at a
  time yields the linear recurrence of section 26.5.3.2 of ISO C++11; the adaptor's output is the same
  for every lane width. The word operations are parameters of the engine; the 64-bit ones are
  given with the operations that undo them, through which alone its terms and outputs are described.
* **Single-producer single-consumer queue** (`SpscQueue`). One action for each load, slot access and
  store; a load of the other thread's index may return any value stored since the one last seen. The
  queue is a step machine rather than a pair of methods because the other thread may act between any
  two of these.
* **Stream compaction** (`StreamCompaction`, `UniformInt`). The table-driven and the
  rotate-and-compress ways of collecting accepted lanes meet one conservation contract, and the
  generator of uniform integers built on it stays in range.
* **Fenwick tree** (`FenwickTree`), **log store** (`LogStore`), **CronJob controller**
  (`CronSchedule`, `CronReconciler`, `CronLaws`).

`Arithmetic` holds facts about division, remainders and powers of two; `Wrappers` the optional value.

Two promises turned out to hold only under a condition, and the condition is proved exact:

* The queue is memory safe exactly when its capacity is at least 1 (`SpscQueue.SafeIffNonempty`); the
  constructor accepts 0.
* The controller starts each activation at most once exactly when both history limits are absent or at
  least 1, or it never starts anything: it is suspended, its deadline leaves no time, or its schedule
  never fires
  (`CronReconciler.OnceOnlyIff`). The declared minimum of the limits is 0
  (`kubebuilder-tutorial/api/v1/cronjob_types.go`, lines 26-32), and with 0 the record of the last run
  is deleted with its job (`CronReconciler.NoRoomRepeats`).

What runs of the controller assume: listings are fresh, the clock does not go back, only the controller
makes and deletes its jobs, API calls succeed except creating a job whose name is taken, and finished
jobs of one kind started in the order they were scheduled. The sort by start time is a parameter that
returns some ordered permutation, so ties may come out either way. The random packets a generator
consumes, the bits and the real of an alias draw, the clock, and how much a buffered writer passes on
at each write are parameters too.

The order book is proved for all quantities, zero included; an order never has more remaining than it
started with, since `Fill` only takes off.

## Model

| member | source | states |
|---|---|---|
| `PriceTimePriority.AddRefinesPriceTime` | codealongs/cpp_orderbook/main.cpp:177-274 | In an uncrossed book, adding an order (insert, match front against front, look for FillAndKill at the two fronts) gives exactly the book and the trades of the price-time-priority rule: sweep the opposite side best first, then rest or drop the remainder. |
| `PriceTimePriority.MatchIsSweep` | codealongs/cpp_orderbook/main.cpp:182-226 | With the incoming order at the front of its side and nothing behind it crossing, front-against-front matching equals one sweep of the incoming order over the opposite side. |
| `PriceTimePriority.InsertSplits` | codealongs/cpp_orderbook/main.cpp:257-270 | A new order goes behind everything priced at least as well and ahead of everything worse; the others keep their order. |
| `PriceTimePriority.WithoutSplits` | codealongs/cpp_orderbook/main.cpp:276-300 | Removal takes out the first order with that id and nothing else; without such an order nothing changes. |
| `PriceTimePriority.SweepLeft` | codealongs/cpp_orderbook/main.cpp:198-201 | The sweep changes nothing of the incoming order but its remaining quantity, which never grows. |
| `PriceTimePriority.SweepSuffix` | codealongs/cpp_orderbook/main.cpp:193-219 | Counterparties are consumed as a prefix of the opposite side; what is left is a suffix of it, its head at most partly filled. |
| `PriceTimePriority.SweepUncrosses` | codealongs/cpp_orderbook/main.cpp:184-191 | A remainder of the incoming order no longer crosses the best order left opposite. |
| `OrderBookRuns.SweepTradesAllItCan` | codealongs/cpp_orderbook/main.cpp:182-226 | The quantity traded is the smaller of what the order has and of everything resting at prices it crosses. |
| `OrderBookRuns.SweepTradesInPriority` | codealongs/cpp_orderbook/main.cpp:193-225 | Trade i is with the i-th resting order, at crossing prices, for the smaller of the two remainders, and every trade but the last uses its counterparty up. |
| `OrderBookRuns.SweepLeavesIff` | codealongs/cpp_orderbook/main.cpp:184-207 | Something is left of the order exactly when it has more than can be traded, or nothing crosses. |
| `OrderBookRuns.AddServes` | codealongs/cpp_orderbook/main.cpp:249-274 | A duplicate id changes nothing. Any other order, FillAndKill or not, trades the smaller of what it has and of everything it crosses, with the resting orders in turn, each side at its own limit price; the opposite side loses just that prefix, and what is left rests in its place exactly if the order is GoodTillCancel. |
| `OrderBookRuns.AddKeepsInv` | codealongs/cpp_orderbook/main.cpp:228-274 | Adding any order keeps both sides sorted, ids unique, the book uncrossed and free of FillAndKill orders, though only the two fronts are checked. |
| `OrderBookRuns.CancelKeepsInv` | codealongs/cpp_orderbook/main.cpp:276-300 | So does cancelling, and the cancelled id is gone. |
| `OrderBookRuns.ModifyAlwaysReAdds` | codealongs/cpp_orderbook/main.cpp:302-310 | A modification finds an order exactly when the id rests, and otherwise changes nothing; it then always re-enters a GoodTillCancel order, which is never rejected and follows price-time priority. |
| `OrderBookRuns.StepKeepsInv` | codealongs/cpp_orderbook/main.cpp:247-310 | Every public operation keeps the book sound. |
| `OrderBookRuns.ReachableBooksAreSound` | codealongs/cpp_orderbook/main.cpp:143-310 | After any run of operations from the empty book both sides are sorted, ids are unique, no FillAndKill order rests and every bid is below every ask. |
| `OrderBookRuns.MatchConserves` | codealongs/cpp_orderbook/main.cpp:193-225 | Matching moves quantity from orders to trades: for each id what rested is what still rests plus what it traded. |
| `OrderBookRuns.MatchIsBounded` | codealongs/cpp_orderbook/main.cpp:182-226 | Every trade uses up at least one order, trades at a bid price not below the ask price, and takes the same quantity from both. |
| `OrderBookRuns.AddConserves` | codealongs/cpp_orderbook/main.cpp:249-274 | Per id: rested plus accepted is rests plus traded plus killed; trades are bounded by orders. |
| `OrderBookRuns.CancelConserves` | codealongs/cpp_orderbook/main.cpp:276-300 | Per id: what rested is what still rests plus what the cancellation took out. |
| `OrderBookRuns.RunConserves` | codealongs/cpp_orderbook/main.cpp:177-310 | Over any run, per id: quantity that entered is quantity traded plus resting plus cancelled or killed, and there are never more trades than orders that entered. |
| `LimitOrderBook.Order.constructor` | codealongs/cpp_orderbook/main.cpp:55-62 | A new order has its whole quantity remaining. |
| `LimitOrderBook.Order.Fill` | codealongs/cpp_orderbook/main.cpp:72-77 | Fails, changing nothing, exactly when asked for more than remains; otherwise takes the quantity off. |
| `LimitOrderBook.PushOnSide` | codealongs/cpp_orderbook/main.cpp:259-270 | Pushing onto the list of a price, creating the level if needed, is insertion in price-time order into the flattened side, and keeps levels strictly sorted and non-empty. |
| `LimitOrderBook.EraseOnSide` | codealongs/cpp_orderbook/main.cpp:284-299 | Erasing a list cell, and the level once empty, removes exactly that order from the flattened side. |
| `LimitOrderBook.IndexWith` | codealongs/cpp_orderbook/main.cpp:272 | After the insertion the index again holds exactly the resting ids, each with its own cell on its own side. |
| `LimitOrderBook.IndexWithout` | codealongs/cpp_orderbook/main.cpp:281-282 | Likewise after an erasure. |
| `LimitOrderBook.Orderbook.constructor` | codealongs/cpp_orderbook/main.cpp:153-155 | The empty book is valid. |
| `LimitOrderBook.Orderbook.IdsAreDistinct` | codealongs/cpp_orderbook/main.cpp:153-155 | In a valid book each id rests once, on one side, and the index holds exactly the resting ids. |
| `LimitOrderBook.Orderbook.EraseBid` | codealongs/cpp_orderbook/main.cpp:294-298 | Erasing a bid's cell, and its level once empty, leaves good levels, the same asks, and the bids without that id. |
| `LimitOrderBook.Orderbook.EraseAsk` | codealongs/cpp_orderbook/main.cpp:286-290 | The same for an ask. |
| `LimitOrderBook.Orderbook.CancelOrder` | codealongs/cpp_orderbook/main.cpp:276-300 | The two maps and the index after a cancellation hold exactly the book without that id. |
| `LimitOrderBook.Orderbook.FillFronts` | codealongs/cpp_orderbook/main.cpp:195-201 | Both fronts lose the smaller remainder; neither fill can fail, and no other resting order changes. |
| `LimitOrderBook.Orderbook.PopFilledBid` | codealongs/cpp_orderbook/main.cpp:203-216 | A filled front bid leaves list and index, and an emptied level leaves its map; otherwise nothing changes. |
| `LimitOrderBook.Orderbook.PopFilledAsk` | codealongs/cpp_orderbook/main.cpp:209-219 | The same for the front ask. |
| `LimitOrderBook.Orderbook.TradeFronts` | codealongs/cpp_orderbook/main.cpp:195-224 | One turn of the inner loop is one trade between the fronts of the flattened sides. |
| `LimitOrderBook.Orderbook.MatchLevels` | codealongs/cpp_orderbook/main.cpp:193-225 | The inner loop is a run of front-against-front trades that leaves fewer orders. |
| `LimitOrderBook.Orderbook.MatchOrders` | codealongs/cpp_orderbook/main.cpp:177-245 | The two nested loops terminate and compute the recursive matching, then the kill of the fronts. |
| `LimitOrderBook.Orderbook.KillFronts` | codealongs/cpp_orderbook/main.cpp:228-242 | Each front order leaves the book if it is FillAndKill. |
| `LimitOrderBook.Orderbook.Enter` | codealongs/cpp_orderbook/main.cpp:257-272 | The order enters its side in price-time order, and the index. |
| `LimitOrderBook.Orderbook.AddOrder` | codealongs/cpp_orderbook/main.cpp:249-274 | The trades returned and the book left are those of the value-level addition, including both rejections; from a sound book a new order of either type trades all it can and a duplicate id changes nothing. |
| `LimitOrderBook.Orderbook.IndexFinds` | codealongs/cpp_orderbook/main.cpp:304-307 | The index finds the resting order with that id, and its type. |
| `LimitOrderBook.Orderbook.AddNew` | codealongs/cpp_orderbook/main.cpp:106-109 | An order made for the purpose is added as any other; only it may join the resting orders. |
| `LimitOrderBook.Orderbook.MatchOrder` | codealongs/cpp_orderbook/main.cpp:302-310 | The trades returned and the book left are those of the value-level modification, and only a new order may join the resting ones. |
| `EngineRuns.Perform` | codealongs/cpp_orderbook/main.cpp:247-310 | Each public operation, performed on the engine object, is one step of the value-level run. |
| `EngineRuns.PerformAll` | codealongs/cpp_orderbook/main.cpp:143-310 | Whatever operations are performed on a new engine, it holds the book and returned the trades of the value-level run, and that book is sorted, uncrossed and free of FillAndKill orders. |
| `AliasTable.HitsMeasure` | stoch-vola/model/external/EigenRand/EigenRand/Dists/Discrete.h:554-557 | The real numbers for which a slot yields outcome k are an interval of [0,1), whose length is the share the table's mass adds up. |
| `AliasTable.OutcomesHaveWeight` | stoch-vola/model/external/EigenRand/EigenRand/Dists/Discrete.h:554-557 | Any outcome a finished table can yield is one of the weighted ones, with positive weight. |
| `AliasTable.SamplesExactly` | stoch-vola/model/external/EigenRand/EigenRand/Dists/Discrete.h:78-186 | A uniform slot and a uniform real yield outcome k with probability w(k) over the sum of weights. |
| `AliasTable.InitialConserves` | stoch-vola/model/external/EigenRand/EigenRand/Dists/Discrete.h:103-111 | The scaled weights start the build with one unit a slot on average and nothing borrowed. |
| `AliasTable.SettleConserves` | stoch-vola/model/external/EigenRand/EigenRand/Dists/Discrete.h:120-129 | Settling the deficient slot from the rich one conserves every outcome's mass and the total excess. |
| `AliasTable.NextCursors` | stoch-vola/model/external/EigenRand/EigenRand/Dists/Discrete.h:130-140 | Moving the cursors keeps the deficient unsettled slots exactly `under` and those from `mm` on. |
| `AliasTable.UnsettledAfterSettle` | stoch-vola/model/external/EigenRand/EigenRand/Dists/Discrete.h:118-141 | Each turn of the main loop settles one new slot. |
| `AliasTable.NothingPending` | stoch-vola/model/external/EigenRand/EigenRand/Dists/Discrete.h:118-185 | When the main loop stops no deficient slot is pending, and every unsettled slot holds exactly one unit. |
| `AliasTable.FinishedEncodes` | stoch-vola/model/external/EigenRand/EigenRand/Dists/Discrete.h:143-185 | Keeping every unsettled slot whole then gives a table whose shares add up to `psize * w(k) / sum` for every k, and to 0 for padding. |
| `AliasTable.AliasMethod.Scale` | stoch-vola/model/external/EigenRand/EigenRand/Dists/Discrete.h:82-111 | The residuals are the weights scaled to one unit a slot on average, zero in the padding. |
| `AliasTable.AliasMethod.SkipDeficient` | stoch-vola/model/external/EigenRand/EigenRand/Dists/Discrete.h:114 | Stops at the first slot from `start` on with a whole unit. |
| `AliasTable.AliasMethod.SkipSufficient` | stoch-vola/model/external/EigenRand/EigenRand/Dists/Discrete.h:115 | Stops at the first slot from `start` on that lacks something. |
| `AliasTable.AliasMethod.Settle` | stoch-vola/model/external/EigenRand/EigenRand/Dists/Discrete.h:120-129 | The three stores are one settling of slot `under` from slot `over`. |
| `AliasTable.AliasMethod.SettleNext` | stoch-vola/model/external/EigenRand/EigenRand/Dists/Discrete.h:120-140 | One turn of the main loop keeps the mass and the cursor invariants and settles a slot that was not settled. |
| `AliasTable.AliasMethod.SettleSlots` | stoch-vola/model/external/EigenRand/EigenRand/Dists/Discrete.h:113-141 | The main loop terminates with both invariants and one cursor at the end. |
| `AliasTable.AliasMethod.KeepTheRest` | stoch-vola/model/external/EigenRand/EigenRand/Dists/Discrete.h:143-185 | Every unsettled slot ends up keeping its whole unit; settled slots are not touched. |
| `AliasTable.AliasMethod.Allocate` | stoch-vola/model/external/EigenRand/EigenRand/Dists/Discrete.h:94-101 | The arrays stay the same objects when the table size does not change, and are new ones of that size when it does. |
| `AliasTable.AliasMethod.FillTable` | stoch-vola/model/external/EigenRand/EigenRand/Dists/Discrete.h:103-186 | Whatever was in the arrays, the finished table encodes the weights. |
| `AliasTable.AliasMethod.BuildTable` | stoch-vola/model/external/EigenRand/EigenRand/Dists/Discrete.h:78-186 | The build encodes the weights exactly: each outcome's total share is its target, every slot and alias is in range. |
| `AliasTable.AliasMethod.Draw` | stoch-vola/model/external/EigenRand/EigenRand/Dists/Discrete.h:554-557 | A draw yields the slot or its alias, always an index below the number of weights with positive weight. |
| `Mt19937.WordValue` | stoch-vola/model/external/EigenRand/EigenRand/PacketRandomEngine.h:230-239 | A seed becomes the word whose value is the seed modulo 2^64. |
| `Mt19937.UngrowGrow` | stoch-vola/model/external/EigenRand/EigenRand/PacketRandomEngine.h:262 | Each seeded word gives back the one before it, by the inverse of the multiplier. |
| `Mt19937.JoinParts` | stoch-vola/model/external/EigenRand/EigenRand/PacketRandomEngine.h:352-353 | The joined word has the top 33 bits of one and the low 31 bits of the other. |
| `Mt19937.UntwistTwist` | stoch-vola/model/external/EigenRand/EigenRand/PacketRandomEngine.h:352-359 | A twisted word, the far word taken off, gives back the joined word. |
| `Mt19937.UntemperTemper` | stoch-vola/model/external/EigenRand/EigenRand/PacketRandomEngine.h:304-309 | Tempering loses nothing: undoing its four steps gives back the term. |
| `Mt19937.SeededTerms` | stoch-vola/model/external/EigenRand/EigenRand/PacketRandomEngine.h:256-265 | The first term is the seed, and each of the first 312 gives back the one before it. |
| `Mt19937.RecurringTerms` | stoch-vola/model/external/EigenRand/EigenRand/PacketRandomEngine.h:340-404 | Every later term gives back, with the one 156 before it, the join of the term 312 before it and the next. |
| `Mt19937.TemperedTerms` | stoch-vola/model/external/EigenRand/EigenRand/PacketRandomEngine.h:295-310 | Output number k gives back term 312 + k. |
| `Twister.MersenneTwister.constructor` | stoch-vola/model/external/EigenRand/EigenRand/PacketRandomEngine.h:256-265 | After seeding, the lower half holds the first n terms and nothing has been drawn. |
| `Twister.MersenneTwister.Next` | stoch-vola/model/external/EigenRand/EigenRand/PacketRandomEngine.h:295-310 | Call number k returns the tempered term n + k of the plain recurrence, for unboundedly many calls. |
| `Twister.MersenneTwister.Discard` | stoch-vola/model/external/EigenRand/EigenRand/PacketRandomEngine.h:317-323 | Discarding counts as that many draws. |
| `Twister.MersenneTwister.RefillUpper` | stoch-vola/model/external/EigenRand/EigenRand/PacketRandomEngine.h:384-404 | The upper half becomes the n terms after the lower half's, its last words from its own first ones. |
| `Twister.MersenneTwister.RefillFromUpper` | stoch-vola/model/external/EigenRand/EigenRand/PacketRandomEngine.h:350-360 | The first n - m words of the lower half come from the upper half alone, which stays intact. |
| `Twister.MersenneTwister.RefillFromBoth` | stoch-vola/model/external/EigenRand/EigenRand/PacketRandomEngine.h:362-372 | The next words read the new first words of the lower half, already valid by then. |
| `Twister.MersenneTwister.RefillLower` | stoch-vola/model/external/EigenRand/EigenRand/PacketRandomEngine.h:340-382 | The lower half becomes the n terms after the upper half's, the last word wrapping round; the draw count does not change. |
| `ParallelEngine.SeededLanes` | stoch-vola/model/external/EigenRand/EigenRand/PacketRandomEngine.h:256-265 | Seeding a packet engine seeds each lane as the scalar engine. |
| `ParallelEngine.RecurringLanes` | stoch-vola/model/external/EigenRand/EigenRand/PacketRandomEngine.h:340-404 | Lane by lane, the packet recurrence is the scalar recurrence. |
| `ParallelEngine.LanesAreScalar` | stoch-vola/model/external/EigenRand/EigenRand/PacketRandomEngine.h:230-310 | Each lane of a packet engine is the scalar engine seeded with that lane's seed, term by term. |
| `ParallelEngine.SeedOfLane` | stoch-vola/model/external/EigenRand/EigenRand/PacketRandomEngine.h:230-239 | Lane c of the packet seeded with `seed + first` has the scalar seed `seed + first + c`, modulo 2^64. |
| `ParallelEngine.PacketCarries` | stoch-vola/model/external/EigenRand/EigenRand/PacketRandomEngine.h:437-444 | The twister for lanes from `first` on carries the scalar streams of those numbers. |
| `ParallelEngine.ParallelRandomEngineAdaptor.constructor` | stoch-vola/model/external/EigenRand/EigenRand/PacketRandomEngine.h:437-444 | The adaptor interleaves the streams of scalar engines with consecutive seeds, and nothing has been handed out. |
| `ParallelEngine.ParallelRandomEngineAdaptor.RefillBuffer` | stoch-vola/model/external/EigenRand/EigenRand/PacketRandomEngine.h:487-494 | A refill stores the next output of every scalar stream side by side. |
| `ParallelEngine.ParallelRandomEngineAdaptor.Next` | stoch-vola/model/external/EigenRand/EigenRand/PacketRandomEngine.h:468-475 | Call number k yields output k / numU64 of stream k % numU64. |
| `ParallelEngine.NextWords` | stoch-vola/model/external/EigenRand/EigenRand/PacketRandomEngine.h:468-475 | However many calls are made, from whatever point on, each yields its own number of the interleaved streams. |
| `ParallelEngine.FirstWords` | stoch-vola/model/external/EigenRand/EigenRand/PacketRandomEngine.h:429-516 | For every lane width dividing numU64 the first words are the same: word k is output k / numU64 of the scalar engine seeded with `seed + k % numU64`. |
| `ParallelEngine.FirstMt19937Words` | stoch-vola/model/external/EigenRand/EigenRand/PacketRandomEngine.h:600-607 | With lanes of one, two, four or eight words the 64-bit engine yields the outputs of eight scalar 64-bit Mersenne Twisters with consecutive seeds, in turn; what those outputs are is said by the three rows on the terms. |
| `SpscQueue.NewInv` | algorithms-data-structures/rust/spsc-queue/src/main.rs:19-27 | A new queue with at least one slot satisfies the invariant. |
| `SpscQueue.InvIsSafe` | algorithms-data-structures/rust/spsc-queue/src/main.rs:38-67 | No slot access is out of bounds, none reads an uninitialised slot, and none touches a slot the other thread is about to touch. |
| `SpscQueue.ProducerKeepsInv` | algorithms-data-structures/rust/spsc-queue/src/main.rs:29-49 | Every action of a push keeps the invariant, however stale its view of the read index. |
| `SpscQueue.ConsumerKeepsInv` | algorithms-data-structures/rust/spsc-queue/src/main.rs:51-71 | Every action of a pop keeps it, however stale its view of the write index. |
| `SpscQueue.EveryScheduleDelivers` | algorithms-data-structures/rust/spsc-queue/src/main.rs:29-71 | In every interleaving the popped values are a prefix of the pushed ones, at most capacity - 1 items are stored, and slots are touched only after the other side published or released them. |
| `SpscQueue.ScheduleTellsAll` | algorithms-data-structures/rust/spsc-queue/src/main.rs:29-71 | The pushed values are, in order, the items of the pushes that the schedule completes, and as many were popped as it completes pops. |
| `SpscQueue.PopsReturnPushes` | algorithms-data-structures/rust/spsc-queue/src/main.rs:29-71 | In every interleaving the completed pops returned the items of the first completed pushes, in order, and at most capacity - 1 completed pushes are not yet popped. |
| `SpscQueue.PushRuns` | algorithms-data-structures/rust/spsc-queue/src/main.rs:29-49 | A push can be carried through whatever read index it sees from the last one on; it adds its item exactly if that index leaves room. |
| `SpscQueue.PopRuns` | algorithms-data-structures/rust/spsc-queue/src/main.rs:51-71 | A pop can be carried through whatever write index it sees; it takes the oldest item exactly if that index shows one. |
| `SpscQueue.PushRefusedIffFull` | algorithms-data-structures/rust/spsc-queue/src/main.rs:37-48 | A push returns false exactly when the queue was full as of the read index it saw. |
| `SpscQueue.PopRefusedIffEmpty` | algorithms-data-structures/rust/spsc-queue/src/main.rs:52-55 | A pop returns None exactly when the queue was empty as of the write index it saw. |
| `SpscQueue.SafeIffNonempty` | algorithms-data-structures/rust/spsc-queue/src/main.rs:19-49 | All schedules are safe exactly when the capacity is at least 1; with capacity 0 the first push writes outside the buffer. |
| `StreamCompaction.RunConserves` | stoch-vola/model/external/EigenRand/EigenRand/arch/AVX/PacketFilter.h:110-144 | Over any run of calls, whichever algorithm serves each, first carry plus accepted lanes equals emitted lanes plus last carry as multisets, and the carry stays below one packet. |
| `StreamCompaction.SelectAtPositions` | stoch-vola/model/external/EigenRand/EigenRand/arch/AVX/PacketFilter.h:30-45 | The accepted lanes are those at the positions the table rows list. |
| `StreamCompaction.NextPosition` | stoch-vola/model/external/EigenRand/EigenRand/arch/AVX/PacketFilter.h:36-42 | An accepted lane is the next position after those of the lanes before it. |
| `StreamCompaction.ScanStep` | stoch-vola/model/external/EigenRand/EigenRand/arch/AVX/PacketFilter.h:34-43 | One turn of the table-building loop places the next accepted lane, or passes over a lane that is not. |
| `StreamCompaction.MakeCompress` | stoch-vola/model/external/EigenRand/EigenRand/arch/AVX/PacketFilter.h:30-45 | A table row lists the accepted lanes from `offset` on as far as they fit, and zero elsewhere. |
| `StreamCompaction.Count` | stoch-vola/model/external/EigenRand/EigenRand/arch/AVX/PacketFilter.h:47-56 | Counts the accepted lanes of a mask. |
| `StreamCompaction.MaskRoundTrip` | stoch-vola/model/external/EigenRand/EigenRand/arch/AVX/PacketFilter.h:60-68 | Each table index stands for a mask, whose index it is. |
| `StreamCompaction.BitsRoundTrip` | stoch-vola/model/external/EigenRand/EigenRand/arch/AVX/PacketFilter.h:117 | Each mask has a table index, and is the mask that index stands for. |
| `StreamCompaction.FirstPacket` | stoch-vola/model/external/EigenRand/EigenRand/arch/AVX/PacketFilter.h:124-125 | Permuting and blending yields the carried lanes followed by the accepted ones, up to one packet. |
| `StreamCompaction.LeftOver` | stoch-vola/model/external/EigenRand/EigenRand/arch/AVX/PacketFilter.h:130-133 | The row with the negative offset yields the lanes that overflow the packet. |
| `StreamCompaction.CompressMask.constructor` | stoch-vola/model/external/EigenRand/EigenRand/arch/AVX/PacketFilter.h:58-68 | Every row and count of the tables is right, for every mask and offset. |
| `StreamCompaction.CompressMask.CompressAppend` | stoch-vola/model/external/EigenRand/EigenRand/arch/AVX/PacketFilter.h:110-144 | No accepted lane is lost, invented or duplicated; a packet comes out exactly when enough lanes have come together; and, unless the whole packet is accepted, carried lanes go first in order. |
| `StreamCompaction.RotatedParts` | stoch-vola/model/external/EigenRand/EigenRand/arch/AVX512/PacketFilter.h:54-66 | Compressing over the rotated carry puts the accepted lanes first and the carried ones behind, and leaves the overflow at the front of the rotated carry. |
| `StreamCompaction.CompressAppendRotating` | stoch-vola/model/external/EigenRand/EigenRand/arch/AVX512/PacketFilter.h:37-74 | The same conservation contract, with the accepted lanes ahead of the carried ones. |
| `StreamCompaction.UnpackPack` | stoch-vola/model/external/EigenRand/EigenRand/arch/SSE/PacketFilter.h:76-81 | Two-bit packed rows unpack to the same lane indices. |
| `StreamCompaction.PackUpdate` | stoch-vola/model/external/EigenRand/EigenRand/arch/SSE/PacketFilter.h:40 | Setting the two still-zero bits of a lane, by adding them, packs the updated row. |
| `StreamCompaction.MakeCompressPacked` | stoch-vola/model/external/EigenRand/EigenRand/arch/SSE/PacketFilter.h:30-45 | The packed table entry unpacks to the row that lists the accepted lanes from `offset` on, and fits a byte. |
| `StreamCompaction.PackedRow` | stoch-vola/model/external/EigenRand/EigenRand/arch/SSE/PacketFilter.h:76-81 | A row survives being packed and unpacked, and fits a byte for four lanes. |
| `StreamCompaction.PackedCompressMask.constructor` | stoch-vola/model/external/EigenRand/EigenRand/arch/SSE/PacketFilter.h:58-68 | Every packed entry and count is right, for every mask and offset. |
| `StreamCompaction.PackedCompressMask.CompressAppend` | stoch-vola/model/external/EigenRand/EigenRand/arch/SSE/PacketFilter.h:93-128 | The 4-lane version meets the same conservation contract, carried lanes first. |
| `StreamCompaction.Appender.Append` | stoch-vola/model/external/EigenRand/EigenRand/Dists/Discrete.h:294-304 | Whichever of the three filters the packet size selects meets that contract. |
| `UniformInt.AppendKeepsBound` | stoch-vola/model/external/EigenRand/EigenRand/Dists/Discrete.h:303-304 | Lanes that are bounded stay bounded through appending, emitted or carried. |
| `UniformInt.SelectedAreAtMost` | stoch-vola/model/external/EigenRand/EigenRand/Dists/Discrete.h:301-304 | Candidates that pass the range test are within the range. |
| `UniformInt.UniformIntGen.constructor` | stoch-vola/model/external/EigenRand/EigenRand/Dists/Discrete.h:231-243 | The mask covers the range with the fewest bits, and nothing is carried. |
| `UniformInt.UniformIntGen.Filter` | stoch-vola/model/external/EigenRand/EigenRand/Dists/Discrete.h:301-305 | Exactly the candidates up to the range join the carry; an emitted packet is in range, whichever filter is used. |
| `UniformInt.UsedUp` | stoch-vola/model/external/EigenRand/EigenRand/Dists/Discrete.h:307-316 | Another slice is taken from the same raw packet exactly as often as whole slices fit into 31 bits. |
| `UniformInt.UniformIntGen.Advance` | stoch-vola/model/external/EigenRand/EigenRand/Dists/Discrete.h:307-316 | After a failed call the next is on the next slice of the raw packet while one fits, and then on the first slice of the next. |
| `UniformInt.UniformIntGen.Reject` | stoch-vola/model/external/EigenRand/EigenRand/Dists/Discrete.h:297-317 | The calls are on the slices of the raw packets in turn, and the first that fills a packet is the last. |
| `UniformInt.UniformIntGen.PacketOp` | stoch-vola/model/external/EigenRand/EigenRand/Dists/Discrete.h:283-319 | Every lane of every packet returned lies in [min, max], lanes carried over from earlier calls included. The filter calls are on successive bit slices of successive raw packets and accept exactly the candidates up to max - min; the packet is the one the first filling call emits, offset by min, and no lane is lost on the way. |
| `FenwickTree.AndWithNegative` | algorithms-data-structures/c++/fenwick_tree/main.cpp:12 | On words of any width `index & (-index)`, with the negative taken modulo the word size, is the lowest one bit that the chains step by. |
| `FenwickTree.NextCovering` | algorithms-data-structures/c++/fenwick_tree/main.cpp:10-13 | From a node covering a position, the next node of an update also covers it and no node in between does. |
| `FenwickTree.ClearsOneBit` | algorithms-data-structures/c++/fenwick_tree/main.cpp:20-23 | A query step clears exactly one bit of the index. |
| `FenwickTree.UpdateTree` | algorithms-data-structures/c++/fenwick_tree/main.cpp:7-14 | Exactly the nodes covering the index change, by `val`; a tree representing an array then represents the updated array. |
| `FenwickTree.GetSum` | algorithms-data-structures/c++/fenwick_tree/main.cpp:16-26 | Yields the sum of the first index + 1 elements, in as many steps as index + 1 has one bits; zero for a negative index. |
| `FenwickTree.ConstructTree` | algorithms-data-structures/c++/fenwick_tree/main.cpp:28-36 | The new tree represents the array. |
| `LogStore.DecodeEncode` | distributed-services-with-go/proglog/internal/log/store.go:42-64 | The length survives the round trip in 8 bytes. |
| `LogStore.FrameBytes` | distributed-services-with-go/proglog/internal/log/store.go:38-49 | A frame is eight bytes of length, most significant first, and then the record. |
| `LogStore.ReadsIffFramed` | distributed-services-with-go/proglog/internal/log/store.go:54-69 | Reading yields a record exactly when its whole frame is at that position. |
| `LogStore.ReadsBack` | distributed-services-with-go/proglog/internal/log/store.go:54-69 | A frame anywhere in the stream reads back its record. |
| `LogStore.AppendKeepsReads` | distributed-services-with-go/proglog/internal/log/store.go:38-69 | What can be read stays readable, unchanged, however much is appended. |
| `LogStore.StepExtends` | distributed-services-with-go/proglog/internal/log/store.go:38-88 | Every operation keeps `size` equal to flushed plus buffered bytes and extends the stream by exactly the frame appended. |
| `LogStore.EveryRecordReadsBack` | distributed-services-with-go/proglog/internal/log/store.go:25-88 | After any history of appends, reads and reopenings, over any file: the size is right, the returned positions tile what was appended, and each reads back its record. |
| `LogStore.HistoryExtends` | distributed-services-with-go/proglog/internal/log/store.go:25-88 | Nothing that was in the file before is ever changed. |
| `LogStore.Store.constructor` | distributed-services-with-go/proglog/internal/log/store.go:25-36 | A store opened on a file counts its bytes and buffers nothing. |
| `LogStore.Store.AppendRecord` | distributed-services-with-go/proglog/internal/log/store.go:38-52 | Returns the framed length and the position, and leaves the state of the append step; on a closed file nothing is written, and an error leaves the size alone. |
| `LogStore.Store.ReadRecord` | distributed-services-with-go/proglog/internal/log/store.go:54-69 | Flushes, then returns what the whole stream holds at that position, or an error when it runs past the end; always an error on a closed file. |
| `LogStore.Store.Close` | distributed-services-with-go/proglog/internal/log/store.go:80-88 | Everything buffered reaches the file, so a reopened store continues the stream; a second close fails and changes nothing in the file. |
| `LogStore.Perform` | distributed-services-with-go/proglog/internal/log/store.go:25-88 | A store object run through any history, reopenings included, holds the state of the value-level run and returned the positions of its records. |
| `LogStore.PerformAndReadBack` | distributed-services-with-go/proglog/internal/log/store.go:38-69 | After any history, reading at the positions it returned gives back the records, in order. |
| `CronSchedule.NextIsLeastActivation` | kubebuilder-tutorial/internal/controller/cronjob_controller.go:225 | `Next` yields an activation with none in between. |
| `CronSchedule.WindowCounts` | kubebuilder-tutorial/internal/controller/cronjob_controller.go:224-231 | A window holds at least k activations exactly when the k-th `Next` falls inside it. |
| `CronSchedule.LastInWindow` | kubebuilder-tutorial/internal/controller/cronjob_controller.go:224-232 | When the loop stops, the last start found is the latest activation in the window. |
| `CronSchedule.WindowIsDue` | kubebuilder-tutorial/internal/controller/cronjob_controller.go:207-220 | The window searched holds exactly the activations after the last run (or the creation), after now minus the deadline, and not after now. |
| `CronSchedule.GetNextSchedule` | kubebuilder-tutorial/internal/controller/cronjob_controller.go:201-232 | Returns the latest activation that is due, none if there is none, and the least one after now; errors exactly when more than 100 are due, or when the schedule never fires and the search starts no later than now. |
| `CronSchedule.NeverTooLate` | kubebuilder-tutorial/internal/controller/cronjob_controller.go:249-256 | Under a frozen clock the run found is never too late. |
| `CronLaws.HavingLast` | kubebuilder-tutorial/internal/controller/cronjob_controller.go:109-120 | Each listed job is added at the end of the jobs of its status. |
| `CronReconciler.Controller.Classify` | kubebuilder-tutorial/internal/controller/cronjob_controller.go:109-134 | The jobs are split by status in order, and the latest annotation is found. |
| `CronReconciler.TrimmingKeepsNewest` | kubebuilder-tutorial/internal/controller/cronjob_controller.go:154-171 | Trimming keeps as many jobs as the limit allows, all if there is none, and none that it keeps started before one that goes. |
| `CronReconciler.Controller.DeleteOldest` | kubebuilder-tutorial/internal/controller/cronjob_controller.go:154-171 | Exactly the oldest jobs over the limit are deleted: the limit's number is kept, and no kept job started before a deleted one. |
| `CronLaws.TrimLeaves` | kubebuilder-tutorial/internal/controller/cronjob_controller.go:154-190 | Of the failed and of the complete jobs in the cluster as many are left as their limit allows; active ones are left alone. |
| `CronReconciler.Controller.StartJob` | kubebuilder-tutorial/internal/controller/cronjob_controller.go:258-302 | Replace clears the active jobs; the new job is created unless its name is taken. |
| `CronLaws.DecidesIff` | kubebuilder-tutorial/internal/controller/cronjob_controller.go:192-256 | A run is set out on exactly when the controller is not suspended, at most 100 are due, it is the latest of those, and its deadline has not passed when that is checked. |
| `CronLaws.ReplaceClears` | kubebuilder-tutorial/internal/controller/cronjob_controller.go:258-265 | A starting pass under Replace leaves none of the active jobs, and any other pass leaves all that trimming left. |
| `CronLaws.StartMakesOne` | kubebuilder-tutorial/internal/controller/cronjob_controller.go:267-302 | The run that was decided on has a job of its own after the pass, and nothing else is added. |
| `CronReconciler.Controller.Reconcile` | kubebuilder-tutorial/internal/controller/cronjob_controller.go:107-304 | One call is one pass of the model: it trims, decides on the last missed run and starts it, records the status, and says when to be called again. |
| `CronReconciler.TrimKeepsLatestIff` | kubebuilder-tutorial/internal/controller/cronjob_controller.go:154-190 | Trimming keeps the job that started last exactly when the limit is absent or at least 1. |
| `CronReconciler.MostRecentIsLargest` | kubebuilder-tutorial/internal/controller/cronjob_controller.go:128-132 | The recorded time is the largest annotation. |
| `CronReconciler.StatusIsLatest` | kubebuilder-tutorial/internal/controller/cronjob_controller.go:122-138 | While the latest run's job exists, the status time is the last run created. |
| `CronReconciler.LatestSurvivesTrim` | kubebuilder-tutorial/internal/controller/cronjob_controller.go:154-190 | With room for one job in each history the latest job is never trimmed. |
| `CronReconciler.RunIsAfterLast` | kubebuilder-tutorial/internal/controller/cronjob_controller.go:207-231 | A run that is started is an activation that is due and later than the last one recorded. |
| `CronReconciler.StartAdds` | kubebuilder-tutorial/internal/controller/cronjob_controller.go:258-302 | A started run is appended to the created ones, later than all of them, and its job joins those left. |
| `CronReconciler.PassKeepsGood` | kubebuilder-tutorial/internal/controller/cronjob_controller.go:107-304 | A pass keeps the record of the latest run; a started run is appended, later than all before. |
| `CronReconciler.EachActivationOnce` | kubebuilder-tutorial/internal/controller/cronjob_controller.go:107-304 | Over any run with room for one job in each history the status time never goes back, created runs strictly increase, and each is an activation that was due. |
| `CronReconciler.FirstIsDueOnce` | kubebuilder-tutorial/internal/controller/cronjob_controller.go:201-256 | The first activation after creation is due at once, and not again while a job records it. |
| `CronReconciler.NoRoomRepeats` | kubebuilder-tutorial/internal/controller/cronjob_controller.go:154-190 | Without room in one of the histories there is a run that starts the same activation twice and takes the status time back. |
| `CronReconciler.OnceOnlyIff` | kubebuilder-tutorial/internal/controller/cronjob_controller.go:107-304 | No activation is ever started twice and the status time never goes back, over all runs, exactly when each history has room for one job or nothing is ever started. |

## Left out

- Limit order book: `Size` and `GetOrderInfos`, which only read; object lifetime (orders are shared objects, so references read after their container entry is erased mean the order itself); the widths of prices, quantities and ids, which are only compared, subtracted without going below zero, and copied.
- Alias table: rounding, infinities and NaN (the arithmetic is over exact reals), the branch for integral precision, the lookup of the 32-bit `DiscreteGen`, tables of a single weight, and weights that are negative or sum to zero. Over exact reals the last loop of the build, which stops at `msize` and not at `psize`, never has a slot to handle.
- AliasTable.AliasMethod.Allocate: the bit mask is stated as 2^bitsize - 1, not as the shift of an all-ones word.
- Mersenne Twister: `half`, the real-valued outputs, the copying constructors of the adaptor (which give every sub-engine the same seed), and result types narrower than 64 bits.
- Stream compaction and twister: SIMD instructions and alignment; packets are sequences of lanes. The NEON filter repeats the 4-lane one.
- StreamCompaction.MakeCompressPacked: `ret |= (i & 3) << (2 * n)` is a sum, which is the same because the bits are still zero.
- UniformInt.UniformIntGen.PacketOp: termination of the rejection loop; it reads an arbitrary finite input and yields None when that runs out. The scalar `operator()`, the infinite-loop check, and ranges of one value (whose mask shifts a word by its whole width) are not modelled.
- Queue: memory orderings beyond stale loads of the other thread's index; dropping items that were never popped.
- FenwickTree.UpdateTree: machine overflow of sums and indices, and indices below 0 (an index of -1 never leaves the loop at 0).
- LogStore.Store.ReadRecord: failures of the file system other than using a closed file, lengths too large to allocate, positions beyond a signed 64-bit offset, and the locks. `ReadAt` is only the flush followed by the file's own read.
- LogStore.Store.AppendRecord: what the writer's buffer holds after a failed write, which is never written again.
- LogStore.EveryRecordReadsBack: records of 2^64 bytes or more, whose length does not fit the frame.
- CronReconciler.Controller.Reconcile: failed API calls other than creating a job that exists, stale caches, schedules relative to the present (`@every`), unparseable schedules and annotations, schedules that fire but leave a gap longer than the cron library searches ahead, the Forbid policy (which the controller does not act on), and the conditions of a job beyond active, failed or complete. Times are whole units, and `int32` casts of list lengths are not modelled.
- HTTP, gRPC, Terraform, Kubernetes wiring, webhooks, `main` functions, the other distributions, the particle filter, spin locks, and the small containers: no invariant comparable to the ones above.
