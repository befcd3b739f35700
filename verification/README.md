# TorEx: a verified model of the exchange's core

This project models, in Dafny 4.11, the parts of the TorEx exchange that move orders, money and messages, and proves
what they promise.

- **The limit order book.** `OrderBooks.OrderBook` is the book object: bid and ask levels, each a FIFO queue, updated
  in place by `Submit` and `Cancel` with the engine's own loops. Its methods are proved equal to functions on book
  values (`Books.Submitted`, `Books.AfterCancel`). Those in turn refine a flat specification that knows only the live
  orders of each side, by price and arrival. `Matching.GreedyPrefix` then says without recursion which orders trade and
  how much. Over whole runs: price-time priority, an uncrossed book, accounting per order, conservation of quantity.
- **The stop-order store beside the books**, as a machine whose threads interleave step by step: creates, sweeps,
  linked-leg removal, cancels, failing lookups and crashes.
- **The symmetric-key ratchet session** as an object, and a pair of sessions joined by two channels that keep order
  but drop and corrupt.
- **Candles**: grouping trades into buckets, and rolling fine candles up into coarse ones.
- **Custody**: deposits, withdrawals and their routing, with a queue that loses, repeats and reorders events.

| file | what it holds |
|---|---|
| `Prelude.dfy`, `Ticks.dfy`, `Orders.dfy` | options, price and tick conversion, orders and trades |
| `Ladder.dfy`, `Matching.dfy`, `Book.dfy` | one side of the book, matching, the whole book and its flat specification |
| `OrderBook.dfy` | the book object with its loops |
| `FillRules.dfy`, `OrderTypes.dfy` | promises of one submission; what each order type trades and leaves, written out |
| `BookRuns.dfy`, `Reachable.dfy`, `Conservation.dfy` | whole runs: the invariant, its consequences, where quantity goes |
| `EmptyLevels.dfy` | empty bid levels, and depth snapshots |
| `Triggers.dfy` | the stop-order machine |
| `Handlers.dfy` | linked legs, sweeps, fired orders, price reads, crashes and failed lookups over the machine's states |
| `CancelFinality.dfy`, `CancelSchedules.dfy` | when a cancel request ends its order: as its second step runs, and as known before it |
| `Ratchet.dfy`, `RatchetPair.dfy` | the session object, the pair |
| `Candles.dfy`, `Custody.dfy` | candles, custody |

## Reading notes

- The sorted maps of the source (book sides, candle buckets) are kept as their key-ordered sequences.
- Prices and quantities are exact reals, ticks unbounded integers, and `round` takes halves away from zero. The slack of
  the fill-or-kill check is `FOK_SLACK`.
- Nothing is required of a single submission or cancellation beyond sorted levels, which every book has. `WellFormed`
  runs add what order entry gives: positive quantity, nothing filled, an id not used before.
- Key agreement, key derivation and authenticated encryption are function parameters (`Ratchet.Suite`). `Ratchet.Lawful`
  is all that is assumed of them: agreement commutes, and opening a sealed text returns it.

Where the code does not do what its comments say, the model follows the code, lemmas say exactly when the promise
holds, and others give concrete cases where it does not:

- "PostOnly: reject if it would immediately match" (`backend/crates/matching/src/lib.rs:157-173`): a post-only sell opens
  an empty bid level at its own tick, and later post-only sells at or below it are turned away although no bid is
  live. `SubmitRefinesFlat` and `PhantomIsEmptyLevel` give the exact condition, `EmptyLevelOrigin` says where such
  levels come from, `PhantomExample` is a run.
- "Can't fill, cancel immediately" (lines 180-188): a fill-or-kill iceberg is checked for its whole quantity and then
  trades only its peak. `FokAtomicIff`, `FokIcebergTradesItsPeak`.
- "only put iceberg_peak_qty visible in book at a time" (lines 190-198, 239-244): a filled peak drops the hidden part, and
  an unfilled one rests with everything shown. `IcebergPromiseIff` says from the quantity in reach when no more than
  the peak is shown, when nothing is lost, and when both hold; `IcebergShowsAll` and `IcebergLosesHidden` are cases.
- A cancel request (lines 640-658) takes an order out of its book and then out of the store, and other handlers may bring
  it back: a create between its row insert and its placement, or a sweep between taking and submitting. As the second
  step runs, the order is gone for good if and only if it is in nobody's hands and in no book (`CancelFinalIff`). Before
  the request, every schedule of the others ends that way if and only if no handler has the order in hand and it is not
  stored with a stop price (`CancelAlwaysFinalIff`). `CancelRace` and `StoredCancelRace` are runs that lose the request.
- A replayed ratchet message rewinds the receiving counter and, unless it was the very last one, every later message
  gets a key that is off by the same number of places. `ReplayHarmlessIff`.
- An approved withdrawal goes back to waiting when its event is delivered again. `ApprovalSurvivesIff`; `ApprovalLost` is a
  run from the empty vault.

## Model

| member | source | states |
|---|---|---|
| Ticks.RoundIsNearest | backend/crates/matching/src/lib.rs:811 | the rounding used for ticks picks the nearest integer, and of two equally near ones the larger in magnitude |
| Ticks.PriceWithinHalfTick | backend/crates/matching/src/lib.rs:811-812 | price to tick to price moves a price by at most half a tick |
| Ticks.RoundsBelow | backend/crates/matching/src/lib.rs:811-812 | rounding never carries a price past a tick strictly above it, and leaves it strictly below when it is a whole tick |
| Ladder.InsertSplits | backend/crates/matching/src/lib.rs:295-300 | a newcomer queues at the one place with no worse-priced order before it and only worse-priced ones after it |
| Ladder.PushBackFlat | backend/crates/matching/src/lib.rs:295-300 | queueing on a tick level is that insertion into the flat list of live orders |
| Ladder.RemoveFlat | backend/crates/matching/src/lib.rs:315-337 | taking an order out of its level, and the level out when it empties, strikes its first entry from the flat list and nothing else |
| Matching.GreedyIsPrefix | backend/crates/matching/src/lib.rs:200-235 | the greedy match by cumulative quantity: order i trades iff it is within the limit and those before it leave the taker short; it trades the smaller of its offer and the need; the rest is the untouched suffix with the last maker reduced |
| Matching.GreedyPrefixUnique | backend/crates/matching/src/lib.rs:200-235 | that description has only one solution |
| Matching.SweepIsGreedy | backend/crates/matching/src/lib.rs:200-281 | the engine's walk over levels and queues, empty levels included, is the greedy match on the flat list, for every sorted side and every taker |
| Matching.GreedyFillsTaker | backend/crates/matching/src/lib.rs:210-212 | the traded quantities add up to what the taker was filled by |
| Matching.GreedyLedger | backend/crates/matching/src/lib.rs:210-230 | for every order id, quantity traded = quantity that left the side + quantity the taker gained, with no assumption on the orders |
| Books.AvailableIsEligible | backend/crates/matching/src/lib.rs:302-313 | the fill-or-kill scan finds exactly the open quantity of the live orders within the limit |
| Books.SubmitRefinesFlat | backend/crates/matching/src/lib.rs:154-293 | for every sorted book and every order, submitting through levels gives the flat specification's book and trades, if and only if no empty level blocks a post-only order |
| Books.PhantomIsEmptyLevel | backend/crates/matching/src/lib.rs:158-173 | for any book, a post-only order is so blocked if and only if the front opposite level is empty and within its price while the first level holding an order is absent or outside it |
| Books.CancelFlagIff | backend/crates/matching/src/lib.rs:324-336 | the answer of a cancel is true if and only if a price level went, whether or not an order did |
| Books.CancelRefinesFlat | backend/crates/matching/src/lib.rs:315-337 | cancelling strikes the id from the live orders of both sides when it is not on both |
| OrderBooks.OrderBook.Submit | backend/crates/matching/src/lib.rs:154-293 | book, last price and trades after a submission are the specified ones; sortedness is kept; and unless blocked by an empty level the outcome is the flat specification's |
| OrderBooks.OrderBook.SubmitPostOnly | backend/crates/matching/src/lib.rs:157-173 | a post-only order is rejected without trace or rests as a limit order, opening a bid level at its tick |
| OrderBooks.OrderBook.SubmitTaker | backend/crates/matching/src/lib.rs:175-293 | fill-or-kill check, iceberg split, matching and remainder rules together give the specified outcome |
| OrderBooks.OrderBook.MatchAsks | backend/crates/matching/src/lib.rs:202-235 | the buy-side loop terminates and leaves trades, taker, asks and last price as the sweep says |
| OrderBooks.OrderBook.MatchBids | backend/crates/matching/src/lib.rs:248-281 | the sell-side loop, over the bids |
| OrderBooks.OrderBook.ExecuteFront | backend/crates/matching/src/lib.rs:210-230 | one fill: the smaller remainder changes hands, the trade names buyer and seller by side, and a used-up maker leaves the queue |
| OrderBooks.OrderBook.RestRemainder | backend/crates/matching/src/lib.rs:236-246 | immediate-or-cancel, market and fill-or-kill remainders vanish; any other rests, an iceberg with its hidden part shown |
| OrderBooks.OrderBook.Rest | backend/crates/matching/src/lib.rs:295-300 | an order is queued at its own side's rounded tick, and the other side stays |
| OrderBooks.OrderBook.AvailableQtyAtPrice | backend/crates/matching/src/lib.rs:302-313 | the scan's answer is the open quantity of the eligible live orders |
| OrderBooks.OrderBook.Cancel | backend/crates/matching/src/lib.rs:315-337 | bids are searched first, asks unless a bid level was emptied, and the flag says only that a level was emptied |
| OrderBooks.OrderBook.RemoveFrom | backend/crates/matching/src/lib.rs:317-323 | the walk over levels removes the order from the first level that holds it |
| FillRules.SubmitIsGreedyPrefix | backend/crates/matching/src/lib.rs:200-291 | a submission's trades and the opposite side it leaves are the one solution of the greedy-prefix description on the live orders by price and arrival |
| FillRules.GreedyTotal | backend/crates/matching/src/lib.rs:202-235 | a match trades exactly the smaller of the need and what is in reach, never stopping early or overfilling |
| FillRules.FillCompleteness | backend/crates/matching/src/lib.rs:191-235 | a limit, FOK or IOC order that passes the scan trades min(quantity, what the scan finds within its price), an iceberg min(peak, the same) |
| FillRules.FokNeverRests | backend/crates/matching/src/lib.rs:176-188 | a fill-or-kill order leaves its own side untouched |
| FillRules.FokAtomicIff | backend/crates/matching/src/lib.rs:176-198 | a fill-or-kill order leaves the book exactly as it was or trades between quantity minus slack and quantity, if and only if it fails the scan, or its peak is empty or reaches that bound |
| FillRules.FokIcebergTradesItsPeak | backend/crates/matching/src/lib.rs:180-198 | a concrete fill-or-kill iceberg of 2 that trades 1 |
| FillRules.TradeParties | backend/crates/matching/src/lib.rs:218-228 | every trade names buyer and seller, orders and users, on their own sides, in the taker's pair |
| FillRules.TakerLimitRespected | backend/crates/matching/src/lib.rs:204-208 | no trade of a limit, FOK, IOC or iceberg order is beyond its limit: at most it for a buy, at least it for a sell |
| FillRules.MakerLimitRespected | backend/crates/matching/src/lib.rs:216-220 | a maker trades within half a tick of its own limit, exactly at it on the grid |
| FillRules.PricesWorsen | backend/crates/matching/src/lib.rs:216-229 | trade prices of one submission only worsen, and the last one becomes the book's last price |
| FillRules.SubmitThenCancel | backend/crates/matching/src/lib.rs:239-244 | submitting a fresh order that does not trade and cancelling it gives back the same live orders, for every order type |
| OrderTypes.FailedScanDoesNothing | backend/crates/matching/src/lib.rs:176-188 | an order of type or time in force FOK that finds less than its quantity minus 1e-9 within its price leaves the book exactly as it was |
| OrderTypes.TotalTraded | backend/crates/matching/src/lib.rs:190-281 | how much any other order trades: a limit, FOK, IOC or iceberg one the smaller of what it shows and what live orders offer within its price, a market, OCO, TWAP or other one the smaller of its quantity and all they offer, whatever its price |
| OrderTypes.RestOfOrder | backend/crates/matching/src/lib.rs:236-246 | the rest queues at the order's tick, fully shown and with its fill, behind everything not worse, if and only if what was shown is not used up and the order is no FOK, IOC or market order; otherwise its own side stays as it was |
| OrderTypes.PostOnlyOutcome | backend/crates/matching/src/lib.rs:157-173 | a post-only order never trades; it is turned away if the front opposite level is within its price, else it queues as a limit order |
| BookRuns.InvMatch | backend/crates/matching/src/lib.rs:202-235 | matching keeps both lines in priority, every fill accounted for by trades, and the sides apart |
| BookRuns.InvRest | backend/crates/matching/src/lib.rs:239-244 | so does resting an order whose limit is clear of the opposite side |
| BookRuns.InvCancel | backend/crates/matching/src/lib.rs:315-337 | so does cancelling |
| Reachable.RunInv | backend/crates/matching/src/lib.rs:154-337 | the invariant holds after every well-formed run of submissions and cancellations |
| Reachable.PriceTimePriority | backend/crates/matching/src/lib.rs:202-235 | after any run, trade i of the next order goes to order i in line; all behind it have a worse tick or the same tick and a later arrival; every earlier maker was used up |
| Reachable.NeverCrossed | backend/crates/matching/src/lib.rs:204-208 | no reachable book has a live bid tick above a live ask tick, for arbitrary real limits and every order type; on-grid limits never touch |
| Reachable.LiveOrderAccounted | backend/crates/matching/src/lib.rs:209-230 | a live order keeps its submitted terms, its fill is the sum of the trades naming it and lies in [0, quantity), and its status says partially filled once it has traded |
| Reachable.CancelRemovesExactly | backend/crates/matching/src/lib.rs:315-337 | in a reachable book, cancel removes exactly the named order and keeps all others in order |
| Conservation.SubmitLedger | backend/crates/matching/src/lib.rs:154-293 | one submission: new quantity = traded + change in resting + discarded, for every book, order and id |
| Conservation.CancelLedger | backend/crates/matching/src/lib.rs:315-337 | one cancellation: what leaves the book is discarded, and nothing else |
| Conservation.RunConserves | backend/crates/matching/src/lib.rs:154-337 | over any run whatever, submitted = traded + resting + discarded, per order id |
| Conservation.IcebergPromiseIff | backend/crates/matching/src/lib.rs:190-244 | with avail the quantity in reach: an iceberg shows at most its peak iff avail fills the peak or covers the hidden part; it loses nothing iff avail is short of the peak or nothing is hidden; both iff nothing is hidden or hidden <= avail < peak |
| Conservation.IcebergShowsAll | backend/crates/matching/src/lib.rs:239-244 | a concrete iceberg of 3 with peak 1 that rests with 3 shown |
| Conservation.IcebergLosesHidden | backend/crates/matching/src/lib.rs:191-198 | the same iceberg against an offer of 1, losing the other 2 |
| Conservation.DiscardsAreMeant | backend/crates/matching/src/lib.rs:165-188 | discards are non-negative and each reason befalls only the orders it is for |
| Conservation.NeverOverfilled | backend/crates/matching/src/lib.rs:202-230 | over any well-formed run, whatever the iceberg peaks, no order trades more than it was submitted for |
| EmptyLevels.EmptyLevelsUnobservable | backend/crates/matching/src/lib.rs:209-234 | erase the empty levels of any reachable book: every continuation without post-only sells makes the same trades and keeps the same live orders |
| EmptyLevels.RunKeepsAsksFull | backend/crates/matching/src/lib.rs:170-171 | an ask level is never empty after any run |
| EmptyLevels.EmptyLevelOrigin | backend/crates/matching/src/lib.rs:158-171 | after any run, every empty bid level stands at the tick of a post-only sell that was accepted earlier in it |
| EmptyLevels.PostOnlySellBlocksTheNext | backend/crates/matching/src/lib.rs:158-171 | once a post-only sell rests, every later one at its tick or below is turned away |
| EmptyLevels.PhantomExample | backend/crates/matching/src/lib.rs:158-171 | two post-only sells on an empty book: the second is turned away with no live bid |
| EmptyLevels.DepthMonotone | backend/crates/matching/src/lib.rs:339-343 | snapshot prices are strictly monotone and a smaller snapshot is a prefix of a larger one |
| EmptyLevels.DepthSnapshotShows | backend/crates/matching/src/lib.rs:339-343 | a snapshot of n levels has on each side the best n levels or all there are, each with its price and what the live orders there have left; once it covers a side, its rows within any limit sum to what the scan finds |
| EmptyLevels.DepthRowIsOpenQuantity | backend/crates/matching/src/lib.rs:339-343 | a row shows exactly what the live orders at its tick have left |
| EmptyLevels.DepthAgreesWithScan | backend/crates/matching/src/lib.rs:302-343 | at every limit price, the rows within it sum to what the fill-or-kill scan finds |
| EmptyLevels.DepthSameUpToZeroRows | backend/crates/matching/src/lib.rs:339-343 | books with the same live orders show the same depth up to rows of quantity zero |
| Triggers.InvStep | backend/crates/matching/src/lib.rs:463-612 | every atomic step of every handler keeps each order in at most one place, books within submissions, and noted stops met |
| Triggers.NeverStoredAndLive | backend/crates/matching/src/lib.rs:463-478 | over all interleavings, no id is both in the conditional store and live in a book |
| Triggers.SubmittedAtMostOnce | backend/crates/matching/src/lib.rs:582-597 | over all interleavings of creates, sweeps, cancels and crashes, each order reaches a book at most once |
| Triggers.StopsFireAfterTheirPrice | backend/crates/matching/src/lib.rs:541-580 | a stop order is submitted only by a sweep and only after a trade of its pair printed at a price meeting its stop |
| Handlers.TradeCancelsLinkedLeg | backend/crates/matching/src/lib.rs:501-536 | when an order with a linked leg trades, created or fired, its thread's next step leaves the leg live in no book and the one after leaves it out of the store, whatever other threads do before each |
| Handlers.NoTradeCancelsNothing | backend/crates/matching/src/lib.rs:501-503 | a submission that prints nothing leaves its thread only the stop orders it still had to take |
| Handlers.TradeSweeps | backend/crates/matching/src/lib.rs:505-510 | a new order that trades goes on to sweep its pair's stop orders at its last price, a fired one does not |
| Handlers.FiredStopLimit | backend/crates/matching/src/lib.rs:582-595 | a fired stop-limit prints nothing beyond its limit and, if it prints nothing, rests at its tick as an open limit order |
| Handlers.FiredMarket | backend/crates/matching/src/lib.rs:582-595 | fired stop-market and trailing orders never rest, and unless fill-or-kill they trade whenever there is a live opposite order |
| Handlers.StoredWithBest | backend/crates/matching/src/lib.rs:463-474 | a new stop order is stored with the front opposite level's price, which no live order there betters, or its own price, whatever runs between the read and the insert |
| Handlers.LookNotes | backend/crates/matching/src/lib.rs:544-565 | a sweep notes an entry if and only if it is of the pair, has a stop price and is at its firing price or beyond |
| Handlers.LookTightens | backend/crates/matching/src/lib.rs:567-577 | a trailing stop that is not noted tightens the best price of the last noted entry, lower for a buy and higher for a sell, and no other best price changes |
| Handlers.SweepTakesNoted | backend/crates/matching/src/lib.rs:566-582 | a finished look through the store leaves exactly the noted orders to take, in the order noted |
| Handlers.CrashLosesOrder | backend/crates/matching/src/lib.rs:442-478 | a crash of the thread that has an order in hand ends that order for good though its row is there |
| Handlers.FailedLookupKeepsLeg | backend/crates/matching/src/lib.rs:516-536 | when the lookup fails, the leg is dropped from the store but stays live in its book |
| Triggers.DroppedLegNeverFires | backend/crates/matching/src/lib.rs:516-536 | a leg taken out of the store by its linked order or a cancel is never submitted, stored or live again, whatever runs afterwards |
| CancelFinality.StoreRemovalFinalIff | backend/crates/matching/src/lib.rs:534-535 | taking an id out of the store leaves it never stored, never submitted again and live nowhere under every continuation, if and only if at that moment it is in nobody's hands and in no book |
| CancelFinality.CancelFinalIff | backend/crates/matching/src/lib.rs:640-658 | the same of a whole cancel request, with anything run by other threads between its book step and its store step |
| CancelFinality.SitedReachable | backend/crates/matching/src/lib.rs:463-478 | over all interleavings, every order stands at most once in the books, in the book of its row's pair, so the cancel's one book is the right one |
| CancelSchedules.CancelAlwaysFinalIff | backend/crates/matching/src/lib.rs:640-658 | known before the request: it ends the order under every schedule of other threads if and only if no handler has the order in hand and it is not stored with a stop price |
| CancelSchedules.OthersTake | backend/crates/matching/src/lib.rs:541-586 | from any reachable state, other threads can print a price that meets any stored stop and take the order |
| CancelSchedules.CancelRace | backend/crates/matching/src/lib.rs:442-474 | a reachable state in which a cancel runs between an order's row insert and its placement, and does not end it |
| CancelSchedules.StoredCancelRace | backend/crates/matching/src/lib.rs:582-652 | a reachable state with the order stored and in nobody's hands, and a schedule in which a sweep takes and submits it between the cancel's two steps: the cancel is through and the order is live |
| Ratchet.RatchetSession.InitSender | backend/crates/crypto_primitives/src/lib.rs:149-160 | the initiator's session |
| Ratchet.RatchetSession.InitReceiver | backend/crates/crypto_primitives/src/lib.rs:162-173 | the responder's session, with the two chains swapped |
| Ratchet.RatchetSession.Encrypt | backend/crates/crypto_primitives/src/lib.rs:175-194 | the message carries the counter and the text sealed under the current chain's message key; chain and saturating counter advance once |
| Ratchet.RatchetSession.Decrypt | backend/crates/crypto_primitives/src/lib.rs:196-222 | result and new state, moved whether or not the message opens |
| Ratchet.RatchetSession.SkipTo | backend/crates/crypto_primitives/src/lib.rs:206-216 | the skip-ahead loop steps the chain through the counter and yields that counter's key, or does nothing for a stale one |
| Ratchet.RatchetSession.Rekey | backend/crates/crypto_primitives/src/lib.rs:197-205 | a new ratchet key restarts the receiving chain |
| Ratchet.KeysStrictlyIncrease | backend/crates/crypto_primitives/src/lib.rs:206-216 | for any counters in any order with any repeats, the chain indices used as keys strictly increase, so none is used twice |
| Ratchet.SessionUsesKeyIndices | backend/crates/crypto_primitives/src/lib.rs:206-222 | a session fed any messages under the known ratchet key opens each with exactly that index's key, and stale ones with none |
| Ratchet.ReplayHarmlessIff | backend/crates/crypto_primitives/src/lib.rs:206-216 | after a replay every later genuine message, with any drops between, gets the key r - replayed - 1 places too far, so its own if and only if the replay was of the last message |
| Ratchet.NewInitiatorIsHeard | backend/crates/crypto_primitives/src/lib.rs:197-222 | whatever a session's state, the first message to arrive from a peer that started a new session opens, its number within the counter's range, and both then share root, chain and counter |
| Ratchet.SkipReachesKeyIff | backend/crates/crypto_primitives/src/lib.rs:192-216 | with saturated counters, the key of message i is reached if and only if i fits the counter or nothing was skipped |
| RatchetPair.ConnectKeeps | backend/crates/crypto_primitives/src/lib.rs:149-173 | sessions made from matching keys share root and chains |
| RatchetPair.PairDecrypts | backend/crates/crypto_primitives/src/lib.rs:175-222 | in any interleaving with drops and corruption, every message arriving as sent gives its sender's text, while no message past the counter's range crosses a gap |
| RatchetPair.PairDecryptsDespiteLoss | backend/crates/crypto_primitives/src/lib.rs:175-222 | with at most 2^32 messages that way, every message arriving as sent decrypts despite any drops and corruption |
| RatchetPair.PairDecryptsForever | backend/crates/crypto_primitives/src/lib.rs:192-216 | without drops, decryption works for any number of messages, past counter saturation |
| RatchetPair.MessagesAccounted | backend/crates/crypto_primitives/src/lib.rs:175-222 | over any run, the messages sent one way are those delivered, those dropped and those in flight |
| RatchetPair.LossyRun | backend/crates/crypto_primitives/src/lib.rs:196-222 | of three messages the first is dropped and the second corrupted; the third opens |
| Candles.MakeCandles | backend/crates/matching/src/lib.rs:782-808 | for each offered name its number of seconds, 60 for any other: candles in ascending time at whole multiples, each with first, highest, lowest, last price and volume of the trades of its times, and every trade in just one, negative times included |
| Candles.Summarise | backend/crates/matching/src/lib.rs:800-805 | one pass gives first, highest, lowest and last price and the volume |
| Candles.GroupHoldsBucket | backend/crates/matching/src/lib.rs:793-798 | whatever the order of the trades, each group holds exactly its bucket's trades, in order |
| Candles.HighLowMeaning | backend/crates/matching/src/lib.rs:802-803 | high and low bound every price and are prices that traded |
| Candles.VolumeConserved | backend/crates/matching/src/lib.rs:804 | candle volumes add up to the traded quantity |
| Candles.BucketNests | backend/crates/matching/src/lib.rs:796 | bucketing a fine bucket's start gives the trade's coarse bucket, negative times included |
| Candles.CoarseIsRollupOfFine | backend/crates/matching/src/lib.rs:784-807 | for time-sorted trades, when one width divides another, the coarse candles are the merge of the fine ones |
| Candles.OfferedWidthsNest | backend/crates/matching/src/lib.rs:784-788 | the offered widths are 60, 300, 900, 1800, 3600, 14400, 86400 and 604800 seconds, and each divides every later one |
| Custody.Services.CreditDeposit | backend/crates/blockchain/src/lib.rs:107-145 | every open deposit at the address is confirmed with the amount and the first one's user gains it, as nothing when it does not fit 64 bits and stopping at 2^64 - 1; with none open nothing changes |
| Custody.Services.Withdraw | backend/crates/wallet/src/lib.rs:106-146 | refused without a balance row or with too little on it; else the debit, the queued row and the event, and nothing else |
| Custody.Services.FlushWithdrawals | backend/crates/blockchain/src/lib.rs:82-105 | the buffer is emptied; of the events before a database error, a row they name ends as broadcast when the last such event's amount is below 10,000 and as waiting for the cold wallet otherwise; a row they do not name stays |
| Custody.FlushedMeans | backend/crates/blockchain/src/lib.rs:82-105 | the same of a flush from any state of a run |
| Custody.FundsConserved | backend/crates/wallet/src/lib.rs:106-146 | over every trade-free run, balance plus withdrawals never exceeds credits, and equals them while they fit a u64 |
| Custody.CreditedOnce | backend/crates/blockchain/src/lib.rs:107-121 | a credited deposit never changes again, and crediting its address again does nothing |
| Custody.ThresholdRespected | backend/crates/blockchain/src/lib.rs:87-101 | broadcast rows are below 10,000, cold-wallet and approved rows at or above, with events lost, repeated and reordered |
| Custody.ApprovalSurvivesIff | backend/crates/admin/src/lib.rs:417 | an approval survives a flush if and only if the flush routes no event for that row |
| Custody.ApprovalLost | backend/crates/blockchain/src/lib.rs:87-101 | a run from the empty vault in which an approved withdrawal is put back to wait by a second delivery of its event |

## Left out

- Floating-point rounding, NaN and saturation of ticks to 64 bits: arithmetic is exact.
- Trade ids, creation times, logging, broadcast channels and database order statuses; the persisted status is computed from an order the match did not touch.
- In-place aliasing of queue elements: the sides of the book are sequences that the methods reassign.
- Triggers.StopsFireAfterTheirPrice: says nothing of trailing stops, because the code updates the best price of the last noted entry rather than of the one looked at; the machine does model that update.
- Triggers.InvStep: the handlers are steps on values rather than methods of an object, because their interleaving is what matters; iteration over the store may visit any stored entry any number of times, and owner checks on cancel requests are dropped, which only adds runs.
- Exclusivity of linked legs: a fill of a resting leg does not cancel the other, so it does not hold.
- Fees, settlement balances, tickers and history queries: SQL selections and one-line arithmetic.
- Candles.Summarise: starts high and low from the first price instead of the extreme floats, which agrees on the non-empty groups that occur.
- The frontend's ratchet, Noise sessions, zero-knowledge proofs, stealth addresses and the internals of hashing and encryption.
- Encryption of stored balances, fractional deposit amounts, and the parsing of queue payloads: events are the ones withdrawals sent.
- HTTP, authentication, the dashboard, the web client and deployment.
