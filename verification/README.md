# A verified model of the trading engine's algorithmic cores

This project models, in Dafny, the self-contained algorithms of a cross-exchange trading engine and
proves what they promise. `dafny verify dfyconfig.toml` checks all of it. Each module follows one
source file or one algorithm in it.

| module | models |
|---|---|
| `Crc32` | the bit-at-a-time CRC-32/ISO-HDLC of the Rust core (section 8.1.1.6.2 of ITU-T V.42; the sample code is section 8 of RFC 1952) |
| `FixedDecimal` | the nine-decimal `i64` number with truncating `i128` products and quotients |
| `OrderBook` | the L2 book: snapshots, deltas, best prices, depth-weighted mid |
| `Doubles`, `ChecksumText`, `BookChecksum` | how figures are printed through doubles, the text a book is rendered to with a strict reader of it, and the checksum |
| `SpreadSignal` | the spread selection, written twice in the source, and the signal cooldown |
| `RateLimit` | the general and the login sliding-window limiter |
| `Candles`, `BackwardPaging`, `CoinonePaging`, `ForwardPaging` | the OKX, Coinone and Binance download loops against an abstract exchange, requests that fail or break off included |
| `WalkForward`, `Correlation` | drawdown, live gate, window split, regime lookup, Pearson correlation |
| `RollingPerformance`, `Percentiles` | the rolling equity ledger and the percentile tracker |
| `Reconciliation` | the three-way profit reconciliation |
| `Symbols` | symbol printing, parsing and batched subscription |
| `Options`, `Reals`, `Sorting` | absent values, signs of real products, and the sort that stands for the library's |

Conventions. Where a member computes something, a second description of the result, not computed
in the same way, is proved to hold of that result and of no other: a reader for the checksum text, sums
over pairs for the correlation, falls between two points for drawdowns, ranks for percentiles,
segments of the run for closed days.

Objects whose methods update fields are classes, and each method is proved against a
function on values (`Step`, `DeltaAll`, `LoginStep`, ...), about which whole runs are then proved.
Prices, profits and timestamps in seconds are exact reals, the scaled prices and the CRC are exact
integers and bit-vectors. Clock readings, failed requests and the exchange's data are parameters, so
every statement holds for all of them. `Option` stands for absent values and raised errors.

Where the code does not do what its documentation says, the code is modelled and the difference is a
lemma:

* The order book documents all quantities as positive; a delta stores a negative one
  (`NegativeDeltaStored`). `DeltaPositiveExactly` and `HistoryPositiveExactly` give the condition.
* The best bid and ask search documents that it returns a result whenever a valid cross-exchange
  arbitrage exists; it does not when one crossed exchange holds both best prices
  (`CrossedExchangeHidesArbitrage`). `MissedExactly` gives the condition.
* Dedup keys join names with colons, so a name that ends in another can make two routes share one
  (`ColonInNameCollides`). `KeysTellRoutesApartExactly` and
  `SignalKeysExactly` give the condition on the set of names, `ItemKeysExactly` the one for emitted
  signals.
* The forward download stops at the first page that is not full, so a hole in the data cuts the
  result short (`HoleLosesCandle`). `ForwardPaging.CompleteExactly` gives the condition.
* The Coinone download ends at a page on which no timestamp can be read, so older candles are lost
  (`UndatedPageHidesOlder`). `CoinonePaging.CompleteExactly` gives the condition.
* The windows of the walk-forward analysis are half-open while the query behind them is closed, so a
  trade at the very end can belong to no window (`TradeOnEndMissed`). `WindowsCompleteExactly` gives
  the condition.
* The analysis documents the live gates as a drawdown below 5% and more than 100 daily signals
  (`walk_forward.py`, lines 48 and 66-67); both are passed at equality (`GatesIncludeTheirBounds`).
* `(a / b) * b` of the fixed-point type can miss `a` altogether (`LargestByTiniestLost`). It stays
  just short of `a` exactly when the true quotient fits, but for one overflow that wraps twice
  (`DivideThenMultiply`).
* Prices are printed into the checksum text through doubles. All figures up to n, and all
  payloads of such figures, are told apart if and only if n is at most one unit of 10^-9 above 2^23
  (`AllToldApartExactly`, `PayloadsTellApartExactly`); a single figure is told apart from all others
  if and only if it is printed unlike both its neighbours (`ToldApartExactly`).
* The checksum text does not say where the bids end (`LoneBidConfused`). `PinsDownExactly` gives the
  condition, on one book, under which it pins the best levels down among the uncrossed books all the
  same, `PinsDownAnyExactly` the one among all books.
* The login limiter documents that evicting stale IPs bounds its memory; with a limit of zero it
  never evicts (`TrackedIpsBounded`, second part).
* Closed days repeat a date when a day is rolled onto itself (`RolledOntoItself`).
  `DaysHoldTheirProfits` and `DatesIncreaseExactly` give the conditions.
* A profit with an earlier date is booked on the latest day (`LateProfitMisdated`).
  `OwnProfitsExactly` says when a closed day holds the profits of its own date.
* The drawdown over the equity window is documented as a percentage up to 100; it leaves that range,
  and understates the worst fall, once equity is negative (`NegativeEquityUnderstated`).
  `PercentageExactly`, `DropCoversExactly` and `DrawdownIsWorstFall` give the conditions.
* The reconciliation documents CRITICAL for more than 5%; a drift of exactly 5% is CRITICAL too, and
  a stored drift of 5% need not be (`FivePercentIsCritical`, `StoredDriftExactly`).
* For percentages below zero the percentile tracker extrapolates, below the smallest value at first
  (`NegativePercentageExtrapolates`), and reads from the upper end where the position is a negative
  integer (`NegativePercentageWraps`). `PercentileWithinExactly` says which positions keep the result
  within the data, `PercentileExistsExactly` which have one at all.
* The symbol parsers misread `X` + `USD` when `X` ends in B or T. `RoundTripExactly` gives the
  condition.

## Model

| member | source | states |
|---|---|---|
| Crc32.Crc32Ieee | engine/rust_core/src/orderbook.rs:285-298 | the nested loops return the complemented register after all bytes, as `Checksum` defines it |
| Crc32.ChecksumIsRfc1952 | engine/rust_core/src/orderbook.rs:284-298 | on every byte string the bitwise loop equals the table-driven algorithm of section 8 of RFC 1952 |
| Crc32.CheckValue | engine/rust_core/src/orderbook.rs:284-298 | the digits 1 to 9 have the check value CBF43926 of CRC-32/ISO-HDLC |
| Crc32.ShiftStepBijective | engine/rust_core/src/orderbook.rs:290-294 | one shift of the register is a bijection on 32-bit words, with its inverse given |
| Crc32.ShiftLinear | engine/rust_core/src/orderbook.rs:289-295 | any number of shifts distributes over XOR |
| Crc32.FeedIsWordXor | engine/rust_core/src/orderbook.rs:287-296 | feeding up to 32 message bits is one word XOR followed by as many shifts |
| Crc32.RegisterIsBitRegister | engine/rust_core/src/orderbook.rs:287-296 | absorbing a byte and shifting eight times is absorbing its eight bits, lowest first |
| Crc32.UndetectedExactly | engine/rust_core/src/orderbook.rs:269-298 | two payloads of one length share a checksum if and only if their bitwise difference leaves the zero register at zero |
| Crc32.BurstDetected | engine/rust_core/src/orderbook.rs:269-298 | every corruption inside 32 consecutive bits, byte-aligned or not, changes the checksum |
| Crc32.FourByteBurstDetected | engine/rust_core/src/orderbook.rs:269-298 | every corruption inside four consecutive bytes changes the checksum |
| Crc32.ShortestUnseenBurst | engine/rust_core/src/orderbook.rs:290-294 | the bound of 32 is tight: of the 33-bit bursts exactly one, the generator, goes unseen |
| Crc32.Divide | engine/rust_core/src/orderbook.rs:285-298 | a difference that leaves the zero register at zero is a multiple of the generator over GF(2), by long division |
| Crc32.MultipleUnseen | engine/rust_core/src/orderbook.rs:285-298 | every multiple of the generator leaves the zero register at zero |
| Crc32.UnseenIsMultiple | engine/rust_core/src/orderbook.rs:269-298 | for payloads of any one length, a corruption goes unseen if and only if the difference, as a polynomial over GF(2), is a multiple of the generator |
| Doubles.CarriedShown | engine/rust_core/src/orderbook.rs:35-37 | a figure below 2^23 goes through the double and comes out with all nine decimals |
| Doubles.DoubleIsNearest | engine/rust_core/src/orderbook.rs:35-37 | rounding yields a number of at most 53 bits times a power of two, and no such number is nearer |
| Doubles.ShownError | engine/rust_core/src/orderbook.rs:35-37 | for every figure, however large, what is printed is off by at most a 2^51st of it and one unit of the ninth decimal |
| Doubles.LargeStaysLarge | engine/rust_core/src/orderbook.rs:35-37 | a figure of 2^23 or more is printed as one of 2^23 or more |
| Doubles.CarriedOnlyItself | engine/rust_core/src/orderbook.rs:35-37 | what is printed for a figure below 2^23 is printed for no other figure |
| Doubles.ShownMonotone | engine/rust_core/src/orderbook.rs:35-37 | a larger figure is never printed as a smaller one |
| Doubles.ToldApartExactly | engine/rust_core/src/orderbook.rs:35-37 | a figure is printed unlike every other one if and only if it is printed unlike its two neighbours |
| Doubles.AllToldApartExactly | engine/rust_core/src/orderbook.rs:35-37 | all figures of magnitude up to n are printed differently if and only if n is at most one unit above 2^23 |
| Doubles.FirstFiguresMerged | engine/rust_core/src/orderbook.rs:35-37 | the first two figures that are printed alike: one and two units above 2^23 |
| ChecksumText.RenderExactly | engine/rust_core/src/orderbook.rs:258-263 | a text reads as a figure (a sign below zero only, no leading zeros, a point, nine decimals) if and only if it is that figure printed |
| ChecksumText.TextExactly | engine/rust_core/src/orderbook.rs:257-264 | a text reads as a list of levels, price and quantity around `@` and levels around bars, if and only if it is that list printed and joined |
| ChecksumText.TextExample | engine/rust_core/src/orderbook.rs:257-264 | a bid of 100.5 for 2 and an ask of 101.25 for 0.000000001, as one string |
| ChecksumText.EncodedExactly | engine/rust_core/src/orderbook.rs:265 | the bytes of the text are the codes of its characters |
| BookChecksum.PrintsExactly | engine/rust_core/src/orderbook.rs:253-265 | exactly one text reads as the best five bids, best first, followed by the best five asks, each figure as printed through its double; the checksum is that of its bytes |
| BookChecksum.ComputeChecksum | engine/rust_core/src/orderbook.rs:253-266 | the two loops and the join return the checksum of a text that reads as those levels |
| BookChecksum.ValidateChecksum | engine/rust_core/src/orderbook.rs:269-271 | accepts a value if and only if it is the checksum of a text that reads as the best levels of the book |
| ChecksumText.RenderInjective | engine/rust_core/src/orderbook.rs:258-263 | two printed figures have the same text if and only if they are equal |
| ChecksumText.TextInjective | engine/rust_core/src/orderbook.rs:257-264 | two lists of printed levels have the same joined text if and only if they are equal |
| BookChecksum.PayloadExactly | engine/rust_core/src/orderbook.rs:253-265 | two lists of levels have one payload if and only if they are printed alike; when the figures of one are told apart from all others, if and only if they are equal |
| BookChecksum.PayloadPinsLevelsExactly | engine/rust_core/src/orderbook.rs:253-265 | a list of levels is the only one with its payload if and only if each of its figures is told apart from all others |
| BookChecksum.PayloadsTellApartExactly | engine/rust_core/src/orderbook.rs:253-265 | all lists of levels with figures up to n have different payloads if and only if n is at most one unit above 2^23 |
| BookChecksum.LargePricesConfused | engine/rust_core/src/orderbook.rs:258-263 | one and two units above 2^23, two different prices give one payload |
| BookChecksum.SameTopsExactly | engine/rust_core/src/orderbook.rs:253-264 | the best five levels of two uncrossed books agree if and only if the joined lists do and both books have a bid or neither has |
| BookChecksum.PinsDownExactly | engine/rust_core/src/orderbook.rs:253-271 | an uncrossed book whose figures are told apart is the only uncrossed one with its payload, up to five levels a side, if and only if it has two bids, or one bid and five asks, or nothing |
| BookChecksum.PinsDownAnyExactly | engine/rust_core/src/orderbook.rs:253-271 | any book, crossed or not, whose prices are told apart is the only one of all books with its payload, up to five levels a side, if and only if its quantities are told apart and it is empty or has both sides, and the last bid used and the best ask have one price, or the ask is higher and there are five asks, or the bid is higher and there are five bids |
| BookChecksum.LoneBidConfused | engine/rust_core/src/orderbook.rs:253-266 | a single bid in front of fewer than five asks has the checksum of the book of those levels as asks alone |
| BookChecksum.BookBurstDetected | engine/rust_core/src/orderbook.rs:269-298 | for any two books whose payloads are within four consecutive bytes of each other, the checksums agree if and only if the levels are printed alike; for a book that its payload pins down, among all books or, against an uncrossed one, among those, if and only if the best levels agree |
| BookChecksum.WrongFigureExactly | engine/rust_core/src/orderbook.rs:253-298 | a printed price or quantity that is wrong from the sixth decimal on goes unseen if and only if it is printed as the right one |
| BookChecksum.WrongFigureDetected | engine/rust_core/src/orderbook.rs:253-298 | every such error in a figure changes the checksum if and only if the figure is told apart from all others |
| FixedDecimal.TruncDiv | engine/rust_core/src/orderbook.rs:70-79 | Rust division rounds toward zero: the remainder is below the divisor and has the sign of the dividend |
| FixedDecimal.AsI64 | engine/rust_core/src/orderbook.rs:70-79 | the cast is congruent modulo 2^64 and keeps a value if and only if it fits |
| FixedDecimal.NoWideOverflow | engine/rust_core/src/orderbook.rs:70-79 | no `i128` intermediate of a product or a quotient overflows |
| FixedDecimal.MulExactly | engine/rust_core/src/orderbook.rs:66-73 | for all operands the product is the exact one over 10^9, rounded toward zero, but for a multiple of 2^64 |
| FixedDecimal.ProductFitsExactly | engine/rust_core/src/orderbook.rs:66-73 | it is not wrapped if and only if a comparison of magnitudes, made before dividing, holds |
| FixedDecimal.DivExactly | engine/rust_core/src/orderbook.rs:75-82 | for all operands the quotient is the exact one times 10^9, rounded toward zero, but for a multiple of 2^64; there is none by zero |
| FixedDecimal.QuotientFitsExactly | engine/rust_core/src/orderbook.rs:79 | the truncated quotient fits an `i64` if and only if a comparison of magnitudes, made before dividing, holds |
| FixedDecimal.ExactQuotientReturns | engine/rust_core/src/orderbook.rs:66-82 | when it fits, (a/b)*b has the sign of a, does not exceed it, and is short by less than abs(b)/SCALE + 1 units |
| FixedDecimal.WrappedQuotientLost | engine/rust_core/src/orderbook.rs:66-82 | when it does not fit, (a/b)*b misses a by more than that, one pair of operands aside |
| FixedDecimal.DivideThenMultiply | engine/rust_core/src/orderbook.rs:66-82 | (a/b)*b stays just short of a if and only if the quotient fits or the operands are that one pair |
| FixedDecimal.LargestByTiniestLost | engine/rust_core/src/orderbook.rs:66-82 | an input for which the quotient does not fit and (a/b)*b does not come back |
| OrderBook.Book.ApplySnapshot | engine/rust_core/src/orderbook.rs:125-147 | the new book is the snapshot's positive levels; on a malformed level, those read before it, with an error |
| OrderBook.Book.ApplyDelta | engine/rust_core/src/orderbook.rs:150-174 | the new book is the old one updated level by level; on a malformed level the updates before it stay, with an error |
| OrderBook.DeltaIsLastWriteWins | engine/rust_core/src/orderbook.rs:155-172 | after a delta every price answers with its last update, zero meaning no level, and with its old quantity if not named |
| OrderBook.SnapshotIsPositiveDelta | engine/rust_core/src/orderbook.rs:130-145 | a snapshot is a delta of its positive levels on the empty side |
| OrderBook.ReplayIsOneDelta | engine/rust_core/src/orderbook.rs:125-174 | any history of snapshots and deltas equals one delta of the updates in force, applied to the empty side |
| OrderBook.HistoryIsLastWriteWins | engine/rust_core/src/orderbook.rs:125-174 | after any history each price answers with the last update in force |
| OrderBook.SplittingIsInvisible | engine/rust_core/src/orderbook.rs:150-174 | splitting a delta into two consecutive ones changes nothing, whatever came before |
| OrderBook.DeltaIdempotent | engine/rust_core/src/orderbook.rs:150-174 | receiving a delta a second time changes nothing |
| OrderBook.SideExtensional | engine/rust_core/src/orderbook.rs:106-109 | a side is determined by what it answers at each price |
| OrderBook.SnapshotPositive | engine/rust_core/src/orderbook.rs:130-145 | after any snapshot every stored quantity is positive |
| OrderBook.HistoryPositive | engine/rust_core/src/orderbook.rs:106-174 | with no negative quantity in any delta, every stored quantity is positive after any history |
| OrderBook.HistoryPositiveExactly | engine/rust_core/src/orderbook.rs:106-174 | after any history every stored quantity is positive if and only if the last update in force of no price is negative |
| OrderBook.DeltaPositiveExactly | engine/rust_core/src/orderbook.rs:158-162 | a delta keeps a side positive if and only if its last update of no price is negative |
| OrderBook.NegativeDeltaStored | engine/rust_core/src/orderbook.rs:158-162 | a single delta level is enough to store a negative quantity |
| OrderBook.BestAreExtreme | engine/rust_core/src/orderbook.rs:177-184 | the best bid and ask are the highest and the lowest price that answers with a quantity |
| OrderBook.VwapBetween | engine/rust_core/src/orderbook.rs:216-235 | the volume-weighted price of positive levels lies between any bounds on their prices |
| OrderBook.MidExactly | engine/rust_core/src/orderbook.rs:206-238 | for every book and depth there is no mid if and only if the quantities used of one side sum to zero; otherwise it lies half way between the price about which the bids used balance and the one about which the asks do |
| OrderBook.MidInsideBook | engine/rust_core/src/orderbook.rs:206-238 | on an uncrossed positive book the mid exists, lies strictly between the deepest bid and ask used, and at depth one is the arithmetic mid |
| OrderBook.DeeperIsWorse | engine/rust_core/src/orderbook.rs:206-238 | one level deeper never raises the bid average and never lowers the ask average |
| SpreadSignal.BestBidAskAcross | engine/rust_core/src/signal.rs:82-139 | the scan with its length guard returns what the selection by best bid and best ask defines |
| SpreadSignal.BestBidExactly | engine/rust_core/src/signal.rs:96-100 | the scan finds the first of the highest positive bids, and none if and only if no bid is positive |
| SpreadSignal.BestAskExactly | engine/rust_core/src/signal.rs:101-104 | the scan finds the first of the lowest positive asks, and none if and only if no ask is positive |
| SpreadSignal.ShortListsYieldNothing | engine/rust_core/src/signal.rs:86-88 | the length guard, present in one of the two pipelines, is redundant |
| SpreadSignal.SignalIsBest | engine/rust_core/src/signal.rs:107-138 | a signal is a real arbitrage between the exchanges of the best ask and the best bid, at their prices, and its spread is the profit relative to the price paid |
| SpreadSignal.SignalIsWidest | engine/rust_core/src/signal.rs:107-138 | no other pair of quotes clears the edge with a wider relative spread |
| SpreadSignal.MissedExactly | engine/rust_core/src/signal.rs:73-112 | an existing arbitrage is missed if and only if the best bid and ask come from one exchange or from one without a name |
| SpreadSignal.FindsEveryArbitrage | engine/rust_core/src/signal.rs:73-138 | when no exchange is crossed with itself and all have names, a signal is found if and only if an arbitrage exists |
| SpreadSignal.CrossedExchangeHidesArbitrage | engine/rust_core/src/signal.rs:73-112 | otherwise one can be missed: a concrete list of quotes |
| SpreadSignal.KeysTellRoutesApartExactly | engine/rust_core/src/signal.rs:177 | over a set of exchange names and any symbols, all routes have distinct dedup keys if and only if no name ends in a colon and a name of the set |
| SpreadSignal.SignalKeysExactly | engine/rust_core/src/signal.rs:107-177 | the same for the routes a signal can have, between two different named exchanges of any set: distinct keys if and only if no name ends in a colon and a second name, while there is a third name or it also begins so |
| SpreadSignal.ItemKeysExactly | engine/rust_core/src/signal.rs:107-177 | the same for the signals selected from quotes on a set of exchanges: signals that share a key are of one route if and only if no names clash in that way |
| SpreadSignal.PlainNamesTellRoutesApart | engine/rust_core/src/signal.rs:177 | so exchange names without a colon never collide, even when symbols hold colons |
| SpreadSignal.ColonInNameCollides | engine/rust_core/src/signal.rs:177 | a set of three names and two routes that share a key |
| SpreadSignal.CooldownNs | engine/rust_core/src/signal.rs:157 | the cooldown in nanoseconds is the truncated number of them, zero if and only if it is below one nanosecond, and the largest `u64` from there on |
| SpreadSignal.SpreadCalculator.constructor | engine/rust_core/src/signal.rs:154-160 | starts with an empty cooldown map and the cooldown converted from seconds |
| SpreadSignal.SpreadCalculator.Process | engine/rust_core/src/signal.rs:165-189 | one call is one step: same result and same new cooldown map, the clock read only for a qualifying spread |
| SpreadSignal.SpreadCalculator.ProcessBulk | engine/rust_core/src/signal.rs:198-262 | the inlined pipeline yields the signals, in order, and the cooldown map of one step per item |
| SpreadSignal.SpreadCalculator.ProcessEach | engine/rust_core/src/signal.rs:165-262 | calling the single-symbol pipeline on each item in turn has the very same outcome as the bulk call |
| SpreadSignal.RunTracks | engine/rust_core/src/signal.rs:176-186 | over any run, for any cooldown, the map holds for each key the time of its last emission, and none for keys that never emitted; with a positive cooldown that is the latest of all its emissions |
| SpreadSignal.EmissionsApart | engine/rust_core/src/signal.rs:176-249 | over any run and any clock, jumping backwards included, two emissions of one key are at least the cooldown apart and in order |
| SpreadSignal.EmittedExactly | engine/rust_core/src/signal.rs:176-188 | the next spread is emitted if and only if it qualifies and every earlier emission of its key is a full cooldown behind the clock |
| SpreadSignal.EmissionExactly | engine/rust_core/src/signal.rs:165-188 | the clock is read once for each qualifying spread, and what is emitted is the signal of the item, under its symbol, at that reading |
| SpreadSignal.ZeroCooldownEmitsAll | engine/rust_core/src/signal.rs:180-184 | with a zero cooldown a spread is emitted if and only if it qualifies |
| RateLimit.RateLimiter.IsAllowed | engine/src/api/middleware.py:142-151 | one call prunes the list of its IP, decides, and appends on admission; other IPs keep theirs |
| RateLimit.LoginRateLimiter.IsAllowed | engine/src/api/middleware.py:209-222 | as the general limiter, with the counter and the periodic cleanup |
| RateLimit.LoginRateLimiter.CleanupStaleIps | engine/src/api/middleware.py:201-207 | deletes exactly the IPs with no time or a last time at or before the cutoff |
| RateLimit.LiveIsSuffix | engine/src/api/middleware.py:147 | in a sorted log the unexpired times are exactly a suffix |
| RateLimit.AdmittedRespects | engine/src/api/middleware.py:142-151 | any run of admissions that spans less than a window has at most `max` members |
| RateLimit.WindowBound | engine/src/api/middleware.py:127-151 | for non-decreasing arrivals no half-open window of the configured length holds more than `max` admissions |
| RateLimit.DeniedExactly | engine/src/api/middleware.py:147-149 | a request is denied if and only if exactly `max` admissions lie in the window that ends at it |
| RateLimit.GreedyStaysAhead | engine/src/api/middleware.py:142-151 | against any policy under the same bound, the limiter's k-th admission is never later |
| RateLimit.GreedyIsOptimal | engine/src/api/middleware.py:142-151 | no policy under the same bound has admitted more after any number of arrivals |
| RateLimit.PlainRunFaithful | engine/src/api/middleware.py:142-151 | over every interleaving of IPs the pruned lists stay sorted, no longer than `max`, and show the same live times as full logs |
| RateLimit.LoginRunFaithful | engine/src/api/middleware.py:201-222 | the same for the login limiter, with cleanups |
| RateLimit.ForgettingChangesNothing | engine/src/api/middleware.py:142-222 | with a monotone clock both limiters decide every call as a limiter that keeps every admission forever |
| RateLimit.CleanedFaithful | engine/src/api/middleware.py:201-207 | a cleanup never hides a live time |
| RateLimit.CleanupKeepsActive | engine/src/api/middleware.py:201-207 | a cleanup keeps an IP if and only if it has an admission inside the window |
| RateLimit.CleanupExactly | engine/src/api/middleware.py:209-222 | over any history a cleanup follows a call if and only if it is admitted, at least a hundred calls were since the last cleanup, and more IPs are tracked than configured; otherwise the table is left as the general limiter would |
| RateLimit.AdmissionsAreIdeal | engine/src/api/middleware.py:142-222 | over every interleaving each limiter admits an IP at exactly the times at which one that never forgets does |
| RateLimit.RunWindowBound | engine/src/api/middleware.py:142-222 | over every interleaving neither limiter admits an IP more than `max` times in any half-open window |
| RateLimit.PlainRunDeniesExactly | engine/src/api/middleware.py:142-151 | over every interleaving the general limiter denies the next call if and only if its IP has `max` admissions in the window that ends at it |
| RateLimit.LoginRunDeniesExactly | engine/src/api/middleware.py:201-222 | so does the login limiter, cleanups included |
| RateLimit.RunIsOptimal | engine/src/api/middleware.py:142-222 | no policy that keeps the bound for an IP admits more of its calls than either limiter |
| RateLimit.TrackedIpsBounded | engine/src/api/middleware.py:209-222 | the table never exceeds the configured number of IPs, or those left by the last cleanup plus 99; with a limit of zero it holds exactly the IPs ever seen |
| Candles.AppendInRange | engine/scripts/download_historical.py:844-847 | the loop over one response appends exactly its candles in [start, end), in order |
| Candles.BetweenMembers | engine/scripts/download_historical.py:844-847 | a candle is kept if and only if it was received and lies in the range |
| Candles.SortRecovers | engine/scripts/download_historical.py:858-859 | sorting by timestamp restores an ascending series from its candles in any order |
| BackwardPaging.ReadOkx | engine/scripts/download_historical.py:819-856 | one round: adds what was read, then ends for good or moves the cursor strictly back |
| BackwardPaging.FetchOkx | engine/scripts/download_historical.py:799-860 | terminates; when every request is answered in full the result is every candle in [start, end), sorted and once each, gaps or not; otherwise exactly those among the entries read before the first failure, which may break off inside a page |
| BackwardPaging.ReadPage | engine/scripts/download_historical.py:843-852 | one response adds its candles in range, moves the cursor to its oldest candle and strictly reduces what is left |
| BackwardPaging.ExhaustedIsComplete | engine/scripts/download_historical.py:848-851 | once the oldest candle reaches `start`, or nothing is left, reading on would change nothing |
| CoinonePaging.ToMsReadsBothUnits | engine/scripts/download_historical.py:983-984 | either unit is read back to the same time, for all times from 10^12 ms on |
| CoinonePaging.ScanPage | engine/scripts/download_historical.py:980-997 | appends exactly the candles in range of the entries that parse, skips the others, and returns the oldest timestamp that parses, that of an entry without readable prices included |
| CoinonePaging.ReadCoinone | engine/scripts/download_historical.py:959-1005 | one round: adds what was read, then ends for good or moves the cursor strictly back |
| CoinonePaging.FetchCoinone | engine/scripts/download_historical.py:940-1008 | terminates for answers in any order, in seconds or milliseconds, with entries that do not parse and a last-page flag; the result is, sorted, all that parses and is in range of the rounds made, and of the entries read before a request broke off |
| CoinonePaging.StuckAtBlock | engine/scripts/download_historical.py:980-1001 | the cursor never gets past a page full of unreadable timestamps |
| CoinonePaging.CompleteExactly | engine/scripts/download_historical.py:940-1008 | when no request breaks off, the download holds every readable candle in range if and only if no page full of unreadable timestamps is newer than one of them |
| CoinonePaging.DatedIsComplete | engine/scripts/download_historical.py:940-1008 | so it does when every timestamp can be read, gaps or not |
| CoinonePaging.UndatedPageHidesOlder | engine/scripts/download_historical.py:999-1000 | an input: an unreadable timestamp in front of a readable candle, which is lost with pages of one |
| ForwardPaging.FetchBinance | engine/scripts/download_historical.py:213-250 | terminates with a duplicate-free prefix of the candles in [start, end), by whole pages and, when a request breaks off, the candles read of it; stops only at the end, at such a request or after a page with a free slot |
| ForwardPaging.NeverOverfull | engine/scripts/download_historical.py:223-225 | a requested window never holds more candles than the page limit, so the limit never truncates |
| ForwardPaging.FullAnswer | engine/scripts/download_historical.py:239-244 | a full page means every slot of it is taken and tells the time of its last candle |
| ForwardPaging.ShortAnswer | engine/scripts/download_historical.py:239-240 | a short page inside the range betrays a free slot |
| ForwardPaging.CompleteExactly | engine/scripts/download_historical.py:213-250 | without failures the download is complete if and only if every page in front of a candle in range is full |
| ForwardPaging.GapFreeIsComplete | engine/scripts/download_historical.py:213-250 | data without gaps is fetched whole |
| ForwardPaging.LateListingIsLost | engine/scripts/download_historical.py:233-240 | a symbol listed more than a page after `start` yields nothing |
| ForwardPaging.HoleLosesCandle | engine/scripts/download_historical.py:233-240 | an input: one candle in range, lost to the hole in front of it |
| WalkForward.ComputeMdd | engine/src/analysis/walk_forward.py:245-269 | the one-pass loop returns the largest fall from a high so far, relative to it, a loss before any profit counting as 1, and 0 when there is neither |
| WalkForward.MddIsWorstDrop | engine/src/analysis/walk_forward.py:245-269 | that is also the worst drop from the running peak over all prefixes, and is attained |
| WalkForward.MddExactly | engine/src/analysis/walk_forward.py:245-269 | a number is the result if and only if it is that largest fall, described without the running peak |
| WalkForward.DropCoversExactly | engine/src/analysis/walk_forward.py:254-267 | the drop at a point covers every fall into it if and only if profit is not negative there or had a single positive level until then |
| WalkForward.PairDropBounded | engine/src/analysis/walk_forward.py:254-267 | no relative fall between two points in profit exceeds it |
| WalkForward.MddMonotone | engine/src/analysis/walk_forward.py:245-269 | appending trades never lowers it |
| WalkForward.ZeroExactlyWithoutLoss | engine/src/analysis/walk_forward.py:254-267 | it is zero if and only if no trade loses |
| WalkForward.TotalExactlyWhenLostAll | engine/src/analysis/walk_forward.py:258-267 | it reaches 1.0 if and only if profit falls below zero, or back to zero from above |
| WalkForward.GateExactly | engine/src/analysis/walk_forward.py:166-180 | a history can pass the drawdown gate if and only if profit never falls below 95% of its running peak |
| WalkForward.FirstLossBlocks | engine/src/analysis/walk_forward.py:174-263 | when the first non-zero trade is a loss the drawdown is at least 1.0 and the gate is never passed |
| WalkForward.AnalyzedGateExactly | engine/src/analysis/walk_forward.py:127-180 | end to end: the analysis of the queried trades can pass the drawdown gate if and only if, after every trade in front of the last boundary, profit is at least 95% of its running peak |
| WalkForward.FirstLossCountsExactly | engine/src/analysis/walk_forward.py:127-263 | end to end: when the first non-zero queried trade is a loss, the drawdown is at least 1.0 if and only if that trade is in front of the last boundary |
| WalkForward.LiveExactly | engine/src/analysis/walk_forward.py:127-180 | end to end, all three gates: live if and only if the Sharpe ratio is at least 2.5, the period is not empty and has at least 100 trades a day, and after every trade in front of the last boundary profit is at least 95% of its running peak |
| WalkForward.GatesIncludeTheirBounds | engine/src/analysis/walk_forward.py:166-180 | an input: a drawdown of exactly 5% and exactly 100 daily signals pass |
| WalkForward.SplitWindows | engine/src/analysis/walk_forward.py:127-143 | the windows are consecutive, aligned and not empty; joined they are the trades before the last boundary, in order |
| WalkForward.WindowsCompleteExactly | engine/src/analysis/walk_forward.py:103-143 | the windows miss a trade if and only if the period is a whole number of windows and a trade falls on its very end |
| WalkForward.TradeOnEndMissed | engine/src/analysis/walk_forward.py:103-143 | an input: a loss on the very end of two whole windows is in neither |
| WalkForward.ProfitAccounted | engine/src/analysis/walk_forward.py:127-147 | the overall profit is that of the windows plus that of the trades on the final boundary |
| WalkForward.FindRegimeAt | engine/src/analysis/walk_forward.py:434-445 | returns the regime of the last entry at or before the time, the first entry's if none is, NORMAL if there are none or the entry names none |
| Correlation.CauchySchwarz | engine/src/analysis/walk_forward.py:482-489 | for every list of points both variance terms are non-negative and bound the squared covariance term |
| Correlation.VarianceExactly | engine/src/analysis/walk_forward.py:482-489 | the variance term of any list of numbers is non-negative, and zero if and only if they are all the same |
| Correlation.VarXExactly | engine/src/analysis/walk_forward.py:482-489 | the variance term of the abscissas is positive if and only if there are several |
| Correlation.ScoreWithinOne | engine/src/analysis/walk_forward.py:472-492 | for every list of points the returned correlation lies in [-1, 1] |
| Correlation.EqualityIsLine | engine/src/analysis/walk_forward.py:482-492 | equality in Cauchy-Schwarz puts the points on a line |
| Correlation.LineScoresOne | engine/src/analysis/walk_forward.py:472-492 | points on a rising line score exactly 1, on a falling line exactly -1 |
| Correlation.ScoreOneExactly | engine/src/analysis/walk_forward.py:472-492 | the score is 1 if and only if the points lie on a rising line with several abscissas, and -1 if and only if on a falling one |
| Correlation.LevelsExactly | engine/src/analysis/walk_forward.py:465-475 | the level of every regime name, unknown ones included |
| Correlation.TermsArePairs | engine/src/analysis/walk_forward.py:482-489 | the covariance and both variance terms are sums, over all pairs of regimes with trades, of products of differences |
| Correlation.ScoreExactly | engine/src/analysis/walk_forward.py:458-492 | the score times the root of the product of the two variance sums is the covariance sum, all taken over pairs; it is zero when the root is, and no other number is the score |
| Correlation.ComputeCorrelation | engine/src/analysis/walk_forward.py:458-492 | the loop over the regimes, the sums and the guards return that score |
| Correlation.CorrelationExactly | engine/src/analysis/walk_forward.py:458-492 | over regime results: the correlation lies in [-1, 1], and is 1 if and only if several volatility levels traded and average profit is a rising line in the level, -1 if and only if a falling one |
| RollingPerformance.Ledger.constructor | engine/src/analysis/tca.py:209-214 | starts with no day and the initial equity |
| RollingPerformance.Ledger.RecordPnl | engine/src/analysis/tca.py:220-231 | one step of the ledger: commits the open day if the day advanced, then accumulates |
| RollingPerformance.Ledger.RollDay | engine/src/analysis/tca.py:233-241 | one step of the ledger: commits the open day, if any, and opens the given one |
| RollingPerformance.Ledger.CommitCurrent | engine/src/analysis/tca.py:243-254 | moves the profit of the day into the equity and the day behind the others in the window, which keeps the newest |
| RollingPerformance.Ledger.DailyReturns | engine/src/analysis/tca.py:260-268 | the loop yields, for each day, the number that times the equity at its opening is its profit, or its profit if that equity is zero |
| RollingPerformance.Ledger.MddPct | engine/src/analysis/tca.py:283-296 | the one-pass loop yields, in percent, the largest fall from a positive high so far |
| RollingPerformance.EquityConserved | engine/src/analysis/tca.py:220-254 | after any run the current equity is the initial equity plus every profit ever recorded, despite eviction |
| RollingPerformance.WindowIsNewestDays | engine/src/analysis/tca.py:209-254 | index by index the window holds the newest closed days, as many as there are up to its length, and all closed days chain up from the initial equity to the running one |
| RollingPerformance.ClosedDayEntersWindow | engine/src/analysis/tca.py:209-254 | the day that an event closes is the last of the window |
| RollingPerformance.DaysAreSegments | engine/src/analysis/tca.py:209-254 | over any run, rolls backwards and onto the same day included, the closed days are the segments between the events that open a day: their date, the profits recorded in them and the equity of all profits so far; the rest is open |
| RollingPerformance.RunHasStarts | engine/src/analysis/tca.py:220-241 | every run divides so |
| RollingPerformance.DaysHoldTheirProfits | engine/src/analysis/tca.py:220-254 | each day closes at most once, in order, with exactly the profits recorded while it was the latest day, if and only if every explicit roll names a later day |
| RollingPerformance.OwnProfitsExactly | engine/src/analysis/tca.py:220-254 | when every roll moves forward, a closed day holds the profits of its own date if and only if the late profits booked on it equal those of its date booked elsewhere |
| RollingPerformance.OwnProfitsWithoutLate | engine/src/analysis/tca.py:220-254 | so it does when no profit arrives late |
| RollingPerformance.LateProfitMisdated | engine/src/analysis/tca.py:220-231 | an input: any profit of day 1 that arrives on day 2 is booked on day 2 |
| RollingPerformance.DatesIncreaseExactly | engine/src/analysis/tca.py:220-254 | the closed dates strictly increase if and only if every event that closes a day, the last one aside, opens a later one |
| RollingPerformance.RolledOntoItself | engine/src/analysis/tca.py:233-241 | an input: a roll to the same day makes that day close twice |
| RollingPerformance.ReturnsExactly | engine/src/analysis/tca.py:260-268 | each return times the equity at the opening of its day is the profit of the day, or is that profit where the equity is zero |
| RollingPerformance.CompoundingExactly | engine/src/analysis/tca.py:260-268 | opening equity times the product of (1 + return) is the closing equity if and only if no day opens at zero or the window closes at zero |
| RollingPerformance.DropCoversExactly | engine/src/analysis/tca.py:289-295 | the drop at a day covers every fall into it if and only if equity is not negative there or had a single positive level until then |
| RollingPerformance.DrawdownIsWorstFall | engine/src/analysis/tca.py:283-296 | the one-pass drawdown is zero or a fall between two days, and the worst such fall if and only if no positive day precedes a negative one or some worst fall into negative equity ends with a single positive level seen |
| RollingPerformance.DrawdownExactly | engine/src/analysis/tca.py:283-296 | for any window, negative equity included, a number is the one-pass drawdown if and only if it is the largest fall from a positive high so far, or zero when there is none |
| RollingPerformance.PercentageExactly | engine/src/analysis/tca.py:284-296 | the documented range of 0 to 100 percent is kept if and only if equity is never negative after having been positive |
| RollingPerformance.NegativeEquityUnderstated | engine/src/analysis/tca.py:283-296 | with negative equity it can be less than the worst fall: a concrete window |
| Percentiles.PercentileTracker.Add | engine/src/analysis/tca.py:38-42 | appends, and drops the oldest value when there are too many |
| Percentiles.PercentileTracker.PercentileOf | engine/src/analysis/tca.py:44-52 | for any percentage: the interpolation between order statistics, an error where the index does not exist, zero without data |
| Percentiles.PercentileExistsExactly | engine/src/analysis/tca.py:48-52 | there is no error if and only if the position, fraction dropped, is an index of the data counted from either end |
| Percentiles.PercentileWithinExactly | engine/src/analysis/tca.py:44-52 | at a position where percentiles exist, they lie between the smallest and the largest value, for all data of that size, if and only if the position is not negative or an integer |
| Percentiles.NegativePercentageExtrapolates | engine/src/analysis/tca.py:48-52 | an input: the -50th percentile of 0 and 10 is -5 |
| Percentiles.NegativePercentageWraps | engine/src/analysis/tca.py:48-52 | a position of -1 reads the largest value |
| Percentiles.RankExactly | engine/src/analysis/tca.py:47 | the k-th sorted value is the one with at most k values below it and more than k no greater |
| Percentiles.PercentileExactly | engine/src/analysis/tca.py:44-52 | from 0 to 100, a number is the percentile if and only if it divides the values of the two neighbouring ranks as the position divides the ranks |
| Percentiles.PercentileMonotone | engine/src/analysis/tca.py:44-52 | from 0 to 100 percentiles exist and grow with the percentage |
| Percentiles.PercentileOrderFree | engine/src/analysis/tca.py:44-52 | the order in which values arrived does not matter |
| Percentiles.PercentileEnds | engine/src/analysis/tca.py:44-52 | the 0th and 100th percentile are the smallest and largest of the values |
| Reconciliation.Reporter.Reconcile | engine/src/analysis/reconciliation_reporter.py:50-104 | returns the figures and the three drifts, rounded for storage, with a status decided before rounding: CRITICAL if and only if some pair drifts by 5% or more, OK if and only if all stay below 1%; keeps the newest 1000 reports |
| Reconciliation.ReportExactly | engine/src/analysis/reconciliation_reporter.py:50-104 | a report is the one made if and only if each field holds its own figure or drift, rounded to four or two decimals with ties to even, and the status goes by the largest of the three drifts before rounding |
| Reconciliation.NewestExactly | engine/src/analysis/reconciliation_reporter.py:91-96 | index by index the list keeps the newest thousand reports |
| Reconciliation.StoredDriftExactly | engine/src/analysis/reconciliation_reporter.py:70-88 | the stored drift reads 5% or more if and only if the worst drift is at least 4.995% |
| Reconciliation.FivePercentIsCritical | engine/src/analysis/reconciliation_reporter.py:36-77 | inputs: a drift of exactly 5% is CRITICAL, one of 4.997% is a WARNING that reads 5% |
| Reconciliation.Triangle | engine/src/analysis/reconciliation_reporter.py:63-65 | the drift, relative to the larger magnitude or 0.001, satisfies the triangle inequality |
| Reconciliation.DriftRange | engine/src/analysis/reconciliation_reporter.py:63-65 | the drift is symmetric, zero if and only if the figures agree, and at most 200%, reached if and only if they are opposite and at least 0.001 |
| Reconciliation.DriftsTriangle | engine/src/analysis/reconciliation_reporter.py:67-69 | each of the three drifts is at most the sum of the other two |
| Reconciliation.NoLoneDrift | engine/src/analysis/reconciliation_reporter.py:70-77 | when the worst drift reaches x, two pairs drift by x/2 or more; CRITICAL means two at 2.5% |
| Symbols.ScanIsWinner | engine/src/collectors/bitget_collector.py:23-28 | any list of the known quotes with USD last finds the same quote, so the different orders do not matter |
| Symbols.WinsIsWinner | engine/src/collectors/bybit_collector.py:20-25 | at most one quote can be found in a symbol, and its last four characters tell which |
| Symbols.PrintsPlain | engine/src/collectors/binance_collector.py:13-15 | a text without a slash is printed in small letters on Binance, as it is on Bitget, in capitals on Bybit |
| Symbols.PrintsJoined | engine/src/collectors/binance_collector.py:13-15 | a text with a slash is printed as its two sides are, joined |
| Symbols.ParsersAgree | engine/src/collectors/binance_collector.py:18-28 | in any text of any case the three parsers find the same symbol; they differ only in what they return when there is none |
| Symbols.NothingFoundExactly | engine/src/collectors/bybit_collector.py:18-26 | nothing is found in a symbol if and only if it ends in none of the quotes |
| Symbols.ReadBack | engine/src/collectors/bybit_collector.py:18-26 | what is read out of any base followed by any quote, BUSD and TUSD misreadings included |
| Symbols.ReadBackExactly | engine/src/collectors/bybit_collector.py:13-26 | the upper-cased base and quote are read back if and only if nothing was lost in printing |
| Symbols.RoundTripExactly | engine/src/collectors/binance_collector.py:13-28 | on each of the three exchanges print-then-parse returns base/quote if and only if the base is upper case, has no slash and, for USD, does not end in B or T |
| Symbols.SubscribeAllMessages | engine/src/collectors/bitget_collector.py:64-85 | the batches together name every symbol once and in order, all but the last have 30, none is empty |

## Left out

- Text parsing: `parse_price` reads decimal text through a binary float; the book starts at scaled integers, with an absent field for text that does not parse.
- Binary rounding outside the checksum text: `to_f64` in best prices, averages and mids, and all other float arithmetic, are exact here. NaN and infinite prices are not modelled, and the scan's infinite start values are an absent value.
- BookChecksum.PinsDownExactly: assumes figures that are told apart; `PinsDownAnyExactly` drops this for quantities, and the shape of a book whose prices print like others is not treated.
- BookChecksum.PinsDownAnyExactly: assumes prices that are told apart, as above.
- Small book accessors and sums: `FixedDecimal` addition and subtraction, `spread`, `spread_pct`, `volume_at_price` and the level counts would only add easy members.
- The middleware's client address, proxy headers, whitelist and dispatch; an IP is a string and each call brings its clock readings.
- CoinonePaging.FetchCoinone: a last-page flag that is set too early is not modelled, nor a timestamp that is missing altogether, which the source reads as time zero; a value that cannot be converted at all ends the request and is a cut.
- Upbit, Bybit, MEXC and Bitget pagination, the choice between OKX endpoints, sleeping, HTTP and the database.
- Correlation.ScoreWithinOne: the square root is given as a non-negative real whose square is the product of the variance terms.
- Reconciliation.Reporter.Reconcile: logging and the report file are left out; the time is a parameter.
- Sharpe ratios, profit factors and win rates: sums and square roots with no further law to state.
- The library sorts are modelled by a stable insertion sort by key.
- Symbols.PrintsPlain: case folding covers ASCII letters only.
- Symbols.ParsersAgree: case folding covers ASCII letters only.
- Symbols.ReadBackExactly: case folding covers ASCII letters only.
- Symbols.RoundTripExactly: case folding covers ASCII letters only.
- WalkForward.SplitWindows: assumes a window of positive length; with zero hours the loop of the source does not end.
- `simulate_regime_effect`, `validate_walk_forward`, the kill switch, attribution, dashboards and sockets; the executor, journal, order state machine and lifecycle manager are not part of this model.
