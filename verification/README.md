# Mogwai: a model of the clock, the book and the incremental cores

Mogwai simulates an exchange. This project models the parts of it in which state is
carried from step to step and proves what they promise for every input and every run.
Each file is one component.

| files | what they model |
|---|---|
| `ClockModel`, `ClockProofs`, `ClockResults`, `ClockArming`, `ClockObject` | the simulated-axis clock: named timers, the three arming calls, cancellation, and the fire task from one await to the next, interleaved in any order with time passing |
| `Deconvolution`, `DeconvolutionProofs`, `SizeMixture` | the size channel's mixture and its fixed-point inversion |
| `BookModel`, `BookProofs`, `BookObject`, `BookAnchor`, `BookStages` | one parent step of the discrete book, whole runs of it, and the latent anchor over them |
| `Trailing`, `TrailingPrints` | the trigger price a trailing order carries onto the wire, the two trailing machines that must agree, and the venue's pass over a span of prints |
| `TradeId`, `TradeIdProofs` | the bounded trade id over a truncated FNV-1a hash |
| `Raster` | the canvas and its incremental line |
| `AutoCorrelation` | the ring-buffer autocorrelation, over an arbitrary arithmetic |
| `LineReader`, `Grouping`, `Scan`, `ScanResults`, `ScanColumns` | the chunked line reader and the single-pass archive scan |
| `EventStats`, `EventFigures`, `PerSecond` | the independent accumulator that must see the same events, and the counts per second beside it |
| `Blanking`, `BlankingTokens` | the literal and comment blanker and the brace matcher |
| `Bars`, `ObservedBars` | trades folded into time bars, live and from history, and their Python twin |
| `WorkerPool` | threads drawing indexes from one counter |
| `AsofJoin`, `AsofStatus` | the strict as-of join |

Where the source updates an object in place the model is a class whose methods are
proved against a specification function; the results are lemmas about that function.
Concurrency is a state machine: the clock's tasks move one await at a time and the
pool's threads one shared access at a time, under any schedule.

What is assumed of code outside the model:

- nautilus' two public validators are inputs: an arming call receives what they
  answered. `ClockResults.AlertFiresExactlyOnce` states what follows when the alert
  time they return is not before sim-now, and what follows when it is.
- A `TimerSchedule` is any function. Where a result needs it to answer the least
  deadline strictly after its argument, the lemma says so (`Honest`).
- `create_valid_interval` maps zero to one.
- A sleep ends once sim-now has reached the deadline, and sim-now never goes back.
- Clearing the callback registry drops the named callbacks and keeps the default one.
- Random draws are inputs in their ranges; a coin is an input too, so the results also
  hold of draws its probability would exclude.
- Floats are reals, except in `AutoCorrelation`, where nothing is assumed of the
  arithmetic but in the one result that computes a known answer over the reals.

## Where the code and its own account differ

- `AutoCorr` says a lag subset leaves the kept lags as they were. A lag listed twice is
  accumulated twice (`AutoCorrelation.RestrictionIsExactIff`,
  `AutoCorrelation.LagListedTwice`), and a variance that is not positive reports 0.0 for
  lags that were never kept (`AutoCorrelation.RestrictedReport`,
  `AutoCorrelation.DroppedLagReportsZero`).
- The book says the un-struck side follows the recession actually applied. At the price
  floor it follows the length before the floor (`BookProofs.FollowRestoresSpread`,
  `BookProofs.FloorBreaksFollow`), and a coin that hits with no room below the ceiling
  leaves the consumed queue standing (`BookProofs.PartialFillRemainder`,
  `BookProofs.ConsumedQueueStands`).
- The blanker says line numbers are preserved. A char literal of a newline and an escaped
  newline are blanked (`Blanking.NewlinesKeptIff`).
- The longest tie run counts across a descent. The report is right exactly when no
  stretch without an ascent has as many ties as the longest run has rows
  (`ScanResults.ReportedTieRunRightIff`, `ScanResults.TieRunOverReported`).
- A second `report` closes the last event again, so the event count is right exactly after
  one report (`EventStats.CountRightIffOneReport`, `EventStats.ReportTwice`,
  `EventStats.SecondReportMiscounts`).
- The median of the per-second counts uses zero for "not found yet", which is also a
  count: for rows in time order it is right exactly when the empty seconds fall short of
  the middle rank or reach the 95th (`PerSecond.MedianRightIff`,
  `PerSecond.SparseMedianIsWrong`). Rows outside the span of the first and the last can
  misplace either rank (`PerSecond.HighRankRightIff`, `PerSecond.StrayRowsMisrank`).
- The ratchet once per span is described as what ratcheting on every print would produce.
  It is so of the stop, and not of stopping out (`Trailing.PassAgreesIff`,
  `Trailing.PassMissesTurn`).
- The as-of join's status, not its quote, depends on later quotes through the global
  monotonicity flag (`AsofJoin.NoLookahead`).
- A saturated bar window is described as never closing; a trade on the last instant of
  the axis closes it (`Bars.SaturatedClosesAtTheEnd`, `Bars.SaturatedWindowCloses`).

## Model

| member | source | states |
|---|---|---|
| `ClockProofs.StepKeepsInv` | crates/mogwai-adapter/src/clock.rs:68-666 | Every call, task poll and passing of time keeps the invariant: each held timer stands exactly where its emitted stamps put it, every emitted list is a chain of its cadence within the stop, and nothing is stamped after sim-now |
| `ClockProofs.RunKeepsInv` | crates/mogwai-adapter/src/clock.rs:68-666 | The invariant holds after every finite interleaving |
| `ClockProofs.ReachableInv` | crates/mogwai-adapter/src/clock.rs:60-66 | The invariant holds in every state any fresh clock can reach |
| `ClockResults.FixedTimerEmitsItsPoints` | crates/mogwai-adapter/src/clock.rs:575-654 | In every run a fixed timer has emitted a beginning of first, first+interval, first+2*interval, ... (saturating), in order, no gap, no repeat, none past the inclusive stop, none before its time |
| `ClockResults.CaughtUpFixedTimerCount` | crates/mogwai-adapter/src/clock.rs:575-654 | Once caught up, the i-th point has been emitted if and only if it is at or below both sim-now and the stop |
| `ClockResults.PointsStrictUntilSaturated` | crates/mogwai-adapter/src/clock.rs:617 | Successive points strictly increase exactly while the addition has not reached the end of the axis |
| `ClockResults.AlertFiresExactlyOnce` | crates/mogwai-adapter/src/clock.rs:142-187 | An alert emits at most one event, stamped with its adjusted time; when its task has ended it has emitted it if and only if that time was not before sim-now at arming |
| `ClockResults.ScheduleFirstIsLeastOwed` | crates/mogwai-adapter/src/clock.rs:282-301 | Arming places an honest schedule on the least fire it owes: the first deadline after the start and not before sim-now, or the immediate fire |
| `ClockResults.ScheduleTimerEmitsItsDeadlines` | crates/mogwai-adapter/src/clock.rs:282-301 | A schedule timer emits, strictly in order and skipping none, only fires it owes; each is at or after arming time and within the stop |
| `ClockResults.CaughtUpScheduleTimer` | crates/mogwai-adapter/src/clock.rs:616-646 | Once caught up, a fire has been emitted if and only if it is owed and at or below sim-now and the stop |
| `ClockResults.DishonestScheduleStillIncreases` | crates/mogwai-adapter/src/clock.rs:618-621 | Whatever a schedule answers, the stamps of its timer strictly increase and none precedes arming |
| `ClockResults.ScheduleRefusals` | crates/mogwai-adapter/src/clock.rs:411-470 | The exact condition, in terms of the deadlines, under which arming an honest schedule succeeds |
| `ClockResults.FutureDeadline` | crates/mogwai-adapter/src/clock.rs:289-301 | Arming finds a first fire exactly when some deadline after the start is not in the past |
| `ClockResults.ArmingCallEffect` | crates/mogwai-adapter/src/clock.rs:135-338 | A refused arming call changes nothing; an accepted one leaves one fresh live timer under the name with the callback given or else the registered one, keeps every other unexpired timer, drops expired ones and emits nothing |
| `ClockResults.CancelAndReplaceKill` | crates/mogwai-adapter/src/clock.rs:72-76 | Cancelling, resetting and arming under a held name all take the held timer out |
| `ClockResults.DeadTimerStaysSilent` | crates/mogwai-adapter/src/clock.rs:660-672 | A timer no longer held emits nothing on any continuation, and what it had handed over stays handed over |
| `ClockResults.LogOnlyGrows` | crates/mogwai-adapter/src/clock.rs:521-529 | No step takes back an event already handed over |
| `ClockResults.IntrospectionAgrees` | crates/mogwai-adapter/src/clock.rs:96-121 | The existence test, the name list and the next time agree in every reachable state; the reported next time is the stamp of the next event; timers of two names are two timers |
| `ClockResults.HandlerSeesNextTime` | crates/mogwai-adapter/src/clock.rs:602-642 | A handler that reads its own timer sees the fire after the one emitted where a sender is bound, and the one being emitted where none is |
| `ClockResults.PollsCatchUp` | crates/mogwai-adapter/src/clock.rs:648-653 | Before the end of the axis, finitely many polls catch any held timer up without the clock moving |
| `ClockResults.EndOfAxisNeverCatchesUp` | crates/mogwai-adapter/src/clock.rs:617 | At the last nanosecond an unstopped repeating fixed timer is never caught up |
| `ClockObject.MogwaiClock.constructor` | crates/mogwai-adapter/src/clock.rs:60-66 | A fresh clock is the initial state |
| `ClockObject.MogwaiClock.InstallTimer` | crates/mogwai-adapter/src/clock.rs:146-187 | The shared tail of the arming calls on the object is the transition of the model, refusal included |
| `ClockObject.MogwaiClock.SetTimeAlertNs` | crates/mogwai-adapter/src/clock.rs:135-188 | The object's alert call is the model's transition, which `ClockArming.AlertKeepsItsTime` follows from the same arguments |
| `ClockObject.MogwaiClock.SetTimerNs` | crates/mogwai-adapter/src/clock.rs:190-245 | The object's interval call is the model's transition, which `ClockArming.TimerKeepsItsArguments` follows from the same arguments |
| `ClockObject.MogwaiClock.SetTimerSchedule` | crates/mogwai-adapter/src/clock.rs:262-338 | The object's schedule call is the model's transition, which `ClockArming.ScheduleKeepsItsArguments` follows from the same arguments |
| `ClockObject.MogwaiClock.CancelTimer` | crates/mogwai-adapter/src/clock.rs:350-354 | Cancelling removes exactly the named timer |
| `ClockObject.MogwaiClock.CancelTimers` | crates/mogwai-adapter/src/clock.rs:356-361 | Cancelling all removes every timer and nothing else |
| `ClockObject.MogwaiClock.Reset` | crates/mogwai-adapter/src/clock.rs:363-366 | A reset drops the timers and the named callbacks |
| `ClockObject.MogwaiClock.Fire` | crates/mogwai-adapter/src/clock.rs:591-642 | Handing one event over, with the advance stored before it or not by whether a sender is bound |
| `ClockObject.MogwaiClock.PollTask` | crates/mogwai-adapter/src/clock.rs:575-654 | One turn of the fire loop between two awaits is the model's poll |
| `ClockObject.MogwaiClock.TimerExists` | crates/mogwai-adapter/src/clock.rs:111-121 | A timer exists when it is among the listed names |
| `ClockObject.MogwaiClock.TimerCount` | crates/mogwai-adapter/src/clock.rs:104-109 | Counting the unexpired entries of the map gives the number of listed names |
| `ClockObject.MogwaiClock.NextTimeNs` | crates/mogwai-adapter/src/clock.rs:340-348 | A next time is answered exactly for the listed names |
| `ClockResults.CaughtUpAlert` | crates/mogwai-adapter/src/clock.rs:142-187 | Once caught up, an alert has fired if and only if its time has come and was not already past at arming |
| `ClockArming.TimerKeepsItsArguments` | crates/mogwai-adapter/src/clock.rs:190-245 | From the arguments of an accepted interval call, over every continuation: it hands over a beginning of its own fires (start, or one step after it, then max(interval, 1) apart, held at the last nanosecond), none past its own stop and none early, under its own name and callback; once settled, exactly those that are due |
| `ClockArming.AlertKeepsItsTime` | crates/mogwai-adapter/src/clock.rs:135-188 | From the arguments of an accepted alert call: nothing or one event at its own time; once settled, that event if and only if the time was not past at arming and has come since |
| `ClockArming.ScheduleKeepsItsArguments` | crates/mogwai-adapter/src/clock.rs:262-338 | From the arguments of an accepted schedule call: strictly in order and skipping none, fires of its own schedule only, none past its own stop and none early; once settled, exactly those that are due |
| `ClockArming.FixedRefusals` | crates/mogwai-adapter/src/clock.rs:142-187 | An alert or interval call is refused exactly when its arguments did not prepare, or else when no callback is given or registered |
| `ClockArming.ScheduleRefusalReasons` | crates/mogwai-adapter/src/clock.rs:282-338 | Which of its seven reasons a schedule call is refused for, each with its exact condition in terms of the deadlines and the order they are looked at |
| `ClockArming.CallbacksLeft` | crates/mogwai-adapter/src/clock.rs:123-133 | Which callback a later call without one of its own finds after any other step: its name's, which only clearing the registry or a reset drops, or else the default, which a reset keeps |
| `ClockArming.TimersLeft` | crates/mogwai-adapter/src/clock.rs:350-366 | Which timers each other step leaves: cancelling takes out the one named, cancelling all and a reset every one, no other step any; only a poll touches a timer that is left, and only a poll hands an event over |
| `Deconvolution.DeconvolveSizes` | analysis/tape-v2/proto_book.py:247-288 | The loop with its updates in place computes the eighty-round iteration, each refusal included; what one round does to each size is `SizeMixture.SolvedByName` and `SizeMixture.LawByName` |
| `Deconvolution.UpdateP` | analysis/tape-v2/proto_book.py:255-269 | One pass over the buckets gives every bucket its solved probability and leaves the fixed ones |
| `Deconvolution.UpdateF` | analysis/tape-v2/proto_book.py:270-283 | One pass over the sizes gives the normalised law or the refusal |
| `Deconvolution.Reconstruct` | analysis/tape-v2/deconvolution_check.py:53-82 | The forward loop computes the mixture's match rates and marginal; which sizes each pools is `SizeMixture.RatesByName` and `SizeMixture.MarginalByName` |
| `DeconvolutionProofs.AcceptedIsPmf` | analysis/tape-v2/proto_book.py:251-288 | An accepted law is non-negative and sums to one, fixed buckets keep their value, and no solved probability is negative |
| `DeconvolutionProofs.LastRound` | analysis/tape-v2/proto_book.py:284-285 | An accepted result is one round applied to a law within the stopping tolerance of it |
| `DeconvolutionProofs.MarginalRoundTrip` | analysis/tape-v2/deconvolution_check.py:72-82 | Reconstructing an accepted channel returns the observed size marginal exactly if and only if that marginal sums to one and the last round clamped nothing |
| `DeconvolutionProofs.MarginalAtKey` | analysis/tape-v2/deconvolution_check.py:78-81 | At each size the reconstructed mass is the observed one exactly when the law carries the unclamped remainder |
| `DeconvolutionProofs.MatchRateIdentity` | analysis/tape-v2/deconvolution_check.py:61-71 | The exact rate a solved bucket reconstructs to, clamps included |
| `DeconvolutionProofs.MatchRoundTrip` | analysis/tape-v2/deconvolution_check.py:61-71 | Every solved bucket no clamp touched reconstructs to its observed rate within the 1e-10 stopping tolerance |
| `DeconvolutionProofs.ReconstructedIsFixedPoint` | analysis/tape-v2/proto_book.py:253-288 | A channel the mixture was built from is a fixed point: the iteration started at its law returns it exactly |
| `DeconvolutionProofs.InversionKeepsMarginal` | analysis/tape-v2/proto_book.py:251-288 | From the start the program makes, the observed marginal: inverting what a channel produced and reconstructing again gives that channel's marginal back if and only if the last round clamped nothing |
| `DeconvolutionProofs.InversionKeepsRates` | analysis/tape-v2/proto_book.py:251-288 | And its match rates within the 1e-10 stopping tolerance, in every solved bucket no clamp touched |
| `DeconvolutionProofs.SolveBucketMixes` | analysis/tape-v2/proto_book.py:268-269 | The solved probability mixed back gives the larger of the observed rate and the coincidence |
| `SizeMixture.RatesByName` | analysis/tape-v2/deconvolution_check.py:53-71 | Size by size: the rate of each size 1 to 5, the touches 6 to 10 pooled under one rate, and 11 to 30 with the tail, whose coincidence is zero, under another; each given exactly where its touches have mass |
| `SizeMixture.MarginalByName` | analysis/tape-v2/deconvolution_check.py:72-82 | The reconstructed mass of each size and of the tail is what its own touches match, at the probability of the sizes it is pooled with, plus the law's share of everything unmatched |
| `SizeMixture.SolvedByName` | analysis/tape-v2/proto_book.py:255-269 | One pass over the rates, size by size: a fixed one keeps its value, any other is solved exactly where it is observed and its touches have mass, and closes the gap between the coincidence of the sizes it pools, held at 0.99, and the observed rate |
| `SizeMixture.LawByName` | analysis/tape-v2/proto_book.py:270-283 | One pass over the sizes: refused exactly where the matched mass reaches 0.95, else at the first remainder below minus a billionth, else where nothing positive remains; otherwise the positive remainders in proportion, summing to one |
| `SizeMixture.IterationByRounds` | analysis/tape-v2/proto_book.py:251-288 | The iteration as its list of laws, from any start: each is one round of the one before and no two but the last are within 1e-10 at every key; it answers the first round that settles, the refusal of a round, or no fixed point after all rounds |
| `BookProofs.StepKeepsSane` | analysis/tape-v2/proto_book.py:377-564 | One parent step, for every draw, takes a sane book (bid at least 1, spread 1 to the ceiling, both queues at least 1) to a sane observed book and on to a sane book |
| `BookProofs.InitialSane` | analysis/tape-v2/proto_book.py:342-345 | The starting book is sane exactly when the origin rounds to at least 2 and the ceiling is at least 2 |
| `BookProofs.ProjectKeepsSane` | analysis/tape-v2/proto_book.py:354-375 | Projection keeps the book sane and its spread |
| `BookProofs.DepleteKeepsSane` | analysis/tape-v2/proto_book.py:468-520 | Recession, follow-in, replenishment and partial fill keep the book sane |
| `BookProofs.NarrowKeepsSane` | analysis/tape-v2/proto_book.py:532-548 | The narrowing loop ends, keeps the book sane and never goes below its target |
| `BookProofs.WidenKeepsSane` | analysis/tape-v2/proto_book.py:552-562 | Widening keeps the book sane |
| `BookProofs.MoveIsLeast` | analysis/tape-v2/proto_book.py:361-371 | The projection's move brings the mid within half the spread and the slack of that spread (one for up to one tick, one for two, one for more), and is the least whole-tick move that does |
| `BookProofs.ProjectPlaces` | analysis/tape-v2/proto_book.py:361-375 | Projection moves the two prices alone, keeps the spread, is idempotent, lands the whole move unless the price floor binds, and meets the band exactly when it does not bind |
| `BookProofs.WalkConserves` | analysis/tape-v2/proto_book.py:432-455 | The walk conserves quantity: executed is the smaller of the request and the ladder, and is the consumed prefix plus what was taken at the stopping level |
| `BookProofs.LevelsAreLargestPrefix` | analysis/tape-v2/proto_book.py:440-445 | A prefix of the ladder is covered by the request exactly when the walk exhausts it |
| `BookProofs.ObservedLevelsAreFewest` | analysis/tape-v2/proto_book.py:456-466 | The recorded level count is the fewest levels that hold what executed; the last print is that many levels less one behind the touch |
| `BookProofs.RecessionIsCapped` | analysis/tape-v2/proto_book.py:473-508 | Recession never passes the ceiling and is shortened exactly when the room is short; with no room a hit leaves the book as it stood |
| `BookProofs.FollowRestoresSpread` | analysis/tape-v2/proto_book.py:497-505 | Follow-in restores the spread if and only if the recession was applied whole or the spread was one tick |
| `BookProofs.FloorBreaksFollow` | analysis/tape-v2/proto_book.py:484-505 | Through the whole depletion: at the floor a walk of two levels moves the bid not at all and the ask by two, and halves the spread |
| `BookProofs.PartialFillRemainder` | analysis/tape-v2/proto_book.py:473-520 | Without room, a partial fill leaves exactly the unfilled remainder if and only if the coin missed |
| `BookProofs.ConsumedQueueStands` | analysis/tape-v2/proto_book.py:473-520 | A book at the ceiling whose touch stands at three lots after one was taken |
| `BookProofs.NarrowingIsDirectional` | analysis/tape-v2/proto_book.py:536-548 | A narrowing step takes one tick off and, when the anchor is more than a quarter tick away, brings the mid strictly closer |
| `BookProofs.NarrowReachesTarget` | analysis/tape-v2/proto_book.py:532-548 | If every coin hits, narrowing ends at its target |
| `BookProofs.RelaxationApproachesTarget` | analysis/tape-v2/proto_book.py:527-562 | Relaxation moves the spread toward its drawn target and never across it; at the target nothing moves |
| `BookAnchor.ImpactMovesAnchor` | analysis/tape-v2/proto_book.py:521-526 | Impact moves the anchor by the permanent part, up for a buyer and down for a seller, and by what the register's displacement changed; the register decays and takes the sign |
| `BookAnchor.AnchorDecomposes` | analysis/tape-v2/proto_book.py:521-526 | Over any run the anchor is the start, the diffusion and the permanent impact of the buyers less the sellers, displaced by the register alone: nothing is counted twice |
| `BookAnchor.RegisterBounded` | analysis/tape-v2/proto_book.py:521-526 | Under a decay below one the register never leaves 1 / (1 - rho) |
| `BookObject.BookSimulator.Project` | analysis/tape-v2/proto_book.py:354-375 | The object's projection is the model's |
| `BookObject.BookSimulator.WalkLadder` | analysis/tape-v2/proto_book.py:436-455 | The walk loop computes the walk |
| `BookObject.BookSimulator.Deplete` | analysis/tape-v2/proto_book.py:468-520 | The object's depletion, and whether it suppresses narrowing, are the model's |
| `BookObject.BookSimulator.NarrowSpread` | analysis/tape-v2/proto_book.py:532-548 | The narrowing loop is the model's, for any stream of draws |
| `BookObject.BookSimulator.WidenSpread` | analysis/tape-v2/proto_book.py:552-562 | The object's widening is the model's, and it raises exactly when the pull has no ladder level to expose |
| `BookObject.BookSimulator.Parent` | analysis/tape-v2/proto_book.py:377-564 | One parent on the object is the model's step and records the observed book (what that record shows is `BookObject.RecordIsSane`); it raises exactly where the model does, and otherwise keeps the queues standing |
| `BookObject.RecordIsSane` | analysis/tape-v2/proto_book.py:408-466 | A record shows the quote it observed, the struck side's queue, a request that is that queue or the drawn size, an execution that is the smaller of the request and the ladder of ratios, the fewest levels that hold it, and the price of the last of them |
| `BookObject.Simulate` | analysis/tape-v2/proto_book.py:298-579 | From any origin, ceiling and ratios: a run raises exactly when some parent's quote pull finds no ladder level, and otherwise every record is that of the book the step function reaches |
| `BookObject.EveryBookSane` | analysis/tape-v2/proto_book.py:298-579 | Every book of every run from a sane start is sane |
| `BookObject.EveryRecordSane` | analysis/tape-v2/proto_book.py:408-466 | And every record of such a run shows the quote it observed, the struck side's queue, a request that is that queue or the drawn size, an execution that is the smaller of the request and the ladder of ratios, the fewest levels that hold it, and the price of the last of them |
| `BookProofs.StepKeepsStanding` | analysis/tape-v2/proto_book.py:377-564 | From any start at all, both queues hold at least one lot after every step that does not raise |
| `BookProofs.LadderByRatios` | analysis/tape-v2/proto_book.py:432-435 | The frozen ladder is the one list with the touch first and, behind it, each ratio's share of the touch to the nearest lot (ties to even, one at least), as many as the ratios and the level bound allow |
| `BookStages.InitialStraddles` | analysis/tape-v2/proto_book.py:342-351 | The starting quote stands one tick either side of the whole tick nearest the origin |
| `BookStages.ObservedByQueue` | analysis/tape-v2/proto_book.py:383-407 | The observed book is the diffused and projected one, each queue grown by its own arrivals exactly where it stood below the ceiling of the spread |
| `BookStages.DepletionByQuote` | analysis/tape-v2/proto_book.py:473-508 | Which quote a depletion moves and how far, for either side, with the following quote and the price floor |
| `BookStages.DepletionByQueue` | analysis/tape-v2/proto_book.py:485-520 | What each queue holds after it: the walk's own remainder exactly where the price stays or recedes onto the level the walk stopped in, a fresh draw elsewhere |
| `BookStages.NarrowingByQuote` | analysis/tape-v2/proto_book.py:536-548 | Which quote steps inside: by the anchor beyond a quarter tick, by the coin within it |
| `BookStages.NarrowingStops` | analysis/tape-v2/proto_book.py:532-548 | The narrowing loop takes exactly the leading coins that hit, until one misses or the target is met |
| `BookStages.WideningByQuote` | analysis/tape-v2/proto_book.py:552-562 | A pull moves one quote by a tick, exactly below the target and the ceiling, and shows the first ratio of its queue to the nearest lot |
| `BookStages.BuyWorked` | analysis/tape-v2/proto_book.py:377-564 | One buyer worked through with numbers, the stages in their order |
| `BookStages.SellWorked` | analysis/tape-v2/proto_book.py:377-564 | One seller worked through with numbers |
| `Trailing.DroppedIffMeaningPreserved` | crates/mogwai-adapter/src/convert.rs:172-229 | The trigger is dropped exactly when the level can be computed and the stated and the sent order agree on every price path, and refused as unrepresentable exactly when it can and some path stops one out and not the other |
| `Trailing.MappedByLevel` | crates/mogwai-adapter/src/convert.rs:187-229 | The outcome from the stated prices and the decimal's range alone: refused as overflowing exactly where the activation level leaves the range, dropped exactly where the trigger is at or beyond that level, refused as unrepresentable otherwise |
| `Trailing.OthersPassThrough` | crates/mogwai-adapter/src/convert.rs:202-210 | Only a trailing order stating trigger, activation and offset is changed or refused, and a trigger sent is the one stated |
| `Trailing.LooseFloorRunsEqual` | crates/mogwai-adapter/src/convert.rs:187-190 | A trigger at or beyond the activation level leaves the two machines in one state on every path |
| `Trailing.TighterFloorSeparates` | crates/mogwai-adapter/src/convert.rs:190-193 | A tighter trigger separates them on the path that activates and then prints at the trigger |
| `Trailing.StopNeverRetreats` | crates/mogwai-engine/src/orders.rs:1210-1214 | Along every path an armed stop only improves |
| `Trailing.OneRatchetPerSpan` | crates/mogwai-engine/src/orders.rs:1220-1228 | Ratcheting once against the span's extreme is what ratcheting on every tick would have given |
| `Trailing.EachPrintStopsIff` | crates/mogwai-engine/src/orders.rs:1210-1230 | Print by print, an armed order stops out in a span exactly when a print touches the stop the span began with or turns back through the level an earlier print set; otherwise every print has ratcheted it |
| `Trailing.PassAgreesIff` | crates/mogwai-venue/src/sweeper.rs:856-867 | The pass, which walks a whole span against the stop it began with and then ratchets once, stops out no order the prints would have left; the two agree exactly when a print touches that stop or none turns back within the span |
| `Trailing.PassMissesTurn` | crates/mogwai-venue/src/sweeper.rs:856-867 | A span of two prints that stops an order out one by one and leaves it armed in one pass |
| `TrailingPrints.RunByPrints` | crates/mogwai-engine/src/orders.rs:1210-1230 | The machine over any path, read off the prints: dormant while none reaches the activation price; stopped out exactly when, after the first that does, one goes through the floor or through the offset from an earlier one; otherwise its stop is the best of the floor and those offsets, for a sell and for a buy |
| `TradeId.TradeIdOf` | crates/mogwai-adapter/src/convert.rs:347-369 | The hashing loop and the printer produce the id |
| `TradeIdProofs.TruncationCommutes` | crates/mogwai-adapter/src/convert.rs:355-367 | Truncating to 56 bits commutes with each step of the 64-bit hash |
| `TradeIdProofs.PrimeIsInvertible` | crates/mogwai-adapter/src/convert.rs:358 | Multiplying by the prime is injective modulo 2^56 |
| `TradeIdProofs.Step56Injective` | crates/mogwai-adapter/src/convert.rs:356-359 | On 56 bits a step is injective in the hash and in the byte |
| `TradeIdProofs.OneByteApartNeverCollide` | crates/mogwai-adapter/src/convert.rs:344-346 | Two keys of one length differing in exactly one byte never share the 56-bit hash |
| `TradeIdProofs.IdFits` | crates/mogwai-adapter/src/convert.rs:337-346 | An id is at most 35 characters: the stamp's digits, a dash and fourteen hex digits |
| `TradeIdProofs.IdsEqualIff` | crates/mogwai-adapter/src/convert.rs:344-346 | Two ids are equal exactly when the stamps and the 56-bit hashes are |
| `TradeIdProofs.OneCharacterKeepsIdsApart` | crates/mogwai-adapter/src/convert.rs:332-351 | Two trades of one instant whose price, size, symbol or aggressor differ in one printed character have two ids |
| `TradeIdProofs.KeySpelt` | crates/mogwai-adapter/src/convert.rs:348-351 | One trade's key, spelt out in its printed order |
| `TradeIdProofs.PublishedVectors` | crates/mogwai-adapter/src/convert.rs:352-359 | The hash gives the published 64-bit FNV-1a values of the empty text and of "a" |
| `TradeIdProofs.DecimalRoundTrip` | crates/mogwai-adapter/src/convert.rs:363-367 | The printed stamp reads back as the stamp |
| `Raster.Canvas.Line` | analysis/tape-v2/sketch.py:56-72 | The incremental loop paints exactly the rounded true line's pixels, in order, and ends |
| `Raster.Canvas.PutPixel` | analysis/tape-v2/sketch.py:41-44 | A pixel on the canvas has its three bytes written, one off it changes nothing |
| `Raster.Canvas.constructor` | analysis/tape-v2/sketch.py:36-39 | A fresh canvas is the background everywhere |
| `Raster.WithinHalfPixel` | analysis/tape-v2/sketch.py:56-72 | Every plotted pixel is within half a pixel of the true line on the minor axis |
| `Raster.PixelsReachBothEnds` | analysis/tape-v2/sketch.py:64-65 | The first pixel is the start, the last the end, and there are max(dx, dy) + 1 |
| `Raster.PixelsStayInBox` | analysis/tape-v2/sketch.py:56-72 | Every pixel lies in the box of the two ends |
| `Raster.PixelsAdvance` | analysis/tape-v2/sketch.py:66-72 | Each step moves the major axis by exactly one and the minor axis by at most one |
| `Raster.PixelsDistinct` | analysis/tape-v2/sketch.py:56-72 | No pixel is plotted twice |
| `Raster.PaintColours` | analysis/tape-v2/sketch.py:41-44 | After painting, a canvas pixel has the colour exactly when it is one of the points |
| `Raster.PaintedBytes` | analysis/tape-v2/sketch.py:36-44 | Of a painted canvas, the three bytes from 3 * (y * w + x) are the colour's red, green and blue if the pixel is one of the points, and as they were if not |
| `Raster.TrackAdvances` | analysis/tape-v2/sketch.py:66-72 | One iteration of the error bookkeeping keeps the minor offset within half a step |
| `Raster.TrackEnds` | analysis/tape-v2/sketch.py:64-65 | The loop stands on the end point exactly when its major count is spent |
| `AutoCorrelation.AutoCorr.Push` | analysis/probe_binance_aggtrades.py:81-114 | After any pushes every tracked cross sum, the totals and the ring are those of the whole history |
| `AutoCorrelation.AutoCorr.AddProducts` | analysis/probe_binance_aggtrades.py:95-109 | Each push adds the product at every lag once, or as often as the lag is listed |
| `AutoCorrelation.AutoCorr.Report` | analysis/probe_binance_aggtrades.py:116-136 | The report is computed from the history alone |
| `AutoCorrelation.Create` | analysis/probe_binance_aggtrades.py:69-79 | Construction is refused exactly when a listed lag is out of range, and otherwise keeps the lags asked for, sorted |
| `AutoCorrelation.OnceIsCross` | analysis/probe_binance_aggtrades.py:60-64 | A lag kept once carries the unrestricted running sum, whatever the arithmetic |
| `AutoCorrelation.RestrictionIsExactIff` | analysis/probe_binance_aggtrades.py:60-64 | A restriction leaves a lag's sum as it was exactly when the lag is listed once: a repeat is counted twice |
| `AutoCorrelation.RestrictedReport` | analysis/probe_binance_aggtrades.py:121-135 | A kept lag reports the unrestricted value; a dropped one reports nothing exactly when the variance is positive |
| `AutoCorrelation.LagListedTwice` | analysis/probe_binance_aggtrades.py:60-64 | A history on which a lag listed twice carries twice the sum |
| `AutoCorrelation.DroppedLagReportsZero` | analysis/probe_binance_aggtrades.py:121-125 | A constant history reports zero for a lag that was not kept |
| `AutoCorrelation.AlternatingReport` | analysis/probe_binance_aggtrades.py:116-136 | Over the reals, a history alternating between any two distinct values an even number of times reports one at every even lag and minus one at every odd lag, for as many lags as are kept and the history has |
| `LineReader.SplitJoins` | analysis/preflight.py:187 | Splitting loses nothing and leaves no separator in a piece |
| `LineReader.SplitUnique` | analysis/preflight.py:187 | Splitting a join of separator-free pieces gives the pieces back |
| `LineReader.SplitAppend` | analysis/preflight.py:187-188 | Splitting carries over a cut: only the last piece is split again |
| `LineReader.ByteLines` | analysis/preflight.py:179-191 | Whatever the sizes of the reads, the lines are those of the bytes delivered |
| `ScanColumns.LinesByNewline` | analysis/preflight.py:179-191 | Pieces without a newline, joined by newlines, are the lines read back, whether or not a newline ends the last |
| `ScanColumns.ReturnsStripped` | analysis/preflight.py:251-252 | Stripping drops carriage returns at the end, all of them and nothing else |
| `Scan.ScanLines` | analysis/preflight.py:204-362 | The single pass counts rows, malformed lines, header, order, duplicates, both groupings and the field and digit layout as the column functions define them |
| `Scan.HeaderIsFirst` | analysis/preflight.py:266-269 | The header is the one non-numeric line with only bad sides before it |
| `Scan.RowByColumns` | analysis/preflight.py:254-287 | The row read off a line joined from comma-free fields: the first is the id, the fifth the stamp, the sixth the side in one of four spellings; not numeric exactly with fewer than six fields or where one of the two does not read |
| `ScanColumns.HeaderByPlace` | analysis/preflight.py:266-269 | The header is the fields of the one line before every row that is no row and follows bad sides alone; rows, malformed lines and header account for every line |
| `ScanResults.ScanStream` | analysis/preflight.py:244-257 | The report depends only on the bytes delivered |
| `ScanResults.ReportAddsUp` | analysis/preflight.py:330-357 | Parents by time plus ties are the rows; parents by time are at most parents by side; each histogram counts its parents; size-weighted counts give the rows exactly when no group is more than one past the cap |
| `ScanResults.SortedMeansSorted` | analysis/preflight.py:399-403 | The order flag is set exactly when stamps and ids never descend |
| `ScanResults.LayoutVerdicts` | analysis/preflight.py:383-390 | The field count is stable exactly when there are data lines and all have one shape; every stamp is in microseconds exactly when there are trades and each stamp is sixteen digits wide |
| `ScanColumns.ContentByPlace` | analysis/preflight.py:244-253 | The content is the lines that hold something once the carriage returns at their end are dropped, in order |
| `ScanColumns.TradesByPlace` | analysis/preflight.py:262-289 | The trades are the lines that parse, in order, each with its row |
| `ScanColumns.OrderByNeighbours` | analysis/preflight.py:300-328 | Each order and duplicate figure is the number of rows that stand so to the row before: an earlier or an equal stamp, a lower, an equal or a skipped id, an identical line |
| `ScanColumns.HistogramsByLength` | analysis/preflight.py:330-357 | Each histogram gives, for a length up to 256, the number of runs of that length, under 257 the number of longer ones, and nothing else |
| `ScanColumns.LayoutByPlace` | analysis/preflight.py:255-299 | For each number of fields the lines that have it, the header apart, and for each width the trades whose fifth field has it |
| `ScanResults.TieCounterExactIff` | analysis/preflight.py:309-318 | The tie counter is the open run at every row exactly when no descent comes straight after a tie |
| `ScanResults.ReportedTieRunRightIff` | analysis/preflight.py:309-318 | The reported longest tie run is never below the longest run of equal stamps, and equals it if and only if no stretch without an ascent has as many ties as that run has rows |
| `ScanResults.MaxIsSomeStretch` | analysis/preflight.py:309-318 | The greatest tie count is the ties of some stretch without an ascent |
| `ScanResults.MaxBoundsStretches` | analysis/preflight.py:309-318 | And no stretch without an ascent has more |
| `ScanResults.TieRunOverReported` | analysis/preflight.py:309-318 | An input on which three tied rows are reported and two is the truth |
| `ScanResults.Percentile` | analysis/preflight.py:166-176 | The least size whose cumulative count reaches the rank, the largest when none does, 0 for no rows |
| `Grouping.RunsAreMaximal` | analysis/preflight.py:330-338 | The group sizes are exactly the lengths of the maximal runs of equal keys |
| `Grouping.RunsSum` | analysis/preflight.py:330-347 | The groups account for every row |
| `Grouping.HistogramSums` | analysis/preflight.py:331-334 | The capped histogram sums to the groups, and weighted to the rows exactly when no run is more than one past the cap |
| `Grouping.FinerKeysMoreRuns` | analysis/preflight.py:330-347 | Adding the side to the key never merges groups |
| `EventStats.EventStats.Push` | analysis/probe_binance_trades.py:81-91 | A row of the open key joins the open event; any other closes it and opens its own; all figures stay those of the closed events |
| `EventStats.EventStats.Close` | analysis/probe_binance_trades.py:58-79 | Closing adds the open event to every figure and leaves it open |
| `EventStats.EventStats.Report` | analysis/probe_binance_trades.py:93-130 | A report closes the open event once more and fails exactly when fewer than two events are closed or first and last row bear one stamp; its figures, the autocorrelation of the gaps included, are those of the closed events |
| `EventStats.Probe` | analysis/probe_binance_trades.py:133-204 | Both accumulators over the rows and one report each: every figure, sizes, levels, gaps, percentile and autocorrelation, is that of the rows cut at the maximal runs of their keys, and a report fails exactly on fewer than two runs or no span |
| `EventStats.FirstReport` | analysis/probe_binance_trades.py:93-94 | After one report the closed events are the rows cut at the maximal runs of their keys |
| `EventStats.CountRightIffOneReport` | analysis/probe_binance_trades.py:93-94 | The event count is the number of maximal runs if and only if exactly one report has been made |
| `EventStats.ReportTwice` | analysis/probe_binance_trades.py:93-94 | On every stream that reports at all, the second report counts one event more than the first |
| `EventStats.SecondReportMiscounts` | analysis/probe_binance_trades.py:93-94 | Two rows a second apart: two events by the first report, three by the second |
| `EventStats.TwinsAgree` | analysis/probe_binance_trades.py:82-89 | The scan's parents and histograms are those of this accumulator's runs, by side and by time |
| `EventStats.TwinsPercentile` | analysis/preflight.py:421-431 | By side and by time, the scan's 95th percentile is the accumulator's in its bucket: the same size unless that is past the scan's cap; the two histograms are one exactly when no event is more than one past it |
| `EventStats.GapsTelescope` | analysis/probe_binance_trades.py:69-79 | The gaps add up to the span of the stamps |
| `EventStats.SizeAtRank` | analysis/probe_binance_trades.py:97-104 | The rank walk finds the ranked size, which a rank within the events always reaches |
| `EventFigures.EventsCutWhereUnlike` | analysis/probe_binance_trades.py:81-91 | The events of a stream are its rows in order, cut exactly between neighbours that differ in stamp or, where sides count, in side |
| `EventFigures.ShortIsSubsecond` | analysis/probe_binance_trades.py:76-78 | The gaps counted as short are those of more than none and less than a second |
| `EventFigures.SummaryWorked` | analysis/probe_binance_trades.py:93-130 | The summary of four events, figure by figure |
| `PerSecond.PerSecondCounts` | analysis/probe_binance_trades.py:167-202 | The pass over the rows, the histogram and its walk; it fails exactly on no rows and where the last row is one second before the first |
| `PerSecond.Walk` | analysis/probe_binance_trades.py:182-190 | The loop with its two guards leaves the first key at the high rank and the first positive key at the middle one, for any histogram |
| `PerSecond.MissingIsEmptyIffWithin` | analysis/probe_binance_trades.py:178-179 | The zero entry is the number of empty seconds of the span if and only if no row falls outside it |
| `PerSecond.FirstIsRanked` | analysis/probe_binance_trades.py:184-190 | For rows in any order, the first key of the histogram at a rank is the least count for which the span less every busier second reaches the rank |
| `PerSecond.HighRankRightIff` | analysis/probe_binance_trades.py:188-190 | The 95th percentile is that of the counts over every second of the span if and only if the busier seconds outside the span leave the rank reached; over a span that runs backwards it is zero |
| `PerSecond.WithinCovers` | analysis/probe_binance_trades.py:184-190 | Rows in any order within the span leave every rank reached |
| `PerSecond.MedianRightIff` | analysis/probe_binance_trades.py:183-187 | For rows in any order, the median is that of the counts over every second of the span if and only if the empty seconds fall short of the middle rank or reach the high one, and the busier seconds outside leave the rank reached; between the ranks it is zero, and the fewest rows of any second with rows is reported |
| `PerSecond.SparseMedianIsWrong` | analysis/probe_binance_trades.py:183-187 | Two rows three seconds apart: one is reported where the middle is none |
| `PerSecond.StrayRowsMisrank` | analysis/probe_binance_trades.py:188-190 | Rows out of order: a span of one second with two rows, and three reported |
| `PerSecond.SecondHolds` | analysis/probe_binance_trades.py:170-171 | A row is counted in the second that holds its stamp, before the epoch too |
| `PerSecond.RanksInSpan` | analysis/probe_binance_trades.py:180-181 | The two ranks are the least whole numbers that reach half and nineteen twentieths of the span |
| `Blanking.StripNoise` | scripts/check_test_assertions.py:118-159 | The jumping scanner computes the token-by-token blanking; where each token begins and ends is `BlankingTokens.TokensByForm` and `BlankingTokens.EndsByForm` |
| `Blanking.PastIsFirst` | scripts/check_test_assertions.py:129-133 | A raw string ends past the first occurrence of its closing, or at the text's end |
| `Blanking.SkipBlock` | scripts/check_test_assertions.py:148-156 | The nested comment loop ends past the mark that closes the first opening, or at the end |
| `Blanking.BlanksExactlyTokens` | scripts/check_test_assertions.py:118-159 | A position is blanked if a token covers it and left as it was if none does |
| `Blanking.NothingToBlank` | scripts/check_test_assertions.py:102-104 | The output holds no double quote, comment opener, char literal or any other token at any position |
| `Blanking.Idempotent` | scripts/check_test_assertions.py:102-107 | The length is kept and a second pass changes nothing |
| `Blanking.NewlinesKeptIff` | scripts/check_test_assertions.py:134-142 | Every newline stays in place exactly when no token is a char literal of a newline and no string escapes one |
| `Blanking.NewlineLost` | scripts/check_test_assertions.py:134-136 | An input whose newline is blanked |
| `BlankingTokens.TokensByForm` | scripts/check_test_assertions.py:162-171 | What begins at a position, read off the text: a raw string with its hashes, a char literal of either form, a plain string, a line and a block comment, each exactly where its form stands |
| `BlankingTokens.EndsByForm` | scripts/check_test_assertions.py:129-176 | Where each ends: a raw string past its first closing; a string past the first quote with an even run of backslashes before it, or at the text's end; a line comment at the newline; a block comment past the mark at which openers less closers first reach zero, or at the end |
| `BlankingTokens.BlanksByForm` | scripts/check_test_assertions.py:129-181 | What each leaves at each of its positions: newlines and blanks only, and which newlines |
| `Blanking.BodySpan` | scripts/check_test_assertions.py:188-203 | The shortest balanced block from the first brace at or after the start, and none exactly when there is no brace or it never balances |
| `BlankingTokens.DepthCountsBraces` | scripts/check_test_assertions.py:188-203 | The depth of a text is its opening braces less its closing ones |
| `Bars.CloseIsNextMultiple` | crates/mogwai-data/src/bars.rs:46-49 | The close is the first multiple of the interval above the stamp, or the end of the axis |
| `Bars.RotatesIffLater` | crates/mogwai-data/src/bars.rs:84-90 | A trade rotates a window exactly when its own window is a later one |
| `Bars.SaturatedClosesAtTheEnd` | crates/mogwai-data/src/bars.rs:42-44 | A saturated window is closed only by a trade on the last instant |
| `Bars.SaturatedWindowCloses` | crates/mogwai-data/src/bars.rs:42-44 | Two trades on the last instant: the second closes the window the first opened |
| `Bars.FoldStep` | crates/mogwai-data/src/bars.rs:77-104 | One fold step is one step of the cut, and the window it closes describes the slice cut off |
| `Bars.Extremes` | crates/mogwai-data/src/bars.rs:92-93 | A window's high and low are prices of its trades that none exceeds |
| `Bars.CutConcat` | crates/mogwai-data/src/bars.rs:66-70 | The slices put together are the trades: none lost, none empty |
| `Bars.VolumeConserved` | crates/mogwai-data/src/bars.rs:95 | The closed windows' volumes and the open one's add up to the traded size |
| `Bars.SlicesAreWindows` | crates/mogwai-data/src/bars.rs:46-59 | For time-ordered trades the slices are the maximal runs of trades in one epoch-anchored window |
| `Bars.BarsFillTheirWindows` | crates/mogwai-data/src/bars.rs:46-59 | For time-ordered trades every bar holds only trades of the aligned window whose end stamps it |
| `Bars.SlicesStayBelowClose` | crates/mogwai-data/src/bars.rs:61-64 | In any order, a late trade joins the open window and nothing in a slice reaches its close |
| `Bars.BarAggregator.Fold` | crates/mogwai-adapter/src/bars.rs:99-125 | A trade in, and the bar of the slice it cuts off if it converts; the window rotates either way |
| `Bars.BarAggregator.Push` | crates/mogwai-adapter/src/bars.rs:87-94 | The live feed stamps that bar with the receipt time |
| `Bars.BarAggregator.TakeClosed` | crates/mogwai-adapter/src/bars.rs:133-143 | The open window is taken exactly when it has elapsed, and cleared even when it does not convert |
| `Bars.CoreShowsSlice` | crates/mogwai-adapter/src/bars.rs:190-207 | The bar of a slice opens at its first price, closes at its last, has a high no price exceeds and a low none undercuts, carries the summed size and is stamped with the end of its window, each converted; there is none exactly when one of the five does not convert |
| `Bars.ElapsedByEnd` | crates/mogwai-adapter/src/bars.rs:99-183 | A stream owes its closed slices, and its open one exactly when the end is known and the window has ended by it; what is owed and what is left are the trades in order |
| `Bars.ClosedBarShows` | crates/mogwai-adapter/src/bars.rs:87-125 | A trade closes a bar exactly when it reaches the end of the open window and that window's figures convert; the bar shows the open slice in that sense, under the receipt stamp or else the window's end |
| `Bars.AggregateBars` | crates/mogwai-adapter/src/bars.rs:161-183 | History gives the bars of every elapsed slice that converts, each stamped with its own close and showing that slice: its first and last price, extremes, summed size and window end |
| `Bars.LiveBars` | crates/mogwai-adapter/src/bars.rs:82-143 | The same trades pushed live and taken at the end give the same bars, showing the same slices, but for the receipt stamp |
| `ObservedBars.Observe` | analysis/observed_bars.py:60-96 | The window loop and the fill loop write the table |
| `ObservedBars.ObservedIsFold` | analysis/observed_bars.py:66-94 | For time-ordered trades the rows with a trade are the adapter's windows |
| `ObservedBars.ObservedTiles` | analysis/observed_bars.py:82-96 | For time-ordered trades, at any integer stamps, the table has no overlap and no hole of an hour or less; empty rows carry the last close |
| `ObservedBars.RowShowsSlice` | analysis/observed_bars.py:60-76 | A row of a window shows its trades: the aligned window of the first, first and last price, extremes, size and number |
| `ObservedBars.DesertsStayEmpty` | analysis/observed_bars.py:82-91 | For trades in any order no gap of more than an hour is filled: an empty row opens less than an hour after the last row with a trade |
| `WorkerPool.StepKeepsInv` | crates/mogwai-cli/src/arrival_envelope_diagnostic.rs:199-209 | Every step of every thread keeps the invariant: each index drawn is in exactly one place |
| `WorkerPool.NoIndexTwice` | crates/mogwai-cli/src/arrival_envelope_diagnostic.rs:201 | On any schedule no index is claimed twice, and the counter passes the cells by at most one per thread |
| `WorkerPool.EveryRunEnds` | crates/mogwai-cli/src/arrival_envelope_diagnostic.rs:200-208 | No schedule has more than three effective steps per cell and per thread |
| `WorkerPool.AllSentOnce` | crates/mogwai-cli/src/arrival_envelope_diagnostic.rs:194-212 | When every thread has ended, each cell has been sent exactly once with its own result |
| `WorkerPool.Collect` | crates/mogwai-cli/src/arrival_envelope_diagnostic.rs:213-220 | The slots filled from the channel give the cells' values in order, or the first error received; no slot is empty |
| `WorkerPool.RunPool` | crates/mogwai-cli/src/arrival_envelope_diagnostic.rs:192-220 | Whatever the interleaving, the pool gives the sequential map when all succeed and otherwise one of its errors |
| `WorkerPool.PoolSizeIsMost` | crates/mogwai-cli/src/arrival_envelope_diagnostic.rs:195 | The pool has the most threads that are no more than the jobs and the cells, and one where there are no cells |
| `AsofJoin.Join` | analysis/asof_join.py:121-166 | One match per trade, in the trades' order |
| `AsofJoin.ChosenIsNewest` | analysis/asof_join.py:143-155 | The quote is the greatest by time and id at or before the trade and within coverage, the age is exact, and each status says when it is given |
| `AsofStatus.StatusByInstants` | analysis/asof_join.py:121-166 | The whole answer, read off the trade and the quotes: outside the coverage (both ends inside it), no quote seen, else the newest seen by instant and id with the time since; ambiguous exactly where another of that instant is seen and ids do not follow time, else stale exactly past the bound |
| `AsofStatus.MonotonicIff` | analysis/asof_join.py:107-118 | Update ids count as monotonic exactly when later quotes have greater ids and no two of one instant share one |
| `AsofJoin.NoLookahead` | analysis/asof_join.py:143-165 | Later quotes change neither quote nor age; the status changes exactly when the winning instant is tied and the two books disagree on monotonic ids |
| `AsofJoin.FutureQuoteFlipsStatus` | analysis/asof_join.py:129-161 | A quote after the trade turns a match ambiguous |
| `AsofJoin.InputOrderImmaterial` | analysis/asof_join.py:130-132 | Input order changes no status, age or key, and nothing at all where keys are distinct, as under monotonic ids |
| `AsofJoin.TiedKeysFollowInput` | analysis/asof_join.py:130-132 | Two quotes on one key: the input order picks the one reported |
| `AsofJoin.MonotonicIsDistinct` | analysis/asof_join.py:107-118 | Monotonic ids leave no two quotes on one key |
| `AsofJoin.SortOfPart` | analysis/asof_join.py:132-135 | The stable sort commutes with choosing a part of the quotes |

## Left out

- The affine map between wall and simulated time, the executor, channels, sockets, files, archives and HTML or PNG output: plumbing, or libraries outside the repository.
- nautilus' validators, price and quantity constructors and identifier types: inputs or arbitrary functions here.
- ClockObject.MogwaiClock.Fire: the shared atomic, the join handle and the timer's own copy of its fields are one record per timer; an aborted task is a timer no longer held.
- ClockResults.PollsCatchUp: counts polls of one task; fairness among tasks is the executor's.
- Deconvolution.DeconvolveSizes: exact reals, so no statement about rounding; convergence within eighty rounds is not claimed, only what a convergent run returns.
- BookObject.Simulate: the diagnostics kept beside the book (coin, capped, origin and joined arrays) and the laws the draws come from are not modelled.
- Trailing.DroppedIffMeaningPreserved: both machines ratchet on every print. The venue walks a whole span against the stop the span began with and then ratchets once, which is the same on one print a pass and differs where a print turns back within a span (`Trailing.PassAgreesIff`, `Trailing.PassMissesTurn`).
- Trailing.PassAgreesIff: one armed order over one span; a trail armed in a pass sits that pass's ratchet out, and its walk resumes at the activating print, which is not modelled. The host's machine is the one its documentation describes; the venue's funds questions, range cancels at activation and the derived limit of a trailing stop limit are not part of it, and decimal rounding is not modelled beyond the overflow check.
- TradeId.TradeIdOf: the printed symbol, price, size and side are byte strings; how each prints is not modelled.
- Scan.ScanLines: the elapsed time is not kept; the running scalars are grouped into records.
- EventStats.EventStats.Report: the object's figures are grouped into two records.
- EventStats.Probe: the rows' text, the summed notional and the printing are not modelled; the two accumulators are fed one after the other instead of row by row, which they cannot tell, since neither reads the other.
- PerSecond.PerSecondCounts: takes the stamps of the rows; the span in days is its length over a constant.
- Blanking.StripNoise: the regular expressions are written out as the functions that decide a token at a position and its end; characters outside the basic plane are single characters.
- Bars.BarAggregator.TakeClosed: trades after a take open a fresh count; the admission of bar types is the caller's positive interval.
- WorkerPool.RunPool: evaluation is a function of the cell, so the wall-clock field of a result is outside the model; the counter's 64-bit wrap is excluded by the bound on it.
- AsofJoin.Join: the sort is the stable insertion sort; effective and quoted spreads are one-line formulas and are not modelled.
- Summary statistics, fits and grid drivers (`measure`, `score`, `grade`, the plotting scripts): floating-point reporting without a universal claim.
