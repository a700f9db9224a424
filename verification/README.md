# A verified model of the price oracle

The project models the parts of the oracle with the most state, branching and arithmetic, and proves what they are for.
`dafny verify dfyconfig.toml` checks all of it.

**Aggregation** (`MachineInts`, `StableSort`, `Mergesort`, `Quantiles`, `PriceModel`, `Keys`, `Aggregation`,
`ConfidenceFilter`, `QuoteQuality`, `Consensus`). The mergesort runs in place over a key and a scratch array, with its
comparator network for up to seven keys and its merge into a region that may hold the right input. Its result is *the*
stable sort: stability is stated as "for every key, the elements tied with it come in the same order", which fixes the
result and makes it a permutation. The model's outputs are then fixed, on the unsorted votes, by rank counts, and
related to the quantile losses they minimise and to the votes of outliers. `upd_aggregate` is proved to produce a price
exactly when enough quotes count, in every reachable state: the confidence filter, not the aggregation alone, makes its
last check redundant. `Consensus` says which price that is by counting publishers, without sorting, and which quotes
count.

**Decimal numbers** (`Decimal`, `DecimalPacked`, `DecimalOps`). `Decimal` says what each operation computes and how far
it is from the exact value, in units of a common smaller exponent; `DecimalOps` are the operations as they run, through
possibly aliased references. Every 64-bit intermediate passes through a function that requires it to fit.

**The price account** (`PriceTypes`, `HeapSort`, `SortComps`, `AccountState`, `Settings`, `AggregateHistory`,
`AttemptHistory`, `TwapHistory`, `LateResets`, `MessageBuffer`, `PublisherTable`, `QuoteHistory`, `PriceAccount`,
`StakeCaps`). `AccountState` is a state machine: events are publisher updates (with or without swallowed errors),
validator aggregation, adding and deleting publishers, the two flag keys, re-initialisation, and setting the minimum of
publishers and the latency; a run is a sequence of events with nondecreasing slots below 2^63. What is stated of every run from a new account covers the accounts `add_price` makes (`AccountState.Created`, both
flags set, 20 publishers required) and any that predate the flags, with any minimum of publishers. `AggregateHistory`
reduces every event to what it does to the aggregate, `QuoteHistory` to what it does to the publishers' quotes as a map
from keys, `MessageBuffer` to what it leaves in the message buffer, and all prove invariants over all runs. `Settings`
and `AttemptHistory` say what the remaining fields remember of a run.
`PriceAccount.Account` is the account with its fields updated in place; each of its methods is proved to take the step
of the state machine.

**Client side** (`HashTable`; `Positional`, `Base58`, `Base58Ops`; `Bits`, `WebSocketFrames`, `WebSocket`; `JsonText`,
`JsonTree`, `JsonLayout`, `JsonRoundTrip`, `JsonWriter`, `JsonParser`). The hash table over indices refines a finite map.
The Base58 loops compute one natural number in two bases. The WebSocket receiver delivers what was sent however the bytes
arrive. The JSON parser rebuilds the tree the writer wrote.

One comment rests on code elsewhere: `program/c/src/oracle/upd_aggregate.h:204-206` calls the last check impossible. For
quotes that only pass the tests of the aggregation it is not (`Aggregation.UnfilteredQuotesCanFail`, and
`Aggregation.WhenEnoughQuotesFail` for exactly when), but the filter of `program/rust/src/utils.rs:173-185` keeps such
quotes out, so in every reachable state the comment holds (`QuoteQuality.ReachableTrading`).

Where the code and its comments disagree, the model follows the code:

- The comment in `program/rust/src/validator.rs:157` divides by a minimum; the code, and line 155, divide by a maximum.
- `program/c/src/oracle/upd_aggregate.h:194-197` says the spreads cannot overflow. With prices of both signs they can
  (`Aggregation.SpreadCanWrap`, with quotes the filter lets through); `Aggregation.ConfidenceIsSpread` says exactly
  when the confidence is the true spread.
- `program/rust/src/accounts/price.rs:170-173` says the accumulators cannot overflow and the down slots never exceed
  the current slot, and line 176 how a TWAP is read off them. Re-initialisation clears the slots and not the sums.
  - On every run the accumulators are the observer's sums reduced to their types (`TwapHistory.SumsModulo`), so they are
    exact if and only if those sums fit (`TwapHistory.AccumulatorsExact`). They do without a late re-initialisation
    (`TwapHistory.AccumulatorsNeverOverflow`), and while the slots cleared and the last slot together fit 64 bits
    (`TwapHistory.AccumulatorsBounded`). Two late re-initialisations at the end of the slots overflow them
    (`LateResets.AccumulatorsCanOverflow`).
  - The down slots stay within the last slot if and only if every re-initialisation finds none counted
    (`LateResets.DownSlotsWithinIff`).
  - Between two TRADING snapshots the cleared slots are counted as well (`TwapHistory.TwapBetweenExtremes`). At a
    constant price the TWAP is that price if and only if the account is not re-initialised in between
    (`TwapHistory.TwapExactIff`); `LateResets.LateResetCountsTwice` is such a run with a TWAP above every price.
- `pd_lt` and `pd_gt` can miss the order of a zero and a non-zero number (`Decimal.ZeroHidesOperand`);
  `DecimalOps.Lt` and `DecimalOps.Gt` say exactly when they see it.
- Decoding Base58 starts from one zero byte, so strings of zero bytes do not survive a round trip; `Base58.DecodeEncode`
  says exactly which strings do.

## Model

| member | source | states |
|---|---|---|
| Average.Avg2Int64IsFloor | program/c/src/oracle/util/avg.h:62-95 | the average by unsigned wrap-around is the exact floor of (x + y) / 2 for every pair of 64-bit integers |
| StableOrder.MergedIsStable | program/c/src/oracle/sort/tmpl/sort_stable.c:159-174 | merging stable sorts of two halves, the right head only when strictly before the left, is a stable sort of the whole |
| StableOrder.StableSortPermutes | program/c/src/oracle/sort/tmpl/sort_stable.c:179-184 | a stable sort is a permutation of its input |
| StableOrder.StableSortUnique | program/c/src/oracle/sort/tmpl/sort_stable.c:179-184 | every input has only one stable sort |
| Mergesort.SortNetwork | program/c/src/oracle/sort/tmpl/sort_stable_base.c:5-19 | the compare-exchange network with fallthrough stably sorts up to seven keys and touches nothing else |
| Mergesort.RightUnread | program/c/src/oracle/sort/tmpl/sort_stable.c:154-157 | what is left of the right run is unread and unchanged even when the run lies inside the merge output |
| Mergesort.MergeHeads | program/c/src/oracle/sort/tmpl/sort_stable.c:159-174 | the merge loop writes the merge of what it has consumed, and the rest of both runs is still intact |
| Mergesort.MergeInto | program/c/src/oracle/sort/tmpl/sort_stable.c:154-174 | with the stragglers, the output region holds the merge of the two runs as they were, and the rest of the array is unchanged |
| Mergesort.StableNode | program/c/src/oracle/sort/tmpl/sort_stable.c:127-177 | the ping-pong recursion leaves the stable sort in the array it returns and changes neither array outside the range |
| Mergesort.Stable | program/c/src/oracle/sort/tmpl/sort_stable.c:179-184 | for every input and scratch, the returned array holds the stable sort of the keys, a permutation of them |
| PriceModel.PriceModelCore | program/c/src/oracle/model/price_model.c:8-112 | whatever the scratch held, the outputs are the p25, p50 and p75 of the quotes, and the returned array holds them sorted |
| Quantiles.AscendingUnique | program/c/src/oracle/model/price_model.c:50 | the sorted quotes do not depend on the sort that was used |
| Quantiles.RankCounts | program/c/src/oracle/model/price_model.c:78-109 | the quote at sorted position i has at most i quotes strictly below it and more than i at or below it |
| Quantiles.RankFromCounts | program/c/src/oracle/model/price_model.c:78-109 | conversely those two counts, in any order of the quotes, determine the quote at the position |
| Quantiles.OutputsFromCounts | program/c/src/oracle/model/price_model.c:90-108 | the three outputs from counts in the unsorted quotes: the quotes ranked n/4 and n-1-n/4, and the average, rounded down, of those ranked (n-1)/2 and n/2 |
| Quantiles.QuantilesOrdered | program/c/src/oracle/model/price_model.c:78-109 | p25 <= p50 <= p75 |
| Quantiles.MedianResistsOutliers | program/c/src/oracle/model/price_model.c:73-76 | while fewer than half the quotes lie outside an interval, the p50 lies inside it |
| Quantiles.QuartilesResistOutliers | program/c/src/oracle/model/price_model.c:73-76 | while at most a quarter of the quotes lie outside an interval, the p25 and p75 lie inside it |
| Quantiles.QuartilesDiffer | program/c/src/oracle/model/price_model.c:78-109 | when no value makes up half the quotes, p25 < p75 |
| Quantiles.P25MinimisesLoss | program/c/src/oracle/model/price_model.c:54-80 | against every integer, the p25 minimises the absolute loss with weight 1 above and 3 below |
| Quantiles.P50MinimisesLoss | program/c/src/oracle/model/price_model.c:82-103 | against every integer, the p50 minimises the absolute loss, also the floored average of an even count |
| Quantiles.P75MinimisesLoss | program/c/src/oracle/model/price_model.c:105-109 | against every integer, the p75 minimises the absolute loss with weight 3 above and 1 below |
| Aggregation.NoValueDominates | program/c/src/oracle/upd_aggregate.h:167-177 | no value occurs more than n times among the 3n votes of n quotes that pass the filter |
| Aggregation.SpreadIsPositive | program/c/src/oracle/upd_aggregate.h:187-192 | from one quote on the outputs are ordered and p25 < p75 |
| Aggregation.ConfidenceIsSpread | program/c/src/oracle/upd_aggregate.h:194-202 | the confidence is the larger spread if and only if both spreads fit 64 bits, and then it is positive |
| Aggregation.PositivePricesFit | program/c/src/oracle/upd_aggregate.h:195-197 | quotes with a price at least their confidence keep the spreads within 64 bits |
| Aggregation.TradingIffEnoughQuotes | program/c/src/oracle/upd_aggregate.h:180-211 | when the spread fits, a price comes out if and only if there are max(1, min_pub_) quotes: the last check never fires |
| Aggregation.WhenEnoughQuotesFail | program/c/src/oracle/upd_aggregate.h:204-210 | with enough quotes, the last check fires if and only if the quartiles are more than 2^63 - 1 apart and the price equals one of them |
| Aggregation.SpreadCanWrap | program/c/src/oracle/upd_aggregate.h:194-202 | three quotes that pass these tests and the confidence filter, and whose spread wraps |
| Aggregation.UnfilteredQuotesCanFail | program/c/src/oracle/upd_aggregate.h:204-210 | eight quotes that pass the tests of lines 167-172 and yield no price, four of which the confidence filter marks as ignored |
| Aggregation.SharpQuotesTrade | program/c/src/oracle/upd_aggregate.h:204-210 | quotes that the confidence filter lets through yield a price if and only if there are enough of them, whatever their signs |
| Aggregation.PriceResistsMinority | program/c/src/oracle/upd_aggregate.h:173-192 | if 2k < n publishers are arbitrary, the price stays within the votes of the others |
| Aggregation.ConfidenceResistsQuarter | program/c/src/oracle/upd_aggregate.h:173-202 | if 4k <= n are, so do the quartiles, and the confidence is at most the width of that range |
| ConfidenceFilter.StatusIsSharp | program/rust/src/utils.rs:173-185 | a quote that is recorded as trading has a confidence of at most a third of its price |
| ConfidenceFilter.StatusKept | program/rust/src/utils.rs:173-185 | the status of an update is kept if and only if three times its confidence is within the magnitude of its price, and otherwise is IGNORED |
| ConfidenceFilter.StatusFailsOnlyAtMinimum | program/rust/src/utils.rs:173-185 | the confidence check fails for exactly one price, -2^63 |
| QuoteQuality.ReachableTrading | program/c/src/oracle/upd_aggregate.h:180-219 | in every reachable state an aggregation succeeds if and only if max(1, min_pub_) quotes count: the last check never fires |
| Consensus.ReachableOutcome | program/c/src/oracle/upd_aggregate.h:150-219 | in every reachable state the outcome of an aggregation, counted over the publishers: with n heard, and no fewer than min_pub_, the average of the two middle ones of their 3n votes, with the larger distance to the votes a quarter in from either end |
| Consensus.SomeVoteRanked | program/c/src/oracle/upd_aggregate.h:150-178 | every such position has a vote |
| Consensus.QuoteWeighs | program/c/src/oracle/upd_aggregate.h:160-178 | in every reachable state clearing one quote takes one off the number of quotes if that quote is trading, has three 64-bit votes and is recent enough, and changes nothing otherwise |
| Consensus.StaleQuoteIgnored | program/c/src/oracle/upd_aggregate.h:163-172 | a quote more than max_latency_ slots old, 25 when that is 0, changes nothing, and one exactly that old still counts |
| AttemptHistory.AttemptsRecorded | program/c/src/oracle/upd_aggregate.h:145-181 | after every run agg_.pub_slot_, valid_slot_, timestamp_ and num_qt_ are the slots of the last two attempts since a re-initialisation, and the time and number of heard publishers of the last attempt |
| Settings.RunSettings | program/rust/src/processor/init_price.rs:65 | after every run exponent, ACCUMULATOR_V2, min_pub_ and max_latency_ are what the last event that sets them sets them to; told from the events alone |
| Decimal.ScaledTruncates | program/c/src/oracle/pd.h:27-33 | scaling truncates once at the exponent it ends on, keeps the sign and zero, and drops no digit it could keep |
| Decimal.ScaledError | program/c/src/oracle/pd.h:27-33 | what scaling loses is less than one unit of the new exponent |
| Decimal.RawSumFits | program/c/src/oracle/pd.h:103-125 | every product and sum of the aligned operands fits 64 bits, at any exponent gap |
| Decimal.SumError | program/c/src/oracle/pd.h:103-127 | the sum of scaled operands is scaled and off by strictly less than one unit of its exponent, at any exponent gap |
| Decimal.SumKeepsDigits | program/c/src/oracle/pd.h:103-127 | the sum is the exact sum cut at the exponent it ends on while the exponents are less than 9 apart, exact if that fits a mantissa; digits are only dropped to a full mantissa, from 9 places below the larger exponent on, or with the whole operand at 27 places |
| Decimal.SumExponent | program/c/src/oracle/pd.h:103-127 | its exponent is at most one above the larger operand's and not below the smaller's |
| Decimal.SumCommutes | program/c/src/oracle/pd.h:103-127 | the order of the operands does not matter, although the branches differ |
| Decimal.DifferenceError | program/c/src/oracle/pd.h:129-153 | the same bounds for the difference |
| Decimal.DifferenceKeepsDigits | program/c/src/oracle/pd.h:129-153 | the same for the difference |
| Decimal.DifferenceSign | program/c/src/oracle/pd.h:155-167 | the sign the comparisons test is that of the exact difference if and only if the operand with the larger exponent is not zero or the other one survives its alignment |
| Decimal.ZeroHidesOperand | program/c/src/oracle/pd.h:155-167 | zero at exponent 9 and one at exponent -1 compare as equal |
| Decimal.ProductError | program/c/src/oracle/pd.h:81-86 | the product is scaled, off by less than one unit of its exponent, and drops at most nine digits |
| Decimal.ProductKeepsDigits | program/c/src/oracle/pd.h:81-86 | the mantissa is the exact product cut toward zero at the exponent it ends on, full if a digit was dropped, and 0 if and only if an operand is 0; products below 2^28 are exact |
| Decimal.RawQuotientBounds | program/c/src/oracle/pd.h:88-99 | lifting, scaling by 10^9 and dividing stay within 64 bits and give more digits than a mantissa holds |
| Decimal.QuotientMantissa | program/c/src/oracle/pd.h:88-101 | the quotient of non-zero scaled operands has a mantissa of at least 26843545 |
| Decimal.QuotientError | program/c/src/oracle/pd.h:88-101 | it has the sign of the exact quotient, does not exceed it, and errs by less than one unit of its exponent |
| DecimalPacked.PackRoundTrip | program/c/src/oracle/pd.h:58-64 | unpacking a packed 59-bit mantissa and 5-bit exponent gives them back |
| DecimalPacked.UnpackRoundTrip | program/c/src/oracle/pd.h:58-64 | every 64-bit word is the packing of what it unpacks to |
| DecimalPacked.TrimmedTruncates | program/c/src/oracle/pd.h:35-46 | a mantissa beyond 59 bits is cut once toward zero and keeps every digit that fits |
| DecimalPacked.StoreLoadIdentity | program/c/src/oracle/pd.h:35-66 | storing and loading is the identity for scaled numbers with exponents from -16 to 15 |
| DecimalPacked.StoreLoadSmall | program/c/src/oracle/pd.h:47-50 | below, the value is truncated toward zero at 10^-16 |
| DecimalPacked.StoreLoadLarge | program/c/src/oracle/pd.h:51-57 | above, the store succeeds if and only if the value fits 59 signed bits at exponent 15, and then loading keeps the value |
| DecimalOps.Scale | program/c/src/oracle/pd.h:27-33 | the loop over the magnitude computes the scaled number |
| DecimalOps.Mul | program/c/src/oracle/pd.h:81-86 | the operation through pointers computes the product, whatever is aliased |
| DecimalOps.Div | program/c/src/oracle/pd.h:88-101 | the lifting loop ends and the operation computes the quotient, whatever is aliased |
| DecimalOps.AlignedSum | program/c/src/oracle/pd.h:105-125 | each branch stays in 64 bits and inside the table of 18 factors, and computes the aligned sum |
| DecimalOps.Add | program/c/src/oracle/pd.h:103-127 | the operation computes the sum, whatever is aliased |
| DecimalOps.AlignedDifference | program/c/src/oracle/pd.h:131-151 | the same for the difference |
| DecimalOps.Sub | program/c/src/oracle/pd.h:129-153 | the operation computes the difference, whatever is aliased |
| DecimalOps.Lt | program/c/src/oracle/pd.h:155-160 | true if and only if the first operand is exactly less than the second and the alignment does not hide it |
| DecimalOps.Gt | program/c/src/oracle/pd.h:162-167 | true if and only if the first operand is exactly greater than the second and the alignment does not hide it |
| DecimalOps.FactorsTable | program/c/src/oracle/upd_aggregate.h:56-74 | the table the program supplies holds the powers of ten from 10^0 to 10^17 |
| DecimalOps.Store | program/c/src/oracle/pd.h:35-60 | the four loops compute the stored word, or report failure |
| DecimalOps.Load | program/c/src/oracle/pd.h:62-66 | shifts and sign extension unpack and scale the word |
| Keys.MemCmpIsRankOrder | program/rust/src/processor/upd_price.rs:325-327 | comparing 32 bytes lexicographically is comparing them as numbers, and 0 only for equal keys |
| HeapSort.RootIsMax | program/rust/src/processor/add_publisher.rs:121-152 | the root of a heap is its maximum |
| HeapSort.Sort | program/rust/src/processor/add_publisher.rs:121-159 | the heapsort sorts the pairs by key and permutes them |
| SortComps.FollowChain | program/rust/src/processor/add_publisher.rs:190-194 | the walk along the recorded swaps ends, at the place where the displaced component now is |
| SortComps.ChasingStep | program/rust/src/processor/add_publisher.rs:195-198 | each step keeps the relation between recorded swaps, places and original components, and makes one more place final |
| SortComps.SortPriceComps | program/rust/src/processor/add_publisher.rs:168-202 | the first num_comps components end sorted by key, each moved whole, the rest unchanged; too large a count is the only error |
| AccountState.NextKeepsTable | program/rust/src/processor/upd_price.rs:100-301 | no event changes the size of the component table or lets num_ exceed it |
| AggregateHistory.NextView | program/rust/src/processor/upd_price.rs:168-202 | every event, also one that fails halfway without reporting it, acts on the aggregate fields as one of: nothing, an aggregation attempt, or a reset |
| AggregateHistory.ReachableCoherent | program/c/src/oracle/upd_aggregate.h:137-219 | in every reachable state: TRADING implies last_slot_ == agg_.pub_slot_ > prev_slot_, otherwise last_slot_ == prev_slot_ and the aggregate equals the previous one |
| AggregateHistory.RunCoherent | program/rust/src/validator.rs:97-132 | every run keeps that invariant, from any state that has it |
| AggregateHistory.MessagesDescribeLastSuccess | program/rust/src/accounts/price.rs:115-162 | after every run, also with swallowed errors, the feed and TWAP messages describe the last successful aggregation and the one before it, in the exponent of the last accepted re-initialisation or the creation, with the sums so far |
| TwapHistory.AccumulatedExactly | program/rust/src/accounts/price.rs:194-205 | while the slots counted fit 64 bits, the update adds price * gap, conf * gap and the gap beyond the latency without overflow |
| TwapHistory.AccumulatorsNeverOverflow | program/rust/src/accounts/price.rs:170-173 | on every run from a new account without a late re-initialisation the i128, u128 and u64 accumulators hold exactly the sums over the successes, so they never overflow, and num_down_slots <= last_slot_ |
| TwapHistory.SlotsCounted | program/rust/src/accounts/price.rs:134-143 | over every run the gaps add up to what last_slot_ moved on plus what re-initialisations cleared |
| TwapHistory.SumsModulo | program/rust/src/accounts/price.rs:193-205 | over every run from any state with a coherent aggregate, re-initialisations and overflows included, the accumulators are the observer's sums reduced to i128, u128 and u64 |
| TwapHistory.AccumulatorsExact | program/rust/src/accounts/price.rs:170-173 | over every run from a new account the accumulators are exact if and only if the observer's sums fit their types |
| TwapHistory.AccumulatorsBounded | program/rust/src/accounts/price.rs:170-173 | they are exact and within the bounds of the comment while the slots cleared and last_slot_ together fit 64 bits |
| TwapHistory.ClearedNothing | program/rust/src/processor/init_price.rs:67-73 | no slots are cleared if and only if no re-initialisation is late, which from a state with a success means there is none |
| TwapHistory.Telescopes | program/rust/src/accounts/price.rs:134-143 | over every segment whose counted slots fit 64 bits the sums grow by exactly sum(price * gap), and the gaps add up to the slot difference plus the slots cleared |
| TwapHistory.TwapBetweenExtremes | program/rust/src/accounts/price.rs:174-176 | between two TRADING snapshots the cumulative price grows, per slot between them or cleared between them, by a price between the smallest and the largest aggregate |
| TwapHistory.TwapExactIff | program/rust/src/accounts/price.rs:174-176 | at a constant non-zero price the TWAP between two TRADING snapshots is that price if and only if the account is not re-initialised in between |
| TwapHistory.DowntimeIsFraction | program/rust/src/accounts/price.rs:184-188 | between two TRADING snapshots num_down_slots grows by at most the slots between them and the slots cleared between them |
| LateResets.DownSlotsWithinIff | program/rust/src/accounts/price.rs:173 | num_down_slots <= last_slot_ in every state of a run from a new account if and only if every re-initialisation finds num_down_slots zero |
| LateResets.LateResetCountsTwice | program/rust/src/processor/init_price.rs:67-73 | on an account as add_price makes it: two TRADING snapshots at one price with a re-initialisation in between, whose TWAP is above that price, and more down slots than slots |
| LateResets.AccumulatorsCanOverflow | program/rust/src/accounts/price.rs:170-173 | a run on an account as add_price makes it, with two late re-initialisations, whose cumulative price and down slots wrap |
| MessageBuffer.NoMixedMessages | program/rust/src/validator.rs:109-115 | in every reachable state, when the validator makes messages no v1 message is left in the buffer |
| MessageBuffer.RunFlagRight | program/rust/src/processor/upd_price.rs:208-281 | every run keeps: MESSAGE_BUFFER_CLEARED implies ACCUMULATOR_V2 and a buffer without messages |
| MessageBuffer.CallsWhenDue | program/rust/src/processor/upd_price.rs:190-214 | after every run an update that offers the buffer's accounts calls it if and only if a success is unsent, or, with ACCUMULATOR_V2, the buffer was not emptied since the flag was last removed |
| MessageBuffer.SentDescribesLastSuccess | program/rust/src/processor/upd_price.rs:190-200 | after every run, once there was a success and message_sent_ is set, messages in the buffer describe that success and the sums up to it, in the exponent set last |
| QuoteHistory.NextQuote | program/rust/src/processor/upd_price.rs:283-298 | every instruction changes the publishers' latest quotes and their snapshots in the aggregate, seen as maps from keys, as stated key by key: an accepted update only its publisher's quote, an attempt at an aggregation every snapshot, additions and deletions no other key's |
| QuoteHistory.UpdateRecorded | program/rust/src/processor/upd_price.rs:157-298 | a quote is recorded if and only if it is newer than the last one and not from the future, the price is not -2^63 and no needed buffer call fails |
| QuoteHistory.SlotDifferencesNonNegative | program/c/src/oracle/upd_aggregate.h:163-172 | in every reachable state no quote carries a slot beyond the clock, so the slot difference is not negative and does not wrap |
| QuoteHistory.QuotesAdvance | program/rust/src/processor/upd_price.rs:157-163 | over every run that neither deletes a publisher nor re-initialises the account, its quote is only replaced by one with a later slot |
| PublisherTable.ByKeySorts | program/rust/src/processor/add_publisher.rs:108-112 | ordering a table of different keys by key gives a strictly ascending permutation |
| PublisherTable.TakenKeys | program/rust/src/processor/add_publisher.rs:73-100 | a key is added if and only if it is a flag key, or new with fewer than 64 keys there; and deleted if and only if it is there and not all zero |
| PublisherTable.AddThenDelRestores | program/rust/src/processor/del_publisher.rs:62-80 | adding a new ordinary key and deleting it again restores the whole account |
| PublisherTable.RunKeepsTable | program/rust/src/processor/add_publisher.rs:73-115 | every run keeps the table: at most 64 keys, strictly ascending, zero behind them |
| PublisherTable.ReachableTableOk | program/rust/src/processor/add_publisher.rs:73-115 | every state reachable from a new account has such a table |
| PriceAccount.Account.constructor | program/rust/src/processor/add_price.rs:80-89 | the account add_price makes: both flags set, 20 publishers required, all else zero |
| PriceAccount.FindPublisherIndex | program/rust/src/processor/upd_price.rs:309-359 | an index comes back if and only if the key is present, in any order of the table, and it is the key's index |
| PriceAccount.BinarySearch | program/rust/src/processor/upd_price.rs:321-339 | a hit is the key's index, and on a sorted table a miss means the key is absent |
| PriceAccount.Account.GatherVotes | program/c/src/oracle/upd_aggregate.h:155-178 | the loop copies the latest quotes and collects exactly the votes of those that pass the filter, at most 192 |
| PriceAccount.Account.UpdAggregate | program/c/src/oracle/upd_aggregate.h:135-220 | the aggregation in place takes the account to the aggregated state and reports whether a price came out |
| PriceAccount.Account.UpdatePriceCumulative | program/rust/src/accounts/price.rs:134-143 | the sums are updated if and only if the aggregate is TRADING |
| PriceAccount.Account.UpdateAggregate | program/rust/src/validator.rs:52-80 | aggregation, message flag and sums together are the aggregation step of the state machine |
| PriceAccount.Account.AggregatePrice | program/rust/src/validator.rs:97-132 | the validator's step, its three refusals without any change, and its messages |
| PriceAccount.Account.UpdPrice | program/rust/src/processor/upd_price.rs:100-301 | the publisher's step, every error with exactly the partial effects it leaves |
| PriceAccount.Account.AddPublisher | program/rust/src/processor/add_publisher.rs:73-115 | the table update in place is the add step, flag keys and refusals included |
| PriceAccount.Account.DelPublisher | program/rust/src/processor/del_publisher.rs:62-80 | the shift to the left and the cleared last entry are the delete step |
| PriceAccount.Account.InitPrice | program/rust/src/processor/init_price.rs:65-102 | the in-place reset is the re-initialisation step |
| StakeCaps.CreditLookup | program/rust/src/validator.rs:172-175 | crediting a key adds to its cap with saturation, or enters it, and changes no other key |
| StakeCaps.SharesWithin | program/rust/src/validator.rs:167-169 | the entries of one price account get at most m together |
| StakeCaps.ComputePublisherStakeCaps | program/rust/src/validator.rs:158-193 | keys come out strictly ascending, exactly those some account lists, each with the saturated sum over its entries of the c with c * max(num_, z) <= m < (c + 1) * max(num_, z), or 0 when that maximum is 0; all caps total at most m times the number of accounts |
| HashTable.HashMap.Find | pc/hash_map.hpp:61-73 | the chain walk ends, and returns the link to the key's node if and only if the map has the key |
| HashTable.HashMap.Add | pc/hash_map.hpp:86-104 | after a failed find, exactly the key is added, with a node from the free list or a new one |
| HashTable.HashMap.Del | pc/hash_map.hpp:75-84 | through the link find returned, exactly the key is removed and its node freed |
| HashTable.HashMap.SetVal | pc/hash_map.hpp:106-110 | writing through the reference changes the key's value and nothing else |
| HashTable.HashMap.Clear | pc/hash_map.hpp:124-131 | the map is empty again |
| HashTable.HashMap.Size | pc/hash_map.hpp:118-122 | nval_ is the number of keys of the map |
| HashTable.LiveBucket | pc/hash_map.hpp:96-103 | every node in a chain carries a key whose bucket that chain is |
| HashTable.LinkedUnlink | pc/hash_map.hpp:75-84 | taking a node out of a chain without repeats leaves the chain of the others |
| HashTable.DelPartitioned | pc/hash_map.hpp:75-84 | after a deletion chains and free list are still disjoint and together cover all nodes but 0 |
| Positional.ValueInjective | pc/misc.cpp:34-105 | digit strings without a leading zero are equal when their numbers are |
| Base58.AlphabetInOrder | pc/misc.cpp:10-11 | the digits are exactly the letters and figures but 0, O, I and l, in character order |
| Base58.EncodedNumber | pc/misc.cpp:34-67 | the text has a 1 for each leading zero byte, and its digits, most significant first, are the number that the bytes are |
| Base58.DecodeEncode | pc/misc.cpp:34-105 | decoding undoes encoding if and only if the bytes have a non-zero byte |
| Base58.EncodeDecode | pc/misc.cpp:34-105 | encoding undoes decoding if and only if the text is over the alphabet and not all ones |
| Base58Ops.AddByte | pc/misc.cpp:47-58 | the carry loop turns the number in the digit buffer into 256 times itself plus the byte, and leaves a carry if and only if that does not fit |
| Base58Ops.EncBase58 | pc/misc.cpp:34-67 | the text and its terminator are written if and only if digits and text have room; otherwise nothing is written and 0 returned |
| Base58Ops.BufferSuffices | pc/misc.cpp:43-45 | a digit buffer with 58^size at least 256^(significant bytes) is always large enough |
| Base58Ops.AddDigit | pc/misc.cpp:83-91 | the carry loop turns the number in the buffer into 58 times itself plus the digit, growing by at most one byte |
| Base58Ops.DecBase58 | pc/misc.cpp:70-105 | a buffer of at least one byte and twice the text's length is always large enough and ends with the decoded bytes of the longest prefix over the alphabet |
| Base58Ops.ReverseInPlace | pc/misc.cpp:98-103 | the swaps from the top down to the middle reverse the bytes |
| Bits.XorTwice | pc/net_socket.cpp:1350-1356 | the same masking byte applied twice cancels |
| Bits.XorDiffers | pc/net_socket.cpp:1350-1356 | each bit of a masked byte says whether byte and mask differ there |
| WebSocketFrames.NumberRoundTrip | pc/net_socket.cpp:1275-1285 | a length written in 2 or 8 bytes, most significant first, is read back |
| WebSocketFrames.WireLayout | pc/net_socket.cpp:1260-1306 | every bit and byte of a written frame is where section 5.2 of RFC 6455 puts it |
| WebSocketFrames.ParseWire | pc/net_socket.cpp:1326-1402 | parsing a written frame, masked or not, with any of the three length encodings, gives back its bits, opcode and payload, whatever follows it |
| WebSocketFrames.PrefixIncomplete | pc/net_socket.cpp:1328-1349 | a frame cut short anywhere is not parsed |
| WebSocketFrames.ParseExtends | pc/net_socket.cpp:1328-1358 | bytes after a complete frame do not change how it is parsed |
| WebSocketFrames.ChunksDoNotMatter | pc/net_socket.cpp:467-500 | deliveries, replies and leftover bytes depend on the bytes received alone, not on how recv split them |
| WebSocketFrames.StreamReceived | pc/net_socket.cpp:485-498 | the frames of a stream are received in order, each exactly once |
| WebSocketFrames.ControlsDoNotMatter | pc/net_socket.cpp:1377-1395 | control frames between fragments do not disturb the reassembly (section 5.4 of RFC 6455) |
| WebSocketFrames.MessagesDelivered | pc/net_socket.cpp:1359-1376 | fragments are delivered as their concatenation, message by message |
| WebSocketFrames.AnswersSent | pc/net_socket.cpp:1377-1395 | exactly the pings and closes are answered, in order: with a pong of the same payload or an empty close, masked if and only if the frame was not |
| WebSocketFrames.StreamDelivers | pc/net_socket.cpp:467-500 | end to end: fragmented, masked, interleaved with control frames and cut into any chunks, exactly the messages sent are delivered, in order, every ping and close is answered, and the error is set if and only if an opcode is unknown |
| WebSocket.Writer.Commit | pc/net_socket.cpp:1260-1306 | the writer produces the wire form of a final frame, masking in place |
| WebSocket.Connection.Parse | pc/net_socket.cpp:1326-1402 | the parser on its buffer receives the frame at the front, or changes nothing when it is not all there |
| WebSocket.Connection.Unmask | pc/net_socket.cpp:1350-1356 | unmasking in place changes the payload only |
| WebSocket.Connection.PollRecv | pc/net_socket.cpp:467-500 | growing, filling, parsing and shuffling the buffer receives the chunks one after the other |
| JsonText.LexValue | pc/jtree.cpp:19-91 | scanning a rendered value yields exactly its events, with the positions of its texts, and goes on behind it |
| JsonText.GroupText | pc/net_socket.cpp:1423-1566 | a group is its members, names in quotes with a colon, joined by commas within its brackets, and the literals are spelled as in RFC 8259 |
| JsonLayout.EntriesBuilt | pc/jtree.cpp:99-182 | the events of a list of entries append exactly its nodes and link them under the innermost open group |
| JsonRoundTrip.LayoutChain | pc/jtree.hpp:88-131 | those nodes read back, through first child, next sibling, key and value, as the entries in order |
| JsonRoundTrip.ParseRendered | pc/jtree.cpp:12-97 | parsing a rendered object or array of at most 2^24 nodes is valid and rebuilds the tree if and only if no string in it contains a quote |
| JsonWriter.RunWrites | pc/net_socket.cpp:1423-1566 | a well-nested run of the writer appends exactly the text of its entries and restores its stack |
| JsonWriter.EveryRun | pc/net_socket.cpp:1423-1566 | every well-nested run is the run of some tree, and writes its text |
| JsonWriter.IntReadsBack | pc/misc.cpp:138-176 | an integer written in decimal is read back |
| JsonWriter.IntToStr | pc/misc.cpp:138-156 | the digit loop writes the decimal text |
| JsonWriter.StrToInt | pc/misc.cpp:158-176 | the reading loop computes the scanned number, 0 at any other character |
| JsonWriter.Writer.AddKey | pc/net_socket.cpp:1450-1491 | comma, key, colon and value as the first flag demands |
| JsonWriter.Writer.PopGroup | pc/net_socket.cpp:1437-1442 | the bracket of the innermost group, which is then closed |
| JsonParser.JTree.Parse | pc/jtree.cpp:12-92 | the four-state scanner builds the tree of the text's events, for every text that closes no more groups than it opens |
| JsonParser.JTree.AddArr | pc/jtree.cpp:117-126 | a new child is linked behind the last one, or becomes the first |
| JsonParser.JTree.FindVal | pc/jtree.cpp:184-196 | a node, never 0, that is the value of the first entry with the key, and 0 when there is none |
| JsonParser.SameStrEqual | pc/misc.hpp:80-84 | comparing up to a null character is equality for keys without one |
| JsonParser.ParseWritten | pc/jtree.cpp:12-97 | end to end: parsing what any well-nested run wrote is valid and rebuilds the tree it wrote |

## Left out

- `upd_ema`, `upd_twap`, `pd_adjust` and the `twap_`/`twac_` fields with the two message fields read from them: no accuracy is promised for the moving averages, and nothing modelled reads them.
- `pd_sqrt`: not used by aggregation.
- Account loading, ownership, signatures, permissions, program-derived addresses, cross-program calls and `header.size`: an instruction reaches the model with these checks passed, and the call into the message buffer is a parameter that succeeds or fails.
- `corp_act_status_`, `feed_index`, product metadata and mapping tables: no modelled branch reads them.
- The clock is part of each event: slots do not go back over a run and stay below 2^63, since the code casts them to a signed integer.
- StakeCaps.ComputePublisherStakeCaps: an account whose header check fails is an absent account; the encoding of the message is not modelled.
- ConfidenceFilter.StatusFailsOnlyAtMinimum: the absolute value of -2^63 is taken as in a release build, where it stays negative and the conversion fails.
- PriceModel.PriceModelCore: the alignment of the scratch pointer is not modelled.
- Decimal.QuotientError: stated for non-zero operands; a zero dividend is returned unchanged, and a zero divisor is undefined in the source.
- HashTable.HashMap.Del: a link is an index here and stays valid over a later addition; in the source it is a pointer into the node vector, which growing can move (pc/hash_map.hpp:89-94).
- HashTable.HashMap.Add: node indices are unbounded, so running out of the index type is not modelled.
- Base58Ops.EncBase58: the digit buffer size is a parameter; the source computes it in floating point.
- Base58Ops.DecBase58: needs at least one byte of buffer, which the source's rule of twice the length does not give for the empty text.
- WebSocket.Writer.Commit: the writer starts empty, as everywhere in the source, and its buffer list is seen as its bytes; the masking key is a parameter. The byte count of a writer that another was merged into is not modelled.
- WebSocket.Connection.Parse: lengths are unbounded, so a length field near 2^64, which section 5.2 of RFC 6455 forbids, does not wrap, and a masked payload beyond 2^32 bytes is unmasked as one.
- WebSocket.Connection.PollRecv: ends when the socket has no more bytes; socket errors and what message handlers do are not modelled (an unknown opcode sets the parser's own error, which does not stop the loop), and replies are recorded by opcode, payload and masking instead of being framed and queued.
- Aggregation.ConfidenceIsSpread: an overflowing subtraction of `int64_t` is undefined in C; the model takes it as wrapping around.
- Decimal.SumError: exponents are unbounded; the 32-bit exponent and the 32-bit exponent gap of the source are not modelled, nor in the other lemmas on numbers.
- TwapHistory.SumsModulo: sums wrap around, as in a release build.
- MessageBuffer.NoMixedMessages: the program behind the buffer is named by the caller of the update; the model takes a call that succeeds to replace the account's entry by the messages passed.
- JsonWriter.StrToInt: not limited to 64 bits; an overflowing sum is undefined in the source.
- JsonWriter.IntToStr: not limited to 64 bits; negating -2^63 is undefined in the source.
- JsonWriter.RunWrites: Base58, Base64 and verbatim values are covered as strings or not at all.
- JsonParser.JTree.Parse: a text that closes more groups than it opens pops an empty stack in the source, which is undefined; node indices are not wrapped at 2^32. The tree keeps the text of scalars, so a number and a string with the same text are not told apart.
- JsonParser.JTree.FindVal: for groups; on a scalar node the source reads a text position as a node.
- Base64, `str_to_dec` and time formatting: codecs of the same kind that would add easy members.
- Sockets, HTTP, reconnecting, epoll, files, logging, compression, key stores and command-line tools.
