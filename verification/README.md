# Footprint pipeline: a verified model

The system turns exchange trades into *footprints*: for each time window, the traded quantity per price
bucket and aggressor side, with the window's open, high, low and close.  One aggregator task per symbol and
timeframe keeps the open window and publishes three kinds of frames: live diffs, partial snapshots and one
closing snapshot per window.  Snapshots travel over a bus that may lose frames and a writer that may drop
rows into a ClickHouse table that keeps the newest row per window and price.  Charts read the table back,
and timeframes longer than a minute are not stored at all but summed up from the one-minute rows.

This project models that path and the exact-arithmetic, wire-format and bookkeeping cores beside it, and
proves what the code's comments promise of them:

- **Aggregator** (`Footprint`, `Aggregator`, `AggregatorRun`, `AggregatorLog`, `AggregatorTicks`, `Timeframes`).
  The class `Aggregator.Aggregator` has the code's fields; a list of trades, kept as ghost state, says what they
  mean.  The select loop is `AggregatorRun.RunAggregator`.  The lemmas hold for every event list, that is, for
  every interleaving of trades and the two timers.
- **Table and queries** (`ClusterTable`, `ClosingRepair`, `OpenWindow`, `RangeQuery`, `DirectRead`,
  `FailingRuns`, `Rollup`, `RangeEdges`, `LiveRollup`, `RawStream`, `RangeResponse`).  An `Arrival` says, row by
  row, whether a row of a frame reached the table and when it was inserted; `Merge` keeps the greatest insert
  time, as the replacing merge does.  The SQL of both query branches is written as functions over the surviving
  rows.  The end-to-end results are `Rollup.RollupMatchesLiveAggregator` and `RangeEdges.RollupOfAnyRange` for
  finished windows, `LiveRollup.InProgressRollup` and `LiveRollup.InProgressBucket` for the current candle, and
  `RawStream.RollupOfRawStream` for two aggregators fed by one raw stream.
- **MEXC protobuf** (`Protobuf`, `ProtobufReader`, `MexcDecoder`, `MexcWire`): a cursor machine against a
  reference parser for the wire format of the Protocol Buffers Encoding specification, sections "Base 128
  Varints", "Message Structure" and "Length-Delimited Records"; the format byte by byte; round trips with the
  encoders; unknown, repeated and malformed fields.
- **OKX decimals** (`Decimal`, `OkxScale`, `OkxContracts`, `OkxListing`): decimal strings as exact numerator and
  scale, parsing, products, reduced fractions, which instruments are listed, and the conversion of contracts to
  base units.
- **Write-ahead log** (`Wal`), **ClickHouse writer** (`ChWriter`), **retention rules** (`Retention`),
  **trade-id gaps** (`TradeGaps`), **symbol discovery** (`Supervisor`).

`dafny verify dfyconfig.toml` checks everything.

## Reading the results

Time stamps are nanoseconds, prices and quantities scaled integers, as in the code; `I64_MIN` and its
companions are written out wherever the code saturates, truncates or checks.  Where an order is a hash map's,
the model keeps a map or a set, or picks an arbitrary order.

Assumptions of the footprint results are stated where they are needed: prices above 0 (the code uses open
price 0 for "no trade yet"; `Footprint.OhlcMeaning` shows exactly what happens otherwise), quantities at
least 0, time stamps at least 0 for the rollup, one aggregator per symbol and timeframe, windows of a
whole number of milliseconds, and, for what the table holds, an insert clock that does not go back from one
frame to a later one (`ClusterTable.Clocked`).

These properties turned out to hold only under a condition, which is proved along with a failing input and,
where the condition is not plain from the input, as an equivalence:

- The closing snapshot repairs its window: exactly when, for every key at which an earlier row with a greater
  insert time has overtaken the closing one, that row was taken after the last trade that changed the bucket
  or the OHLC (`ClosingRepair.ClosingRepairsExactly`, `FailingRuns.BackwardClockLosesTheClosing`).
- The next delta repairs a lost one (`aggregator.rs:208-209`): it does not for a bucket not traded again
  (`FailingRuns.NextDeltaLeavesTheHole`).  A stored bucket of the open window is right exactly when the last
  of its rows to arrive was taken when the bucket stood as it does (`OpenWindow.OpenBucketExact`); for one that
  is not pending it is enough that the last partial snapshot carrying it arrived (`OpenWindow.OpenBucketStored`).
- The rollup is what a live aggregator of the long timeframe says of the same raw stream: exactly when no
  trade of the window is late for the short timeframe alone, as long as the trade counters cannot saturate
  (`RawStream.RollupOfRawStream`, `RawStream.LateForTheMinuteOnly`).
- The close of a still-open window is read right exactly when the rows that tie on the latest insert time
  agree on it (`DirectRead.CloseReadExact`, `FailingRuns.TiedInsertTimesLoseTheClose`); open, high and low
  need no such thing.
- A trade of whole lots converts to whole steps exactly when its size has no more decimals than the scale
  and the product fits an `i64` (`OkxContracts.SwapTradeOfWholeLots`, `OkxContracts.FractionalContractsVanish`,
  `OkxContracts.HugeTradeWraps`).
- A quantity is within `1 + n/d` of the exact base amount exactly when that product fits
  (`OkxContracts.QuantityBounds`).
- A product of two decimal strings is exact exactly when mantissas and product fit an `i128`, or the product is
  0 (`OkxScale.MultiplyExact`, `OkxScale.WideProductIsWrong`).
- The trades counted as missing are the absent ones exactly when no id comes late into a gap already counted
  (`TradeGaps.MissingIsAbsent`, `TradeGaps.LateIdStaysMissing`).
- The writer's counters cover every row received exactly when the closing insert succeeds or has nothing to
  insert (`ChWriter.ClosingAccountsForAll`, `ChWriter.FailedClosingLosesRow`).
- Delays never shrink with failures exactly when the flush interval is at most 30 s (`ChWriter.BackoffGrows`).

Where comments and code differ, the model follows the code: `aggregator.rs:210` says that a live diff writes
all buckets, but it writes the touched ones; `lib.rs:186` of the ClickHouse sink says that closing flushes
the batch, but an insert that fails then loses it; `reader.rs:8` says that the reader stops at the first
frame that is not intact, but a further call reads on behind it while the offset stays.

## Model

| member | source | states |
|---|---|---|
| Footprint.TallyIsCappedTotal | crates/cluster-engine/src/aggregator.rs:128-134 | each bucket column is min(true sum, type maximum), whatever the order of trades |
| Footprint.OhlcMeaning | crates/cluster-engine/src/aggregator.rs:138-155 | the running OHLC is first, last, highest and lowest price exactly when the first price is not the sentinel 0 (or all prices are 0) |
| Footprint.BucketMeaning | crates/cluster-engine/src/aggregator.rs:128 | a trade's bucket is the multiple of the step at which its price lies, counted towards zero: at most one step below a price from 0 up, less than one step above a negative one |
| Footprint.WindowMeaning | crates/cluster-engine/src/aggregator.rs:99 | a trade's window starts at the multiple of the window length at which its time stamp lies |
| Footprint.FootprintMeaning | crates/cluster-engine/src/aggregator.rs:128-134 | a bucket exists exactly at each such multiple, with the bid and ask quantities and the count of the trades at its prices, cut at the greatest i64 and u32 |
| Footprint.TallyExact | crates/cluster-engine/src/aggregator.rs:130-134 | with quantities of any sign a column is exact as long as no running total leaves its type |
| Footprint.LeadingZeros | crates/cluster-engine/src/aggregator.rs:142-155 | trades at price 0 before any other leave no trace in the OHLC |
| Aggregator.TallyInRange | crates/cluster-engine/src/aggregator.rs:130-134 | columns never leave the range of their integer types |
| Aggregator.Aggregator.constructor | crates/cluster-engine/src/aggregator.rs:67-88 | an aggregator starts with no window and empty footprint, its intervals in nanoseconds |
| Aggregator.Aggregator.BuildClosingSnapshot | crates/cluster-engine/src/aggregator.rs:270-291 | the closing frame carries the complete footprint and OHLC of the window and its next number |
| Aggregator.Aggregator.OpenWindow | crates/cluster-engine/src/aggregator.rs:101-126 | a later window closes the open one and starts empty; the same window changes nothing |
| Aggregator.Aggregator.AddToFootprint | crates/cluster-engine/src/aggregator.rs:128-136 | the accumulated map becomes the footprint of the trades with the new one: the one bucket at which its price lies gains its quantity on the aggressor's side, no other changes; both dirty sets gain it |
| Aggregator.Aggregator.AccumulateTrade | crates/cluster-engine/src/aggregator.rs:128-155 | map, dirty sets and OHLC fields become those of the open window's trades with the new one |
| Aggregator.Aggregator.IngestTrade | crates/cluster-engine/src/aggregator.rs:98-158 | by its window a trade is late, joins the open window, or rolls it; afterwards the keys are exactly the multiples of the step at which prices of the open window's trades lie |
| Aggregator.Aggregator.TickDiff | crates/cluster-engine/src/aggregator.rs:160-192 | the live diff holds the current state of exactly the touched buckets, clears only its own dirty set, and is published only an interval after the last one, whose clock it then takes |
| Aggregator.Aggregator.EmitCurrentWindowDelta | crates/cluster-engine/src/aggregator.rs:220-248 | the partial snapshot holds exactly the buckets touched since the last one, with the OHLC so far |
| Aggregator.Aggregator.FlushWindow | crates/cluster-engine/src/aggregator.rs:252-268 | flushing publishes the closing frame and resets everything but the late counter |
| AggregatorRun.RunAggregator | crates/cluster-engine/src/task.rs:55-98 | the loop publishes exactly the frames of the modelled run, in order, ending with the flush |
| AggregatorRun.HighWaterIsMax | crates/cluster-engine/src/aggregator.rs:99-126 | the open window is the maximum window over all trades seen |
| AggregatorRun.AcceptedChronological | crates/cluster-engine/src/aggregator.rs:101-126 | accepted trades come window by window, the last one in the latest window |
| AggregatorRun.ReachableState | crates/cluster-engine/src/aggregator.rs:98-158 | in every reachable state the open window is the latest seen, holds exactly its accepted trades, and accepted plus late trades are all trades |
| AggregatorRun.LateTradesCounted | crates/cluster-engine/src/aggregator.rs:121-124 | the counter is the number of trades that came after one of a later window |
| AggregatorRun.FlushStartsAfresh | crates/cluster-engine/src/aggregator.rs:252-268 | a flushed aggregator publishes from then on what a new one would |
| AggregatorLog.ChannelsComplete | crates/cluster-engine/src/aggregator.rs:134-136 | in every reachable state, replaying either channel's frames as upserts agrees with the window on every bucket not pending in that channel, and pending sets lie inside the footprint |
| AggregatorLog.SequenceNumbers | crates/cluster-engine/src/aggregator.rs:169-186 | the frames of each window, of all three kinds together, are numbered 1, 2, 3, ... without gaps |
| AggregatorLog.PublishedNumbers | crates/cluster-engine/src/aggregator.rs:252-271 | so are they with the closing frame of the final flush |
| AggregatorLog.LogFacts | crates/cluster-engine/src/aggregator.rs:220-291 | every frame tells the truth about a prefix of its window's trades; no frame follows the closing one of its window; every past window has its closing frame |
| AggregatorLog.PublishedClosesAll | crates/cluster-engine/src/task.rs:65-69 | after the final flush every window that accepted a trade has exactly described closing frames |
| AggregatorLog.AcceptedTradesConserved | crates/cluster-engine/src/aggregator.rs:106-120 | the accepted trades are, in order, those of the closed windows followed by those of the open one |
| AggregatorLog.TradesConserved | crates/cluster-engine/src/aggregator.rs:98-158 | every trade is in exactly one closed window, the open window, or the late counter |
| AggregatorTicks.PendingIs | crates/cluster-engine/src/aggregator.rs:134-136 | pending for a channel are exactly the buckets of the open window's trades since that channel's last frame |
| AggregatorTicks.DiffPublishes | crates/cluster-engine/src/aggregator.rs:160-192 | over whole runs: a diff tick publishes exactly if a trade came since the window's last diff and that is at least the interval ago, and brings exactly the buckets of those trades, as they stand |
| AggregatorTicks.PartialPublishes | crates/cluster-engine/src/aggregator.rs:220-248 | over whole runs: a partial tick publishes exactly if a trade came since the window's last partial snapshot, and brings exactly the buckets of those trades with the OHLC so far |
| AggregatorTicks.DiffsSpaced | crates/cluster-engine/src/aggregator.rs:164-184 | of two diffs of one window the later one comes at least the interval after the earlier one |
| Timeframes.NestedWindows | crates/cluster-api/src/cluster_history.rs:337-340 | flooring a stored short window to the long interval gives the long window of the same trade |
| Timeframes.CoarseAcceptsMore | crates/cluster-engine/src/aggregator.rs:121-124 | a trade on time for the short timeframe is on time for the long one |
| Timeframes.DroppedLateTradesOrdered | crates/cluster-ingest/src/binance_supervisor.rs:334-346 | fed the same trades, the long timeframe never counts more late trades than the short one |
| Timeframes.FilteredStreamAllAccepted | crates/cluster-engine/src/aggregator.rs:121-124 | a stream the short timeframe has accepted loses nothing more |
| ClusterTable.NewestVersionWins | migrations/001_clusters_1m.sql:21-23 | whatever the clock, each key ever written holds its row with the greatest insert time, of equal ones the last written |
| ClusterTable.LastWriterKept | migrations/001_clusters_1m.sql:23 | the last row written to a key is kept exactly when no earlier one has a greater insert time |
| ClusterTable.LastWriteWins | migrations/001_clusters_1m.sql:5-8 | under a clock that never goes back each key holds the row of the last frame that wrote it |
| ClusterTable.MergeOverrides | migrations/001_clusters_1m.sql:5-8 | under such a clock the merge is a plain override in the order of insertion |
| ClusterTable.ClosingIsLast | crates/cluster-engine/src/aggregator.rs:106-120 | no frame after a closing one writes to its window |
| ClusterTable.ClosingRowKept | crates/cluster-engine/src/task.rs:38-43 | once a closing snapshot has arrived the table has exactly its window's keys; which row survives: the closing one exactly when no earlier row of the key carries a greater insert time |
| ClosingRepair.ClosingContentExact | crates/cluster-engine/src/task.rs:38-43 | whatever was lost and whatever the clock did, a key then tells the final bucket and OHLC exactly when the row that overtook the closing one, if any, was taken after the last change |
| ClosingRepair.ClosingRepairsExactly | crates/cluster-engine/src/task.rs:38-43 | the table holds exactly the window's final state if and only if that is so at each of its keys |
| ClosingRepair.SettledMeans | crates/cluster-engine/src/aggregator.rs:128-155 | a bucket is unchanged exactly when no later trade of the window fell into it, as long as its counter cannot saturate |
| ClusterTable.ClosingRepairsWindow | crates/cluster-engine/src/task.rs:38-43 | under a clock that never goes back the table then holds exactly that window's buckets, all with its final OHLC, whatever was lost before |
| ClusterTable.EveryWindowStored | crates/cluster-engine/src/aggregator.rs:202-212 | over whole runs, with only the closing snapshots sure to arrive and such a clock, every window that accepted a trade ends up stored exactly |
| OpenWindow.StoredRowIsOfPrefix | crates/cluster-engine/src/aggregator.rs:202-209 | under any loss and any clock every stored row has bucket and OHLC of the first trades of its window, up to some trade |
| OpenWindow.TableFollowsReplay | crates/clickhouse-sink/src/lib.rs:53-89 | with no partial snapshot of a window lost, its stored buckets are those of a subscriber replaying them |
| OpenWindow.OpenWindowStored | crates/cluster-engine/src/aggregator.rs:220-248 | then the table agrees with the aggregator on every bucket not touched since the last partial snapshot |
| OpenWindow.OpenBucketExact | crates/cluster-engine/src/aggregator.rs:202-209 | under any loss, a stored bucket of the open window is right exactly when the last of its rows to arrive was taken when the bucket stood as it does |
| OpenWindow.OpenBucketStored | crates/cluster-engine/src/aggregator.rs:202-209 | a bucket that is not pending is stored right if its row of the last partial snapshot that carried it arrived |
| RangeQuery.HasNewest | crates/cluster-api/src/cluster_history.rs:382 | a newest row exists whenever some row of the window has a close |
| DirectRead.SurvivingRow | crates/cluster-engine/src/aggregator.rs:138-155 | any surviving row, however old, has the same open, no higher high and no lower low than the last delivered frame |
| DirectRead.OpenHighLowRead | crates/cluster-api/src/cluster_history.rs:376-388 | open, high and low of a window with rows of mixed age are those of the last delivered frame, whatever was lost |
| DirectRead.NewestMeansTied | crates/cluster-api/src/cluster_history.rs:382 | the rows the close may be taken from are exactly those inserted no earlier than the last delivered frame's |
| DirectRead.CloseReadExact | crates/cluster-api/src/cluster_history.rs:382 | the close is that of the last delivered frame, whichever row is picked, exactly when the rows tied on the latest insert time agree |
| DirectRead.OpenWindowRead | crates/cluster-api/src/cluster_history.rs:358-388 | then the whole OHLC read is that of the last delivered frame |
| DirectRead.StrictIsEnough | crates/cluster-engine/src/task.rs:44 | a later insert time of the last delivered frame is enough for that |
| FailingRuns.TiedInsertTimesLoseTheClose | crates/cluster-api/src/cluster_history.rs:382 | two partial snapshots of a one-minute window taken by one insert: the newest row may carry the older close |
| FailingRuns.BackwardClockLosesTheClosing | crates/cluster-engine/src/task.rs:38-43 | a run in which a closing snapshot inserted last, with the clock set back, leaves an old row in place |
| FailingRuns.NextDeltaLeavesTheHole | crates/cluster-engine/src/aggregator.rs:208-209 | a lost partial snapshot that the next one, delivered, does not repair |
| Rollup.SumOfCells | crates/cluster-api/src/cluster_history.rs:417-422 | saturating per sub-window and once more after summing is saturating the whole |
| Rollup.RolledSumIsLive | crates/cluster-api/src/cluster_history.rs:414-425 | a rolled sum, cut at the column's width, is the live value; they are equal exactly when the sum fits |
| Rollup.RolledPricesAreLive | crates/cluster-api/src/cluster_history.rs:414-425 | the rollup reports a price exactly when the live window has it |
| Rollup.RolledOhlcIsLive | crates/cluster-api/src/cluster_history.rs:426-444 | first sub-window open, last sub-window close, highest and lowest are the live window's OHLC |
| Rollup.StoredSliceComplete | crates/cluster-ingest/src/binance_supervisor.rs:643-652 | if the closing frames of the sub-windows arrived under a clock that never goes back, the queried slice holds exactly their final states |
| Rollup.RollupMatchesLiveAggregator | crates/cluster-api/src/cluster_history.rs:331-343 | for every run, every loss that spares the closing snapshots and every covering range, the query returns the closing frame of a live aggregator of the long timeframe |
| RangeEdges.RangeMeaning | crates/cluster-api/src/cluster_history.rs:351-352 | a query sees exactly the rows of the windows that start in its half-open range |
| RangeEdges.RollupOfAnyRange | crates/cluster-api/src/cluster_history.rs:351-352 | for every range, also one that cuts a rolled window: the query returns the closing frame of a live aggregator fed just the accepted trades of the short windows in the range |
| RangeEdges.LegacyRowsIgnored | crates/cluster-api/src/cluster_history.rs:377-380 | rows without candles change neither open, high and low of their window nor which rows its close may come from |
| RangeEdges.WindowOpenHigh | crates/cluster-api/src/cluster_history.rs:377-379 | open and high of a window are the greatest positive ones of its rows |
| RangeEdges.RolledOpenMeaning | crates/cluster-api/src/cluster_history.rs:427 | the rolled open is that of the first short window that has one |
| RangeEdges.RolledCloseMeaning | crates/cluster-api/src/cluster_history.rs:428 | the rolled close is that of the last short window that has one |
| RangeEdges.RolledLowMeaning | crates/cluster-api/src/cluster_history.rs:430 | the rolled low is the least positive low of any row, zeros not counting |
| LiveRollup.InProgressRollup | crates/cluster-api/src/cluster_history.rs:391-447 | at any moment of any run the rolled candle is that of all trades of the closed minutes followed by those of the open minute up to its last delivered frame |
| LiveRollup.InProgressBucket | crates/cluster-api/src/cluster_history.rs:391-447 | if the open minute's stored bucket is right, each rolled sum of the current candle, cut at the column's width, is that of all trades accepted so far, and a price is reported exactly when it has one |
| RawStream.RollupOfRawStream | crates/cluster-api/src/cluster_history.rs:331-343 | both timeframes fed one raw stream: the rollup is the long aggregator's closing frame if no trade of the window is late for the short one alone, and only then while the counters cannot saturate |
| RawStream.SameTrades | crates/cluster-engine/src/aggregator.rs:121-124 | the rollup's trades are the long aggregator's exactly when none was dropped by the short one alone, and never more |
| RawStream.LateForTheMinuteOnly | crates/cluster-engine/src/aggregator.rs:121-124 | a trade late for the one-minute timeframe and on time for the five-minute one |
| RangeResponse.PushRow | crates/cluster-api/src/cluster_history.rs:258-296 | one row adds one bar, and a candle exactly when it begins a window; scales come from the first row |
| RangeResponse.BuildResponse | crates/cluster-api/src/cluster_history.rs:237-309 | the response holds the usable rows up to the ceiling, one candle per window start |
| RangeResponse.CandleFound | crates/cluster-api/src/cluster_history.rs:270-289 | if the rows of a window agree, the one candle found for a bar has the bar's own row's last four cells, in the order open, close, high, low |
| RangeResponse.FirstRowsCandle | crates/cluster-api/src/cluster_history.rs:270-289 | every bar's window occurs exactly once among the windows, with the last four cells of the window's first row, zeros for what it lacks |
| RangeResponse.EveryLineIsABar | crates/cluster-api/src/cluster_history.rs:291-308 | every usable line is the bar of its rank, cell by cell, up to 500000, and there are no others |
| RangeResponse.FirstLineScales | crates/cluster-api/src/cluster_history.rs:258-267 | the scales are those of the first usable line, cut at 255 |
| Protobuf.VarintRoundTrip | crates/exchange-mexc/src/pb.rs:167-179 | reading back a written varint returns every 64-bit value and its length |
| Protobuf.FieldsRoundTrip | crates/exchange-mexc/src/pb.rs:180-196 | parsing written fields returns them |
| Protobuf.FieldsConcat | crates/exchange-mexc/src/pb.rs:100-107 | parsing concatenated messages concatenates their fields |
| ProtobufReader.OrGroup | crates/exchange-mexc/src/pb.rs:31 | or-ing a shifted group into a 64-bit word is adding it, high bits lost as in the code |
| ProtobufReader.Pb.ReadVarint | crates/exchange-mexc/src/pb.rs:25-40 | the loop reads what the reference says, at most ten bytes, and stays inside the buffer |
| ProtobufReader.Pb.ReadTag | crates/exchange-mexc/src/pb.rs:42-50 | field number and wire type of the key; field 0 is refused |
| ProtobufReader.Pb.ReadBytes | crates/exchange-mexc/src/pb.rs:52-58 | a length-delimited slice lies inside the buffer, or the read fails |
| ProtobufReader.Pb.Skip | crates/exchange-mexc/src/pb.rs:64-87 | skipping advances past exactly one value of wire type 0, 1, 2 or 5 and refuses the others |
| MexcDecoder.DecodeWrapper | crates/exchange-mexc/src/pb.rs:96-112 | on arbitrary bytes the loop terminates and yields the last channel and body of the parsed fields |
| MexcDecoder.DecodeDeals | crates/exchange-mexc/src/pb.rs:124-139 | on arbitrary bytes: the deals of the parsed fields, malformed ones left out |
| MexcDecoder.DecodeDeal | crates/exchange-mexc/src/pb.rs:141-161 | on arbitrary bytes: the last value of each known field, none without a price |
| MexcDecoder.SignExtension | crates/exchange-mexc/src/pb.rs:152-153 | negative int32 and int64 values survive sign extension to ten bytes |
| MexcDecoder.DealRoundTrip | crates/exchange-mexc/src/pb.rs:141-161 | decoding an encoded deal returns it, or nothing if it has no price |
| MexcDecoder.DealsRoundTrip | crates/exchange-mexc/src/pb.rs:124-139 | decoding encoded deals returns exactly those with a price, in order |
| MexcDecoder.WrapperRoundTrip | crates/exchange-mexc/src/pb.rs:96-112 | decoding an envelope returns its channel and body, for every body field 301 to 399 |
| MexcDecoder.EnvelopeRoundTrip | crates/exchange-mexc/src/pb.rs:96-161 | every channel and list of priced deals comes back through both decoders |
| MexcDecoder.UnknownFieldsIgnored | crates/exchange-mexc/src/pb.rs:64-87 | well-formed fields a decoder does not know may stand anywhere between fields |
| MexcDecoder.WrapperIgnoresUnknown | crates/exchange-mexc/src/pb.rs:102-106 | so for the envelope, exactly outside channel and body fields |
| MexcDecoder.DealIgnoresUnknown | crates/exchange-mexc/src/pb.rs:149-155 | so for a deal, including known numbers with another wire type |
| MexcDecoder.DealsIgnoreUnknown | crates/exchange-mexc/src/pb.rs:129-136 | so for the list of deals |
| MexcWire.VarintMeaning | crates/exchange-mexc/src/pb.rs:25-40 | for all bytes: a number is read exactly if one of the first ten has no continuation bit, and is the seven-bit groups up to there cut to 64 bits |
| MexcWire.FieldAccepted | crates/exchange-mexc/src/pb.rs:42-87 | a field is read exactly if its number, cut to 32 bits, is not 0 and a value of wire type 0, 1, 2 or 5 is complete |
| MexcWire.MalformedRefused | crates/exchange-mexc/src/pb.rs:96-161 | a message that does not split into fields is refused whole |
| MexcWire.DealAccepted | crates/exchange-mexc/src/pb.rs:141-161 | an encoded deal is decoded exactly if both texts are valid and it has a price |
| MexcWire.WrapperAccepted | crates/exchange-mexc/src/pb.rs:96-112 | an encoded envelope is decoded exactly if its channel is valid and not empty |
| MexcWire.LastDealCounts | crates/exchange-mexc/src/pb.rs:149-155 | of repeated fields of a deal the last ones count |
| MexcWire.LastWrapperCounts | crates/exchange-mexc/src/pb.rs:102-106 | so do those of an envelope, in whichever body fields |
| MexcWire.BadEntriesLeftOut | crates/exchange-mexc/src/pb.rs:124-139 | of a list with any bytes as entries, the ones that are deals remain, in order |
| OkxScale.ParseScaled | crates/exchange-okx/src/scale.rs:30-83 | succeeds exactly on digits with an optional fraction, at scale at most 18 and with the scaled floor in an i64, and returns that floor |
| OkxScale.TrimStrips | crates/exchange-okx/src/scale.rs:31 | white space around a number is taken off, and nothing else |
| OkxScale.CountIsSignificant | crates/exchange-okx/src/scale.rs:17-27 | the count is the number of decimals without trailing zeros, at most 255 |
| OkxScale.CountIsLeastExactScale | crates/exchange-okx/src/scale.rs:17-27 | a scale loses nothing exactly when it is at least the count |
| OkxScale.MultiplyExact | crates/exchange-okx/src/scale.rs:111-132 | the product string denotes exactly the product if and only if mantissas and product fit an i128 or the product is 0, and is then canonical |
| OkxScale.WideProductIsWrong | crates/exchange-okx/src/scale.rs:118 | ten to the 20th times itself wraps to something else |
| OkxScale.GcdLoop | crates/exchange-okx/src/scale.rs:148-157 | the loop computes the gcd of the absolute values, also for zeros, and of the least i64 up to its sign |
| OkxScale.GcdDividesBoth | crates/exchange-okx/src/scale.rs:148-157 | the gcd divides both arguments and is positive unless both are 0 |
| OkxScale.GcdIsGreatest | crates/exchange-okx/src/scale.rs:148-157 | every common divisor divides it |
| OkxScale.FractionOfDecimal | crates/exchange-okx/src/scale.rs:136-146 | the fraction equals the decimal's value |
| OkxScale.FractionReduced | crates/exchange-okx/src/scale.rs:136-146 | the fraction is in lowest terms |
| Common.WrappedByTurns | crates/exchange-okx/src/okx_trade.rs:93 | a wrapped product differs from the exact one by whole turns of the integer type |
| OkxContracts.QuantityBounds | crates/exchange-okx/src/okx_trade.rs:92-93 | a size converts exactly when its scaled floor fits; the quantity never exceeds the exact base amount, and misses it by less than 1 + n/d if and only if the product fits an i64 |
| OkxContracts.StepIsScaledProduct | crates/exchange-okx/src/instruments_info.rs:185-208 | the step is exactly lot times multiplier at the quantity scale if and only if their product fits an i128 |
| OkxContracts.WholeLotsAreWholeSteps | crates/exchange-okx/src/okx_trade.rs:92-93 | m lots convert to m steps exactly when the size has no more significant decimals than the scale, and never to more |
| OkxContracts.SwapTradeOfWholeLots | crates/exchange-okx/src/instruments_info.rs:185-221 | from the instrument's strings to a trade's quantity: exact if and only if the decimals fit the scale and the product an i64 |
| OkxContracts.SpotSizesExact | crates/exchange-okx/src/instruments_info.rs:196-208 | tick and spot lot are scaled without loss, and a spot trade is its size at that scale |
| OkxListing.SpotListed | crates/exchange-okx/src/instruments_info.rs:180-213 | a spot instrument with decimal sizes is listed exactly if tick and lot are positive and become integers within an i64 at some power of ten up to the 18th; scales are their significant decimals |
| OkxListing.SwapListed | crates/exchange-okx/src/instruments_info.rs:180-221 | a swap likewise, by tick and the product of lot and multiplier; its step is the scaled product, its fraction the multiplier |
| OkxListing.OthersSkipped | crates/exchange-okx/src/instruments_info.rs:196-209 | an instrument whose tick, or spot lot, is no decimal is skipped |
| OkxListing.BadSizeRefused | crates/exchange-okx/src/okx_trade.rs:93 | a trade whose size is no decimal is refused |
| OkxListing.UnreadableLotCountsAsOne | crates/exchange-okx/src/scale.rs:116-117 | a swap's lot that is no number counts as 1, and the swap is listed |
| OkxListing.HugeMultiplierCountsAsOne | crates/exchange-okx/src/scale.rs:143 | a multiplier whose digits leave an i64 counts as 1 over its power of ten |
| OkxContracts.FractionalContractsVanish | crates/exchange-okx/src/instruments_info.rs:185-221 | from strings to quantity: one lot of 0.01 contracts of 1000 units is floored to nothing |
| OkxContracts.HugeTradeWraps | crates/exchange-okx/src/okx_trade.rs:93 | ten to the 16th contracts of 1000 units, whole lots without decimals, come out negative |
| Wal.WalWriter.Append | crates/wal/src/writer.rs:39-60 | appends exactly one frame, or refuses an oversized payload and changes nothing |
| Wal.WalReader.Read | crates/wal/src/reader.rs:22-66 | reads what the bytes at the file position begin with, also after a failed read; only an intact frame moves the offset |
| Wal.LogGrows | crates/wal/src/writer.rs:39-60 | the file of a writer that appended a list of payloads is their frames one after another |
| Wal.Recover | crates/wal/src/reader.rs:8-14 | reading to the first frame that is not intact returns all before it and where they end |
| Wal.TornFrame | crates/wal/src/reader.rs:41-53 | a frame cut short reads as end of file or truncated, never as anything else |
| Wal.CrashReplay | crates/wal/src/reader.rs:22-66 | for every byte prefix of a log, replay returns exactly the payloads whose frames end inside it, and stops at their length |
| Wal.StopMeaning | crates/wal/src/reader.rs:24-53 | replay ends with end of file if less than a header is left over, else with the torn frame's length and what is left of it |
| Wal.RecoversAllThatFits | crates/wal/src/reader.rs:22-66 | one more frame would not have fitted |
| Wal.FrameLayout | crates/wal/src/lib.rs:30-34 | a frame is the length and the checksum, four bytes each, lowest first, then the payload |
| Wal.OnlyIntactFrames | crates/wal/src/reader.rs:22-66 | for all bytes: a payload is returned exactly if its own intact frame stands there |
| Wal.ExcessiveLength | crates/wal/src/reader.rs:33-39 | a header is reported as too large exactly if it announces more than 64 MiB |
| Wal.ReplayOfAnyFile | crates/wal/src/reader.rs:22-66 | for any file, however damaged: replay returns the frames it begins with, all of them, and stops where no frame starts |
| Wal.TruncateAndContinue | crates/wal/src/reader.rs:8-10 | truncating at the reported offset and appending more replays the intact old frames, then the new ones, and ends cleanly |
| ChWriter.FlushKeeps | crates/clickhouse-sink/src/lib.rs:249-271 | an insert of the whole batch, successful or not, keeps the received rows split into settled and held, the counters, the cap and the pacing |
| ChWriter.RunWriter | crates/clickhouse-sink/src/lib.rs:190-247 | the loop's counters, requests and leftover rows are those of the modelled run |
| ChWriter.RowsConserved | crates/clickhouse-sink/src/lib.rs:198-216 | over every run the received rows are, in order, those dropped or inserted and then those held; counters are exact; the batch respects its cap |
| ChWriter.ClosingAccountsForAll | crates/clickhouse-sink/src/lib.rs:229-234 | at close, inserted plus dropped is received exactly when the last insert succeeds or has nothing to do |
| ChWriter.FailedClosingLosesRow | crates/clickhouse-sink/src/lib.rs:229-234 | one row received and a failing closing insert: the row is in neither counter |
| ChWriter.BackoffDoubles | crates/clickhouse-sink/src/lib.rs:264-269 | after k > 0 failures in a row the delay is min(flush interval times 2^k, 30 s), after none the flush interval; for intervals up to 30 s one formula covers both |
| ChWriter.BackoffGrows | crates/clickhouse-sink/src/lib.rs:267 | delays never shrink with failures exactly when the flush interval is at most 30 s |
| ChWriter.AttemptsSpaced | crates/clickhouse-sink/src/lib.rs:198-204 | between consecutive attempts lies at least the delay of the failure streak, except at close |
| ChWriter.TickInserts | crates/clickhouse-sink/src/lib.rs:238-242 | over every run a tick inserts all rows held, exactly if there are some and the last attempt's delay has passed |
| ChWriter.ReceiveInserts | crates/clickhouse-sink/src/lib.rs:206-227 | a receive gives up the excess over the buffer, oldest first, and inserts the rest exactly if they fill a batch and the delay has passed |
| ChWriter.CloseInserts | crates/clickhouse-sink/src/lib.rs:229-234 | closing inserts all rows held, whenever it comes |
| ChWriter.NothingAfterClose | crates/clickhouse-sink/src/lib.rs:229-234 | nothing happens after that |
| ChWriter.TickSettlesAll | crates/clickhouse-sink/src/lib.rs:238-242 | after a tick in time whose insert succeeds everything received is settled |
| ChWriter.DropsSingly | crates/clickhouse-sink/src/lib.rs:211-216 | rows are given up one at a time |
| ChWriter.NothingGivenUpWithinCap | crates/clickhouse-sink/src/lib.rs:211-216 | no row is dropped while all received rows fit the buffer |
| Retention.Effective | crates/cluster-ingest/src/config.rs:303-325 | the map holds, for each slice, the first rule for this table, else the first rule for all tables |
| Retention.OverrideClauses | crates/cluster-ingest/src/config.rs:327-340 | one DELETE per governed slice with positive days and no other, in any order of the map |
| Retention.TtlClauseFor | crates/cluster-ingest/src/config.rs:294-371 | told from the list of rules: the first rule for the slice and this table decides, without one the first for all tables, without either the defaults; deletions, moves and their order follow, and there is no TTL exactly if nothing may expire |
| Retention.EveryRuleCounts | crates/cluster-ingest/src/config.rs:315-319 | in a validated list every rule for this table decides for its slice, and every rule for all tables does where there is none for this one |
| Retention.RuleExpires | crates/cluster-ingest/src/config.rs:333-338 | where a rule decides, a row goes exactly when its positive number of days has passed |
| Retention.ExpiryMeaning | crates/cluster-ingest/src/config.rs:333-338 | a row is deleted exactly when its slice's days are positive and reached |
| Retention.Validate | crates/cluster-ingest/src/config.rs:375-417 | accepts exactly the rule lists without a problem, else reports the first problem of the first bad rule |
| Retention.ValidMeaning | crates/cluster-ingest/src/config.rs:375-417 | valid are exactly the lists without two rules for one slice and table, exchanges in upper case, markets spot or perp |
| Retention.RuleOrderIrrelevant | crates/cluster-ingest/src/config.rs:303-325 | reordering the rules of a validated configuration leaves it valid and changes neither governing rules nor retention nor what may be compiled |
| TradeGaps.GapTracker.DetectGap | crates/cluster-ingest/src/binance_session.rs:198-233 | marks stay each symbol's highest id, and the counters the totals over symbols, the missing one saturating |
| TradeGaps.Track | crates/cluster-ingest/src/binance_session.rs:198-233 | so for every stream, with symbols interleaved, duplicates and reordering |
| TradeGaps.TopIsMaximum | crates/cluster-ingest/src/binance_session.rs:230-232 | the mark is the maximum of the symbol's ids |
| TradeGaps.MissingAreHoles | crates/cluster-ingest/src/binance_session.rs:212-215 | the missing count is the number of ids in range that never raised the mark |
| TradeGaps.MissingIsAbsent | crates/cluster-ingest/src/binance_session.rs:190-193 | it is the number of absent ids exactly when no id comes late into a gap |
| TradeGaps.LateIdStaysMissing | crates/cluster-ingest/src/binance_session.rs:190-193 | ids 1, 3, 2: one counted as missing, none absent |
| TradeGaps.IncreasingMissing | crates/cluster-ingest/src/binance_session.rs:187-190 | for an increasing stream it is the number of absent ids |
| Supervisor.WantedAreAdmitted | crates/cluster-ingest/src/binance_supervisor.rs:429-472 | the wanted symbols are listed, of this venue, admitted by quote, allow and deny lists: the first of the ranking, as many as configured |
| Supervisor.OnlyAdmittedServed | crates/cluster-ingest/src/binance_supervisor.rs:429-472 | after any history only listed symbols of this venue, of an included quote, not denied, and allowed where there is an allow list, are served |
| Supervisor.EveryAdmittedServed | crates/cluster-ingest/src/binance_supervisor.rs:429-472 | without a limit every such symbol of a successful cycle is |
| Supervisor.BinanceSupervisor.ReconcileOnce | crates/cluster-ingest/src/binance_supervisor.rs:209-287 | routes always are the live handles, published once per change of the symbol set; a failed cycle changes nothing |
| Supervisor.ChangedWhen | crates/cluster-ingest/src/binance_supervisor.rs:276-284 | something was removed or added exactly when the set of symbols differs |
| Supervisor.CycleFacts | crates/cluster-ingest/src/binance_supervisor.rs:225-256 | after a cycle exactly the wanted symbols are served; staying ones keep spec and channel, new ones get a fresh channel |
| Supervisor.ServesLastWanted | crates/cluster-ingest/src/binance_supervisor.rs:225-256 | the symbols served are those of the last successful cycle |
| Supervisor.ChannelsDistinct | crates/cluster-ingest/src/binance_supervisor.rs:246-254 | no two symbols share a channel |
| Supervisor.KeptSince | crates/cluster-ingest/src/binance_supervisor.rs:270-275 | over any history a symbol keeps the spec and channel of the cycle since which it has been served without a break |

## Left out

- Order inside frames: buckets of a frame come in hash-map order in the code and form a map here.
- Overflow of the `u64` counters and of the millisecond-to-nanosecond products in `Aggregator::new`: integers are unbounded there.
- One aggregator per symbol and timeframe: a symbol delisted and listed again within a window, and writers in two regions, are not modelled.
- The per-timeframe channels of the trade fan-out may drop trades when full; results that compare timeframes assume the same stream.
- Delivery of the final flush to ClickHouse at shutdown: the fan-out tasks are aborted first, so nothing is promised.
- SQL text, quoting, JSON, HTTP, authentication, WebSocket sessions, gRPC and the bus itself: loss and order are inputs.
- Scales (`ps`, `qs`) in the query model, and 64-bit overflow of SQL `sum`.
- RangeResponse.CandleFound: takes the order of the rows and their agreement within a window as given by the query's `ORDER BY` and join; RangeResponse.FirstRowsCandle needs the order alone.
- OkxListing.SwapListed: requires `Fits`; decimal sizes with white space around them are left out of both listing results.
- UTF-8 validity and CRC-32 are parameters; upper and lower case conversion too.
- OkxScale.ParseScaled: the wording of parse errors; lengths are in characters, the same as bytes for the ASCII digits that parse.
- OkxScale.MultiplyExact: more than 38 decimals in all, where the unchecked power of ten leaves an `i128`.
- OkxScale.CtValFraction: more than 18 decimals, where the power of ten leaves an `i64`, and the sign of the fraction of i64::MIN.
- OkxContracts.WholeLotsAreWholeSteps: takes lot times multiplier to fit an `i128` and the multiplier an `i64` (`Fits`); beyond that the step is not the lot to begin with (`OkxContracts.StepIsScaledProduct`).
- OkxContracts.SwapTradeOfWholeLots: requires `Fits` likewise; products wrap as in a release build, a debug build stops instead.
- OkxContracts.StepIsScaledProduct: products wrap likewise; at most 38 decimals in all.
- RawStream.RollupOfRawStream: "only then" for windows of at most u32::MAX trades; with more, a saturated counter may hide a missing trade.
- I/O errors of the log other than end of file, `flush_sync`, and a reader's `reset`.
- Duration arithmetic overflow in the writer's backoff, and its rate-limited warnings.
- TradeGaps.GapTracker.DetectGap: the id u64::MAX, at which adding one wraps.
- Supervisor.BinanceSupervisor.ReconcileOnce: the spawned tasks are one channel number, the published list is a set of handles, and ranking is any permutation.
- Near-identical copies of the decimal helpers for the other exchanges, symbol renaming, table names and wire ids: they would add easy members only.
