# Binance Spot capture and verification, modelled and proved in Dafny

The repository captures Binance Spot market data on redundant lanes and re-proves the captured
evidence offline. This project models the logic under its file handling, JSON and command-line
code, and proves what its local checks are meant to give over every input and every run:

- **Latency histogram** (`Powers`, `HistogramLayout`, `Histogram`): logarithmic bucket arithmetic on
  63-bit values, recording, percentiles.
- **Decimals and the local order book** (`FixedDecimals`, `Json`, `BookSides`, `BookText`,
  `OrderBook`, `BookMeaning`): exact decimals with a string cache, sorted price indexes beside
  dictionaries, the streaming state serializer, the update-ID rules and the state machine of the
  book, and what a payload does to each price.
- **Continuity and handover** (`DepthContinuity`, `SequenceHistory`, `Handover`, `HandoverMeaning`,
  `TradeHandover`, `TradeMeaning`, `CanonicalSelection`, `SelectionVerdict`): the record-by-record
  sequence checker, the replay of overlapping windows, the splice of two connections at a boundary.
- **Hash-chained logs** (`ChainLog`, `RawLog`, `SegmentManifest`, `SegmentReading`, `Ownership`,
  `CanonicalOutput`, `LedgerMeaning`): one generic framing with tolerant scanning, the formats built
  on it and the lists of records each of them accepts.
- **Campaign journal** (`Campaign`, `CampaignRuns`, `CampaignShutdowns`, `CampaignJournal`,
  `CampaignHistory`, `CampaignVerdict`, `CampaignExample`, `Coverage`): the generation pipeline,
  shutdown accounting, the journal file, the verdict told from the records, and interval sweeps.
- **Arbitration audit** (`ArbitrationAudit`, `ArbitrationRuns`, `ArbitrationHistory`,
  `ArbitrationChain`, `ArbitrationVerdict`, `ArbitrationCanonical`, `CanonicalMeaning`,
  `ArbitrationTrades`, `OfflineTrades`, `ArbitrationFloor`, `ArbitrationOracle`, `ArbitrationDepth`,
  with example journals written by `ArbitrationWriter`): the online audit automaton over chained
  segments and the offline reconstructions that must agree with it.

Each automaton is proved twice over: what its runs keep, and, in the modules named History, Meaning
and Verdict, that it accepts exactly the inputs whose records each fit the records before them,
without naming the state that the code carries.

`Wrappers` and `Streams` hold the types they share.

`dafny verify dfyconfig.toml` checks everything.

## Conventions

Digests, JSON decoding and record encodings are function-valued parameters. Collision-freeness is a
hypothesis only of the lemmas that need it, and only on the bodies or states compared. Exceptions
are `Result`/`Option` values; a method whose source raises states the outcome and, where the source
leaves the object usable, that nothing changed. Clocks and write or sync failures are parameters.
No proof relies on automatic induction: every inductive lemma calls itself.
Where the source computes with floating point (logarithms, percentiles) the model uses the exact
integer logarithm and real numbers.

## Where the code falls short of the plain property

- A STARTED record without a trade floor lets a journal set pass the closed online audit and fail the
  offline pass: the offline floor becomes the first RESUMED floor.
  `ArbitrationFloor.NullFloorDisagrees` gives such a set and `ArbitrationFloor.FloorRejectsExactly`
  says exactly when the pass refuses one for its floor.
- Two DEPTH_REBOOTSTRAP records with no frame between them stop the matching of rebootstraps, so
  later ones go unchecked; `ArbitrationDepth.RepeatedRebootHidesLaterOnes` gives a set that passes
  the closed audit and the strict depth check, and `ArbitrationDepth.DepthCheckMeans` says exactly
  which rebootstraps are checked.
- An accepted set need not be one hash chain: the file header says that later segments open with
  RESUMED, but the audit does not ask for it. `ArbitrationChain.AcceptedSetsNeedNotBeOneChain` gives
  two different sets with the same last record digest, whatever the digest function;
  `ArbitrationChain.LinkedExactly` says which segments are linked,
  `ArbitrationChain.LastDigestDeterminesSet` proves the chain where RESUMED opens them all, and
  `ArbitrationChain.UnlinkedSegmentHidesChanges` that it fails wherever RESUMED does not.
- A sealed segment that was cut is read without an error, because the reading is not compared with
  the seal (`SegmentReading.CutSegmentIsReadShort`); `SegmentReading.ReadingIsWholeExactly` says when
  a reading is whole.
- The second reading of the journals needs two fields that the audit does not check
  (`ArbitrationCanonical.CollectsExactly`); `ArbitrationCanonical.AuditedButNotCollected` is a set
  that passes the closed audit and cannot be collected.
- `str(parse(t)) == t` fails exactly for a minus sign followed by zeros
  (`FixedDecimals.FormatOfParse`), for example for `-0` (`FixedDecimals.NegativeZeroIsNotKept`).
- Every frame is written with the recorder state PENDING, so reading back gives the frame itself
  exactly when it was pending (`RawLog.RawLogWriter.ReadsBack`); `RawLog.AppendNotPending` appends one
  that is not.
- `min()` of the histogram reports 0 when slot 0 is occupied, which means that some sample shares a
  slot with 0 and not that 0 was recorded; a zero-count call moves it too
  (`Histogram.HdrHistogram.Minimum`). `Histogram.MinimumOfOne` records only a 1 and gets 0.

## Model

| member | source | states |
|---|---|---|
| `HistogramLayout.Layout.IndexOfValueAtIndex` | cpp/bench/hdr_histogram.hpp:231-259 | for every slot index, `counts_index_for(value_at_index(i)) == i`, and that value is its own lowest equivalent |
| `HistogramLayout.Layout.ValueAtIndexOfValue` | cpp/bench/hdr_histogram.hpp:192-196 | `value_at_index(counts_index_for(v))` is the lowest equivalent value of `v` |
| `HistogramLayout.Layout.SlotsTile` | cpp/bench/hdr_histogram.hpp:198-204 | slot 0 starts at 0 and each next slot starts exactly where the equivalent range of the previous one ends |
| `HistogramLayout.Layout.SlotHoldsRange` | cpp/bench/hdr_histogram.hpp:220-241 | a value has index `i` if and only if it lies from the start of slot `i` up to the start of slot `i + 1` |
| `HistogramLayout.Layout.IndexIsMonotone` | cpp/bench/hdr_histogram.hpp:237-241 | larger values never get smaller indexes |
| `HistogramLayout.Layout.IndexInRange` | cpp/bench/hdr_histogram.hpp:66-80 | every value up to the highest trackable one has an index inside the counts array |
| `HistogramLayout.Layout.NoOverflow` | cpp/bench/hdr_histogram.hpp:192-241 | no shift, mask or sum of the helpers leaves int64, and no index arithmetic leaves int32, for any 64-bit value, trackable or not, even when bucket counting stopped early |
| `HistogramLayout.Layout.SlotsFitTypes` | cpp/bench/hdr_histogram.hpp:66-80 | the array length fits int32 and every slot value fits int64 |
| `HistogramLayout.Layout.RelativePrecision` | cpp/bench/hdr_histogram.hpp:206-213 | the highest equivalent exceeds the value by at most 2^unit_magnitude - 1 or by less than value / 10^figures |
| `HistogramLayout.Layout.HighestIsMonotone` | cpp/bench/hdr_histogram.hpp:206-213 | highest equivalents are monotone |
| `Histogram.HdrHistogram.Create` | cpp/bench/hdr_histogram.hpp:35-80 | a configuration is accepted exactly under the constructor's conditions, and the new histogram is valid, empty and configured for the arguments |
| `Histogram.AcceptableMeans` | cpp/bench/hdr_histogram.hpp:35-65 | arguments are accepted if and only if the highest value is at least twice the lowest, there are at most five figures, and the unit and sub-bucket powers of two fit 62 bits together |
| `Histogram.HdrHistogram.Configure` | cpp/bench/hdr_histogram.hpp:35-80 | an accepted configuration has the largest unit up to the lowest value, the smallest sub-bucket count with the asked precision and the fewest buckets that cover the range, and is valid |
| `Histogram.HdrHistogram.BucketsNeeded` | cpp/bench/hdr_histogram.hpp:261-274 | the number of buckets is the least that covers the value, and stays within 63 bits when the loop stops early |
| `Histogram.HdrHistogram.RecordValues` | cpp/bench/hdr_histogram.hpp:86-98 | accepts exactly the trackable values; counters, total and extremes move by the count, positive or negative; a non-negative count adds copies to the sample, a negative one takes recorded copies back; refusals change nothing |
| `Histogram.HdrHistogram.Record` | cpp/bench/hdr_histogram.hpp:84-84 | records exactly one copy |
| `Histogram.HdrHistogram.ValueAtPercentile` | cpp/bench/hdr_histogram.hpp:100-115 | for every sorted arrangement of the sample, the result is the highest equivalent of its k-th smallest element, where k is the integer nearest to p/100 * total, rounded up at the half, never below 1 and never above the total; 0 on an empty histogram |
| `Histogram.RankIsNearest` | cpp/bench/hdr_histogram.hpp:100-104 | a rank is the one taken if and only if it is the nearest integer to p/100 * total: within a half below and less than a half above, 1 below one half, the total above 100 |
| `Histogram.PercentileIsUnique` | cpp/bench/hdr_histogram.hpp:100-115 | that description has exactly one value, the one computed |
| `Histogram.SampleCanBeSorted` | cpp/bench/hdr_histogram.hpp:100-115 | every sample has a sorted arrangement, so the statements about all of them say something |
| `Histogram.PercentileIsMonotone` | cpp/bench/hdr_histogram.hpp:100-115 | percentiles are monotone in p |
| `Histogram.PercentilePrecision` | cpp/bench/hdr_histogram.hpp:100-115 | a percentile exceeds the exact order statistic by at most the slot error |
| `Histogram.RankSampleSlot` | cpp/bench/hdr_histogram.hpp:100-115 | the slot where the running count first reaches k is the slot of the k-th smallest sample |
| `Histogram.CrossingSlot` | cpp/bench/hdr_histogram.hpp:100-115 | at least k samples lie at or below a slot if and only if the k-th smallest does |
| `Histogram.AtMostOfPermutation` | cpp/bench/hdr_histogram.hpp:86-98 | slot counts depend on the multiset of samples only, not on their order |
| `Histogram.HdrHistogram.Maximum` | cpp/bench/hdr_histogram.hpp:118-123 | the highest equivalent of the largest recorded value, 0 when nothing was recorded |
| `Histogram.HdrHistogram.Minimum` | cpp/bench/hdr_histogram.hpp:125-131 | after any history: 0 when some sample shares slot 0, else the lowest equivalent of the least non-zero value of any call, zero-count calls included, with INT64_MAX unrounded; INT64_MAX when there is none |
| `Histogram.MinimumOfOne` | cpp/bench/hdr_histogram.hpp:125-131 | with lowest value 2 and a single recorded 1, `min()` is 0 |
| `Histogram.HdrHistogram.CountAtValue` | cpp/bench/hdr_histogram.hpp:134-140 | the number of samples that share the slot of the value |
| `Histogram.HdrHistogram.Reset` | cpp/bench/hdr_histogram.hpp:173-179 | the histogram is empty again with its configuration kept |
| `FixedDecimals.ParseOfFormat` | src/binance_lob/fixed_decimal.py:91-106 | `parse(str(x)) == x` for every coefficient and every scale from 0 to 18 |
| `FixedDecimals.FormatOfParse` | src/binance_lob/fixed_decimal.py:33-46 | `str(parse(t)) == t` if and only if `t` is not a minus sign followed only by zeros and a point |
| `FixedDecimals.ParseIsExact` | src/binance_lob/fixed_decimal.py:33-46 | a text parses if and only if it is an optional minus, digits without a leading zero and an optional fraction of at most the allowed length, and then to that number; the two refusals are told apart |
| `FixedDecimals.NegativeZeroIsNotKept` | src/binance_lob/fixed_decimal.py:33-46 | `-0` parses and does not print back |
| `FixedDecimals.FormatIsInjective` | src/binance_lob/fixed_decimal.py:91-106 | different decimals print differently |
| `FixedDecimals.LessIsNumeric` | src/binance_lob/fixed_decimal.py:70-89 | comparison after alignment is the order of the numbers denoted, and aligned equality is their equality |
| `FixedDecimals.Canonical` | src/binance_lob/fixed_decimal.py:62-68 | the canonical form has the same value, no trailing fractional zero and no larger scale |
| `FixedDecimals.ComputeCanonical` | src/binance_lob/fixed_decimal.py:62-68 | the trimming loop computes the canonical form |
| `FixedDecimals.CanonicalIsUnique` | src/binance_lob/fixed_decimal.py:62-68 | two canonical decimals are structurally equal if and only if they have the same value |
| `FixedDecimals.CanonicalDecidesEquality` | src/binance_lob/fixed_decimal.py:62-89 | canonical forms are equal if and only if neither decimal is less than the other |
| `FixedDecimals.Add` | src/binance_lob/fixed_decimal.py:79-81 | the result is canonical and denotes the exact sum |
| `FixedDecimals.Subtract` | src/binance_lob/fixed_decimal.py:83-85 | the result is canonical and denotes the exact difference |
| `FixedDecimals.RescaleIsExact` | src/binance_lob/fixed_decimal.py:48-60 | a target outside 0 to 18 is refused as such; inside, rescaling succeeds if and only if some coefficient at the target scale denotes the same value, and then returns it |
| `FixedDecimals.StringCache.Str` | src/binance_lob/fixed_decimal.py:91-106 | over any sequence of calls the cached text equals the uncached one, whatever the clear-on-cap rule dropped |
| `BookSides.ParseLevel` | src/binance_lob/book.py:59-71 | a parsed level has a canonical positive price and a canonical non-negative quantity |
| `BookSides.LoadSide` | src/binance_lob/book.py:144-155 | a loaded side is non-empty and holds canonical positive prices and quantities |
| `BookSides.BisectLeft` | src/binance_lob/book.py:192-208 | the insertion point splits the sorted prices into those below and those not below |
| `BookSides.BisectRight` | src/binance_lob/book.py:192-208 | the insertion point splits the sorted prices into those not above and those above |
| `BookSides.InsertKeepsIndex` | src/binance_lob/book.py:192-208 | inserting a new price at its place keeps the list the sorted key set |
| `BookSides.RemoveKeepsIndex` | src/binance_lob/book.py:192-208 | removing a price keeps the list the sorted key set |
| `BookSides.ApplySide` | src/binance_lob/book.py:192-208 | the dictionary becomes the fold of the updates, described price by price in `BookMeaning.UpdatesDecide`, and the price list stays its strictly sorted key set |
| `BookSides.SortedListIsUnique` | src/binance_lob/book.py:192-208 | a strictly sorted list is determined by its members |
| `BookMeaning.LevelMeans` | src/binance_lob/book.py:59-71 | a value is read as a level if and only if it is a pair of decimal texts of a positive price and a non-negative quantity, and then as their canonical decimals |
| `BookMeaning.LevelsMean` | src/binance_lob/book.py:174-189 | a level list is read if and only if every value denotes a level, in the same order |
| `BookMeaning.UpdatesDecide` | src/binance_lob/book.py:192-208 | price by price: the last update of a price decides, a zero quantity removes it and any other becomes its quantity; a price in no update keeps its presence and quantity |
| `BookMeaning.FollowsIsUnique` | src/binance_lob/book.py:192-208 | that description determines the side |
| `BookMeaning.UncrossedMeans` | src/binance_lob/book.py:210-219 | the invariant of the sides is numerical: both hold prices and every bid is a smaller number than every ask |
| `BookText.IndexIsSortedPrices` | src/binance_lob/book.py:221-259 | the maintained index is the list that sorting the keys gives |
| `BookText.JoinCut` | src/binance_lob/book.py:221-259 | a serialized level list determines the levels and what follows it |
| `BookText.SerializeIsInjective` | src/binance_lob/book.py:221-259 | the serialized state determines symbol, update ID and both sides |
| `OrderBook.ApplyKeepsBook` | src/binance_lob/book.py:157-189 | every outcome keeps the book invariant; applied updates strictly raise the update ID and leave the book LIVE and uncrossed; old or rejected payloads change nothing; a gap changes only the state |
| `OrderBook.LoadKeepsBook` | src/binance_lob/book.py:123-142 | a snapshot is loaded only into an EMPTY book and leaves it uncrossed; a malformed one or one with an empty side leaves it EMPTY; crossed non-empty sides leave it INVALID |
| `OrderBook.StuckStatesAbsorb` | src/binance_lob/book.py:157-189 | from GAP or INVALID every later payload is rejected and nothing changes |
| `BookMeaning.UpdateMeans` | src/binance_lob/book.py:157-175 | a payload is read as an update if and only if its fields e, s, U, u, b and a are those of one, and then with these numbers and lists |
| `BookMeaning.ApplyMeans` | src/binance_lob/book.py:157-208 | by U, u and the position of the book: old updates are skipped, a late start is a gap, unreadable levels are refused, and a bridging update moves the bids by b, the asks by a and the position to u, LIVE unless empty or crossed |
| `BookMeaning.OthersAreRefused` | src/binance_lob/book.py:157-175 | a payload that is no update of the symbol is refused and changes nothing |
| `BookMeaning.SnapshotMeans` | src/binance_lob/book.py:123-142 | a payload is read as a snapshot if and only if lastUpdateId, bids and asks are those of one |
| `BookMeaning.LoadMeans` | src/binance_lob/book.py:123-155 | a loaded book lists exactly the levels of the snapshot, bids as bids and asks as asks, at its update ID |
| `BookMeaning.SnapshotLoads` | src/binance_lob/book.py:123-155 | conversely a snapshot whose sides have readable, distinct levels that do not cross is loaded as these sides |
| `BookMeaning.LoadFailureMeans` | src/binance_lob/book.py:123-155 | which failed snapshots are broken invariants: a side without quantity or crossing sides; all others are refused values |
| `BookMeaning.MaterialExample` | src/binance_lob/book.py:221-259 | the exact digest text of a small book |
| `OrderBook.ReplayKeepsBook` | src/binance_lob/book.py:157-189 | the invariant holds after any list of payloads |
| `OrderBook.MaterialIsInjective` | src/binance_lob/book.py:221-259 | equal digest material means equal books up to the lifecycle state |
| `OrderBook.LocalOrderBook.constructor` | src/binance_lob/book.py:75-87 | a new book is EMPTY with both sides and indexes empty |
| `OrderBook.LocalOrderBook.CheckInvariants` | src/binance_lob/book.py:210-219 | succeeds if and only if both sides are non-empty and every bid is below every ask; otherwise the book is INVALID |
| `OrderBook.LocalOrderBook.Load` | src/binance_lob/book.py:123-142 | the object follows the snapshot function and its price lists stay the sorted key sets |
| `OrderBook.LocalOrderBook.Apply` | src/binance_lob/book.py:157-208 | the object follows the update function and its price lists stay the sorted key sets |
| `OrderBook.LocalOrderBook.StateMaterial` | src/binance_lob/book.py:221-259 | the streamed bytes are exactly those of sorting the sides and printing them, with the shared string cache |
| `OrderBook.LocalOrderBook.SortPrices` | src/binance_lob/book.py:123-142 | sorting the keys yields the strictly sorted key set |
| `OrderBook.BestPricesDecide` | src/binance_lob/book.py:210-219 | comparing the best prices decides whether any bid reaches any ask |
| `DepthContinuity.SequenceState.ValidateApplicationPayload` | src/binance_lob/segment_chain.py:599-677 | the checker accepts exactly the payloads that continue the stream and moves its marks as the specification says |
| `DepthContinuity.SequenceState.ObserveMarketMessage` | src/binance_lob/segment_chain.py:680-700 | a market message is accepted exactly when the stream has not been silent too long |
| `SequenceHistory.StreamIsAcceptedExactly` | src/binance_lob/segment_chain.py:599-700 | a stream is accepted if and only if each record may arrive after the earlier ones: clock order, identity and field types, no silence over 30 s in the active window, an update before the snapshot or over the next number, a trade above all earlier ones, shutdown notices within 64 bits |
| `SequenceHistory.TradesIncrease` | src/binance_lob/segment_chain.py:658-677 | the trade identifiers of an accepted stream strictly increase |
| `SequenceHistory.ReportMeans` | src/binance_lob/segment_chain.py:599-700 | the reported marks: where the stream first passed the snapshot, where it stands, the latest market reading and the number of notices |
| `DepthContinuity.OneUpdate` | src/binance_lob/segment_chain.py:628-657 | one accepted update meets the book in step: never a gap, stale only before the first applied one, rejected only for bad levels |
| `DepthContinuity.CheckersAgree` | src/binance_lob/segment_chain.py:628-657 | a stream accepted by the sequence checker replays through the book from the same snapshot with no gap and stale outcomes only as an initial run |
| `Handover.MaterializeDepthWindow` | src/binance_lob/raw_campaign.py:962-1007 | the replay loop computes the window specification with all its rejections |
| `Handover.RunConcat` | src/binance_lob/raw_campaign.py:962-1007 | replaying a concatenation is replaying the second part from the state of the first |
| `Handover.FutureDependsOnBook` | src/binance_lob/raw_campaign.py:962-1007 | once live, later observations depend on the book only |
| `Handover.ObservationPlace` | src/binance_lob/raw_campaign.py:962-1007 | every observation digest is the digest of the live book at its place in the window |
| `HandoverMeaning.WindowIsExact` | src/binance_lob/raw_campaign.py:962-1007 | a window is replayed if and only if each record is a notice, an applied update or an old one before any applied one; it ends at the book of all its records, with one observation per applied update: its frame, its U and u and the digest of the book right after it |
| `HandoverMeaning.DepthWindowIsExact` | src/binance_lob/raw_campaign.py:962-1007 | with the snapshot: observations are returned if and only if it loads, every record fits and some update is applied |
| `Handover.DeriveDepthEvidence` | src/binance_lob/raw_campaign.py:1077-1120 | the evidence is the last meeting of the two windows: equal final number and digest, the last such predecessor observation, and a next successor observation that bridges; refused if and only if they meet at the largest number or never meet |
| `Handover.HandoverIsTransparent` | src/binance_lob/raw_campaign.py:1077-1120 | equal digests under collision-freeness mean equal books, and the predecessor up to the boundary followed by the successor's later frames replays without a gap to exactly the successor's states and digests |
| `Handover.EvidenceIsASplice` | src/binance_lob/raw_campaign.py:1077-1120 | every such meeting is a splice point |
| `Handover.AcceptedWindowFailsOnlyOnLevels` | src/binance_lob/raw_campaign.py:980-1004 | on a stream the sequence checker accepted, the window replay can fail only with malformed levels in some record or an empty or crossed book, so its stale-after-live rejection is unreachable |
| `TradeHandover.MaterializeTradeWindow` | src/binance_lob/raw_campaign.py:1017-1075 | accepted windows are the trade run, non-empty and strictly increasing |
| `TradeHandover.TradeRunIncreases` | src/binance_lob/raw_campaign.py:1017-1075 | trade identifiers of a run strictly increase |
| `TradeMeaning.TradeMeans` | src/binance_lob/raw_campaign.py:1017-1060 | a payload is a canonical trade if and only if its fields e, s, t, T, E, M, m, p and q are those of it, price and quantity by their canonical positive texts |
| `TradeMeaning.TradeWindowIsExact` | src/binance_lob/raw_campaign.py:1017-1075 | a trade window is read if and only if every record but notices is a trade above all earlier ones, with one observation per trade: its frame, its identifier and the digest of its event |
| `TradeHandover.CommonEventIsShared` | src/binance_lob/raw_campaign.py:1123-1174 | a successor trade inside the predecessor's interval is a predecessor trade with the same digest |
| `TradeHandover.TradeSpliceIsExact` | src/binance_lob/raw_campaign.py:1123-1174 | the splice strictly increases and lists, from the predecessor's first identifier on, exactly the union of both windows |
| `TradeHandover.EachTradeOnce` | src/binance_lob/raw_campaign.py:1123-1174 | an identifier has one digest in a window |
| `TradeHandover.TradeEvidenceMeans` | src/binance_lob/raw_campaign.py:1123-1174 | evidence exists if and only if the successor reaches the predecessor's last trade, at least two trades are common and both windows list the same identifiers and digests over the common range; it names the two largest common trades in order and the number of common ones; each refusal is characterised |
| `ChainLog.UnpackOfPack` | src/binance_lob/raw_log.py:224-260 | the four-byte length decodes to the length encoded |
| `ChainLog.PackOfUnpack` | src/binance_lob/raw_log.py:305-373 | every four bytes are the encoding of what they decode to |
| `LedgerMeaning.RecordLayout` | src/binance_lob/raw_log.py:224-260 | a framed record is its length in four bytes, most significant first, the body and the digest |
| `LedgerMeaning.StopMeans` | src/binance_lob/raw_log.py:305-373 | why reading stops, by the bytes left: every reason if and only if its condition |
| `ChainLog.ScanIsSound` | src/binance_lob/raw_log.py:305-373 | what a tolerant scan consumes is the framing of strictly valid records, and it ends cleanly exactly at the end |
| `ChainLog.ScanIsLongest` | src/binance_lob/raw_log.py:305-373 | no strictly valid prefix is longer than the one the scan returns |
| `ChainLog.ScanOfFrames` | src/binance_lob/raw_log.py:305-373 | a valid log scans to its own records |
| `ChainLog.ScanOfCut` | src/binance_lob/raw_log.py:305-373 | cutting a valid log at any byte keeps exactly the whole records before the cut |
| `ChainLog.ScanLog` | src/binance_lob/raw_log.py:305-373 | the byte-cursor loop computes the scan |
| `ChainLog.ScanFileIsLongest` | src/binance_lob/raw_log.py:305-373 | the scan of a file ends at the longest strictly readable prefix, reports its records and state, and every other such prefix is shorter and holds its first records |
| `ChainLog.CleanPrefixIsNoLonger` | src/binance_lob/raw_log.py:305-373 | every prefix that scans cleanly ends at or before the good offset of the whole file |
| `ChainLog.RescanIsClean` | src/binance_lob/raw_log.py:376-418 | rescanning the good prefix is clean with the same records and state |
| `ChainLog.LastDigestDeterminesBodies` | src/binance_lob/raw_log.py:305-373 | under collision-freeness the last digest of a chain determines all its bodies |
| `ChainLog.LastDigestDeterminesFile` | src/binance_lob/raw_log.py:305-373 | cleanly scanned files with the same last digest are byte-for-byte equal |
| `RawLog.ScanRawLog` | src/binance_lob/raw_log.py:305-373 | reads the longest strictly valid prefix and reports its record count, the digest of its last record and, per stream, the number of its records minus one; reports nothing without the magic |
| `LedgerMeaning.RawLogMeans` | src/binance_lob/raw_log.py:305-373 | the accepted record lists are those in which each record links to the digest before it and its frame index is the number of earlier records of its stream |
| `RawLog.LastDigestDeterminesRawLog` | src/binance_lob/raw_log.py:305-373 | two clean raw logs with the same last record digest are equal files |
| `RawLog.RawLogWriter.Append` | src/binance_lob/raw_log.py:224-260 | the outcome is the first failing check in the order of the code; a receipt is given exactly for a whole record at the expected index; refusals change nothing; a failed write or sync poisons the writer and keeps the written frames; the receipt acknowledges exactly when the sync is due, so an open writer always has fewer unacknowledged records than it syncs after |
| `RawLog.RawLogWriter.Sync` | src/binance_lob/raw_log.py:262-282 | the acknowledgement carries the writer's own count, offset, digest and watermarks; failure poisons |
| `RawLog.RawLogWriter.Close` | src/binance_lob/raw_log.py:284-292 | closes in every case, changes no record, raises exactly when its final sync fails, and otherwise returns the last acknowledgement |
| `RawLog.RawLogWriter.ScansAsWritten` | src/binance_lob/raw_log.py:224-373 | in every reachable state the file scans to the writer's count, offset, digest and watermarks, cleanly unless a write was torn |
| `RawLog.RawLogWriter.ReadsBack` | src/binance_lob/raw_log.py:100-163 | every record reads back as its frame with the recorder state PENDING |
| `RawLog.AppendNotPending` | src/binance_lob/raw_log.py:100-163 | every frame 0 that is not pending and fits is appended and reads back changed |
| `RawLog.TornTailIsDropped` | src/binance_lob/raw_log.py:305-373 | a torn record is left out and every record before it is kept |
| `RawLog.IterRawRecords` | src/binance_lob/raw_log.py:421-468 | after a clean scan the strict reading yields every record once with contiguous offsets |
| `RawLog.RecoverRawLogPrefix` | src/binance_lob/raw_log.py:376-418 | recovery copies the good prefix, and its final check cannot fail on a stable file |
| `RawLog.RecoveryIsLongest` | src/binance_lob/raw_log.py:376-418 | the recovered prefix is the longest strictly valid one |
| `SegmentManifest.ScanPrefix` | src/binance_lob/segment_chain.py:1026-1131 | stops at the end of the longest prefix the strict reading accepts and returns the seals of exactly its records and the digest of the last one |
| `SegmentManifest.ScanStrict` | src/binance_lob/segment_chain.py:923-1023 | the strict scan succeeds exactly when the tolerant one is clean, and agrees with it |
| `SegmentManifest.AcceptedSealsAreOk` | src/binance_lob/segment_chain.py:892-1023 | accepted seals are valid, numbered, name distinct files and continue one another |
| `LedgerMeaning.ManifestMeans` | src/binance_lob/segment_chain.py:892-1023 | the accepted record lists are those in which each seal is numbered, linked, well-counted, of a file not used before, and goes on where the one before stopped |
| `SegmentManifest.SealsTileFrames` | src/binance_lob/segment_chain.py:892-920 | the sealed record counts add up to the last frame number plus one |
| `SegmentManifest.SegmentsContinueTheChain` | src/binance_lob/raw_log.py:568-630 | reading each segment from its seal's context is reading one chain from the start |
| `SegmentManifest.SegmentsFormOneLog` | src/binance_lob/raw_log.py:568-630 | segments that match their seals concatenate to one cleanly scanned raw log with the last seal's terminal digest and watermark |
| `SegmentReading.IterRawSegmentRecords` | src/binance_lob/raw_log.py:515-630 | refused only for its arguments or the magic; otherwise yields the records of the longest prefix that continues the chain, each once with contiguous offsets |
| `LedgerMeaning.SegmentMeans` | src/binance_lob/raw_log.py:515-630 | the record lists that continue the chain are those of the stream itself, each linked to the one before it from the given digest on, with frames that count up from the given one |
| `SegmentReading.ReadSegmentsFormOneLog` | src/binance_lob/raw_log.py:568-630 | the readings of sealed segments that each reach their seal are one clean raw log of one stream, ending at the last terminal and frame |
| `SegmentReading.CutSegmentIsReadShort` | src/binance_lob/raw_log.py:515-565 | a sealed file cut anywhere is read without an error as exactly the whole records before the cut |
| `SegmentReading.ReadingIsWholeExactly` | src/binance_lob/raw_log.py:568-630 | under collision-freeness a reading is the sealed one if and only if its last digest is the terminal of the seal |
| `Ownership.ScanOwnershipLedger` | src/binance_lob/ownership.py:208-291 | reads the longest strictly valid prefix and reports the last owner of its owner history; reports nothing without the magic |
| `Ownership.LedgerShape` | src/binance_lob/ownership.py:208-291 | records = 1 + 2 * activations + pending; owners' fencing tokens rise by one; each owner is the successor its activation names |
| `LedgerMeaning.LedgerMeans` | src/binance_lob/ownership.py:208-291 | the accepted record lists are an owner, then preparations that continue the owner in force and activations of the preparation right before, in turn; the state after them is the one this says |
| `Ownership.OwnersOfPrefix` | src/binance_lob/ownership.py:208-291 | the owner history of a prefix is a prefix of the owner history |
| `Ownership.TruncationRecoversAnOwner` | src/binance_lob/ownership.py:208-291 | any truncation recovers exactly the owner in force after the whole records before the cut, an owner of the original history found by its token, never a mixture |
| `Ownership.RecoveryReturnsTheOwner` | src/binance_lob/ownership.py:294-311 | the consistency rejections of recovery are unreachable and the pointer returned matches the committed proofs |
| `LedgerMeaning.RecoveryIsExact` | src/binance_lob/ownership.py:294-311 | recovery succeeds if and only if the ledger is clean and non-empty and exactly the two proofs of the last activation are given, or none where there is none, and returns the owner in force |
| `CanonicalOutput.ScanCanonicalOutput` | src/binance_lob/canonical_output.py:170-229 | reads the longest strictly valid prefix, and what it reports is fenced by the initial owner and the publications of exactly that prefix |
| `CanonicalOutput.PublicationIsFenced` | src/binance_lob/canonical_output.py:83-224 | the token is the initial one plus the ownership changes, observations come only from the owner of their time, coverage from the initial sequence has no hole, and trades advance by one each |
| `LedgerMeaning.OutputMeans` | src/binance_lob/canonical_output.py:83-224 | the accepted record lists are an initial owner and then records that publish the next sequence under the owner of the record before, or hand over from it under the next token |
| `CanonicalSelection.ValidateObservations` | src/binance_lob/boundary.py:227-248 | accepts exactly non-empty lists of well-formed observations of one epoch with consecutive frames |
| `CanonicalSelection.SelectSequence` | src/binance_lob/boundary.py:297-324 | the loop computes the sequence selection and its rejections |
| `CanonicalSelection.RunsOfSelection` | src/binance_lob/boundary.py:142-190 | the selected list is inputs of the predecessor up to the boundary frame and then inputs of the successor from the committed frame on, each in input order, and every input on its side is selected or repeats the end and digest of a selected one |
| `CanonicalSelection.ClosingChecksNeverReject` | src/binance_lob/boundary.py:142-190 | selection succeeds if and only if the validations pass, so the emptiness and splice checks cannot reject |
| `CanonicalSelection.SelectionIsCanonical` | src/binance_lob/boundary.py:142-324 | the result is such a splice at the boundary, covers every sequence number from first to final, trades step by one, and selected + overlap + duplicates equals the input count |
| `SelectionVerdict.SelectsExactly` | src/binance_lob/boundary.py:142-324 | a selection exists if and only if the boundary and both lists are well-formed, both sides end an observation at the boundary with its sequence and its digest, the successor goes on right after it, and each neighbour repeats or covers the next number |
| `SelectionVerdict.SelectedAre` | src/binance_lob/boundary.py:142-324 | selected are, in order, exactly the observations on their side of the boundary that do not end where the one before ends; the rest of these are the duplicates and all others the overlap |
| `Coverage.SweepGenerations` | src/binance_lob/raw_campaign.py:2131-2177 | the sweep loop accepts exactly windows that fit, start in order and join what is covered |
| `Coverage.GenerationsCoverCampaign` | src/binance_lob/raw_campaign.py:2131-2177 | accepted windows cover every instant from the first start to the required end |
| `Coverage.GenerationSweepMeans` | src/binance_lob/raw_campaign.py:2131-2177 | the sweep holds if and only if every window ends in 64 bits, starts after the one before it and not after the end of some earlier one, and some window lasts to the required end |
| `Coverage.VerifyObserverWindows` | src/binance_lob/hot_service.py:334-413 | the interval loop accepts exactly the observer sweep |
| `Coverage.ObserversCover` | src/binance_lob/hot_service.py:334-413 | accepted observers cover the whole interval and no three overlap at any instant, although stops need not be ordered |
| `Coverage.ObserverSweepMeans` | src/binance_lob/hot_service.py:334-413 | the observer check holds if and only if each window is ordered, later than the one before, within reach of an earlier stop and clear of the second one before, and some stop reaches the end |
| `Coverage.StreamIsFresh` | src/binance_lob/segment_chain.py:680-728 | at every instant from the first active message to the active end a market message arrived within the last 30 s |
| `Coverage.FreshnessMeans` | src/binance_lob/segment_chain.py:703-728 | the freshness check passes a validated stream if and only if a market message came within the startup limit and another in the 30 s before the active end |
| `Campaign.JournalEvents` | src/binance_lob/raw_campaign.py:1530-2225 | the loop and closing checks accept exactly the journals of the acceptance predicate, which `CampaignVerdict.VerdictIsExact` tells from the records |
| `Campaign.CheckTiming` | src/binance_lob/raw_campaign.py:2131-2213 | the timing part accepts exactly overlapping neighbours, covering windows and a closing boundary after the last end |
| `CampaignRuns.StepKeepsInv` | src/binance_lob/raw_campaign.py:1652-2100 | every record keeps the pipeline, the order of lifecycle records and the chain of promotions |
| `CampaignRuns.RunKeepsInv` | src/binance_lob/raw_campaign.py:1652-2100 | the invariant holds after every journal prefix that runs |
| `CampaignRuns.PipelineAdvances` | src/binance_lob/raw_campaign.py:1787-1873 | active stays or moves to the next index, each launch is the next index in order, launches run at most two ahead |
| `CampaignRuns.EachGenerationOnce` | src/binance_lob/raw_campaign.py:1991-2043 | in an accepted journal every generation becomes active at exactly one record, right after its predecessor, and gives way only to its successor |
| `CampaignRuns.MarksAt` | src/binance_lob/raw_campaign.py:1874-1965 | a lifecycle mark is set once, at its own record, and never changes |
| `CampaignRuns.ActiveOrNextIsAlive` | src/binance_lob/raw_campaign.py:1901-1945 | in every reachable state between first start and last terminal, the active generation or the next one is capturing |
| `CampaignRuns.AlwaysAlive` | src/binance_lob/raw_campaign.py:1901-1945 | at every record from the first PROCESS_STARTED to the last PROCESS_TERMINAL some generation is started and not terminal |
| `CampaignRuns.LifecyclesAreOrdered` | src/binance_lob/raw_campaign.py:1874-1965 | launches, starts and terminals are in index order and a successor starts before its predecessor terminates |
| `CampaignRuns.WindowsCoverCampaign` | src/binance_lob/raw_campaign.py:2131-2177 | declared windows of an accepted journal cover the campaign |
| `CampaignShutdowns.RunBalances` | src/binance_lob/raw_campaign.py:1737-1786 | for every generation and epoch, available + disposed = announced, after every prefix |
| `CampaignShutdowns.DispositionHasItsEvent` | src/binance_lob/raw_campaign.py:1833-1873 | every disposition consumes exactly one announcement of its own generation and epoch, an earlier one |
| `CampaignShutdowns.EventHasItsDisposition` | src/binance_lob/raw_campaign.py:2068-2129 | in an accepted journal every durable shutdown is consumed by exactly one later disposition |
| `CampaignShutdowns.ReportsMatchRaw` | src/binance_lob/raw_campaign.py:1580-1643 | the journal reports exactly the raw shutdown identities, each once, and per stream as many as the raw files hold |
| `CampaignHistory.RunHolds` | src/binance_lob/raw_campaign.py:1652-2100 | the marks and sets of the verifier are the records that happened, each at most once per generation |
| `CampaignHistory.SlotsMean` | src/binance_lob/raw_campaign.py:1652-2100 | the active slot is the generation that took over and whose successor has not, the pending one its launched successor unless warm, the warmed one a generation launched before its predecessor took over and not yet registered |
| `CampaignHistory.StepExactly` | src/binance_lob/raw_campaign.py:1652-2100 | a record is accepted if and only if the earlier records permit it: launch, start, terminal, exit, registration, proof, promotion, shutdown and notes, each by what has happened |
| `CampaignHistory.RunsExactly` | src/binance_lob/raw_campaign.py:1652-2100 | a journal runs if and only if every record is permitted by the ones before it |
| `CampaignHistory.NotesMean` | src/binance_lob/raw_campaign.py:2068-2100 | an ignored shutdown is of a generation that is not active; an already pending one is of the active generation while its successor is the candidate |
| `CampaignHistory.NoteIsAccepted` | src/binance_lob/raw_campaign.py:2068-2100 | conversely a note of its generation's epoch with an unused announcement is accepted in that lifecycle |
| `CampaignVerdict.IdentitiesMean` | src/binance_lob/raw_campaign.py:1580-1643 | the identity check passes if and only if all sessions and epochs differ and the raw shutdown records are of their epochs, distinct and as many as declared |
| `CampaignVerdict.VerdictIsExact` | src/binance_lob/raw_campaign.py:1530-2225 | a journal verifies if and only if every record is permitted and it is concluded: its three boundary records and no others of their kind, every generation ended, the last one active, shutdowns settled, and the overlaps, windows and deadlines by the clocks of the records |
| `CampaignExample.JournalIsAccepted` | src/binance_lob/raw_campaign.py:1530-2225 | a two-generation journal with a launch from a shutdown, a handover and a note of each kind is accepted |
| `CampaignJournal.ScanJournal` | src/binance_lob/raw_campaign.py:1450-1527 | accepts exactly a non-empty chain of numbered, linked and sealed lines on known channels with a clock that never goes back, and returns its records and last digest |
| `CampaignJournal.ScannedMeans` | src/binance_lob/raw_campaign.py:1450-1527 | these are the journals whose lines are numbered, linked, sealed, on a known channel and of a generation of the campaign, with no clock before any earlier one |
| `CampaignJournal.ClockIsMonotone` | src/binance_lob/raw_campaign.py:1450-1527 | the clock of a scanned journal is monotone over its whole length |
| `CampaignJournal.LastDigestDeterminesJournal` | src/binance_lob/raw_campaign.py:1450-1527 | under collision-freeness two scanned journals with the same last digest are equal |
| `CampaignJournal.LifecyclesAreOrderedInTime` | src/binance_lob/raw_campaign.py:1450-2043 | in a scanned and accepted journal launches, starts and terminals are in index order by clock as well |
| `ArbitrationAudit.AuditState.constructor` | src/binance_lob/live_arbitration_verify_cli.py:81-103 | a fresh audit state |
| `ArbitrationAudit.AuditState.ApplyRecord` | src/binance_lob/live_arbitration_verify_cli.py:117-349 | one record is accepted, and moves the whole state, exactly as the automaton says |
| `ArbitrationAudit.AuditState.AuditFile` | src/binance_lob/live_arbitration_verify_cli.py:352-398 | one segment is walked from the zero digest with the terminal mark reset, and empty or torn files are refused where the source refuses them |
| `ArbitrationAudit.AuditJournalSet` | src/binance_lob/live_arbitration_verify_cli.py:440-455 | reports exactly the accepted sets, with the state reached |
| `ArbitrationRuns.SetIsOneRun` | src/binance_lob/live_arbitration_verify_cli.py:352-455 | an accepted set runs as one journal, whatever the segment boundaries |
| `ArbitrationRuns.NoHoleBefore` | src/binance_lob/live_arbitration_verify_cli.py:293-332 | a depth range continues the previous one or a GAP between them declares exactly the earlier final |
| `ArbitrationRuns.NoSilentDepthHole` | src/binance_lob/live_arbitration_verify_cli.py:293-455 | across all segments of an accepted set depth ranges are disjoint and increasing, and non-contiguous neighbours have a GAP between them that declares the earlier final |
| `ArbitrationRuns.TerminalsDeclareTheTally` | src/binance_lob/live_arbitration_verify_cli.py:198-222 | every TERMINAL declares the exact cumulative counts of trades, frames, gaps and corrections |
| `ArbitrationHistory.RunsExactly` | src/binance_lob/live_arbitration_verify_cli.py:137-349 | payloads run if and only if each may follow the earlier ones: trades above all published ones and the floor, corrections by what was stated, frames by cursor and gap, RESUMED with the largest floor, TERMINAL with the exact counts |
| `ArbitrationHistory.ReportMeans` | src/binance_lob/live_arbitration_verify_cli.py:81-103 | every field of the report: record, observation, status and rebootstrap counts, published and supplied trades with their digests, cursors, floor |
| `ArbitrationChain.LinkedExactly` | src/binance_lob/live_arbitration_verify_cli.py:155-199 | a segment after the first names the last digest and the torn tail of the one before it if and only if RESUMED opens it |
| `ArbitrationChain.AcceptedOpens` | src/binance_lob/live_arbitration_verify_cli.py:141-154 | an accepted set opens with STARTED |
| `ArbitrationVerdict.SetRunsExactly` | src/binance_lob/live_arbitration_verify_cli.py:117-398 | the segments run if and only if every record is chained in place, TERMINAL ends its segment, STARTED opens the set, RESUMED names the symbol, the last digest and the tail before it, and the payloads run as one journal |
| `ArbitrationVerdict.VerdictIsExact` | src/binance_lob/live_arbitration_verify_cli.py:117-455 | a set is accepted if and only if moreover it starts with STARTED and, when closed, ends with TERMINAL and a whole line |
| `ArbitrationVerdict.RebootFollowsGap` | src/binance_lob/live_arbitration_verify_cli.py:318-346 | every rebootstrap of an accepted set is complete and follows a GAP with no frame in between |
| `ArbitrationChain.LastShaDeterminesFile` | src/binance_lob/live_arbitration_verify_cli.py:127-134 | under collision-freeness the last digest of a segment determines its records |
| `ArbitrationChain.LastDigestDeterminesSet` | src/binance_lob/live_arbitration_verify_cli.py:117-455 | two closed accepted sets in which RESUMED opens every later segment are equal when their last record digests are |
| `ArbitrationChain.UnlinkedSegmentHidesChanges` | src/binance_lob/live_arbitration_verify_cli.py:155-163 | for every accepted set with a later segment that RESUMED does not open there is a different accepted set with the same last record digest |
| `ArbitrationChain.AcceptedSetsNeedNotBeOneChain` | src/binance_lob/live_arbitration_verify_cli.py:155-163 | for every digest function, two different accepted sets with the same last record digest and no linked segment |
| `ArbitrationCanonical.CanonicalObservations` | src/binance_lob/live_arbitration_verify_cli.py:1071-1157 | the second reading collects trades, corrections, the first declared floor, depth frames, rebootstraps with the frames before them, the last depth event, the completion scope, the serving lane and the declared artifacts, and fails where the source raises |
| `ArbitrationCanonical.CollectsExactly` | src/binance_lob/live_arbitration_verify_cli.py:1071-1157 | on an audited journal it fails if and only if a terminal declares an unknown completion scope or a rebootstrap names no lane |
| `CanonicalMeaning.CollectMeans` | src/binance_lob/live_arbitration_verify_cli.py:1071-1157 | what is collected: the trades, corrections, frames and rebootstraps of the journal in order with all their fields, each rebootstrap with the number of frames before it, the latest depth event, scope and serving lane, the first declared floor |
| `ArbitrationCanonical.AuditedButNotCollected` | src/binance_lob/live_arbitration_verify_cli.py:1151-1156 | a set with an unknown completion scope that passes the closed audit and cannot be collected |
| `ArbitrationTrades.VerifyTrades` | src/binance_lob/live_arbitration_verify_cli.py:1175-1235 | the two passes over one dictionary and the window comparison, with every rejection |
| `ArbitrationTrades.CollectAgrees` | src/binance_lob/live_arbitration_verify_cli.py:223-292 | after every accepted prefix the collected items are what the audit published and corrected: increasing, disjoint, below the cursor, above the floor |
| `ArbitrationTrades.CorrectionsAgree` | src/binance_lob/live_arbitration_verify_cli.py:1210-1224 | correcting against the completed trade dictionary classifies every correction as the audit did at its own time |
| `ArbitrationTrades.ReconstructionOfAccepted` | src/binance_lob/live_arbitration_verify_cli.py:1175-1235 | the reconstruction of an accepted set is the union of what the audit published and corrected |
| `ArbitrationTrades.OfflineVerdict` | src/binance_lob/live_arbitration_verify_cli.py:1175-1235 | the duplicate and contradiction rejections are unreachable; success holds if and only if the raw capture backs every item, the floor is cleared and the window is equal; with everything backed the floor rejection is returned exactly when the floor is not cleared; the count is trades + unknown corrections, within the bounds of the service |
| `OfflineTrades.UnbackedMeans` | src/binance_lob/live_arbitration_verify_cli.py:1175-1209 | an item is backed if and only if all raw evidence of its identifier has its digest and some of it is its record; missing, conflicting and foreign evidence are told apart |
| `OfflineTrades.TradeVerdictIsExact` | src/binance_lob/live_arbitration_verify_cli.py:1175-1235 | from payloads and raw capture alone: the offline pass succeeds on an accepted set if and only if the capture backs every trade and correction, no supplied trade is at or below the floor and above it the journal has exactly the raw trades, up to the last published one when bounded; its count is published plus supplied |
| `ArbitrationTrades.IntegerFloorNeverRejects` | src/binance_lob/live_arbitration_verify_cli.py:223-284 | with an integer STARTED floor only missing evidence or a different raw union can reject |
| `ArbitrationTrades.ClosedWindowIsRaw` | src/binance_lob/live_arbitration_verify_cli.py:1225-1235 | closed acceptance makes the reconstructed map equal the raw union above the floor, digests included |
| `ArbitrationFloor.OfflineFloorIsCollected` | src/binance_lob/live_arbitration_verify_cli.py:1091-1098 | the offline floor is the STARTED floor, or else that of the first RESUMED |
| `ArbitrationFloor.FloorRejectsExactly` | src/binance_lob/live_arbitration_verify_cli.py:1216-1219 | the offline pass returns the floor rejection on an accepted set only if STARTED had no floor, a RESUMED follows, and an unknown correction precedes it or is not above its floor; and, when the raw capture backs every item, if and only if so |
| `ArbitrationFloor.NullFloorDisagrees` | src/binance_lob/live_arbitration_verify_cli.py:1216-1219 | a concrete accepted set with a complete raw capture that the offline pass refuses |
| `ArbitrationOracle.TrustedDepthObservations` | src/binance_lob/live_arbitration_verify_cli.py:935-959 | the loop computes the trusted part of a generation |
| `ArbitrationOracle.TrustedHasNoHole` | src/binance_lob/live_arbitration_verify_cli.py:935-959 | every update from the snapshot to the end of the trusted part lies in a trusted range |
| `ArbitrationOracle.TrustedStopsAtJump` | src/binance_lob/live_arbitration_verify_cli.py:935-959 | a range left out is stale or follows a jump, so the trusted part is maximal |
| `ArbitrationOracle.OracleDepthByLane` | src/binance_lob/live_arbitration_verify_cli.py:969-1048 | the gathering loop builds the oracle and refuses it exactly when a closed audit lacks a lane |
| `ArbitrationOracle.OracleMembers` | src/binance_lob/live_arbitration_verify_cli.py:1036-1048 | the oracle holds exactly the trusted ranges of the generations of each lane |
| `ArbitrationDepth.VerifyDepth` | src/binance_lob/live_arbitration_verify_cli.py:1238-1343 | frames, rebootstraps and the final boundary are checked as specified, in strict and tolerant modes |
| `ArbitrationDepth.DepthCheckMeans` | src/binance_lob/live_arbitration_verify_cli.py:1238-1296 | in every mode the pass holds if and only if every frame is a trusted raw range of the lane its label names, or may be passed over in that mode, and every rebootstrap up to the first one without a frame of its own is followed rightly |
| `ArbitrationDepth.PublishedFrameIsTrusted` | src/binance_lob/live_arbitration_verify_cli.py:935-1296 | a frame that passes the strict check is a trusted range of a generation of lane p for PRIMARY, s for SHADOW and the named lane otherwise, whose trusted ranges hold every update from its snapshot to the end of the frame |
| `ArbitrationDepth.LaneRootMeans` | src/binance_lob/live_arbitration_verify_cli.py:1253-1270 | PRIMARY is lane p, SHADOW lane s, and every other label its own lane |
| `ArbitrationDepth.FinalBoundaryMeans` | src/binance_lob/live_arbitration_verify_cli.py:1297-1336 | the final boundary passes if and only if no rebootstrap waits behind the last frame, the journal does not end in a gap, no generation of the lane of the last frame has a trusted range with the next update, and a journal without depth stands against generations without any |
| `ArbitrationDepth.AllRebootsChecked` | src/binance_lob/live_arbitration_verify_cli.py:1264-1283 | all rebootstraps are checked when each has a frame of its own |
| `ArbitrationDepth.RepeatedRebootHidesLaterOnes` | src/binance_lob/live_arbitration_verify_cli.py:1264-1283 | a set that passes the closed audit, whose third rebootstrap disagrees with the frame after it, and which still passes the strict depth check against raw generations of both lanes and its final boundary |
| `ArbitrationDepth.BothLanesPass` | src/binance_lob/live_arbitration_verify_cli.py:1238-1343 | an accepted set whose frames name PRIMARY and SHADOW passes the strict check and the final boundary |

The bounds of `src/binance_lob/hot_service.py:814-818` on the reconstructed count are the last clause
of `ArbitrationTrades.OfflineVerdict`.

## Left out

- Histogram.HdrHistogram.RecordValues: counters are unbounded integers; overflow of the 64-bit counts and total is not modelled, and a histogram taken below zero occurrences is described by its counters only.
- Histogram.HdrHistogram.ValueAtPercentile: percentiles are reals and logarithms exact; double rounding, `mean` and `stddev` are not modelled.
- HistogramLayout.Layout.NoOverflow: the equivalent-value helpers are stated for non-negative arguments, which is all the class passes them.
- OrderBook.LocalOrderBook.StateMaterial: a boolean update ID, which Python treats as an integer, prints as a number here.
- OrderBook.LocalOrderBook.Load: a failed load that leaves the book EMPTY with one side already assigned is not described further.
- OrderBook.LocalOrderBook.constructor: the symbol whitelist is not checked.
- RawLog.ScanRawLog: watermarks are a map by stream and digests are bytes, where the source has a sorted tuple and hexadecimal text.
- Campaign.JournalEvents: a payload that is not of its exact form is one refused event; schema strings, the wall clock and the path text of a session directory are not modelled.
- ArbitrationAudit.AuditState.ApplyRecord: fields of the wrong type or digests of the wrong form are absent values; schema and channel literals, line length limits and JSON text are not modelled.
- ArbitrationTrades.VerifyTrades: sorted lists of distinct identities are compared as sets, and the examples in the error text are not built.
- ArbitrationOracle.OracleDepthByLane: generations come with their replayed ranges; the process pool, the row cache and the choice of sealed generations are not modelled.
- Preset-context tail audits, which defer cross-segment checks to the full audit.
- The boundary journal writer and its scan, the BNACK progress scan and the reading of an acknowledged segment prefix: the same framing with easier rules.
- The outer-gap automaton, failure inventories and terminal status of the service verifier.
- SHA-256, base64 and JSON text grammar, exact key order and error texts.
- Files, paths, links, inventories, `fsync`, stat guards and command lines.
- Capture clients, snapshots over the network, ETW, PktMon, witness and incident verifiers, benchmarks, C++ codecs and rings.
