# NeuRust, modelled in Dafny

NeuRust is a gateway in front of large-language-model providers. This project
models the part of it that decides something: the exact-match cache with its
eviction, concurrent insertion and warm start; the PII scanners, their context
validation and the masker; the cost log, the forecast and the budget guard; the
layer pipeline; the two provider stream loops and the gateway's own stream loop;
the bandit and the auctioneer of the router; and the normaliser of the prompt
guard. One module models one source file, except that concurrency, the budget guard in the
pipeline, the calendar, the regression algebra, the month of a forecast, line
reading, the e-mail scanner, context validation, the limits of masking, what the
prompt guard catches and the order of a pipeline's visits have modules of their own.

Code that works step by step is written as methods and classes and is proved
against a specification; what the system promises is then proved about the
specification.

How to read the model:

- `f64` values are exact reals. `sqrt` is any function that is non-negative and
  zero exactly at zero (`CostForecaster.IsSquareRoot`).
- Time is an input: any number on the clock, any date of the calendar. Random
  numbers are inputs too.
- Unicode tables are parameters. `EmailScanner.IsAlphabet`,
  `PromptGuard.IsUnicodeCasing` and `InjectionPatterns.KeepsPatterns` state the
  only facts used about them.
- JSON decoding of one data payload is a parameter that may fail on any input.
- A hash map or concurrent map is visited in an arbitrary order
  (`Prelude.Enumerate`), so no result depends on that order.
- An eviction pass of the concurrent cache is not atomic: its scan for expired
  entries, its scan for a least-used one, and every single removal are separate
  steps, and so are the length check, the insertion, and the two halves of a
  lookup that finds an expired entry. One scan is one reading of the map.
- The length check of an insertion is one atomic reading of the map's size. The
  concurrent map adds up its parts one by one, so a real reading can mix moments.
- A call that panics is an outcome of its own (`ContextValidation.Abort`).
- A text is a sequence of characters; its bytes are its UTF-8 encoding
  (section 3 of RFC 3629).

Where the code and its documentation differ, the code is followed: a mask is a
fixed string of asterisks for each kind of match, not a numbered placeholder;
and a dump records each entry's time-to-live, but warming gives every entry the
default one of the cache.

What the model brought to light:

- A capacity of 0 behaves like a capacity of 1, and `k` inserting threads can
  hold `k - 1` entries too many (`CacheRuns.CapacityBoundReached`).
- That is the most for up to five threads. Six or more can grow the map without
  bound, because they may all remove the same victim
  (`CacheRuns.BoundIffFewThreads`); for any number of threads the bound holds as
  long as at most five scans are held at a time (`CacheConcurrency.CapacityBound`).
- A batch eviction of 0 entries still removes an expired entry.
- The zero-spread exit of the regression is never taken from two points on.
- A `reset_day` of 0 stands for the last day of the month, and then the period
  starts in the future on all other days (`BillingCalendar.PeriodStartDistance`
  says exactly when); a day above 31 acts as the end of the month before.
- A period start is its own period start exactly when the reset day was not
  clamped (`BillingCalendar.PeriodStartIsFixed`).
- A streamed answer is never charged to the budget.
- The OpenAI stream never reports usage, so it never publishes a completion event.
- Detection aborts on some texts with multibyte characters: the window for
  context keywords is cut at byte positions fifty away from a match, and a cut
  inside a character panics. `ContextValidation.ValidateContext` says exactly
  when, `Detection.DetectionCanAbort` gives a text.
- Of two matches with the same start the scanner that runs first wins
  (`PiiMasker.EarlierReportWins`).
- The end of a report that begins inside a masked one can stay in the text
  (`MaskingLimits.OverlapLeavesBytes`; `PiiMasker.AllMaskedIffOverlapsContinue`
  says exactly when), and masking twice can mask more than masking once
  (`MaskingLimits.MaskedAgain`).
- The estimate of a forecast is built on the active days of the look-back window,
  not on the days of the month (`MonthlyForecast.EstimateAndMonth`).
- A lookup that finds an expired entry lets go of it before it removes the key,
  so it can remove a live entry inserted in between
  (`CacheHistory.StaleRemovalTakesLive` says exactly when).

## Model

| member | source | states |
|---|---|---|
| CacheConcurrency.CapacityBound | crates/neurust-intel/src/cache/exact_cache.rs:88-105 | for every number k of inserting threads, in every run in which at no moment more than five threads hold a scan result they have not yet removed, the map never holds more than max(capacity, 1) + k - 1 entries, with lookups, clears and clock ticks in between and threads that give up after five passes |
| CacheConcurrency.FewThreadsKeepBound | crates/neurust-intel/src/cache/exact_cache.rs:88-105 | up to five inserting threads keep to that bound in every interleaving of their checks, scans, single removals and insertions |
| CacheRuns.BoundIffFewThreads | crates/neurust-intel/src/cache/exact_cache.rs:88-105 | the bound holds in every reachable state if and only if there are at most five inserting threads, the number of attempts of an insertion |
| CacheRuns.ManyThreadsGrowWithoutBound | crates/neurust-intel/src/cache/eviction.rs:16-43 | with six or more threads, which all scan before one of them removes, every size up to the number of keys is reached |
| CacheRuns.CrewRound | crates/neurust-intel/src/cache/eviction.rs:16-43 | the round behind that growth: six threads make five passes each with the same victims, five entries go and six come |
| CacheRuns.CapacityBoundReached | crates/neurust-intel/src/cache/exact_cache.rs:88-105 | for every capacity, 0 included, and every thread count some interleaving reaches max(capacity, 1) + k - 1 entries, as long as there are that many different 64-bit keys |
| CacheConcurrency.StepKeepsCapacity | crates/neurust-intel/src/cache/exact_cache.rs:88-124 | while at most five scans are held, every step keeps five times the map size plus the passes the threads have used up, a pass counting as used once any key of its scan has gone, within five times max(capacity, 1) + k - 1 |
| CacheHistory.LookupReturnsLatestInsert | crates/neurust-intel/src/cache/exact_cache.rs:67-124 | in every interleaving a successful lookup returns the response of the latest standing insertion at its key, no older than its time-to-live, and the entry's hit count is its initial count plus the successful lookups since |
| CacheHistory.AbsentMeansNoStandingInsert | crates/neurust-intel/src/cache/exact_cache.rs:67-124 | a key is absent if and only if every insertion at it has been overwritten, evicted, removed or cleared |
| CacheHistory.EffectKeepsHistory | crates/neurust-intel/src/cache/exact_cache.rs:67-124 | whatever event happens, the map stays exactly what the history of events determines |
| CacheHistory.StaleRemovalTakesLive | crates/neurust-intel/src/cache/exact_cache.rs:67-74 | a lookup that found its entry expired removes a live one if and only if the key was inserted anew between an expired lookup and the removal and that entry still stands and lives |
| CacheHistory.StaleRemovalCanTakeLive | crates/neurust-intel/src/cache/exact_cache.rs:67-74 | for every capacity, thread count and key some run does it |
| CacheRuns.SequentialInsertIsARun | crates/neurust-intel/src/cache/exact_cache.rs:86-105 | every outcome the sequential insertion may have is reached by a thread whose steps nothing interrupts |
| ExactCache.ExactCache.constructor | crates/neurust-intel/src/cache/exact_cache.rs:55-61 | a new cache is empty and keeps its capacity and default time-to-live |
| ExactCache.ExactCache.Get | crates/neurust-intel/src/cache/exact_cache.rs:67-80 | a hit if and only if a live entry is present; a hit adds one to that entry's count and changes nothing else; a miss removes at most the expired entry at that key |
| ExactCache.ExactCache.InsertWithTtl | crates/neurust-intel/src/cache/exact_cache.rs:86-105 | the new map is some outcome of the bounded evict loop with the fresh entry put in |
| ExactCache.ExactCache.InsertWarm | crates/neurust-intel/src/cache/exact_cache.rs:108-124 | the same for a warmed entry, which keeps its hit count and gets the default time-to-live |
| ExactCache.ExactCache.EvictUntilBelowCapacity | crates/neurust-intel/src/cache/exact_cache.rs:88-93 | the loop ends in a state that at most five eviction passes lead to, and stops early only below capacity |
| ExactCache.ExactCache.TopByHitCount | crates/neurust-intel/src/cache/exact_cache.rs:127-143 | the dump lists min(n, live) distinct live entries by falling hit count, and no live entry left out has more hits than a listed one; each carries its response, hits and the whole seconds of its time-to-live |
| ExactCache.InsertRespectsCapacity | crates/neurust-intel/src/cache/exact_cache.rs:86-105 | alone, an insertion never exceeds max(capacity, 1), or brings an overfull map four entries closer; the new entry is in, all other survivors are unchanged |
| ExactCache.InsertBelowCapacity | crates/neurust-intel/src/cache/exact_cache.rs:86-105 | with room to spare nothing is evicted |
| ExactCache.InsertIntoFull | crates/neurust-intel/src/cache/exact_cache.rs:86-105 | a full map without expired entries gives up exactly one least-used entry |
| ExactCache.HottestFirst | crates/neurust-intel/src/cache/exact_cache.rs:127-143 | cutting the sorted live entries at n gives the n hottest |
| Eviction.EvictLfu | crates/neurust-intel/src/cache/eviction.rs:16-43 | removes exactly the expired entries if there are any, otherwise exactly one entry with the fewest hits |
| Eviction.EvictLfuBatch | crates/neurust-intel/src/cache/eviction.rs:46-75 | removes exactly min(count, size) entries (one more for count 0 when something is expired), no live one while an expired one remains, and no live one with more hits than a live survivor |
| Eviction.RemoveExpired | crates/neurust-intel/src/cache/eviction.rs:49-63 | the first loop removes a prefix of the expired keys and returns early exactly at the count |
| Eviction.RemoveLeastUsed | crates/neurust-intel/src/cache/eviction.rs:65-75 | removes the n least used entries and keeps the most used |
| Eviction.BatchMatchesRepeatedEviction | crates/neurust-intel/src/cache/eviction.rs:16-75 | with nothing expired, the batch form and n single passes leave the same multiset of hit counts, and the same entries when no two counts agree |
| Eviction.RunKeepsMostUsed | crates/neurust-intel/src/cache/eviction.rs:16-43 | any number of single passes keeps only most-used entries, one fewer each time |
| Eviction.EvictShrinks | crates/neurust-intel/src/cache/eviction.rs:16-43 | a pass takes something from every non-empty map and changes no survivor |
| CacheEntries.MostUsedHitCounts | crates/neurust-intel/src/cache/eviction.rs:16-75 | however ties are broken, the number of kept entries fixes their multiset of hit counts |
| CacheEntries.MostUsedUnique | crates/neurust-intel/src/cache/eviction.rs:16-75 | without ties the number of kept entries fixes which they are |
| CacheEntries.KeptIffFewAtLeast | crates/neurust-intel/src/cache/eviction.rs:16-75 | without ties an entry is kept if and only if no more entries than survive have at least its hits |
| Warming.CacheWarmer.Warm | crates/neurust-intel/src/cache/warming.rs:65-71 | loads the first min(limit, dumped) entries in order, each by one warm insertion at its own time |
| Warming.CacheWarmer.Dump | crates/neurust-intel/src/cache/warming.rs:119-120 | a dump holds the hottest live entries, at most the limit |
| Warming.WarmFreshCache | crates/neurust-intel/src/cache/warming.rs:65-71 | a fresh cache holds exactly the loaded entries if they fit; otherwise, with distinct counts, exactly the capacity - 1 hottest and the one loaded last |
| Warming.WarmWithEqualCounts | crates/neurust-intel/src/cache/warming.rs:65-71 | without asking for distinct counts: the last loaded entry stays, beside a choice of the most used ones loaded before it, and the cache is full |
| Warming.WarmedHitCounts | crates/neurust-intel/src/cache/warming.rs:65-71 | after an overfull load with ties, the hit counts beside the last entry are those of the first capacity - 1 entries of the dump |
| Warming.DumpThenWarm | crates/neurust-intel/src/cache/warming.rs:65-71 | round trip: when every live entry is dumped and fits, the fresh cache answers exactly the live keys with the same responses and hit counts |
| Warming.DumpThenWarmByRank | crates/neurust-intel/src/cache/warming.rs:65-71 | for every dump limit and capacity, when no two live counts agree, the fresh cache holds exactly the dumped entries of rank below its number of places and the coldest dumped one, with their responses and hit counts |
| PiiDetector.DetectKoreanSsn | crates/neurust-intel/src/security/pii_detector.rs:106-133 | reports exactly the positions where the pattern matches, each once, in order |
| PiiDetector.DetectPhoneNumbers | crates/neurust-intel/src/security/pii_detector.rs:136-187 | reports the leftmost disjoint matches: every report matches, none overlap, and every number begins inside a report |
| PiiDetector.DetectSeparatedCards | crates/neurust-intel/src/security/pii_detector.rs:261-315 | the same for card numbers in four groups, dashed or spaced |
| PiiDetector.DetectBareCards | crates/neurust-intel/src/security/pii_detector.rs:317-342 | reports exactly the isolated 16-digit runs that no earlier report covers, although the scan jumps 16 positions after each run |
| PiiDetector.TestBareCard | crates/neurust-intel/src/security/pii_detector.rs:320-330 | the test at one position succeeds if and only if an isolated run of 16 digits begins there |
| PiiDetector.LeftmostDisjointIsUnique | crates/neurust-intel/src/security/pii_detector.rs:136-315 | a text has only one sequence of leftmost disjoint matches, so the reports are determined |
| PiiDetector.PatternsFitTemplates | crates/neurust-intel/src/security/pii_detector.rs:106-342 | registration, phone and card numbers are found exactly where the text fits the written templates, a digit being a character from 0 to 9; spaced groups and bare runs of sixteen only if neither neighbour is one |
| PiiDetector.ReportsByForm | crates/neurust-intel/src/security/pii_detector.rs:106-342 | each form gives a report of its own kind, length and confidence, with exactly those bytes |
| PiiDetector.PushLeftmost | crates/neurust-intel/src/security/pii_detector.rs:136-315 | jumping behind a match, or one position on without one, keeps the reports leftmost and disjoint |
| EmailScanner.DetectEmails | crates/neurust-intel/src/security/pii_detector.rs:190-257 | reports exactly one match for every '@' with an address around it, in order, none skipped by the jump behind each match |
| EmailScanner.Delimit | crates/neurust-intel/src/security/pii_detector.rs:197-221 | the two inner loops find the maximal local part and domain around the '@', and the last dot in the domain |
| EmailScanner.TldIsTopLevelDomain | crates/neurust-intel/src/security/pii_detector.rs:223-229 | looking behind the last dot only is as good as asking whether some dot is followed by two or more letters up to the end |
| EmailScanner.AddressForm | crates/neurust-intel/src/security/pii_detector.rs:190-257 | an address is alphanumeric characters and the signs `._-+` before the @, alphanumeric characters, dots and hyphens behind it, as many as there are on both sides, ending in a dot and two or more ASCII letters |
| EmailScanner.ByteRange | crates/neurust-intel/src/security/pii_detector.rs:232-243 | the character range of an address and the computed byte range denote the same text, at the end of the text too |
| Detection.Detect | crates/neurust-intel/src/security/pii_detector.rs:90-103 | the call aborts if and only if the window around some report of the scanners is off the character boundaries; otherwise it returns all reports of all scanners, changed in their confidences only |
| Detection.Scan | crates/neurust-intel/src/security/pii_detector.rs:90-97 | the scanners together report what each promises, the bare cards relative to all earlier reports |
| Detection.DetectionIsWellPlaced | crates/neurust-intel/src/security/pii_detector.rs:90-342 | on every UTF-8 text each reported span is non-empty, begins and ends at character boundaries, and carries exactly that slice |
| Detection.DetectionIsComplete | crates/neurust-intel/src/security/pii_detector.rs:90-342 | every registration number is reported, every phone and separated card number begins inside a report, every isolated run of sixteen digits lies from its first to its last byte inside one |
| Detection.BareCardReported | crates/neurust-intel/src/security/pii_detector.rs:317-342 | an isolated run of sixteen digits gets a report of its own if and only if no earlier report spans all of it |
| Detection.EmailsAreAddresses | crates/neurust-intel/src/security/pii_detector.rs:190-257 | the e-mail reports are exactly the addresses of the text |
| Detection.AddressReport | crates/neurust-intel/src/security/pii_detector.rs:232-250 | the report of an address is its own byte range and bytes, with confidence 0.95 |
| Detection.ReportsByScanner | crates/neurust-intel/src/security/pii_detector.rs:90-97 | the reports come in the order registration numbers, phone numbers, addresses, grouped and bare card numbers |
| Detection.EveryAddressIsFound | crates/neurust-intel/src/security/pii_detector.rs:190-257 | every e-mail address is reported with its own byte range |
| Detection.DetectionIsUnique | crates/neurust-intel/src/security/pii_detector.rs:90-103 | a text has exactly one detection, so whether the call aborts and what it returns are decided by the text |
| Detection.DetectionCanAbort | crates/neurust-intel/src/security/pii_detector.rs:345-351 | a concrete text on which the call aborts: seventeen three-byte characters and a mobile number |
| Detection.PlainTextsAreDetected | crates/neurust-intel/src/security/pii_detector.rs:345-351 | on ASCII texts and on texts of at most fifty bytes the call never aborts |
| ContextValidation.ValidateContext | crates/neurust-intel/src/security/pii_detector.rs:345-361 | aborts if and only if for some match byte max(0, start - 50) or byte min(end + 50, length) is not a character boundary; otherwise raises exactly the confidences of matches with a keyword within fifty bytes |
| ContextValidation.WindowHoldsContext | crates/neurust-intel/src/security/pii_detector.rs:345-361 | searching the cut-out window finds a keyword if and only if one lies wholly within fifty bytes of the match |
| ContextValidation.RaisedIffKeywordNear | crates/neurust-intel/src/security/pii_detector.rs:345-361 | a match gains a tenth of confidence, at most up to 1, exactly when one of the nine keywords lies within fifty bytes; nothing else of it changes |
| ContextValidation.WindowReach | crates/neurust-intel/src/security/pii_detector.rs:347-349 | the window reaches fifty bytes to both sides, or to the end of the text |
| Utf8.BoundaryTestIsExact | crates/neurust-intel/src/security/pii_detector.rs:347-351 | testing one byte for being a continuation byte decides exactly whether a position lies between characters |
| Utf8.EncodeCharDecodes | crates/neurust-intel/src/security/pii_detector.rs:190-195 | the bits of the bytes give the character back, each length being used for its own range of characters (section 3 of RFC 3629) |
| Utf8.AsciiByteIsCharacter | crates/neurust-intel/src/security/pii_detector.rs:106-342 | in every UTF-8 text a byte below 0x80 is a whole character, so byte scans for ASCII patterns cannot cut one |
| Utf8.EncodeSlice | crates/neurust-intel/src/security/pii_detector.rs:232-243 | the bytes between two character positions encode exactly the characters between them |
| PiiMasker.ApplyMasks | crates/neurust-intel/src/security/pii_masker.rs:115-144 | for any collection of spans: aborts if and only if a chosen span begins or ends off a character boundary or behind the text; otherwise the result is the text with the chosen disjoint spans replaced by their masks |
| PiiMasker.MaskText | crates/neurust-intel/src/security/pii_masker.rs:96-106 | aborts if and only if detection does, never in a slice of its own and never on ASCII texts or texts of at most fifty bytes; otherwise the result is the masking of a complete detection and valid UTF-8 |
| PiiMasker.FirstBytesAreMasked | crates/neurust-intel/src/security/pii_masker.rs:115-144 | the first byte of every non-empty span is masked, so a dropped span begins inside a chosen one; only reported spans are chosen |
| PiiMasker.DisjointSpansAreAllMasked | crates/neurust-intel/src/security/pii_masker.rs:115-144 | if no two spans overlap, all of them are masked, whatever order they came in |
| PiiMasker.AllMaskedIffOverlapsContinue | crates/neurust-intel/src/security/pii_masker.rs:115-144 | every byte of every report is masked if and only if another report begins wherever a masked span ends inside a report |
| PiiMasker.NestedEndsAreAllMasked | crates/neurust-intel/src/security/pii_masker.rs:115-144 | in particular when no report ends strictly inside another |
| MaskingLimits.OverlapLeavesBytes | crates/neurust-intel/src/security/pii_masker.rs:115-144 | in `901234-1234567-1234567` both numbers are reported and not all of their bytes are masked |
| MaskingLimits.PhoneIsMasked | crates/neurust-intel/src/security/pii_masker.rs:96-144 | in a text of 29 bytes, a mobile number and more digits touching it, exactly the mobile number is masked |
| MaskingLimits.MaskedOnce | crates/neurust-intel/src/security/pii_masker.rs:96-144 | `010-1234-56781234567890123456` is masked to `***-****-****1234567890123456` |
| MaskingLimits.MaskedAgain | crates/neurust-intel/src/security/pii_masker.rs:96-144 | masking that result again also covers the sixteen digits, so masking is not idempotent |
| PiiMasker.OtherBytesAreKept | crates/neurust-intel/src/security/pii_masker.rs:115-144 | every byte outside the chosen spans is in the result, moved only by the masks before it |
| PiiMasker.MaskedIsText | crates/neurust-intel/src/security/pii_masker.rs:115-144 | masking spans between character boundaries leaves valid UTF-8 |
| PiiMasker.MaskKeepsShape | crates/neurust-intel/src/security/pii_masker.rs:131-136 | the mask of a registration number, a mobile number or a dashed card number has its length and its dashes in place and stars elsewhere; of a landline or spaced card number it never does |
| PiiMasker.OnlyReportIsReplaced | crates/neurust-intel/src/security/pii_masker.rs:127-141 | a single report is cut out of the text and replaced by the mask of its kind, each mask written out |
| PiiMasker.EarlierReportWins | crates/neurust-intel/src/security/pii_masker.rs:120-127 | of several reports with the same start only the first reported one can be masked, because the sort is stable |
| PiiMasker.NumbersAndAddressesAreMasked | crates/neurust-intel/src/security/pii_masker.rs:96-144 | in every text the spans chosen for masking cover the first byte of each registration number and of each e-mail address |
| CostForecaster.LinearRegression | crates/neurust-intel/src/observability/cost_forecaster.rs:153-180 | residuals of the returned line sum to zero and are orthogonal to the index; from two points on every other line has a strictly larger squared error |
| LeastSquares.NormalEquationsAreOptimal | crates/neurust-intel/src/observability/cost_forecaster.rs:153-180 | a line that satisfies the two residual equations has the least squared error, and is the only such line from two points on |
| LeastSquares.DenominatorClosed | crates/neurust-intel/src/observability/cost_forecaster.rs:164-174 | the accumulated denominator is n(n^2 - 1)/12, so the zero-spread exit is never taken for n of 2 or more |
| LeastSquares.SlopeSolvesNormalEquations | crates/neurust-intel/src/observability/cost_forecaster.rs:164-180 | the quotient of the accumulated sums solves the residual equations |
| CostForecaster.Forecast | crates/neurust-intel/src/observability/cost_forecaster.rs:93-147 | fails exactly below three days of data; otherwise it is the forecast of the least-squares line through the daily totals |
| CostForecaster.ForecastIsOrdered | crates/neurust-intel/src/observability/cost_forecaster.rs:93-147 | spent so far <= lower bound <= estimate <= upper bound for every line, and the bounds meet exactly when no day remains or the residuals do not deviate |
| CostForecaster.ForecastCoversSpend | crates/neurust-intel/src/observability/cost_forecaster.rs:93-147 | for every event log the cost since the cutoff is at most the lower bound of any forecast built on its daily totals |
| CostForecaster.BoundsMeetIffLinear | crates/neurust-intel/src/observability/cost_forecaster.rs:93-147 | the bounds equal the estimate if and only if no day remains or the series is exactly linear |
| CostForecaster.NoResidualsIffLinear | crates/neurust-intel/src/observability/cost_forecaster.rs:115-122 | the residuals of the fitted line all vanish if and only if the series is linear |
| CostForecaster.HigherConfidenceIsWider | crates/neurust-intel/src/observability/cost_forecaster.rs:124-126 | more confidence widens the interval on both sides and leaves the estimate alone |
| CostForecaster.LinearCostsAreForeseen | crates/neurust-intel/src/observability/cost_forecaster.rs:93-147 | if the series of daily totals continues on its line over the remaining days and stays non-negative, estimate and both bounds are the sum of the whole series, and the trend is that of its growth |
| MonthlyForecast.MonthIsForeseen | crates/neurust-intel/src/observability/cost_forecaster.rs:93-147 | for event logs: if the active days since the cutoff are exactly the days of this month up to today and the month goes on linearly, estimate and bounds equal what the calendar month costs in the end |
| MonthlyForecast.EstimateAndMonth | crates/neurust-intel/src/observability/cost_forecaster.rs:93-147 | otherwise the estimate differs from the cost since the start of the month plus the projection by exactly the cost between a longer look-back and that start, or before a shorter one |
| CostForecaster.StandardDeviationSign | crates/neurust-intel/src/observability/cost_forecaster.rs:183-193 | never negative, and zero if and only if there are fewer than two values or all equal their mean |
| CostForecaster.MarginOfForecast | crates/neurust-intel/src/observability/cost_forecaster.rs:115-146 | the square of the margin is that of the confidence factor, times the least squared error over n - 1, times the remaining days; the lower bound lies as far below the estimate but not below the spend; trend, confidence and number of points are those of the line and the series |
| CostForecaster.ProjectionByDay | crates/neurust-intel/src/observability/cost_forecaster.rs:107-113 | each remaining day adds what the line says for it, or nothing if that is negative |
| CostForecaster.ZScoreByConfidence | crates/neurust-intel/src/observability/cost_forecaster.rs:196-211 | the factor for each named confidence |
| EventStore.InMemoryEventStore.RecordCost | crates/neurust-intel/src/store/mod.rs:75-78 | appends the event |
| EventStore.InMemoryEventStore.DailyCosts | crates/neurust-intel/src/store/mod.rs:80-109 | one total for each day with events since the cutoff, in strictly increasing day order, each the exact cost of that day |
| EventStore.DailyTotalsConserveCost | crates/neurust-intel/src/store/mod.rs:80-109 | for every log the daily totals add up to exactly the cost of the events at or after the cutoff |
| EventStore.DailyTotalsUnique | crates/neurust-intel/src/store/mod.rs:80-109 | log and cutoff determine the totals, whatever order the hash map is visited in |
| EventStore.CutoffIsIncluded | crates/neurust-intel/src/store/mod.rs:97-99 | an event counts from the very millisecond of the cutoff on |
| MonthlyForecast.SameDayIffSameDate | crates/neurust-intel/src/store/mod.rs:93-102 | two events share a daily total if and only if they fall on the same calendar date |
| MonthlyForecast.CutoffIsDaysBefore | crates/neurust-intel/src/store/mod.rs:87-93 | the cutoff lies as many calendar days before now as the look-back says, at the same time of day |
| BudgetManager.BudgetManager.constructor | crates/neurust-intel/src/observability/budget_manager.rs:94-100 | the counter starts at zero |
| BudgetManager.BudgetManager.RecordCost | crates/neurust-intel/src/observability/budget_manager.rs:103-105 | adds the truncated micro-dollars to the 64-bit counter, which wraps |
| BudgetManager.MicroDollars | crates/neurust-intel/src/observability/budget_manager.rs:103-106 | a cost counts as its whole micro-dollars, a negative one as nothing, a huge one as the largest counter value, in a counter that wraps at 2^64 |
| BudgetManager.BudgetManager.OnRequest | crates/neurust-intel/src/observability/budget_manager.rs:203-214 | without a hard limit every request is admitted; with one, a request is admitted if and only if the spend is below a positive budget, nothing is spent of a zero budget, or the budget is negative; a positive share is reported as left exactly below a positive budget |
| BudgetManager.BudgetManager.RefreshFromStore | crates/neurust-intel/src/observability/budget_manager.rs:167-187 | the counter becomes the truncated cost of the events since the period start |
| BudgetManager.CounterLag | crates/neurust-intel/src/observability/budget_manager.rs:103-105 | after n non-negative costs the counter is at most the true sum and less than n micro-dollars below it |
| BudgetManager.RefreshAgreesWithCounter | crates/neurust-intel/src/observability/budget_manager.rs:103-187 | truncating the sum gives between the counter and the counter + n - 1 |
| BudgetManager.RefreshMatchesRecording | crates/neurust-intel/src/observability/budget_manager.rs:103-187 | for every event log whose period costs were recorded, in any order, a refresh moves the counter up by less than their number and never down |
| BudgetManager.OrderDoesNotMatter | crates/neurust-intel/src/observability/budget_manager.rs:103-105 | the counter is the same for every order of the recordings, wrap-around included |
| BudgetManager.CounterIsWrappedSum | crates/neurust-intel/src/observability/budget_manager.rs:103-105 | the counter is the sum of the truncated costs modulo 2^64 |
| BudgetGuard.SpendStaysBounded | crates/neurust-core/src/pipeline.rs:35-86 | with a hard limit, a positive budget, at most k requests other than streams in flight, each costing at most C, and any number of streams, recorded spend stays below L + k * C in every reachable state, whatever layer or provider fails; L is the budget if every refresh restores less than it (or there is none), else any bound on what refreshes restore |
| BudgetGuard.NoAdmissionAfterExhaustion | crates/neurust-intel/src/observability/budget_manager.rs:158-214 | with a hard limit and a positive budget, once the budget has been reached no request, stream or not, passes the check until the next refresh |
| BudgetGuard.StepKeepsInvariant | crates/neurust-intel/src/observability/budget_manager.rs:103-232 | every step, a refresh included, keeps spend plus what admitted requests other than streams may still add below L + k * C, and only a refresh lowers the counter |
| BudgetInPipeline.RequestIsChargedOnce | crates/neurust-core/src/pipeline.rs:35-86 | with the budget manager at any place in a pipeline of any length, the counter ends charged exactly once for the very response that comes back to the budget layer, or unchanged if none does; one does whenever the run completes, none for a blocked request or a stream, and in a failed run only if a layer before the budget layer failed on the way out |
| BudgetInPipeline.BudgetRun | crates/neurust-core/src/pipeline.rs:35-86 | the run from the budget layer inwards is charged for exactly the response it returns, and nothing when it is blocked, fails or streams |
| BillingCalendar.PeriodStartIsValid | crates/neurust-intel/src/observability/budget_manager.rs:257-301 | for every valid date and every reset day the period start is a valid Gregorian date |
| BillingCalendar.PeriodStartDistance | crates/neurust-intel/src/observability/budget_manager.rs:257-301 | the start lies 0 to 30 days back for reset days 1 to 31, 1 to 31 days back above, and not in the future if and only if the reset day is positive or today ends the month |
| BillingCalendar.PeriodStartIsMonotone | crates/neurust-intel/src/observability/budget_manager.rs:257-301 | the start never moves backwards as the date advances, for every reset day |
| BillingCalendar.PeriodStartIsFixed | crates/neurust-intel/src/observability/budget_manager.rs:257-301 | a start is its own period start if and only if its month has the reset day |
| BillingCalendar.PeriodStartIsLatest | crates/neurust-intel/src/observability/budget_manager.rs:257-285 | the start is on the reset day or, in a shorter month, on its last day, and no later date up to today falls on the reset day |
| BillingCalendar.DatesSharePeriod | crates/neurust-intel/src/observability/budget_manager.rs:257-285 | for reset days 1 to 28 all dates from the start up to today have the same period |
| BillingCalendar.DaysFromPeriodStart | crates/neurust-intel/src/observability/budget_manager.rs:257-285 | from 1970 on a timestamp passes the period filter if and only if its day is not before the day of the period start |
| BillingCalendar.KnownPeriodStart | crates/neurust-intel/src/observability/budget_manager.rs:257-285 | for March 15, 2024 and reset day 10 the start is the timestamp of midnight of March 10 |
| BillingCalendar.DateOfTimestamp | crates/neurust-intel/src/observability/budget_manager.rs:257-285 | every timestamp falls on exactly one calendar date, counted from the first of 1970 |
| BillingCalendar.MonthLengths | crates/neurust-intel/src/observability/budget_manager.rs:288-301 | which months have thirty and thirty-one days, and that February alone has fewer |
| BillingCalendar.YearLength | crates/neurust-intel/src/observability/budget_manager.rs:288-301 | the leap-year rule for February agrees with the Gregorian count of days before each year |
| BillingCalendar.MonthsOfYear | crates/neurust-intel/src/observability/budget_manager.rs:288-301 | the month lengths add up to the length of the year |
| BillingCalendar.NextMonth | crates/neurust-intel/src/observability/budget_manager.rs:288-301 | the day after the last day of a month is the first of the next, over the year boundary too |
| BillingCalendar.DayNumberFollowsCalendar | crates/neurust-intel/src/observability/budget_manager.rs:257-301 | day numbers order valid dates exactly as the calendar does |
| Pipeline.Execute | crates/neurust-core/src/pipeline.rs:35-86 | the two loops with their early exits leave the same world, the same rewritten request and the same result as the nested form in which each layer surrounds the ones inside it; a failing request hook may have rewritten the request |
| PipelineTrace.VisitsInOrder | crates/neurust-core/src/pipeline.rs:35-86 | for every pipeline: layers in order, then the provider, then layers in reverse order; a failure ends the visits where it happens and names the layer, a missing provider is never called, a stream ends them behind the provider |
| PipelineTrace.TwoLayers | crates/neurust-core/src/pipeline.rs:35-86 | each layer sees the request, and on the way out the response, as the layer before it left it |
| PipelineTrace.NoLayers | crates/neurust-core/src/pipeline.rs:44-73 | without layers the provider found decides: its answer, its stream, its failure, or that there is none |
| StreamHandler.HandleStream | crates/neurust-gateway/src/routes/inference.rs:426-520 | one event for each chunk up to the first finishing one, an error event if the stream broke, then the end marker; a completion exactly when the finishing chunk reports usage |
| StreamHandler.ClientTextIsDeltas | crates/neurust-gateway/src/routes/inference.rs:426-520 | the text a client assembles is the concatenation of the provider's deltas |
| StreamHandler.OutputShape | crates/neurust-gateway/src/routes/inference.rs:426-520 | the role is on the first chunk only, a finish reason only on the last data chunk, `[DONE]` comes exactly once and last, and one completion is published if and only if the last data chunk carries both a finish reason and usage, with that usage |
| StreamHandler.EventsMirrorItems | crates/neurust-gateway/src/routes/inference.rs:430-500 | each chunk event shows its chunk: its text if any, its usage, `stop` if it finishes, and the role `assistant` on the first; an error event shows the error of the item in its place, behind `Stream error: ` |
| StreamHandler.FinishReasonShown | crates/neurust-gateway/src/routes/inference.rs:426-520 | a finish reason is shown if and only if a finishing chunk was delivered |
| OpenAiStream.CompleteStream | crates/neurust-core/src/provider/openai.rs:143-191 | the line loop yields exactly the chunks of the lines, for every sequence of reads |
| OpenAiStream.DataArrives | crates/neurust-core/src/provider/openai.rs:155-180 | a data line contributes its payload's delta, finished if and only if the payload names a finish reason; nothing if it cannot be decoded; the end for `[DONE]` |
| OpenAiStream.SilentLineIsIgnored | crates/neurust-core/src/provider/openai.rs:150-155 | blank lines, comments and lines without the data prefix contribute nothing |
| OpenAiStream.ErrorArrives | crates/neurust-core/src/provider/openai.rs:184-190 | a failed read ends the stream with its error, behind `Stream read error: ` |
| OpenAiStream.ClientReceivesUpstream | crates/neurust-core/src/provider/openai.rs:143-191 | composed with the gateway: the client's text is the upstream's, a finish reason appears if and only if the upstream concludes, and no completion is published |
| OpenAiStream.AnswerRoundTrip | crates/neurust-core/src/provider/openai.rs:143-191 | round trip: deltas written as data lines, with blank, garbled and other lines in between, either line end, and a finish reason or `[DONE]` at the end, reach the client as their concatenation, with the finish reason on the last data chunk and no error |
| AnthropicStream.CompleteStream | crates/neurust-core/src/provider/anthropic.rs:163-218 | the event and data state machine yields exactly the chunks of the lines, for every sequence of reads |
| AnthropicStream.EventArrives | crates/neurust-core/src/provider/anthropic.rs:171-211 | whatever event was in force before: a content delta contributes its text or nothing, a message delta the end and its tokens, a stop the end of the stream, an undecodable payload nothing, and every other event nothing; none leaves an event in force |
| AnthropicStream.OtherLineIsIgnored | crates/neurust-core/src/provider/anthropic.rs:171-211 | a line that is neither blank nor an event or data line contributes nothing and leaves the event in force |
| AnthropicStream.ErrorArrives | crates/neurust-core/src/provider/anthropic.rs:212-217 | a failed read ends the stream with its error, behind `Stream read error: ` |
| AnthropicStream.ClientReceivesUpstream | crates/neurust-core/src/provider/anthropic.rs:163-218 | composed with the gateway: the client's text is that of the content deltas, a finish reason appears if and only if a message delta arrives, one completion if and only if that reports its tokens |
| AnthropicStream.AnswerRoundTrip | crates/neurust-core/src/provider/anthropic.rs:163-218 | round trip: an answer written as one text of server-sent events, with other events, undecodable payloads and other lines anywhere in between, either line end, and anything behind the stop, reaches the client with exactly the text of its deltas, publishes its tokens if it reports them, and shows no error |
| UpstreamLines.LinesAreBody | crates/neurust-core/src/provider/anthropic.rs:166-171 | reading line by line loses and changes nothing of the body |
| UpstreamLines.LinesAreLines | crates/neurust-core/src/provider/anthropic.rs:166-171 | every line read is non-empty and has a newline at its end only |
| Bandit.SlidingWindowUcb.RecordReward | crates/neurust-intel/src/router/bandit.rs:84-114 | one more update in the history; a new model at the limit replaces an arm with a minimal window; all arms follow the history |
| Bandit.SlidingWindowUcb.DropOldest | crates/neurust-intel/src/router/bandit.rs:110-113 | popping from the front leaves as many observations as fit the window, and index by index the last ones |
| Bandit.SlidingWindowUcb.LeastUsedArm | crates/neurust-intel/src/router/bandit.rs:87-92 | the arm to evict has a minimal number of observations |
| Bandit.UpdateFollowsHistory | crates/neurust-intel/src/router/bandit.rs:84-114 | an update keeps every arm equal to the last rewards since it was last created, up to the window size |
| Bandit.RunFollowsHistory | crates/neurust-intel/src/router/bandit.rs:84-114 | after any updates, from the empty bandit on, there are at most 1000 arms, and each holds, index by index, exactly the last rewards since it was last created |
| Bandit.EvictionAtLimit | crates/neurust-intel/src/router/bandit.rs:84-97 | an arm is evicted exactly when a new model comes to 1000 arms, one with the fewest observations, and no other arm changes |
| Bandit.MeanIsAverage | crates/neurust-intel/src/router/bandit.rs:50-67 | the mean is the average of the window, 0.5 without observations |
| Bandit.CountsFollowHistory | crates/neurust-intel/src/router/bandit.rs:117-127 | the count of an arm is the number of rewards since it was last created, cut at the window; the total is the number of all updates, saturating |
| Bandit.ArmsStayBounded | crates/neurust-intel/src/router/bandit.rs:84-97 | an update never exceeds the arm limit |
| Bandit.MeansStayInUnitInterval | crates/neurust-intel/src/router/bandit.rs:50-67 | if every recorded reward is in [0, 1], so is every model's mean |
| CostAuctioneer.CostAuctioneer.SelectBest | crates/neurust-intel/src/router/cost_auctioneer.rs:60-113 | fails only without candidates; the first candidate during warm-up; past it and without exploration the first candidate of least combined score; with exploration the candidate in whose equal part of the interval the random number lies |
| CostAuctioneer.CostAuctioneer.OnResponse | crates/neurust-intel/src/router/cost_auctioneer.rs:186-197 | records one reward in [0, 1] for the model, by its latency alone |
| CostAuctioneer.Reward | crates/neurust-intel/src/router/cost_auctioneer.rs:186-197 | falls linearly from 1 at latency 0 to 0 at 5000 ms, and stays 0 |
| CostAuctioneer.SafeNormalize | crates/neurust-intel/src/router/cost_auctioneer.rs:211-235 | always between 0 and 1 |
| CostAuctioneer.NormalizedPosition | crates/neurust-intel/src/router/cost_auctioneer.rs:211-235 | the position between the least and the greatest value, clamped to 0 and 1; 0.5 without a second value or with a range below 2^-52 |
| CostAuctioneer.ScoreIsWeightedSum | crates/neurust-intel/src/router/cost_auctioneer.rs:76-100 | the score is the weighted sum of normalised cost, normalised latency and missing quality, cost counting half as much again below a fifth of the budget |
| CostAuctioneer.WeightsByRequestType | crates/neurust-intel/src/router/cost_auctioneer.rs:122-141 | configured weights are used if and only if there are some for the type of the request, interactive by default |
| CostAuctioneer.NormalizeIsMonotone | crates/neurust-intel/src/router/cost_auctioneer.rs:211-235 | keeps the order of the values |
| CostAuctioneer.BestIsNotDominated | crates/neurust-intel/src/router/cost_auctioneer.rs:60-113 | with non-negative weights and positive quality weight the choice is never one that another matches in cost and latency and beats in quality |
| CostAuctioneer.SingleCriterionDecides | crates/neurust-intel/src/router/cost_auctioneer.rs:60-113 | when only one weight is positive the cheapest, the fastest or the best candidate is chosen |
| CostAuctioneer.TightBudgetIsNotDearer | crates/neurust-intel/src/router/cost_auctioneer.rs:60-113 | below a fifth of the budget the choice never has a higher normalised cost than at or above it |
| CostAuctioneer.ChoiceIgnoresCostUnit | crates/neurust-intel/src/router/cost_auctioneer.rs:60-113 | the choice is unchanged when all costs undergo the same increasing affine map, as long as the range stays on its side of the resolution limit |
| CostAuctioneer.LearnedMeansAreNormalized | crates/neurust-intel/src/router/cost_auctioneer.rs:186-197 | after any sequence of responses from the empty bandit on, evictions included, every model's mean reward is in [0, 1] |
| PromptGuard.NormalizeForDetection | crates/neurust-intel/src/security/prompt_guard.rs:228-250 | the loop equals the simple form: lowercase, drop the stripped characters, split on whitespace, join with one space |
| PromptGuard.TrimmedCollapse | crates/neurust-intel/src/security/prompt_guard.rs:231-250 | collapsing whitespace runs and trimming is splitting into words and joining them |
| PromptGuard.ScanInput | crates/neurust-intel/src/security/prompt_guard.rs:129-149 | rejects if and only if a pattern occurs in the normal form of some user message |
| PromptGuard.MatchPatterns | crates/neurust-intel/src/security/prompt_guard.rs:136-145 | the early-exit loop finds a pattern if and only if one occurs |
| PromptGuard.NormalizationIsIdempotent | crates/neurust-intel/src/security/prompt_guard.rs:228-250 | normalising a normalised text changes nothing |
| PromptGuard.VerdictDependsOnWords | crates/neurust-intel/src/security/prompt_guard.rs:129-149 | two texts with the same words, stripped characters set aside, get the same verdict, although a final sigma is lowercased by context |
| PromptGuard.StrippedCharactersDoNotMatter | crates/neurust-intel/src/security/prompt_guard.rs:129-149 | inserting stripped characters anywhere does not change the verdict |
| PromptGuard.WhitespaceRunsAreAlike | crates/neurust-intel/src/security/prompt_guard.rs:129-149 | replacing a whitespace run by another does not change the verdict |
| PromptGuard.PatternsHaveNoSigma | crates/neurust-intel/src/security/prompt_guard.rs:76-93 | the patterns of the guard meet the condition of the three results above |
| InjectionPatterns.DisguisedPatternIsCaught | crates/neurust-intel/src/security/prompt_guard.rs:76-149 | any text is rejected that has a part which, lowercased, stripped and with single spaces, is a pattern, whatever stands around it |
| InjectionPatterns.InvisibleCharactersDoNotHide | crates/neurust-intel/src/security/prompt_guard.rs:228-250 | a null character or one of U+200B, U+200C, U+200D, U+FEFF anywhere inside a pattern does not hide it in any text |
| InjectionPatterns.PatternsAreNormal | crates/neurust-intel/src/security/prompt_guard.rs:76-93 | the sixteen patterns, each equal to its own normal form |
| UnicodeText.WhitespaceIsListed | crates/neurust-intel/src/security/prompt_guard.rs:231-247 | the twenty-five whitespace characters one by one |

## Left out

- A scan of the concurrent map reads it at one moment; the parts of a real scan can be read at different moments.
- Hit counters do not wrap at 2^64.
- A general condition under which masking twice changes nothing.
- Audit records, the keyword automaton that detection builds and never uses, the direction settings of the PII layer, and its streaming window.
- The layers of the pipeline are functions over a world value, so aliasing between layers and suspension inside a hook are not captured; concurrency is modelled in the cache and the budget guard.
- The scanners take and return the list of matches as a value.
- BudgetManager.BudgetManager.RecordCost: the warnings written to the log, and the overflow check a debug build makes on the sum it logs, are not modelled.
- BudgetManager.BudgetManager.OnRequest: the infinite or undefined share that a budget of zero gives is modelled as no share.
- CostForecaster.Forecast: the date string of the forecast is not part of the model, and rounding is not modelled.
- CostAuctioneer.SafeNormalize: values that are not finite are not modelled.
- Bandit.MeansStayInUnitInterval: speaks of the mean alone; the exploration bonus of a score, with its logarithm and square root, is not modelled.
- The estimate of a response's cost from its tokens; a cost is an input of the budget manager.
- A chunk that cannot be serialised in the gateway's stream loop.
- The status reports of the budget, the price tables, the complexity gate, and the role and n-gram checks of the prompt guard.
- The semantic cache, the computation of cache keys (a key is any 64-bit number), fallback, health checks and load balancing.
- HTTP serving, the providers' HTTP calls, the SQLite and PostgreSQL stores, and the files and timers of the cache dump.
