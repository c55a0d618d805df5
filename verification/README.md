# Verification model of the Firefly framework's state machines and translations

This project models, in Dafny, the parts of Firefly where a small piece of code has to keep a large promise:

| file | what it models |
|---|---|
| `Histogram.dfy`, `Scrape.dfy` | metric cells: compare-and-swap loops, bucket counting, and a scrape that reads the cells one by one while observers are half done |
| `MemoryCache.dfy`, `LruOrder.dfy`, `CacheThreads.dfy`, `CacheEviction.dfy` | the bounded in-memory cache: the object, its refinement of the move-to-end list, its behaviour when stamps are drawn outside the lock, and what its bound evicts |
| `FallbackCache.dfy` | the primary-plus-secondary composite under transport failures |
| `KeyPatterns.dfy` | glob to SQL `LIKE`, and literal-prefix escaping for Postgres and Redis, against matchers for both pattern languages |
| `Pointcut.dfy`, `AdviceChain.dfy` | the pointcut compiler down to the text of the regular expression, the ordered registry, and the advice chain with its trace |
| `Callbacks.dfy`, `CanonicalJson.dfy`, `SortedMap.dfy` | callback delivery with retries and an audit log, the allowlist, and the canonical form that is signed |
| `LogStream.dfy`, `SampleStreams.dfy` | the cursors of the server-sent event streams over their ring buffers |
| `Loggers.dfy`, `LoggerThreads.dfy` | the logger directive table, its printer and parser, level changes (one after another, and overlapping from many threads) and inherited levels |
| `Naming.dfy` | splitting identifiers into words and joining them again in every case style |
| `Text.dfy` | the string library functions used above, with the laws that relate `split` and `join` |

Objects whose methods update fields are classes whose methods are proved against a function of the old state; the properties are then lemmas about those functions. Whatever several threads do at once is a transition system, and a property of it is proved for every state of every run.

## Assumptions

- `f64` is `real`: no rounding, no NaN. Counters and ids are unbounded, where the code wraps at 64 bits (durations and `u32` attempt numbers likewise).
- Atomics are sequentially consistent single steps. The code uses `Relaxed` ordering throughout; the order of cells that the scrape theorems rely on is therefore an assumption on weakly ordered hardware.
- Locks are not poisoned, and everything done under one lock acquisition is one step. The objects `MemoryAdapter`, `FallbackAdapter`, `HmacDispatcher` and `LoggersState` serve one call at a time, and so do the results about runs of them; overlapping calls are the subject of `Scrape`, `CacheThreads`, `LoggerThreads` and, for two writes of one key through the composite, `OverlappedWritesAgreeIff`.
- Clocks are parameters. One cache operation sees one value of the clock. Retry delays are in nanoseconds.
- What lies outside the process is a parameter: replies of HTTP targets, the list of targets, faults of cache stores, batches of a Redis scan, the decisions of `EnvFilter` and of the reload handle, and the answers of aspects.
- The `regex` crate, SQL `LIKE ... ESCAPE '\'`, and Redis glob matching are modelled by small matchers in `Pointcut.dfy` and `KeyPatterns.dfy`, for the constructs the generated patterns can contain. The size limit the `regex` crate puts on compiled expressions, beyond which compiling a pointcut panics, is not reached.
- Case mapping is ASCII, which is exact for everything cased here except `to_lowercase` and `to_uppercase` on words, and those are ASCII by construction.

## Where code and documentation disagree

The model follows the code. For each point the exact condition under which the documented reading holds is proved, with an instance on which it fails; for the error branch of the composite, that it is never taken.

- `BACKOFF_CAP` is said to bound every delay. The first sleep is the configured initial delay, uncapped: `SleepsWithinCap`, `FirstSleepOverCap`.
- The `+Inf` bucket is said to equal the count. The rendered text reads the count twice, and the two numbers are equal exactly when no observer counted in between: `InfEqualsCountWhenQuiet`, `LateObserverSplitsLines`.
- A histogram's maximum is documented as the largest observed value. The cell starts at 0, so that holds exactly when some value is not negative: `MaxIsLargestIff`, `NegativeValueHasMaxZero`.
- The bound of the cache is documented as one on live entries, the least recently used live entry going first. Expired entries count and compare like any other: `EvictionIsDocumentedIff`, `LiveEntryLostIff`, `ExpiredEntryOutlivesLive`.
- Least recently used means that the key just written stays. A writer whose stamp was overtaken between drawing it and taking the lock can evict its own entry: `SurvivesUnlessOldest`, `LateWriterLosesItsWrite`. One caller at a time never does: `SequentialWriteSurvives`.
- The composite is documented to surface an unknown error class of the primary. `is_transport` accepts every error but `NotFound`, so no error of the primary is ever surfaced by `get`: `EveryPrimaryErrorDemotes`.
- An inherited level is documented as that of the closest configured ancestor. That holds under every table exactly for names without three colons in a row: `InheritedIsDocumentedIff`, `TripleColonSkipsAncestor`; `InheritedIsClosest` gives the level for all names.
- `directives` is documented as what the filter was last reloaded with. A seed that is not in printed form differs before any call (`SeedIsPrintedIff`, `SeedWithoutRootStaysApart`); `set_level` changes the table before it builds and reloads the filter, and the change stays when either fails (`DirectivesAreLoadedIff` over any calls, `CallKeepsLoadedIff` for one, `RefusedReloadStaysPrinted`); and of two calls that overlap the later reload can load the older text although both succeed (`PrintedIsLoadedIff` and `AgreeIffUnchangedSinceRead` over any interleaving, `LateReloadDropsLevel`).
- The trace stream is documented to push each newly captured trace. Its cursor is a length, so it stops once the buffer is full: `TraceCompleteIffNeverFull`, `SecondTraceIsNeverSent`.
- `y` "preceded by a consonant" becomes `ies`. So does a `y` after a digit and a `y` that is the whole word: `YRuleIff`, `LoneYTurnsToIes`.
- A name is said to be missing when the input has no alphanumeric characters. Only ASCII ones count: `NoNamesIff`, `NonAsciiLetterHasNoName`.
- The host of a callback URL is documented as the one behind `scheme://`. The first `://` need not belong to the scheme: `ReadsAuthorityIff`, `QueryReadAsHost`.
- The forms without separators (Pascal, camel, upper-case) do not always split back into the same words: `PascalRoundTripIff`, `PascalLosesWord`, `CamelRoundTripIff`, `CamelLosesWord`, `ScreamingRoundTripIff`, `ScreamingLosesWord`.

## Model

| member | source | states |
|---|---|---|
| Histogram.SortDedup | crates/actuator/src/metrics.rs:191-194 | the kept bounds are strictly ascending and are exactly the given finite values |
| Histogram.AscendingUnique | crates/actuator/src/metrics.rs:193-194 | a strictly ascending list is determined by its elements, so no other sorting of the bounds is possible |
| Histogram.Series.constructor | crates/actuator/src/metrics.rs:191-205 | a new series has those bounds, one empty bin for each, and zero count, sum and maximum |
| Histogram.NewCellsAre | crates/actuator/src/metrics.rs:191-205 | the bounds of a new series are exactly the finite ones given, each once and ascending; every cell is zero |
| Histogram.Series.AtomicAdd | crates/actuator/src/metrics.rs:63-72 | however often the weak exchange fails spuriously, the value is added once |
| Histogram.Series.AtomicMax | crates/actuator/src/metrics.rs:75-87 | however often the weak exchange fails spuriously, the cell becomes the larger of its value and the offered one |
| Histogram.Series.Observe | crates/actuator/src/metrics.rs:208-217 | one observation changes all cells as one recorded value: count, sum, maximum and the one bin whose bound is the first at or above the value |
| Histogram.Series.BucketCounts | crates/actuator/src/metrics.rs:243-252 | the running totals are the cumulative counts bin by bin |
| Histogram.BucketsAreExact | crates/actuator/src/metrics.rs:240-252 | after any list of values, cumulative bucket `j` has grown by the number of values at or below bound `j` |
| Histogram.NewBucketsEmpty | crates/actuator/src/metrics.rs:195-200 | a new series starts every cumulative bucket from zero |
| Histogram.TotalsAreExact | crates/actuator/src/metrics.rs:219-232 | after any list of values the count is their number, the sum their sum, the maximum the largest of 0 and the values |
| Histogram.MaxIsLargestIff | crates/actuator/src/metrics.rs:229-232 | the maximum is the largest observed value exactly when some value is not negative |
| Histogram.NegativeValueHasMaxZero | crates/actuator/src/metrics.rs:229-232 | a single -1 leaves a maximum of 0 |
| Histogram.PassesAreOnePass | crates/actuator/src/metrics.rs:634-638 | the three replacement passes equal one simultaneous escape |
| Histogram.LabelValueRoundTrip | crates/actuator/src/metrics.rs:634-638 | every label value is read back from between the quotes, whatever it contains and whatever follows |
| Scrape.RunKeepsInv | crates/actuator/src/metrics.rs:63-87 | in every reachable state each cell is its start value plus exactly the contributions of the observers past that step, and the scraper's running total trails the bins |
| Scrape.CellsOnlyGrow | crates/actuator/src/metrics.rs:75-87 | no step of an observer lowers the count, the maximum or a bin |
| Scrape.ScrapeIsMonotone | crates/actuator/src/metrics.rs:437-466 | in every interleaving the printed buckets never decrease, none exceeds the printed `+Inf`, and that does not exceed the printed count |
| Scrape.ScrapeIsFresh | crates/actuator/src/metrics.rs:437-447 | a printed bucket lies between the cumulative bins at any moment before the scrape's first read and those at the present moment |
| Scrape.ConcurrentEqualsSequential | crates/actuator/src/metrics.rs:208-217 | once all observers are done, the cells equal those one thread leaves recording the same values in turn: no update is lost |
| Scrape.InfEqualsCountWhenQuiet | crates/actuator/src/metrics.rs:448-465 | printed `+Inf` and printed count are equal exactly when no observer raised the count between the two reads |
| Scrape.LateObserverSplitsLines | crates/actuator/src/metrics.rs:448-465 | a run that prints 0 at `+Inf` and 1 at the count |
| Scrape.SumIsOfAdded | crates/actuator/src/metrics.rs:454-459 | in any run the printed sum is the start value plus the values of exactly the observers that had added theirs when it was read |
| Scrape.ScrapeAtRestIsExact | crates/actuator/src/metrics.rs:437-466 | a scrape that starts when all observers are done prints, line by line, how many values are at or below each bound, their number and their sum |
| MemoryCache.MemoryAdapter.constructor | crates/cache/src/memory.rs:80-97 | an empty cache; a bound of zero means none |
| MemoryCache.MemoryAdapter.NextSeq | crates/cache/src/memory.rs:128-130 | stamps count up from zero |
| MemoryCache.MemoryAdapter.FindVictim | crates/cache/src/memory.rs:139-143 | the victim carries the smallest stamp in the map |
| MemoryCache.MemoryAdapter.EnforceBound | crates/cache/src/memory.rs:134-150 | evicts victims until the bound holds, counting each |
| MemoryCache.MemoryAdapter.Get | crates/cache/src/memory.rs:155-181 | new map, counters and reply for a hit, a miss and an expired entry |
| MemoryCache.MemoryAdapter.Set | crates/cache/src/memory.rs:183-197 | the written and then bounded map |
| MemoryCache.MemoryAdapter.Delete | crates/cache/src/memory.rs:199-204 | the map without the key, counted as an eviction if it was there |
| MemoryCache.MemoryAdapter.Clear | crates/cache/src/memory.rs:206-209 | the empty map with unchanged counters |
| MemoryCache.MemoryAdapter.SetIfAbsent | crates/cache/src/memory.rs:224-250 | refuses on a live entry; otherwise replaces an expired one, writes and bounds |
| MemoryCache.MemoryAdapter.Exists | crates/cache/src/memory.rs:254-265 | drops an expired entry, leaves recency alone |
| MemoryCache.MemoryAdapter.DeletePrefix | crates/cache/src/memory.rs:269-282 | removes exactly the keys that start with the prefix and returns their number |
| MemoryCache.BoundedFacts | crates/cache/src/memory.rs:134-150 | bounding leaves at most the bound, drops nothing when nothing is over, and counts every dropped entry |
| LruOrder.RunRefines | crates/cache/src/memory.rs:155-282 | over every sequence of calls the entries ordered by stamp are exactly the move-to-end list, with the same replies and counters |
| LruOrder.StepRefines | crates/cache/src/memory.rs:155-282 | each call keeps that refinement and answers as the list does |
| LruOrder.BoundedRefines | crates/cache/src/memory.rs:134-150 | evicting smallest stamps is dropping the head of the list |
| LruOrder.OrderIsUnique | crates/cache/src/memory.rs:134-150 | the list is determined by the map, so recency order is a fact of the map alone |
| CacheThreads.RunKeepsInv | crates/cache/src/memory.rs:128-197 | with drawing a stamp and the locked section as separate steps of any number of threads: stamps distinct and below the counter, bound respected, victim unique, additions equal length plus evictions plus cleared, reads equal hits plus misses |
| CacheThreads.LockedKeepsStamps | crates/cache/src/memory.rs:155-282 | any locked section with an unused stamp keeps stamps distinct and the bound |
| CacheThreads.LockedKeepsBalance | crates/cache/src/memory.rs:134-282 | any locked section keeps the ledger of additions, evictions, clears, hits and misses balanced |
| CacheThreads.SurvivesUnlessOldest | crates/cache/src/memory.rs:183-197 | the key just written is still there exactly when there was room or some other entry is older than its stamp |
| CacheThreads.NewestStampSurvives | crates/cache/src/memory.rs:183-197 | with the newest stamp the key just written survives its own bound check |
| CacheThreads.LateWriterLosesItsWrite | crates/cache/src/memory.rs:183-197 | a run of two writers in which a `set` returns after evicting its own entry |
| CacheEviction.SequentialWriteSurvives | crates/cache/src/memory.rs:183-197 | after any sequential run a key just written is there with its value, deadline and stamp |
| CacheEviction.EvictionIsDocumentedIff | crates/cache/src/memory.rs:132-150 | the live entries after a write are those of the documented rule exactly when the write fits, nothing has expired, or the oldest entry of all has |
| CacheEviction.RunEvictsAsDocumentedIff | crates/cache/src/memory.rs:84-150 | the same after any sequential run |
| CacheEviction.LiveEntryLostIff | crates/cache/src/memory.rs:132-150 | a write that overflows drops a live entry exactly when the oldest entry is live, however few live ones there are |
| CacheEviction.ExpiredEntryOutlivesLive | crates/cache/src/memory.rs:132-150 | with room for two, the live `a` goes and the expired `b` stays |
| CacheEviction.GetTells | crates/cache/src/memory.rs:155-181 | a read is a hit with the stored value exactly when the key is live; what is counted, and that an expired entry is gone |
| CacheEviction.ExistsTells | crates/cache/src/memory.rs:254-265 | true exactly when the key is live, an expired entry dropped and counted |
| CacheEviction.SetIfAbsentTells | crates/cache/src/memory.rs:224-250 | stores exactly when the key is not live, then like a plain write; else changes nothing |
| CacheEviction.DeleteAndClear | crates/cache/src/memory.rs:199-209 | `delete` leaves all but the key and counts it if it was there; `clear` leaves nothing and counts nothing |
| CacheEviction.DeletePrefixDropsExactly | crates/cache/src/memory.rs:269-282 | exactly the keys whose first characters are the prefix go; their number is told and counted |
| CacheEviction.TouchedIsNewest | crates/cache/src/memory.rs:163-250 | a hit, a write and a conditional write that stores make their key strictly the most recent |
| CacheEviction.OthersStayInPlace | crates/cache/src/memory.rs:155-282 | nothing else moves or changes an entry |
| CacheEviction.WrittenExpiresIff | crates/cache/src/memory.rs:70-74 | a written entry is expired at any later time exactly when a positive time to live, counted from the write, has been exceeded |
| CacheEviction.ReadUntilOutLived | crates/cache/src/memory.rs:155-197 | after any run a written value is read back until its time to live has passed and is a miss from then on, reads in between not prolonging it |
| FallbackCache.FallbackAdapter.Get | crates/cache/src/fallback.rs:50-61 | reply and stores of the composite step for `get` |
| FallbackCache.FallbackAdapter.Set | crates/cache/src/fallback.rs:64-71 | both stores are written; the secondary's answer counts |
| FallbackCache.FallbackAdapter.Delete | crates/cache/src/fallback.rs:74-81 | both stores are asked; the secondary's answer counts |
| FallbackCache.FallbackAdapter.Clear | crates/cache/src/fallback.rs:84-91 | both stores are asked; the secondary's answer counts |
| FallbackCache.FallbackAdapter.SetIfAbsent | crates/cache/src/fallback.rs:113-126 | both stores decide for themselves; the replies are combined |
| FallbackCache.FallbackAdapter.Exists | crates/cache/src/fallback.rs:131-138 | the secondary is asked only when the primary does not say yes |
| FallbackCache.FallbackAdapter.DeletePrefix | crates/cache/src/fallback.rs:143-151 | both stores drop the prefix; the counts are added |
| FallbackCache.EveryPrimaryErrorDemotes | crates/cache/src/fallback.rs:53-60 | whatever the primary fails with, `get` gives the secondary's answer: the branch for unknown errors is never taken |
| FallbackCache.GetReadsOverlay | crates/cache/src/fallback.rs:46-61 | under any faults a read is a read of the primary laid over the secondary, else the secondary's error |
| FallbackCache.ExistsAgreesWithGet | crates/cache/src/fallback.rs:128-138 | `exists` is true, false or an error as `get` hits, misses or fails, exactly when no store it asks answers `exists` with `NotFound` |
| FallbackCache.WritesAnswerAsSecondary | crates/cache/src/fallback.rs:64-91 | `set`, `delete` and `clear` answer as the secondary does whatever transport error the primary has |
| FallbackCache.ConditionalWriteReply | crates/cache/src/fallback.rs:113-126 | `set_if_absent` fails with the secondary, else tells fresh when the secondary lacked the key, or the primary answered and lacked it |
| FallbackCache.DeletePrefixReply | crates/cache/src/fallback.rs:143-151 | `delete_prefix` fails with the secondary, else adds the numbers of keys with the prefix, a silent primary counting none |
| FallbackCache.MissSignalEndsWrite | crates/cache/src/fallback.rs:64-151 | a primary that fails a write with `NotFound` ends the call there |
| FallbackCache.AgreeingPairIsOneMap | crates/cache/src/fallback.rs:50-151 | from agreeing stores, any sequence of operations keeps them equal and answers as one map, but for the doubled prefix count |
| FallbackCache.ReadYourWrite | crates/cache/src/fallback.rs:50-71 | a written value is read back exactly when the primary took it, or does not answer the read, or holds no other value |
| FallbackCache.ConditionalWriteExclusive | crates/cache/src/fallback.rs:113-126 | `set_if_absent` decides like one map exactly when the stores agree on the key |
| FallbackCache.WriteHealsKey | crates/cache/src/fallback.rs:64-81 | one write or delete answered by both makes them agree on that key |
| FallbackCache.SecondaryIsTheMap | crates/cache/src/fallback.rs:64-151 | whatever the primary missed, the secondary holds the map all operations amount to |
| FallbackCache.ReadIsCurrentUnlessPrimaryStale | crates/cache/src/fallback.rs:46-61 | after any such run a read is current exactly when the primary is silent, lacks the key, or holds the current value |
| FallbackCache.ReadIsCurrentIff | crates/cache/src/fallback.rs:50-151 | from the history of calls and faults alone: a read is current exactly when the primary is silent, or the calls it took leave it without the key or with the value all calls leave |
| FallbackCache.StoresHoldTheirHistories | crates/cache/src/fallback.rs:50-151 | with faults on both sides each store holds, key by key, what the calls it took amount to |
| FallbackCache.TwiceFaultyReadIsCurrentIff | crates/cache/src/fallback.rs:46-61 | with faults on both sides a read is current exactly when the store it comes to rest on holds the value all calls leave |
| FallbackCache.OverlappedWritesAgreeIff | crates/cache/src/fallback.rs:64-71 | two overlapping writes of a key leave the stores in agreement exactly when both saw the same order or the values are equal |
| FallbackCache.StalenessStartsIff | crates/cache/src/fallback.rs:50-151 | which one call makes a fresh key stale: one the primary missed while keeping an outdated value, or a conditional write only the primary carried out |
| FallbackCache.NoMissedCallNoStaleRead | crates/cache/src/fallback.rs:50-151 | a key cannot become stale through calls the primary took, conditional writes of that key aside |
| KeyPatterns.GlobToLikeLoop | crates/cache-postgres/src/lib.rs:549-563 | the character loop is the characterwise translation |
| KeyPatterns.LikeEscapeLoop | crates/cache-postgres/src/lib.rs:571-580 | the escaping loop is the characterwise translation |
| KeyPatterns.RedisEscapeLoop | crates/cache-redis/src/lib.rs:339-348 | the escaping loop is the characterwise translation |
| KeyPatterns.GlobToLikeMatches | crates/cache-postgres/src/lib.rs:541-563 | a key matches the glob exactly when it matches the translation under `LIKE` with escape `\`, which is never malformed |
| KeyPatterns.LikePrefixMatches | crates/cache-postgres/src/lib.rs:490-499 | the Postgres prefix pattern is well formed and matches exactly the keys that literally start with the prefix |
| KeyPatterns.RedisPrefixMatches | crates/cache-redis/src/lib.rs:276-304 | the Redis prefix pattern matches exactly the keys that literally start with the prefix |
| KeyPatterns.StoresDropSameKeys | crates/cache-redis/src/lib.rs:276-348 | memory, Postgres and Redis select the same keys for a prefix |
| KeyPatterns.RedisDeletePrefix | crates/cache-redis/src/lib.rs:276-304 | over any complete scan, repeated keys included, exactly the keys with the prefix go and each is counted once |
| Pointcut.SegmentToRegex | crates/aop/src/pointcut.rs:65-86 | the character loop produces the source of one segment |
| Pointcut.EscapesAreSyntax | crates/aop/src/pointcut.rs:82-82 | which characters are escaped; each escape is one the `regex` crate reads as the character itself, and no character with a meaning of its own stays bare |
| Pointcut.PatternParses | crates/aop/src/pointcut.rs:93-125 | the generated source is always a regular expression, and which one |
| Pointcut.CompiledPointcutIsSegmentLanguage | crates/aop/src/pointcut.rs:60-98 | for every pattern and name, a search with the generated expression succeeds exactly when the name is in the segment language |
| Pointcut.DecideMatch | crates/aop/src/pointcut.rs:135-137 | a decision procedure that agrees with the search of the compiled expression |
| AdviceChain.AspectRegistry.Register | crates/aop/src/registry.rs:120-138 | adds exactly the new binding and keeps the list sorted by order, then registration |
| AdviceChain.AspectRegistry.GetMatching | crates/aop/src/registry.rs:150-156 | the matching bindings in global order |
| AdviceChain.AspectRegistry.HasMatch | crates/aop/src/registry.rs:162-166 | true exactly when some binding matches |
| AdviceChain.RegisteredSorted | crates/aop/src/registry.rs:114-138 | after any registrations the list holds exactly those, sorted by order and, within it, by registration |
| AdviceChain.RegisteredInOrder | crates/aop/src/registry.rs:114-138 | in plain terms: a lower order first, an earlier registration first among equals |
| AdviceChain.FoundAfterRegistrations | crates/aop/src/registry.rs:147-156 | an interception finds exactly the registered aspects whose pattern matches the segments of the type name followed by those of the method name |
| AdviceChain.SortedUnique | crates/aop/src/registry.rs:133-138 | a sorted list is determined by its elements |
| AdviceChain.MatchingSorted | crates/aop/src/registry.rs:147-156 | a lookup keeps the order and finds every match and nothing else |
| AdviceChain.Interception.RunAroundChain | crates/aop/src/intercept.rs:194-211 | outcome and trace of the recursive continuation chain |
| AdviceChain.Interception.RunAfter | crates/aop/src/intercept.rs:182-186 | the after hooks of all bindings in order |
| AdviceChain.Interception.InterceptWithBindings | crates/aop/src/intercept.rs:124-178 | all `before`, the around block, all of exactly one of `after_returning` and `after_throwing`, all `after`; hooks behind the call see its outcome on the join point; the chain's outcome is returned |
| AdviceChain.Intercept | crates/aop/src/intercept.rs:104-116 | interception looks up the bindings of the qualified name and runs them |
| AdviceChain.ChainTraceShape | crates/aop/src/intercept.rs:188-211 | entries are a prefix of the binding order, exits mirror them in reverse, the call stands between exactly when all proceed |
| AdviceChain.EnteredUntilShortCircuit | crates/aop/src/intercept.rs:188-211 | every around before the last entered proceeds, and that one is the last of all or does not |
| AdviceChain.BeforesOpen | crates/aop/src/intercept.rs:129-132 | position by position, the `before` hooks open the trace with the join point as it was |
| AdviceChain.AroundBlock | crates/aop/src/intercept.rs:188-211 | position by position, entries, the call if all proceed, exits from the inside out with what the chain from there came to |
| AdviceChain.HookFollowsOutcome | crates/aop/src/intercept.rs:156-173 | position by position, behind the block one `after_returning` per binding with the value on success, one `after_throwing` with the error on failure |
| AdviceChain.AftersClose | crates/aop/src/intercept.rs:156-186 | position by position, the `after` hooks close the trace and see the recorded outcome |
| AdviceChain.OutcomeIsFolded | crates/aop/src/intercept.rs:194-211 | the outcome is the innermost outcome passed outwards through the entered arounds |
| AdviceChain.NoBindingsIsPlainCall | crates/aop/src/intercept.rs:130-132 | without bindings only the original call happens |
| AdviceChain.OriginalRunsAtMostOnce | crates/aop/src/intercept.rs:104-211 | in the whole trace the original call occurs once if every around proceeds and never otherwise |
| Callbacks.HmacDispatcher.constructor | crates/callbacks/src/core.rs:138-161 | zero fields take the defaults |
| Callbacks.HmacDispatcher.Deliver | crates/callbacks/src/core.rs:173-213 | rows, sleeps and result up to the first attempt that succeeds or fails permanently, else the whole budget |
| Callbacks.HmacDispatcher.Dispatch | crates/callbacks/src/core.rs:309-327 | the rows of all targets in order; it fails only when the listing fails |
| Callbacks.LastAttempt | crates/callbacks/src/core.rs:194-205 | the deciding attempt: none before it succeeds or fails permanently |
| Callbacks.RetryableIs | crates/callbacks/src/core.rs:60-78 | exactly 408, 429 and everything from 500 is retried; exactly 200 to 299 succeeds |
| Callbacks.DecidedBy | crates/callbacks/src/core.rs:163-213 | in terms of the responses: what every earlier attempt was, what ended the delivery, and the verdict with its status and error |
| Callbacks.RowsHoldTheirAttempts | crates/callbacks/src/core.rs:180-193 | every field of a row comes from its own attempt |
| Callbacks.Settings | crates/callbacks/src/core.rs:138-157 | three attempts, 200 milliseconds, a cap of five minutes |
| Callbacks.SleepsDouble | crates/callbacks/src/core.rs:206-210 | the first sleep as configured, each further one twice the one before, cut at five minutes |
| Callbacks.TargetRowsAre | crates/callbacks/src/core.rs:309-345 | who gets an event, who is turned away and with which row |
| Callbacks.DeliveredIffReached2xx | crates/callbacks/src/core.rs:163-213 | delivered exactly when some attempt in the budget gets a 2xx before any permanent failure |
| Callbacks.RowsAreConsecutive | crates/callbacks/src/core.rs:175-205 | rows are numbered 1 to k, all but the last are retryable failures, one sleep between two rows |
| Callbacks.SleepsWithinCap | crates/callbacks/src/core.rs:206-210 | every sleep is within the cap exactly when there is none or the initial delay is |
| Callbacks.FirstSleepOverCap | crates/callbacks/src/core.rs:173-213 | a delivery whose one sleep is longer than the cap |
| Callbacks.SleepsAscend | crates/callbacks/src/core.rs:206-210 | back-off never shrinks when the initial delay is within the cap |
| Callbacks.RequestsOnlyToAllowed | crates/callbacks/src/core.rs:303-324 | every row belongs to a subscribed target; it stands for a request exactly when the allowlist admits the target |
| Callbacks.TargetGetsItsTurn | crates/callbacks/src/core.rs:298-325 | for each target the log holds, in its place, rows of its own: none if it does not subscribe, else exactly one first row and it leads |
| Callbacks.EveryTargetGetsItsTurn | crates/callbacks/src/core.rs:298-325 | there are as many first rows as subscribed targets |
| Callbacks.AdmitsWholeLabels | crates/callbacks/src/core.rs:345-361 | an entry admits a host exactly when its labels are the host's last labels |
| Callbacks.AuthorizedIff | crates/callbacks/src/core.rs:345-361 | a URL is authorized exactly when it has a host that some entry, trimmed and lowered, covers with whole labels |
| Callbacks.NoSchemeNoHost | crates/callbacks/src/core.rs:363-371 | without a scheme separator there is no host and nothing is authorized |
| Callbacks.UnclosedBracketHasNoHost | crates/callbacks/src/core.rs:379-382 | nor with a bracket that is not closed |
| Callbacks.HostOfAssembledUrl | crates/callbacks/src/core.rs:363-388 | the host is extracted whatever scheme, user info, port and tail surround it |
| Callbacks.HostOfBracketedUrl | crates/callbacks/src/core.rs:379-387 | a bracketed literal is the whole host, brackets included |
| Callbacks.ReadsAuthorityIff | crates/callbacks/src/core.rs:363-377 | the text the host is taken from is the URL's authority (section 3 of RFC 3986) exactly when no colon precedes the first `://`; otherwise the URL has none |
| Callbacks.HostWithoutAuthority | crates/callbacks/src/core.rs:363-388 | with such a colon the host is what follows the first `://` all the same |
| Callbacks.QueryReadAsHost | crates/callbacks/src/core.rs:363-388 | `http:a.example/?u=://b.example` has no authority, and its host is `b.example` |
| CanonicalJson.Canonicalize | crates/callbacks/src/core.rs:411-430 | the loops compute the canonical tree |
| CanonicalJson.CanonicalIsSorted | crates/callbacks/src/core.rs:407-430 | at every depth the keys ascend by character code, a key before its extensions |
| SortedMap.LessIsCodeOrder | crates/callbacks/src/core.rs:411-425 | the order of the sorted map: the first differing character decides, and a string comes before its extensions |
| CanonicalJson.CanonicalKeepsMeaning | crates/callbacks/src/core.rs:411-430 | the value, as nested maps and arrays, is unchanged |
| CanonicalJson.SameFormIffSameMeaning | crates/callbacks/src/core.rs:390-430 | two payloads have the same canonical form exactly when they mean the same value |
| CanonicalJson.CanonicalIdempotent | crates/callbacks/src/core.rs:411-430 | canonicalizing twice changes nothing more |
| CanonicalJson.ReorderedSameForm | crates/callbacks/src/core.rs:407-430 | trees that differ only in key order, at any depth, have one canonical form |
| LogStream.LogBuffer.Push | crates/admin/src/log.rs:104-112 | the record gets the next id; the oldest goes when the buffer is full |
| LogStream.LogBuffer.RecordsAfter | crates/admin/src/log.rs:127-136 | the records with a larger id, in order |
| LogStream.LogBuffer.Clear | crates/admin/src/log.rs:140-146 | empties the buffer and keeps the counter |
| LogStream.LogCursor.Tick | crates/admin/src/sse.rs:131-137 | emits the records after the cursor and moves it to the last of them |
| LogStream.WindowIsExact | crates/admin/src/sse.rs:127-138 | in any run of pushes, clears and ticks, what the next tick will send is the last `capacity` records pushed since the previous tick and the last clear |
| LogStream.TickEmits | crates/admin/src/sse.rs:127-138 | each tick appends exactly that window to the stream |
| LogStream.EmittedAscending | crates/admin/src/sse.rs:124-138 | emitted ids strictly increase over the whole stream, so nothing is sent twice |
| LogStream.DeliveryIsComplete | crates/admin/src/sse.rs:124-138 | sent and pending records are all pushed records exactly when no clear finds undelivered ones and no tick comes after more than `capacity` new ones |
| LogStream.QuietRunsAreLossless | crates/admin/src/sse.rs:124-138 | with at most `capacity` pushes between ticks and no clear the batches concatenate to the pushed records |
| SampleStreams.TraceCursor.Tick | crates/admin/src/sse.rs:100-113 | emits the rows beyond the last length and remembers the new length |
| SampleStreams.TraceCompleteIffNeverFull | crates/admin/src/sse.rs:97-113 | the trace stream is complete exactly while at most `capacity` requests were ever recorded |
| SampleStreams.SecondTraceIsNeverSent | crates/admin/src/sse.rs:97-113 | with room for one, the second of two requests is recorded and never sent |
| SampleStreams.BeansCursor.Tick | crates/admin/src/sse.rs:160-175 | sends the changed counts, or nothing |
| SampleStreams.OnlyChangesAreSent | crates/admin/src/sse.rs:164-175 | a row is sent exactly when its count is new or changed, with the current count; a tick without one sends nothing |
| SampleStreams.ClientFollowsSamples | crates/admin/src/sse.rs:152-175 | over the ticks of the cursor, a client that applies the events holds the latest sample while no bean disappears |
| SampleStreams.PatchExact | crates/admin/src/sse.rs:164-170 | one patch reproduces the sample exactly when no name is gone |
| SampleStreams.HealthCursor.Tick | crates/admin/src/sse.rs:71-76 | sends when the status differs from the last one |
| SampleStreams.SentTracksSamples | crates/admin/src/sse.rs:56-77 | over the ticks of the cursor, the last status sent is the current one, and none is sent twice in a row |
| Loggers.LoggersState.constructor | crates/actuator/src/loggers.rs:80-125 | the parsed table, with its root kept for resets; the filter in force is the text it was seeded with |
| Loggers.LoggersState.Directives | crates/actuator/src/loggers.rs:129-140 | the loop prints the table |
| Loggers.LoggersState.SetLevel | crates/actuator/src/loggers.rs:210-240 | an unknown level changes nothing; otherwise the table changes, the new text is pushed, and a refused filter leaves the change in place and the old filter in force |
| Loggers.LoggersState.LevelsOf | crates/actuator/src/loggers.rs:179-203 | configured and effective level, the latter by the ancestor loop |
| Loggers.RoundTripIffClean | crates/actuator/src/loggers.rs:99-140 | parsing the printed text rebuilds the table exactly when no target name has a comma, an equals sign or an outer blank |
| Loggers.RoundTripAfterChanges | crates/actuator/src/loggers.rs:99-240 | from any start text and after any calls to cleanly named loggers, failed ones included, the printed text parses back to the table and the text in force to the table of the last `Ok`, or of the seed |
| Loggers.DirectivesAreLoadedIff | crates/actuator/src/loggers.rs:80-240 | over any calls the printed text is the filter in force exactly when it is the text of the last `Ok`, or the seed before the first; for clean names, exactly when the table is that of the last `Ok`, or before it the parsed seed with the seed in printed form |
| Loggers.CallKeepsLoadedIff | crates/actuator/src/loggers.rs:210-240 | one call keeps them equal exactly when it went through, named no level, or asked for what was already so |
| Loggers.RefusedReloadStaysPrinted | crates/actuator/src/loggers.rs:210-240 | seeded with `info`, after a refused reload `info,a=debug` is printed while `info` is in force |
| Loggers.RefusedReload | crates/actuator/src/loggers.rs:210-240 | the same for every root level, clean name and wanted level |
| Loggers.SeedIsPrintedIff | crates/actuator/src/loggers.rs:80-140 | before any call the printed text is the seed exactly when the seed is the text of some sorted, clean table |
| Loggers.SeedWithoutRootStaysApart | crates/actuator/src/loggers.rs:80-140 | seeded with `a=debug`, `info,a=debug` is printed |
| LoggerThreads.UninterruptedIsLevelSet | crates/actuator/src/loggers.rs:210-240 | change, two reads and reload, uninterrupted, are the call as one step |
| LoggerThreads.PrintedIsLoadedIff | crates/actuator/src/loggers.rs:127-240 | in every interleaving of overlapping calls the printed text is the filter in force exactly when the table is the reading the last reloader printed |
| LoggerThreads.AgreeIffUnchangedSinceRead | crates/actuator/src/loggers.rs:127-240 | after the first reload: exactly when the root is what it was at the move in which the last reloader read it, and the targets what they were at its later move |
| LoggerThreads.OvertakenCallLoadsOldText | crates/actuator/src/loggers.rs:210-240 | of two accepted calls, one overtaken between print and reload: both return `Ok`, and the text in force is the printed one exactly when the other changed nothing |
| LoggerThreads.LateReloadDropsLevel | crates/actuator/src/loggers.rs:210-240 | such a run: `a` and `b` are printed, `b` is not in force |
| Loggers.LookupIsMap | crates/actuator/src/loggers.rs:187-188 | lookups in the sorted list are lookups in the map it stands for |
| Loggers.ChangedIsMapUpdate | crates/actuator/src/loggers.rs:221-234 | a level change is one map update or removal, or sets the root |
| Loggers.LevelRoundTrip | crates/actuator/src/loggers.rs:243-284 | every level is parsed back from both of its names |
| Loggers.LevelNames | crates/actuator/src/loggers.rs:243-289 | which texts read as which level: its name in any case with outer blanks, and nothing else |
| Loggers.RootNames | crates/actuator/src/loggers.rs:180-180 | the root logger is named by its four letters in any case |
| Loggers.BlankIsSkipped | crates/actuator/src/loggers.rs:99-105 | blank directives are skipped; without any the table is INFO and empty |
| Loggers.RootIsRead | crates/actuator/src/loggers.rs:112-116 | a directive without an equals sign sets the root if it reads as a level, else is skipped |
| Loggers.AssignmentIsRead | crates/actuator/src/loggers.rs:106-111 | a directive `a=b`, blanks around both, configures the trimmed name if `b` reads as a level, else is skipped |
| Loggers.RequestsAre | crates/actuator/src/loggers.rs:210-240 | which requests reset, which are refused, and what is in force after each reply |
| Loggers.ResetGivesBack | crates/actuator/src/loggers.rs:205-234 | after any calls a reset of the root gives back the seed's root level, a reset of a logger removes exactly its entry |
| Loggers.EffectiveIs | crates/actuator/src/loggers.rs:179-198 | the level that counts: the root's for the root, else the logger's own, else that of the longest configured ancestor |
| Loggers.InheritedIsClosest | crates/actuator/src/loggers.rs:189-198 | the loop finds the level of the longest configured prefix that is followed by an even run of colons, else the root's |
| Loggers.AncestorsArePaths | crates/actuator/src/loggers.rs:174-178 | without three colons in a row those prefixes are exactly the ancestor modules |
| Loggers.InheritedIsDocumentedIff | crates/actuator/src/loggers.rs:174-198 | the loop gives the level of the closest configured ancestor under every table exactly when the name has no three colons in a row |
| Loggers.TripleColonSkipsAncestor | crates/actuator/src/loggers.rs:189-198 | `a:::b` does not inherit from a configured `a` |
| Naming.Words | crates/cli/src/naming.rs:30-60 | the two character loops and the filter compute the word list |
| Naming.WordsEndAt | crates/cli/src/naming.rs:26-60 | for every text and place in it: the words are those of the two parts exactly when a neighbour is not alphanumeric or a capital follows a small letter or digit, and otherwise one word fewer |
| Naming.WordsAreWords | crates/cli/src/naming.rs:26-60 | every word is non-empty and holds only small letters and digits |
| Naming.WordsConserve | crates/cli/src/naming.rs:26-60 | the words put together are the lowered alphanumeric characters of the input: none lost, none invented |
| Naming.SeparatedRoundTrip | crates/cli/src/naming.rs:142-166 | splitting undoes joining with any character that is not a letter or digit |
| Naming.PascalRoundTripIff | crates/cli/src/naming.rs:149-149 | the Pascal form splits back exactly when every later word starts with a letter and no word before the last is a single letter |
| Naming.PascalLosesWord | crates/cli/src/naming.rs:149-149 | the words of `a_b` run together in `AB` |
| Naming.CamelRoundTripIff | crates/cli/src/naming.rs:150-155 | the camel form likewise, where the first word may be a single letter |
| Naming.CamelLosesWord | crates/cli/src/naming.rs:150-155 | the words of `user_2` run together in `user2` |
| Naming.ScreamingRoundTripIff | crates/cli/src/naming.rs:118-168 | the upper-case form splits back exactly when no word has a letter behind a digit |
| Naming.ScreamingSplitsAfterDigit | crates/cli/src/naming.rs:168-168 | a word made of a part ending in a digit and one starting with a letter reads as the two parts in its upper-case form |
| Naming.ScreamingLosesWord | crates/cli/src/naming.rs:168-168 | the upper-case form of `oauth2client` reads as `oauth2` and `client` |
| Naming.YRuleIff | crates/cli/src/naming.rs:64-71 | a word in `y` is pluralised by the documented rule exactly when a letter precedes the `y` |
| Naming.LoneYTurnsToIes | crates/cli/src/naming.rs:64-71 | `y` becomes `ies` and `2y` becomes `2ies` |
| Naming.PluralsMeetIff | crates/cli/src/naming.rs:63-81 | two words share a plural exactly when they are equal or one is the other with the `e` of the ending |
| Naming.PluralEndings | crates/cli/src/naming.rs:63-81 | behind any stem: `s`, `x`, `z`, `ch` and `sh` take `es` |
| Naming.PluralAfterVowel | crates/cli/src/naming.rs:63-81 | a `y` behind a vowel takes `s` |
| Naming.PluralOfOthers | crates/cli/src/naming.rs:63-81 | a `y` behind anything else becomes `ies`; all other endings take `s` |
| Naming.DeriveNames | crates/cli/src/naming.rs:137-170 | all forms are built from the word list, the plural ones with the last word replaced |
| Naming.NoNamesIff | crates/cli/src/naming.rs:124-141 | there is no name exactly when the input has no ASCII letter or digit |
| Naming.NonAsciiLetterHasNoName | crates/cli/src/naming.rs:124-141 | a single letter outside ASCII gives no name |
| Naming.DerivedNamesAgree | crates/cli/src/naming.rs:137-170 | snake, kebab and human forms, singular and plural, split into the words they were made of; names derived from the singular ones are the same names |
| Naming.FormsByTheirSeparator | crates/cli/src/naming.rs:137-170 | each form is split by its own separator into its words, the plural ones with exactly the last word in the plural, the upper-case one into the raised words |
| Naming.PluralPascalIff | crates/cli/src/naming.rs:165-165 | the plural Pascal form splits into the plural words exactly under the Pascal condition |
| Naming.DerivedCasesIff | crates/cli/src/naming.rs:149-168 | names derived from the Pascal, camel and upper-case forms are the same names under the exact conditions above |

## Left out

- HTTP, axum and tower layers, SSE framing, static assets and request clients: plumbing over libraries.
- SQL execution, Redis commands and connection handling: only the patterns and bounds computed here are modelled; a complete scan is the contract `ScanComplete`.
- HMAC-SHA256, random ids, timestamps, headers and JSON text: signing is a function of the canonical tree, which starts from a parsed value. Map keys of a parsed object are distinct; the model also says what happens when they are not.
- Label sets, number formatting, counters, gauges, metric JSON and the families around the histogram text.
- `len`, `keys`, `stats` and health checks of the caches, and time to live inside the composite: its stores hold live entries.
- Two stores of one composite that are the same object: the constructor takes two different stores.
- Writes through the composite to a store that reports a failed write as `NotFound`: there a fault is a transport error. Reads are covered for every error.
- Log ids handed out in another order than the records are stored, which concurrent pushes can do because the id is drawn before the lock: a push is one step.
- `TraceBuffer::clear`, which no handler calls, and newest-first listing.
- `levels_json`, the syntax `EnvFilter` accepts, and module paths it treats specially.
- The SCAN-based `keys` listings, `validate_table_name`, `expires_at`, `normalise_dsn`: they would only add easy members.
- Scaffolding, migrations, code generation, the admin JSON shapes, exposure lists and endpoint registries.
- Scrape.ConcurrentEqualsSequential: sums are added in the exact arithmetic of the reals, so the order in which observers add does not matter; with rounding it would.
- Histogram.Series.AtomicAdd: only spurious failures are replayed in the object; failures because another thread wrote are covered by the interleavings of `Scrape`.
- Callbacks.SleepsAscend: needs an initial delay within the cap, since a larger first sleep is followed by a shorter one.
- Overflow of the doubled delay, which would panic before the cap is applied when the initial delay is astronomically large.
- AdviceChain.Interception.RunAroundChain: an around calls its continuation at most once, as the source's type demands, and what it does besides is not in the trace.
- FallbackCache.NoMissedCallNoStaleRead: one direction, without conditional writes of the key itself; the exact conditions are `ReadIsCurrentIff` and `StalenessStartsIff`.
- Callbacks.HostOfAssembledUrl: the host as this parser reads it; what the HTTP client makes of a URL is not modelled. The two can differ, as on a backslash in the user info, or on the URL of `QueryReadAsHost`, which a WHATWG parser takes to `a.example`.
- Loggers.LoggersState.constructor: that the caller seeds the state with the directives its filter started from is taken from the caller.
