# A verified model of the aigate core

aigate is a gateway in front of language-model providers. This project models the parts of it whose
correctness is not visible in one function, and proves what they are for. Objects that the C code updates in
place are classes here, and loops are loops; each is proved against a function of its inputs, and what the
program promises is proved about that function. `dafny verify dfyconfig.toml` checks everything.

| component | files | in one sentence |
|---|---|---|
| keyword automaton | `LongestSuffix`, `AcTable`, `AhoCorasick`, `RuleSets` | a trie rewritten in place into an automaton finds the first and longest keyword exactly when one occurs |
| personal data | `Decimal`, `Checksums`, `PiiTokens`, `PiiRestore`, `PiiAnonymise`, `PiiMatches` | exactly the matches that qualify are replaced; anonymising and restoring is the identity, also through a 32-byte window over any cut of the stream, within exact limits of the session map and the output buffers |
| caches | `Soundness`, `FiniteSets`, `LruSpec`, `Lru`, `AuthKey` | a linked list and a hash table over the same nodes are one recency-ordered map; two of them in front of a store, used by many threads, are invisible under an exact condition |
| glob matcher | `Glob` | greedy matching with one backtracking point is right exactly on the subjects described below |
| circuit breaker | `CircuitBreaker` | a timed four-state machine with a ring of latency samples, over all runs |
| failover | `ChatFailover`, `ChatAnswers`, `SlotCounter` | which upstreams are contacted, what the client gets, what is charged, that concurrency slots are given back, and when their counts are right under interference |
| stream accumulator | `SseAccumulator` | the collected response depends on the bytes, never on how they were cut |
| audit log | `HashChain`, `LiveRing` | an accepted log is determined by its last hash, and the logger's own file is accepted under an exact condition; a polling reader can account for every event |
| budgets | `Budget` | chained buckets are a map, totals are the sums of what was recorded, and check-then-record overshoots a budget by a bounded amount |
| white space | `Whitespace` | the one text in normal form with the words and line breaks of the input |

## What does not hold, and exactly when it does

Several things one would expect of the code hold only under a condition. Each is proved in both directions,
and a failing input is given.

- A glob match can be missed when the subject itself contains `*`, because the literal comparison comes
  before the star: `*b` does not match `*ab`. `Glob.RightExactlyOnTame` gives the subjects on which every
  non-empty pattern is matched correctly. What is accepted is always a true match.
- The response path filters each chunk into a buffer of 128 more characters than the chunk has
  (`src/core/aigate_core.c:1369`). Restored text that does not fit is lost: two placeholders of 127-character
  addresses in one chunk do not (`PiiRestore.TwoLongOriginals`). For buffers of any sizes but 0, the bytes written are
  the restored whole exactly when each chunk's text and the flush fit (`PiiRestore.WrittenExactly`); the sizes of
  the originals and the number of `]` in each chunk tell beforehand (`PiiRestore.SmallGrowthFits`).
- Anonymised text comes back exactly when it contains no placeholder that the session has issued by the time of
  the response, and the originals known before and those found are no more than the 64 the session map holds
  (`PiiAnonymise.RoundTrip`). `PiiAnonymise.IssuedInTextLoses` and `PiiAnonymise.FullMapLoses` are texts that do not.
- The key caches may answer for an old row. Over any interleaving of the steps of resolves on any threads, store
  changes and invalidations, the answers for a key are right exactly when no cache holds it or its row is what it
  was when the held entry was fetched (`AuthKey.RunRightExactly`). That is so whenever each change is followed by an
  invalidation of both caches that comes after the end of every fetch made before the change
  (`AuthKey.CachesAreInvisible`). It fails without an invalidation (`AuthKey.StaleWithoutInvalidate`) and, for as long
  as the entry is cached, when a resolve that read the old row ends after the invalidation
  (`AuthKey.StaleAfterInvalidate`).
- The average time to first token reads the first slots of the sample ring. Over any run, as far as the samples
  may be any, it is the average of the window exactly when a full window has come since the window was emptied,
  or the samples between the last recovery and the last override to CLOSED are a multiple of the window
  (`CircuitBreaker.AverageIsOfWindow`); `CircuitBreaker.StaleAverage` is a run in which it is not.
- An endpoint whose half-open probe has been admitted is blocked exactly until a success, a counted failure or
  an override to another state (`CircuitBreaker.UnresolvedProbeBlocks`). A probe answered by a filtered client
  error leaves it so (`CircuitBreaker.FilteredAnswerBlocks`). A success that arrives while the breaker is open
  removes its deadline (`CircuitBreaker.SuccessWhileOpenAdmits`).
- A group budget that was set is in force exactly as long as there is no reset, and every check and record is of
  the month that the totals were of when it was set (`Budget.SetBudgetLastsExactly`), which need not be the month it
  was set in (`Budget.LostAtOnce`).
- An audit event that is too long to sign is logged unsigned, and the chain moves on: the file that the logger
  writes is accepted exactly when every event was signed (`HashChain.FileIsAccepted`);
  `HashChain.LongEventBreaksLog` is a log that is not. A new file after a rotation continues the old chain, and is
  rejected from its first line on (`HashChain.RotatedFileIsRejected`).
- A release of a concurrency slot subtracts and then stores 0 in a second step, which wipes out what was acquired
  in between. The count is right throughout a run exactly when every 0 is stored while nothing is held
  (`SlotCounter.RightExactly`); `SlotCounter.LostAcquire` is a run in which a limit of one lets two requests in.
- The streaming failover loop also moves on after a status below 400 that brought nothing to the client, not
  only after a failover status (`ChatFailover.StreamContacted`).

Where the code and its comments differ, the model follows the code: `src/observe/audit_logger.h:292` says that
a query without a cursor returns the oldest events, but the newest are returned; a guardrail rule of type
"exempt" with the action "block" is a blocking keyword (`src/policy/guardrails.c:337-342`); a carriage return
between two letters is dropped without separating them (`src/policy/cache_optimizer.c:135-137`).

## Model

| member | source | states |
|---|---|---|
| AhoCorasick.AcTrie.constructor | src/policy/guardrails.c:24-47 | a new trie has the root alone and no keywords |
| AhoCorasick.AcTrie.Insert | src/policy/guardrails.c:62-101 | adds exactly the given keyword, keeps the table a trie of the prefixes of all keywords, and refuses the empty keyword |
| AhoCorasick.AcTrie.BuildFailureLinks | src/policy/guardrails.c:103-162 | the trie becomes the automaton of its keywords in place; every non-root node is queued exactly once, in order of depth, within the bounds of the queue |
| AhoCorasick.AcTrie.Search | src/policy/guardrails.c:164-181 | nothing is found iff no keyword occurs in the text; otherwise the longest keyword ending at the earliest position where any keyword ends |
| AhoCorasick.AcTrie.VisitByte | src/policy/guardrails.c:132-157 | one step of the breadth-first pass, for an existing child and for a missing one, on the table and the queue |
| AhoCorasick.DfaIsTotal | src/policy/guardrails.c:119-158 | in the finished table every transition is in range and every failure link leads to a strictly shallower node |
| AhoCorasick.RunIsLongestSuffix | src/policy/guardrails.c:119-158 | the state reached on any text spells the longest suffix of it that is a path of the trie |
| AhoCorasick.StateAnnounces | src/policy/guardrails.c:139-146 | the keyword inherited along failure links is the longest keyword ending there, and there is none iff none ends there |
| AcTable.FailureRow | src/policy/guardrails.c:130-158 | the row of a node's failure link is already final when the node is visited |
| AcTable.LinkIsTarget | src/policy/guardrails.c:134-155 | the transition of the failure link is the longest suffix of the extended string that is a path |
| LongestSuffix.LongestStep | src/policy/guardrails.c:134-155 | the longest path ending a text, one byte later, follows from the one before it alone |
| LongestSuffix.InheritedIsLongestKeyword | src/policy/guardrails.c:139-146 | inheriting keywords along failure links yields the longest keyword that ends a string |
| RuleSets.LoadRules | src/policy/guardrails.c:299-357 | after loading, the blocking and the exempting automaton search for exactly the non-empty patterns of their rules |
| Checksums.ValidateLuhn | src/policy/guardrails.c:1871-1900 | accepts exactly the 13 to 19 digit numbers whose Luhn sum is divisible by ten |
| Checksums.LuhnDetectsOneDigit | src/policy/guardrails.c:1885-1899 | changing any one character of an accepted number makes it rejected |
| Checksums.LuhnAdjacentSwap | src/policy/guardrails.c:1885-1899 | swapping neighbours in an accepted number goes unnoticed exactly when they are equal or 0 and 9 |
| Checksums.LuhnExactly | src/policy/guardrails.c:1871-1900 | accepted are exactly the 13 to 19 digit numbers whose sum from the right, every second digit doubled, ends in 0 |
| Checksums.ValidateIdCardMod11 | src/policy/guardrails.c:1902-1929 | accepts exactly the 18 character numbers with the MOD 11-2 check character, upper or lower case |
| Checksums.Mod11OneCharacter | src/policy/guardrails.c:1912-1928 | changing one character goes unnoticed exactly when it changes the case of a final x |
| Checksums.Mod11AdjacentSwap | src/policy/guardrails.c:1912-1928 | swapping neighbours goes unnoticed exactly when they are equal, the check character included |
| Checksums.Mod11Exactly | src/policy/guardrails.c:1902-1929 | accepted are exactly the numbers for which doubling after each digit and adding the check character, X for ten, gives one modulo eleven |
| PiiTokens.PiiSessionMap.GetOrCreate | src/policy/guardrails.c:2028-2078 | returns the known placeholder of an original or appends a new entry, and fails exactly for the empty original or a full map |
| PiiTokens.PiiSessionMap.LookupToken | src/policy/guardrails.c:2080-2092 | the original behind a placeholder, if the session issued it |
| PiiTokens.PlaceholderInjective | src/policy/guardrails.c:2046-2073 | type and number can be read back from a placeholder |
| PiiTokens.PlaceholdersDistinct | src/policy/guardrails.c:2067-2075 | the placeholders of a session are pairwise distinct |
| PiiTokens.CreateKeepsMapOk | src/policy/guardrails.c:2034-2077 | issuing keeps placeholders numbered within their type and originals distinct, and only appends |
| PiiTokens.LookupIssued | src/policy/guardrails.c:2080-2092 | looking an issued placeholder up gives its original |
| PiiRestore.RestoreText | src/policy/guardrails.c:2094-2181 | the text with every issued placeholder replaced; nothing is returned iff none occurs |
| PiiRestore.PiiStreamFilter.Feed | src/policy/guardrails.c:2194-2302 | emits and holds back what the window requires, writes as much as fits, and keeps the window below 32 bytes and an unfinished placeholder |
| PiiRestore.PiiStreamFilter.Flush | src/policy/guardrails.c:2304-2322 | the window is emitted as it is and emptied |
| PiiRestore.FeedIsRestoreSoFar | src/policy/guardrails.c:2226-2297 | whatever follows, what is emitted now and the restored window with the rest are the restored whole |
| PiiRestore.FeedHolds | src/policy/guardrails.c:2271-2280 | what is held back is empty or an open placeholder shorter than the window |
| PiiRestore.StreamIsRestore | src/policy/guardrails.c:2194-2322 | the text emitted for the chunks of any cut and the flush, before any buffer cuts it short, is what the whole-text restorer gives |
| PiiRestore.CutsDoNotMatter | src/policy/guardrails.c:2194-2322 | two ways of cutting one text emit the same, before any buffer cuts it short |
| PiiRestore.WrittenExactly | src/policy/guardrails.c:2194-2322 | with output buffers of any sizes but 0, what is written is the restored whole iff each feed's text and the flush fit |
| PiiRestore.ForwardChunk | src/core/aigate_core.c:1365-1398 | what the response path sends for a chunk: as much as fits 128 characters more than the chunk, and with the last one the window |
| PiiRestore.CallerWritesAll | src/core/aigate_core.c:1365-1398 | with the response path's buffers, all is written iff each chunk's text fits its buffer |
| PiiRestore.GrowthBound | src/policy/guardrails.c:2253-2263 | with originals of at most m and placeholders of at least k characters, a feed adds at most m - k characters for each closing bracket |
| PiiRestore.SmallGrowthFits | src/core/aigate_core.c:1369 | a bound known before anything is fed, under which the response path's buffers suffice |
| PiiRestore.TwoLongOriginals | src/core/aigate_core.c:1369 | a session and a chunk whose restored text is lost |
| PiiAnonymise.ReplaceEntity | src/policy/guardrails.c:360-649 | one pass replaces the accepted matches and leaves the rest; without a match the text is unchanged |
| PiiAnonymise.TransformText | src/policy/guardrails.c:651-771 | the passes in sequence over one session map; nothing is returned when nothing matched |
| PiiAnonymise.Inspect | src/policy/guardrails.c:390-499 | the digit boundary, length and checksum tests on a match, and how far each failed test moves on |
| PiiMatches.PassIsRounds | src/policy/guardrails.c:384-640 | a pass is a sequence of rounds from the beginning of the text to its end; a match is replaced, by the placeholder of its text, iff it is shorter than 128 characters, has no digit beside it where that matters and passes the check of its type; everything else is copied |
| PiiMatches.PassesAreRounds | src/policy/guardrails.c:651-771 | the same for all passes, each over the text that the one before it wrote |
| PiiMatches.NumberIsHidden | src/policy/guardrails.c:453-479 | an identity or bank card number that is the whole text is replaced iff it passes its check |
| PiiAnonymise.PassMap | src/policy/guardrails.c:511-538 | a pass keeps the map well formed and only appends; a match is turned away only by a full map |
| PiiAnonymise.NoneAcrossForeign | src/policy/guardrails.c:2115-2130 | no placeholder of the session reaches across the beginning of a match |
| PiiAnonymise.RestoreAroundMatch | src/policy/guardrails.c:2113-2168 | restoring goes on independently before and after a match |
| PiiAnonymise.PassRestores | src/policy/guardrails.c:384-640 | seen through any later map, a pass keeps the restored text if no match was turned away; otherwise the text first differs in a bracket, where no original of the session was |
| PiiAnonymise.PassMissesExactly | src/policy/guardrails.c:2034-2043 | a pass turns no match away iff the originals known before and those in the text are at most 64, the latter depending on the text alone |
| PiiAnonymise.PassesMissExactly | src/policy/guardrails.c:651-771 | the same for all passes |
| PiiAnonymise.PassesPlain | src/policy/guardrails.c:511-538 | from the empty session on, originals are not empty and have no bracket |
| PiiAnonymise.RoundTrip | src/policy/guardrails.c:360-771 | for any text, any such session before and any texts after it, anonymise then restore is the identity iff the text has no issued placeholder and the originals known before and those found are at most 64 |
| PiiAnonymise.RoundTripOnePass | src/policy/guardrails.c:360-649 | the same for one pass, by a condition on the map and the text before the call |
| PiiAnonymise.FullMapLoses | src/policy/guardrails.c:2042-2044 | a full session and a text that does not come back |
| PiiAnonymise.IssuedInTextLoses | src/policy/guardrails.c:2046-2077 | a text with the placeholder that is then issued for an address in it does not come back, though there is room |
| Lru.LruMap.constructor | src/common/lru.c:65-84 | an empty map of capacity at least one |
| Lru.LruMap.Get | src/common/lru.c:199-212 | the value of the key, if live, which becomes the most recent |
| Lru.LruMap.Put | src/common/lru.c:214-264 | replaces or adds in front, evicts the last entry of a full map, and hands every displaced value to the callback |
| Lru.LruMap.Invalidate | src/common/lru.c:266-290 | removes the key from list and table, hands its value over, and tells whether it was live |
| Lru.LruMap.Free | src/common/lru.c:183-197 | hands over every remaining value |
| Lru.LruMap.Size | src/common/lru.c:292-299 | the count is the number of live entries |
| Lru.NextPow2 | src/common/lru.c:55-63 | the smallest power of two from 4 on that is not below the wish |
| LruSpec.RunInv | src/common/lru.c:214-264 | in every run keys are distinct and the capacity is never exceeded |
| LruSpec.RunConserves | src/common/lru.c:214-290 | in every run each value ever put is live or was handed over, exactly once |
| LruSpec.FreeHandsOverTheRest | src/common/lru.c:183-197 | after freeing, each value ever put was handed over exactly once |
| LruSpec.HitIsLastPut | src/common/lru.c:199-290 | a hit returns the value of the last put that no invalidation followed |
| LruSpec.RunIsSortedByTouch | src/common/lru.c:122-132 | entries are in the order of their last use, so the evicted one is the least recently used |
| LruSpec.RecentlyUsedIsLive | src/common/lru.c:214-264 | a key is live as long as fewer than the capacity of others have been used since |
| AuthKey.AuthKeyCache.Resolve | src/policy/auth_key.c:80-170 | positive cache, negative cache, then the store, with the code and record each gives and what each caches |
| AuthKey.AuthKeyCache.ChangeRow | src/policy/auth_key.c:172-183 | a store change followed by the invalidation of both caches |
| AuthKey.AloneIsAtomic | src/policy/auth_key.c:80-170 | without interference the steps of a resolve are the whole resolve, with its one answer |
| AuthKey.HeldStep | src/policy/auth_key.c:80-183 | how one step of any thread changes the entries of a key: written at the end of a resolve that read the row, removed by an invalidation of that cache, else kept or evicted |
| AuthKey.RightExactly | src/policy/auth_key.c:94-111 | in any state the answers for a key are right at all times iff a cached record is interchangeable with the row and, without one, a negative entry is for a missing row |
| AuthKey.ResolveExactly | src/policy/auth_key.c:94-169 | in any state the answer is what the cached record or, without one, the row deserves: good up to its last second, expired after it, revoked, a canary or unknown |
| AuthKey.ResolveCaches | src/policy/auth_key.c:124-169 | a resolve caches exactly the absence of a row, or a row that is a canary or lets the key in at that time |
| AuthKey.AnswersAreEarned | src/policy/auth_key.c:94-169 | over any interleaving, each answer is what the row of the key, as a fetch of it read it, deserves at the time of the answer |
| AuthKey.HeldIsRowAtFetch | src/policy/auth_key.c:124 | what a thread holds between read and end is the row as it was at the read, which is pending throughout |
| AuthKey.HeldIsFetched | src/policy/auth_key.c:80-183 | over any run, what is cached for a key is its row at one fetch, and no revoked record but a canary's |
| AuthKey.RunRightExactly | src/policy/auth_key.c:80-183 | over any interleaving, the answers for a key are right iff no cache holds it or its row is what it was at the fetch of the held entry |
| AuthKey.HeldIsCurrent | src/policy/auth_key.c:80-183 | if each change of a row is followed by an invalidation in each cache, after every fetch made before the change has ended, then what either cache holds is the row |
| AuthKey.CachesAreInvisible | src/policy/auth_key.c:80-183 | then the answers are those of an uncached lookup at every time, whatever was evicted; a store error can only turn one into "unknown" |
| AuthKey.RepliesAreRight | src/policy/auth_key.c:94-169 | then, whatever other threads do between the steps of a resolve, its answer is the uncached one at a moment between its first and last step |
| AuthKey.StaleWithoutInvalidate | src/policy/auth_key.c:94-111 | a run without the invalidation in which a revoked key is let in, at every later time |
| AuthKey.StaleAfterInvalidate | src/policy/auth_key.c:124-162 | a run with the invalidation, between a resolve's read and its end, after which the revoked key is let in |
| Glob.WildcardMatch | src/plugin/lua_plugin.c:142-176 | the loop terminates with the greedy matcher's answer, NULL arguments and the empty and universal patterns included |
| Glob.AcceptsOnlyMatches | src/plugin/lua_plugin.c:156-175 | whatever the subject, only true matches of a non-empty pattern are accepted |
| Glob.EarlierStarIsNoBetter | src/plugin/lua_plugin.c:160-166 | what could be matched by going back to an earlier star can be matched from the present one |
| Glob.RightWithoutStars | src/plugin/lua_plugin.c:156-175 | on a subject without stars the matcher is right about every non-empty pattern |
| Glob.RightExactlyOnTame | src/plugin/lua_plugin.c:156-175 | it is right about every non-empty pattern iff the subject has no inner star and, after a leading one, at most one character or one repeated character and a star |
| Glob.MissedMatch | src/plugin/lua_plugin.c:157-159 | a match that is missed |
| CircuitBreaker.BreakerEntry.AllowRequest | src/policy/circuit_breaker.c:417-441 | admits when closed or degraded, or as the one probe of a half-open entry |
| CircuitBreaker.BreakerEntry.RecordSuccess | src/policy/circuit_breaker.c:477-494 | closes a half-open entry and clears failures, deadline and probe in every state |
| CircuitBreaker.BreakerEntry.RecordFailure | src/policy/circuit_breaker.c:497-602 | ignores client errors but 429, trips at the threshold and from half-open, and never moves a deadline |
| CircuitBreaker.BreakerEntry.RecordSlaSample | src/policy/circuit_breaker.c:662-756 | pushes the sample, degrades on the violating share and recovers after two normal samples |
| CircuitBreaker.BreakerEntry.OverrideState | src/policy/circuit_breaker.c:794-830 | what an override to each state sets and what it leaves |
| CircuitBreaker.BreakerEntry.GetOpenUntil | src/policy/circuit_breaker.c:313-330 | the deadline of an entry that is still open, else 0 |
| CircuitBreaker.BreakerEntry.GetSlaAvgTtft | src/policy/circuit_breaker.c:832-854 | the truncated mean of as many first slots as the window has samples |
| CircuitBreaker.BreakerEntry.ViolationShare | src/policy/circuit_breaker.c:715-724 | counting the slots of a full ring counts the window |
| CircuitBreaker.FaultsExactly | src/policy/circuit_breaker.c:497-602 | a failure with no status, 429 or 500 to 599 counts at a closed or degraded entry and opens it at the threshold, opens a half-open one, and any other changes nothing |
| CircuitBreaker.FaultsInARow | src/policy/circuit_breaker.c:549-590 | after any run that ends closed or degraded, so many faults in a row open the breaker iff they and those counted before reach the threshold |
| CircuitBreaker.SuccessCloses | src/policy/circuit_breaker.c:477-494 | a success closes a half-open entry, which then admits, and clears failures and deadline |
| CircuitBreaker.OverrideActs | src/policy/circuit_breaker.c:794-830 | an override to each state puts the entry there: when it then admits, and what is kept |
| CircuitBreaker.ViolatesExactly | src/policy/circuit_breaker.c:698-702 | a sample violates iff it exceeds a limit that is set |
| CircuitBreaker.OneProbePerStay | src/policy/circuit_breaker.c:158-172 | over any run, a stay in HALF_OPEN admits at most one request |
| CircuitBreaker.UnresolvedProbeBlocks | src/policy/circuit_breaker.c:417-441 | an entry whose probe was admitted stays blocked, admitting nothing, iff there is no success, no counted failure and no override to another state |
| CircuitBreaker.FilteredAnswerBlocks | src/policy/circuit_breaker.c:503-506 | a run in which a probe answered by a 400 leaves the entry blocked |
| CircuitBreaker.FailuresAreCounted | src/policy/circuit_breaker.c:549-590 | the counter is the number of counted failures since the last success or override to CLOSED |
| CircuitBreaker.TripsExactly | src/policy/circuit_breaker.c:570-590 | a closed or degraded entry trips exactly when those failures reach the threshold |
| CircuitBreaker.OpenUntilDeadline | src/policy/circuit_breaker.c:595-601 | an open entry denies up to its deadline, which no failure moves |
| CircuitBreaker.TripLastsExactly | src/policy/circuit_breaker.c:549-602 | after a trip, with no success or override, requests are denied exactly until the cool-off is over |
| CircuitBreaker.SuccessWhileOpenAdmits | src/policy/circuit_breaker.c:489-492 | a success while open removes the deadline |
| CircuitBreaker.FullRingIsRotation | src/policy/circuit_breaker.c:690-695 | the slots of a full ring are a rotation of the window, after an override too |
| CircuitBreaker.WindowIsLast | src/policy/circuit_breaker.c:690-753 | the window holds the last samples since it was emptied |
| CircuitBreaker.DegradesExactly | src/policy/circuit_breaker.c:710-736 | CLOSED degrades exactly when a full window since the last reset has the violating share |
| CircuitBreaker.RecoversExactly | src/policy/circuit_breaker.c:737-753 | SLA_DEGRADED recovers exactly on the sample that makes the last two since degrading normal |
| CircuitBreaker.RingHoldsWindow | src/policy/circuit_breaker.c:690-753 | over any run, the slots before the head hold the window, after an override and a recovery too |
| CircuitBreaker.MeanIsOfWindow | src/policy/circuit_breaker.c:832-854 | the mean of the first slots is the window's, for all samples, iff the ring is full or the head is where filling from the first slot leaves it |
| CircuitBreaker.AverageIsOfWindow | src/policy/circuit_breaker.c:690-854 | over any run, that is so iff a full window has come since it was emptied, or the samples between the last recovery and the last override to CLOSED are a multiple of the window; then the reported mean is that of the run's window |
| CircuitBreaker.StaleAverage | src/policy/circuit_breaker.c:812-819 | a run in which the reported average is not the window's |
| ChatFailover.TargetSlots.Acquire | src/upstream/model_router.c:77-131 | fails exactly at the limit, leaving the counts alone, and counts one otherwise; a full slot table counts nothing |
| ChatFailover.TargetSlots.Release | src/upstream/model_router.c:133-150 | takes one back, never below zero |
| ChatAnswers.SlotsWithinLimit | src/upstream/model_router.c:111-131 | a slot is refused iff its endpoint is at its limit, and taking one never exceeds it |
| ChatFailover.ReleaseUndoesAcquire | src/upstream/model_router.c:111-150 | a release gives every endpoint the load it had before the acquire |
| SlotCounter.AloneIsRelease | src/upstream/model_router.c:133-150 | the two steps of a release that nothing comes between take one back, never below zero |
| SlotCounter.NeverOvercounts | src/upstream/model_router.c:111-150 | in any interleaving the count is at most what is held, short of it by exactly what the stores of 0 found, and 0 once all is released |
| SlotCounter.RightExactly | src/upstream/model_router.c:111-150 | the count is what is held at every moment of a run iff every 0 is stored while nothing is held |
| SlotCounter.HeldWithin | src/upstream/model_router.c:120-130 | no more are held than the limit and the most that was wiped out at any time |
| SlotCounter.LimitKept | src/upstream/model_router.c:120-130 | the limit is kept in runs whose stores find nothing held |
| SlotCounter.WipedIsAdmittedAgain | src/upstream/model_router.c:120-130 | as many requests beyond the limit can be admitted as were wiped out |
| SlotCounter.LostAcquire | src/upstream/model_router.c:141-146 | a run in which a limit of one lets two requests in |
| ChatFailover.ReleaseUndoesBoth | src/core/pipeline_chat.c:448-522 | so do two releases after two acquires, on the same endpoint too |
| ChatFailover.HandleChatSync | src/core/pipeline_chat.c:396-1118 | every load is as before; the targets visited, what the breaker was told, the answer, charges and usage are those of the hedged call and the loop's plan |
| ChatFailover.HandleChatStream | src/core/pipeline_chat.c:1269-1669 | the same for the streaming loop |
| ChatFailover.PreHeaders | src/core/pipeline_chat.c:1122-1198 | surface a client error's body, move on, or fall through |
| ChatFailover.ContactedExactly | src/core/pipeline_chat.c:757-1043 | a candidate is contacted exactly when it can be called and every one called before it gave a result to move on from |
| ChatFailover.VisitsInOrder | src/core/pipeline_chat.c:757-1043 | candidates are contacted in order, each in one visit |
| ChatFailover.HedgedContacted | src/core/pipeline_chat.c:407-754 | a hedged request contacts candidate 0, candidate 1 iff it was dispatched, and later ones iff the call failed over and the loop from candidate 2 reaches them |
| ChatFailover.SyncContacted | src/core/pipeline_chat.c:757-1043 | the contact condition in terms of failover outcomes of the non-streaming loop |
| ChatFailover.SyncLoopIsProper | src/core/pipeline_chat.c:757-1117 | one answer; 429 exactly when every candidate is saturated; charged exactly when a completion is served |
| ChatFailover.SyncIsProper | src/core/pipeline_chat.c:396-1118 | one answer, budget charged at most once and tokens reserved to the same amount, hedging included |
| ChatAnswers.LoopSettles | src/core/pipeline_chat.c:757-1043 | the loop ends with the reply of the first callable candidate that does not fail: a completion is answered with its status and charged at its cost and tokens, a filtered one is not charged, a client error is passed on |
| ChatAnswers.LoopGivesUp | src/core/pipeline_chat.c:1044-1117 | without such a candidate the answer is 429 iff all were saturated, else 502, and nothing is charged |
| ChatAnswers.LoopReports | src/core/pipeline_chat.c:815-1010 | the breaker of a called candidate hears of a success iff a reply came and is below 400; only a lone candidate is called again, after a server error |
| ChatAnswers.HedgeSettles | src/core/pipeline_chat.c:407-754 | a hedged call that does not fail is the answer, else the loop goes on from the third candidate; the breaker hears of the one whose reply is returned |
| ChatFailover.StreamContacted | src/core/pipeline_chat.c:1278-1487 | which candidates the streaming loop contacts |
| ChatFailover.StreamIsProper | src/core/pipeline_chat.c:1278-1668 | one answer; charged exactly when headers were sent, also for an interrupted stream |
| ChatAnswers.StreamLoopSettles | src/core/pipeline_chat.c:1278-1668 | the streaming loop ends with the first reply that sent headers or is the client's own error; what was streamed is charged in full, interrupted or not |
| ChatAnswers.StreamLoopGivesUp | src/core/pipeline_chat.c:1278-1668 | without one the answer is 429 iff all were saturated, else 502 |
| ChatAnswers.StreamReports | src/core/pipeline_chat.c:1122-1530 | the breaker hears of a success for a stream sent to its end, of a failure when no headers were sent, and nothing of an interrupted stream |
| ChatFailover.HeadersEndFailover | src/core/pipeline_chat.c:1410-1488 | after headers were sent no other upstream is contacted, nor the same one again |
| SseAccumulator.StreamCacheAcc.LineReserve | src/core/aigate_core.c:1226-1252 | succeeds exactly up to 1 MiB and keeps the line |
| SseAccumulator.StreamCacheAcc.ReserveContent | src/core/aigate_core.c:1254-1280 | succeeds exactly up to 512 KiB and keeps the content |
| SseAccumulator.GrowCap | src/core/aigate_core.c:1237-1241 | doubling from 4096 reaches the need within the limit exactly when the need is within it |
| SseAccumulator.StreamCacheAcc.AccumulateLine | src/core/aigate_core.c:1282-1328 | adds what one line says, or overflows |
| SseAccumulator.StreamCacheAcc.Write | src/core/aigate_core.c:1402-1436 | for every cut of a text: overflow exactly when it is too large, and otherwise id, time and content are those of its complete lines |
| SseAccumulator.SplitSegment | src/core/aigate_core.c:1424-1435 | a part without a newline only extends the unfinished line |
| SseAccumulator.MeaningAtNewline | src/core/aigate_core.c:1410-1423 | finishing a line adds it, and makes the text too large exactly by its length or its content |
| SseAccumulator.TooLargeStays | src/core/aigate_core.c:1395-1400 | a text that is too large stays so, whatever follows |
| SseAccumulator.CollectedExactly | src/core/aigate_core.c:1288-1328 | collected are the contents of the objects in the data lines, one after the other, the first id that is not empty, cut to 63 characters, and the first time that is not zero |
| SseAccumulator.LinesExactly | src/core/aigate_core.c:1402-1436 | the lines, joined with newlines, and the unfinished line are the text, and none has a newline |
| SseAccumulator.CStringIsCut | src/core/aigate_core.c:1290-1291 | a line is read up to its first zero byte |
| SseAccumulator.TooLargeExactly | src/core/aigate_core.c:1226-1280 | too large means a line of 1048576 characters or more, or content of 524288 or more |
| HashChain.AuditHashChain.Sign | src/observe/audit_hash_chain.c:56-134 | the signed record, and the chain that moves on even when it does not fit |
| HashChain.AuditHashChain.VerifyFile | src/observe/audit_hash_chain.c:136-333 | accepts exactly the chains, with their length; else the broken number is one past the longest valid beginning |
| HashChain.ChainExactly | src/observe/audit_hash_chain.c:136-324 | accepted is exactly a log whose records are numbered from 1, each naming the hash before it, the first the genesis hash, and carrying the hash of that, its number and its payload |
| HashChain.ToSignInjective | src/observe/audit_hash_chain.c:102 | the signed string determines previous hash, number and payload |
| HashChain.ChainPrefix | src/observe/audit_hash_chain.c:169-324 | a log cut short is still accepted |
| HashChain.LastHashDetermines | src/observe/audit_hash_chain.c:86-324 | two accepted logs with one last hash are the same record by record, or hold two different signed strings, at the same place from the end, with one hash |
| HashChain.SignedIsAccepted | src/observe/audit_hash_chain.c:56-134 | the log of any calls from a fresh context is a chain exactly when no record follows a lost one |
| HashChain.AuditHashChain.LogLine | src/observe/audit_logger.c:613-626 | the line written for an event: the signed record, or the event's own line when signing fails |
| HashChain.FileIsAccepted | src/observe/audit_logger.c:611-630 | through printing, stripping and parsing, each beginning of the file that the logger writes is accepted iff every event in it was signed |
| HashChain.FileHolds | src/observe/audit_logger.c:611-630 | record k of the file is event k: with the event's payload if it was signed, else as its own line |
| HashChain.LongEventBreaksLog | src/observe/audit_logger.c:615-621 | a log of two events, the second too long to sign, that is rejected |
| HashChain.RotatedFileIsRejected | src/observe/audit_logger.c:548-572 | a file begun by a rotation after any JSON event is rejected |
| LiveRing.AuditLiveRing.Record | src/observe/audit_logger.c:873-903 | slot (s-1) mod 2048 holds event s for every event still in the ring |
| LiveRing.AuditLiveRing.QueryRecent | src/observe/audit_logger.c:987-1047 | the events from the cursor or the window on, in order and unaltered, and the number missed |
| LiveRing.ReturnedExactly | src/observe/audit_logger.c:1009-1046 | without a cursor the newest events, with one the oldest of those after it, as many as were asked for and are still there; missed are those after the cursor that are not |
| LiveRing.FirstPoll | src/observe/audit_logger.c:1009-1046 | a first poll without a cursor delivers the newest events up to the last one and misses none |
| LiveRing.CursorIsAccounted | src/observe/audit_logger.c:1009-1046 | over any interleaving, events arrive in increasing order and the cursor moves by what was delivered plus what was missed |
| LiveRing.MissesExactly | src/observe/audit_logger.c:1009-1046 | nothing is missed exactly when no poll finds more events waiting than the ring holds, and then delivery has no gap |
| Budget.SpendTable.Find | src/policy/budget_enforce.c:147-151 | walking the chain finds the node of the id, or none exactly if there is none |
| Budget.SpendTable.FindOrInsert | src/policy/budget_enforce.c:240-253 | a new node in front of its chain, all others kept |
| Budget.SpendTable.Clear | src/policy/budget_enforce.c:64-85 | no node is left |
| Budget.BudgetEnforceMgr.Check | src/policy/budget_enforce.c:126-224 | rolls over, then allows exactly what is below the key's and the group's budgets |
| Budget.BudgetEnforceMgr.Record | src/policy/budget_enforce.c:226-281 | rolls over, then adds to the key's and the group's totals and to no others |
| Budget.BudgetEnforceMgr.GetKeyUsage | src/policy/budget_enforce.c:283-315 | the totals of a key |
| Budget.BudgetEnforceMgr.GetGroupUsage | src/policy/budget_enforce.c:317-340 | the cost of a group |
| Budget.BudgetEnforceMgr.SetGroupBudget | src/policy/budget_enforce.c:342-366 | sets a group's budget and keeps its total |
| Budget.BudgetEnforceMgr.Reset | src/policy/budget_enforce.c:114-124 | drops all totals and budgets in any month |
| Budget.TotalsAreSums | src/policy/budget_enforce.c:126-281 | over any run, the totals of a key and a group are the sums of what was recorded for them since the last reset or new month, and the group's own budget the one set last since then |
| Budget.AdmittedExactly | src/policy/budget_enforce.c:126-224 | over any run, a check passes iff what was recorded for the key is below its cost and its token budget, and for the group below the budget given or else set |
| Budget.KeySpendBounded | src/policy/budget_enforce.c:126-281 | in any interleaving of checks, records, settings and resets, over any months, the costs recorded in a month for a key with budget B and at most N requests in flight of at most C each sum to less than B + N*C |
| Budget.KeyTokensBounded | src/policy/budget_enforce.c:163-187 | the same bound for the tokens of a key with a token budget |
| Budget.GroupSpendBounded | src/policy/budget_enforce.c:189-273 | the same for a group, as long as its checks find the budget in force, whether given with the check or set |
| Budget.SetBudgetLastsExactly | src/policy/budget_enforce.c:114-200 | over any run, a set group budget is in force at a check without its own iff there was no reset and every check and record since, this one included, is of the month of the totals when it was set |
| Budget.LostAtOnce | src/policy/budget_enforce.c:342-366 | a budget that the first check of the month it was set in drops |
| Whitespace.NormalizeWhitespace | src/policy/cache_optimizer.c:111-177 | the loops write the normalised text and its end within the buffer |
| Whitespace.ResultIsNormal | src/policy/cache_optimizer.c:132-174 | normal form: no tab or carriage return, no double space, no space next to a newline or at an end, at most two newlines, also when truncated |
| Whitespace.Idempotent | src/policy/cache_optimizer.c:111-177 | normalising again changes nothing |
| Whitespace.LayoutStays | src/policy/cache_optimizer.c:132-167 | the words of what was read stay, in order, with the newlines between them and at the end, up to two; reading stops early only when the buffer is full |
| Whitespace.LayoutDetermines | src/policy/cache_optimizer.c:132-174 | a text in normal form is determined by its layout, so the result is the one normal text for what was read |

## Left out

- Transport, TLS, JSON, Redis, PostgreSQL, the Lua machine, POSIX regular expressions and HMAC are foreign
  code: upstream replies are arbitrary, JSON parsing and printing, matching, hashing and the store are given
  functions.
- Allocation never fails. Each operation under a mutex and each atomic instruction is one step, in one order for all
  threads; data races (such as reading a cached record after the cache was unlocked) and weaker memory orders are
  not modelled.
- Hash functions (FNV-1a, djb2, the integer mix) are arbitrary: the theorems hold for every one.
- Fixed-width counters (sequence numbers, failure counts, token totals) are unbounded, and costs and shares are
  reals without rounding.
- NULL-argument guards that only return early, logging, metrics, tracing, audit fields and event publishing.
- Strings are character sequences without a terminator; the stream accumulator's cut at the first zero byte is
  modelled.
- Guardrails: the mask, redact and block actions, webhooks, and the scan of the IPv4 parts by sscanf (given as
  a predicate). The session map's field for originals is never too small because longer matches are skipped.
- Circuit breaker: the table of entries (one entry is modelled, absent meaning fresh), names too long for their
  fields, changing the parameters or the window while samples are held, and the distributed mode.
- ChatFailover.HandleChatSync: takes its slots without interference (see `SlotCounter`), and does not model latency
  sums, the provider header, breaker samples, the response cache, and what happens inside the hedged call beyond
  its result.
- Stream accumulator: forwarding to the client, watermarking and the repacking into the response cache.
- HashChain.LastHashDetermines: concludes "the same or an explicit collision", since no hash with 64 characters
  is injective; chain fields of the wrong JSON type are not part of this model.
- Audit log: file and webhook queues, sampling, renaming the rotated files, and restart.
- Budgets: the bootstrap from the database and the reasoning quota's setters.
- `src/core/pipeline_native.c`, `src/core/pipeline_responses.c` and `src/core/pipeline_embeddings.c` run the same
  failover loop for other endpoints. The first-in first-out rings of the event bus, the audit queues and the trace
  buffer, the parsing and printing of trace headers, hexadecimal coding and the range checks of the configuration
  are one-function code with no state across calls beyond a read and a write index.
