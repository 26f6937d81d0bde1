# Verified model of holster's v3 collections, clock, request signing, election and fan-out

This project models six parts of the holster library (the `v3` tree; the packages of the same names at the root are
near-identical twins) and proves what they promise over all inputs, all runs and all interleavings.

- **TTL map over an index-tracking heap** (`PriorityQueue.dfy`, `TTLTable.dfy`, `TTLMap.dfy`). A key table and a binary
  min-heap of expiry times point at each other; heap items carry their own array index. The sifting procedures are those of Go's
  `container/heap`, written out over this queue's own `Less`, `Swap`, `Push` and `Pop`. The classes work on shared
  mutable items and refine a plain table of values with expiry seconds (`TTLTables`).
- **Signed requests** (`Encoding.dfy`, `NonceCache.dfy`, `Signer.dfy`). The length-prefixed byte string that is
  authenticated decodes uniquely; what is signed verifies, exactly inside the timestamp window; and a (timestamp, nonce)
  pair is accepted once, under two conditions each of which is shown to be needed. The keyed hash (section 2 of RFC 2104)
  and the canonical form of header names are parameters; signatures are base16 (section 8 of RFC 4648).
- **LRU cache** (`Recency.dfy`, `Lookups.dfy`, `LRUCache.dfy`). The class, a key table and a recency list of mutable
  elements, refines a list of records. Over every history a cache with the tighter bound is a subsequence of one with the
  looser bound, the list is ordered by last touch, and it is exact what lookups find.
- **Frozen clock** (`Schedule.dfy`, `Callbacks.dfy`, `Tickers.dfy`, `OneShots.dfy`, `TimerRuns.dfy`, `FrozenClock.dfy`). A
  discrete-event scheduler: stable insertion, re-arming tickers, one-slot channels that drop beats. Callbacks are arbitrary steps
  interleaved with the firings. The class keeps the slice of timers in place and refines the schedule, including what a
  stale `stopped` mark does; a timer's function is a method that makes arbitrary choices.
- **Leader election** (`CampaignStore.dfy`, `Election.dfy`, `Departures.dfy`, `CampaignKeys.dfy`, `Campaigns.dfy`,
  `Stops.dfy`, `Session.dfy`). Candidates against an abstract store with one revision counter, create revisions, leases
  that may run out at any step and an ordered event log. Query, answer and assignment are separate steps. The session
  drives the election's goroutines through the wait group (counter, mutex, `done` channel): those of two leases never
  meet, and it is exact when stopping them can end.
- **Fan-out pool and expire cache** (`FanOut.dfy`, `ExpireCache.dfy`). Channel and mutex protocols as interleaved steps.

Conventions. Clock readings are integers in nanoseconds and are passed in; where the code reads the clock several times
in one call, each reading is a parameter of its own. Strings are sequences of characters that stand for bytes. Objects
that the code updates in place are classes whose methods are proved against functions on values; protocols are step
relations (`Enabled`, `Next`) with theorems about every run. A member called `Inv` is what every step keeps.

Results that go against what one might expect of the code:

- `Reset` on the frozen clock never clears `stopped`, so a later `Stop` is ignored and a second `Reset` schedules the
  timer twice (`StopWorksExactly`, `ResetSchedulesOnceExactly`). A second `Reset` leaves the schedule in order exactly
  when the timer, moved where it stands, still lies between its neighbours; otherwise an advance can pass over a timer
  that is due (`ResetKeepsOrderExactly`, `RunInOrderExactly`, `SecondResetBreaksOrder`).
- A function called by an advance reads the time at which the advance ends, so splitting an advance changes what
  functions see unless none is due in its first part (`CallsSplitExactly`).
- A repeated request is accepted again if its cache lookup is ttl seconds or more after the first insertion, or if at
  least as many requests as the capacity were accepted meanwhile at later seconds. When no other request was accepted in
  the second of the first, and the lookup is in time, it is accepted again exactly when more requests than the capacity
  were accepted from then on (`RepeatAcceptedExactly`, `TrafficLetsRepeatThrough`, `RepeatAcceptedExactlyByTraffic`).
- The leader flag alone is not exclusive; the flag together with the key still being in the store is
  (`FlagsOverlapAtHandover`, `AtMostOneReigns`).
- Stopping a campaign can wait for ever, with the leader flag up and the lease lost: `Stop` holds the mutex that a
  goroutine which has announced a leader needs to start its watch (`StopReturnsExactly`, `StopCanHang`).
- Campaign keys have no separator between election name and lease, so elections can see each other's keys in two ways,
  and not only when one name extends the other (`KeysMixExactly`).
- The expire cache documents that every item is processed before removal, and that touched items stay. An item added
  during a callback for the same key can be removed at once, and a value added or updated during the callback can be
  removed without a callback having seen it (`RemovedTooEarlyExactly`, `ProcessedExactly`, `ReplacementIsLost`,
  `UpdateIsLost`).
- The TTL map's error text says that `ttlSeconds` should be `>= 0`; the code also refuses zero (`Set`). Beyond
  9 223 372 036 seconds the expiry wraps around (`ExpiryIsTTLSecondsAhead`).

## Model

| member | source | states |
|---|---|---|
| PriorityQueues.RootIsMinimum | v3/collections/priority_queue.go:52-54 | in heap order the root, which Peek returns, is no larger than any item |
| PriorityQueues.PriorityQueue.Swap | v3/collections/priority_queue.go:76-80 | two slots are exchanged, the items are the same, and every item still records its own position |
| PriorityQueues.PriorityQueue.PopLast | v3/collections/priority_queue.go:89-96 | the last slot goes, its item gets index -1, the others keep order and positions |
| PriorityQueues.PriorityQueue.Push | v3/collections/priority_queue.go:43-45 | exactly the new item is added; heap order and all positions are kept |
| PriorityQueues.PriorityQueue.Pop | v3/collections/priority_queue.go:47-50 | an item of least priority leaves with index -1; the rest stay, in heap order and at their recorded positions |
| PriorityQueues.PriorityQueue.Remove | v3/collections/priority_queue.go:63-65 | exactly the given item leaves, from wherever it sits, with index -1; heap order is restored in either direction |
| PriorityQueues.PriorityQueue.Update | v3/collections/priority_queue.go:57-61 | the item gets the new priority, the set of items is the same, heap order and positions hold |
| TTLTables.ExpiryIsTTLSecondsAhead | v3/collections/ttlmap.go:228-233 | an entry expires ttl seconds after the clock's second if and only if the duration fits in 64 bits of nanoseconds |
| TTLTables.Wrap64Exactly | v3/collections/ttlmap.go:84-107 | 64-bit wrap-around stays in range, differs by a multiple of 2^64, and changes nothing exactly inside the range |
| TTLTables.UnixFloors | v3/collections/ttlmap.go:228-233 | seconds are nanoseconds rounded down |
| TTLTables.StoredThenFound | v3/collections/ttlmap.go:145-165 | a value stored for ttl seconds is found, unchanged, up to but not including the second ttl after the store |
| TTLTables.GetDeletesExactly | v3/collections/ttlmap.go:167-188 | a read deletes its key exactly if both readings find it expired, and touches no other |
| TTLTables.PurgesCount | v3/collections/ttlmap.go:198-215 | a purge removes exactly as many as asked for, or every expired entry if there are fewer |
| TTLTables.StoresSparesLiveEntries | v3/collections/ttlmap.go:190-196 | making room never costs an unexpired entry while an expired one exists |
| TTLTables.StoresFits | v3/collections/ttlmap.go:121-143 | storing keeps the size bound and the new entry is in the table |
| TTLTables.RunFits | v3/collections/ttlmap.go:128-130 | over every run from an empty map the size is at most the capacity, or one when the capacity is zero |
| TTLMaps.TTLMap.constructor | v3/collections/ttlmap.go:43-54 | a new map is empty and a negative capacity counts as zero |
| TTLMaps.TTLMap.HeapMirrorsTable | v3/collections/ttlmap.go:131-141 | every element's item sits at the index it records and every heap slot leads back to its own element |
| TTLMaps.TTLMap.RootIsEarliest | v3/collections/ttlmap.go:202-206 | while the table is not empty the heap's root belongs to an entry of least expiry |
| TTLMaps.TTLMap.RemoveExpired | v3/collections/ttlmap.go:198-215 | only expired entries go, earliest first, none is left if fewer than asked for went, and the count is returned |
| TTLMaps.TTLMap.RemoveLastUsed | v3/collections/ttlmap.go:217-226 | exactly the asked number or all entries go, none expiring later than a survivor |
| TTLMaps.TTLMap.FreeSpace | v3/collections/ttlmap.go:190-196 | that many entries of least expiry go, whether or not they had expired |
| TTLMaps.TTLMap.Store | v3/collections/ttlmap.go:121-143 | an existing key is overwritten in place; a new key at capacity costs exactly one entry of least expiry; table and heap stay in bijection |
| TTLMaps.TTLMap.Set | v3/collections/ttlmap.go:56-64 | a non-positive ttl is refused and changes nothing; otherwise the entry is stored with its expiry second |
| TTLMaps.TTLMap.LockNGet | v3/collections/ttlmap.go:145-165 | finds exactly the stored value and says whether its expiry is at or before now |
| TTLMaps.TTLMap.LockNDel | v3/collections/ttlmap.go:167-188 | deletes the key's present element only if it has expired by then, and reports exactly that deletion to OnExpire |
| TTLMaps.TTLMap.Get | v3/collections/ttlmap.go:72-82 | succeeds exactly when the stored expiry is greater than now; an entry found expired and still expired under the lock is deleted, and exactly that is reported to OnExpire |
| TTLMaps.TTLMap.GetInt | v3/collections/ttlmap.go:109-119 | as Get, deletion and report included, with an error for a value that is not an integer |
| TTLMaps.TTLMap.Increment | v3/collections/ttlmap.go:84-107 | adds with 64-bit wrap-around to a live integer, starts afresh on a missing or expired key, refuses other values unchanged, and renews the expiry |
| Nonces.EntryOldOrNew | v3/httpsign/nonce.go:26-40 | one verification leaves entries alone, except that an accepted call files its nonce ttl seconds ahead |
| Nonces.EntriesComeFromCalls | v3/httpsign/nonce.go:26-40 | in every run each cached nonce was put there by an accepted call whose time explains its expiry |
| Nonces.EvictionNeedsTraffic | v3/collections/ttlmap.go:190-226 | evicting a nonce takes more acceptances since its own second than the capacity |
| Nonces.NonceStaysUntil | v3/collections/ttlmap.go:121-143 | within the traffic bound an accepted nonce stays cached with its full time |
| Nonces.AcceptOnce | v3/httpsign/signer.go:241-281 | in every run an accepted (timestamp, nonce) pair is refused afterwards, within the traffic bound and if the repeat's lookup lags its timestamp check by no more than the first call's insertion did |
| Nonces.AcceptOnceAtOneReading | v3/httpsign/signer.go:241-281 | with one clock reading per call the traffic bound alone suffices |
| Nonces.RepeatAcceptedExactly | v3/httpsign/nonce.go:26-40 | within the traffic bound a genuine repeat in the window is accepted if and only if its lookup is ttl seconds or more after the insertion |
| Nonces.LaterAllHeld | v3/collections/ttlmap.go:190-226 | while an accepted nonce is held, so is every nonce accepted at a later second, each under a key of its own |
| Nonces.TrafficLetsRepeatThrough | v3/collections/ttlmap.go:121-143 | in every run a genuine repeat in the window, not accepted before it, is accepted once at least capacity calls were accepted between at strictly later seconds |
| Nonces.RepeatAcceptedExactlyByTraffic | v3/httpsign/nonce.go:26-40 | alone in its second and looked up in time, a nonce not accepted again so far is accepted again if and only if more than capacity calls were accepted from its acceptance on |
| Nonces.DelayedRepeatIsAccepted | v3/httpsign/signer.go:241-251 | a concrete run in which a delayed repeat is accepted again |
| Nonces.EvictedRepeatIsAccepted | v3/collections/ttlmap.go:128-130 | a concrete run in which one acceptance above capacity lets a prompt repeat through; `TrafficLetsRepeatThrough` says when this happens |
| Numerals.ParseFormat | v3/httpsign/signer.go:261-264 | what FormatInt writes ParseInt reads back exactly for 64-bit integers, and refuses otherwise |
| Numerals.ParsesExactly | v3/httpsign/signer.go:261-264 | one sign or none followed by digits is read as that number if it fits in 64 bits, and refused otherwise or without digits |
| Numerals.ParsesNothingElse | v3/httpsign/signer.go:261-264 | nothing else is read |
| Numerals.DecimalIsShortest | v3/httpsign/signer.go:289-309 | lengths are written without leading zeros and in base ten |
| Numerals.FormatIntSign | v3/httpsign/signer.go:178 | a timestamp carries a sign only if it is negative |
| Numerals.HexRoundTrip | v3/httpsign/signer.go:180-183 | base16 decoding inverts encoding |
| Numerals.HexEncodeAt | v3/httpsign/signer.go:180-183 | each byte is written as its high and then its low digit |
| Numerals.HexAlphabet | v3/httpsign/signer.go:180-183 | the digits are 0 to 9 and a to f |
| Numerals.HexDecodesExactly | v3/httpsign/signer.go:317-322 | a text decodes if and only if its length is even and all characters are hexadecimal digits |
| Numerals.HexDecodeIgnoresCase | v3/httpsign/signer.go:317-322 | what decodes is the encoding of its bytes up to letter case |
| Numerals.SameBytesExactly | v3/httpsign/signer.go:317-322 | two decodable signature texts stand for the same bytes if and only if they are equal up to letter case |
| Framing.MessageRoundTrip | v3/httpsign/signer.go:283-312 | the whole field list is recovered from the length-prefixed bytes, whatever the fields contain |
| Framing.SignedTextRoundTrip | v3/httpsign/signer.go:283-312 | for a fixed verb-and-URI setting timestamp, nonce, body, route and headers are all recovered |
| Framing.SignedTextWritten | v3/httpsign/signer.go:289-309 | the text is the concatenation, in the order they are written, of each field behind its decimal length |
| Framing.RouteConfusion | v3/httpsign/signer.go:297-309 | across the two settings two texts coincide if and only if one's first two headers are the other's verb and URI |
| Signatures.SigningKeepsHeaderValues | v3/httpsign/signer.go:377-392 | signing does not change the header values that were signed |
| Signatures.SignedIsAuthentic | v3/httpsign/signer.go:158-195 | a signed request passes header and signature checks with its own nonce and timestamp |
| Signatures.SignThenVerify | v3/httpsign/signer.go:259-281 | signed at second s, a request is admissible at second v exactly when v-(ttl-5) < s < v+5, and fails with the right error otherwise |
| Signatures.SignedRequestAccepted | v3/httpsign/signer.go:207-257 | a freshly signed request is accepted if and only if it is in the window and its nonce is not held |
| Signatures.SignatureBindsMessage | v3/httpsign/signer.go:314-334 | if the hash does not collide on the two texts signed, one signature vouches for one nonce, timestamp, body text, first value of each signed header and, if signed, verb and URI; no body is as good as an empty one |
| Signatures.AuthenticExactly | v3/httpsign/signer.go:207-239 | a request is authentic if and only if its three headers and all signed ones are there, its body can be read, and its signature decodes to the hash of what it claims |
| Signatures.RefusedBecause | v3/httpsign/signer.go:207-239 | otherwise the error is that of the first check that fails |
| Signatures.BadTimestampRefused | v3/httpsign/signer.go:259-264 | an authentic request is refused for a bad timestamp if and only if its timestamp is no 64-bit number |
| Signatures.RouteCounts | v3/httpsign/signer.go:297-301 | verb and URI may be anything if they are not signed; if they are, a change is refused unless the hash collides |
| Signatures.SigningWrites | v3/httpsign/signer.go:185-189 | signing sets nonce, timestamp, signature and version 2, each to one value, and leaves all other headers |
| Signatures.TrafficIsRun | v3/httpsign/signer.go:207-257 | every sequence of verified requests is a run of the nonce cache, with the outcomes of the requests |
| Signatures.RequestAcceptedOnce | v3/httpsign/signer.go:207-257 | once a request is accepted, any request with the same signature bytes is refused, as seen before if it passes the earlier checks, if the hash does not collide on what the two claim, under the bounds on traffic and delay of AcceptOnce |
| Signatures.SameRequestAcceptedOnce | v3/httpsign/signer.go:207-257 | an accepted request is refused when it comes again unchanged, under the same bounds and with no condition on the hash |
| Signers.NonceCache.constructor | v3/httpsign/nonce.go:17-22 | a new cache is empty with the given capacity and time |
| Signers.NonceCache.InCache | v3/httpsign/nonce.go:26-40 | says whether the nonce is held and live; otherwise stores it for the cache time |
| Signers.Signer.constructor | v3/httpsign/signer.go:86-104 | unset sizes and names take their defaults, so capacity and time are at least one |
| Signers.Signer.New | v3/httpsign/signer.go:79-146 | no configuration, an unreadable key file and no key are errors; otherwise a service with its key, an empty nonce cache, and the configured values or their defaults |
| Signers.Signer.KeyFromFile | v3/httpsign/signer.go:394-405 | a key file counts before key bytes and loses exactly one newline at its end |
| Signers.Signer.DefaultNames | v3/httpsign/signer.go:92-103 | names that are set stay, and names that are not become the documented ones |
| Signers.Signer.ExtractHeaderValues | v3/httpsign/signer.go:377-392 | the first missing header is reported, otherwise all values are returned in order |
| Signers.Signer.ComputeMAC | v3/httpsign/signer.go:283-312 | the writes in sequence amount to the hash of the framed fields |
| Signers.Signer.SignRequest | v3/httpsign/signer.go:158-195 | the four headers are set; an unreadable body, a missing header or a failing random source is an error that sets none |
| Signers.Signer.CheckAuthentic | v3/httpsign/signer.go:207-239 | the header, extraction and signature checks in order, with their errors |
| Signers.Signer.CheckAdmissible | v3/httpsign/signer.go:241-245 | authenticity followed by the timestamp window, with their errors |
| Signers.Signer.VerifyRequest | v3/httpsign/signer.go:207-257 | a request that fails earlier leaves the cache alone; otherwise it is one call of a nonce run and is refused exactly when its nonce is held |
| Recency.AfterKeepsShape | v3/collections/lru_cache.go:88-155 | every operation keeps keys distinct and the bound respected |
| Recency.AfterKeepsInclusion | v3/collections/lru_cache.go:88-155 | every operation keeps the tighter cache within the looser one, which is ahead by at most the difference in bounds |
| Recency.RunInclusion | v3/collections/lru_cache.go:88-155 | over every history the recency list of the tighter bound is a subsequence of that of the looser bound, with equal records |
| Recency.InclusionExactly | v3/collections/lru_cache.go:100-105 | inclusion over every history holds for exactly those pairs of bounds where the second allows whatever the first does |
| Recency.HitsCarryOver | v3/collections/lru_cache.go:109-128 | a lookup that hits with the tighter bound hits with the looser one, with the same value |
| Recency.RunIsByRecency | v3/collections/lru_cache.go:88-128 | over every history the list is ordered by last addition or successful lookup, latest first |
| Recency.RunHoldsLastAdded | v3/collections/lru_cache.go:92-98 | every record held is the one last added under its key |
| Recency.EvictsLeastRecent | v3/collections/lru_cache.go:100-105 | adding a new key to a full cache drops exactly the record touched longest ago |
| Lookups.AddThenGet | v3/collections/lru_cache.go:88-128 | whatever the bound, a record just added is found, with its value, exactly while its expiry does not lie before now |
| Lookups.UnboundedHoldsExactly | v3/collections/lru_cache.go:88-138 | over every history an unbounded cache holds under a key the record last added, unless it was removed, or looked up after its expiry |
| Lookups.UnboundedHitsExactly | v3/collections/lru_cache.go:109-128 | so a lookup hits exactly while that record is in time |
| Lookups.BoundedHitsOnlyFiled | v3/collections/lru_cache.go:109-128 | a bounded cache hits only with that record and in time |
| Lookups.RecentIsHeld | v3/collections/lru_cache.go:100-105 | over every history a record stays until as many operations as the bound have put other keys in front of it |
| Lookups.RecentHitsExactly | v3/collections/lru_cache.go:109-128 | within that distance a bounded cache too hits exactly while the record is in time |
| Lookups.AddConserves | v3/collections/lru_cache.go:100-105 | adding a new key loses exactly the record OnEvicted is told of |
| Lookups.GetConserves | v3/collections/lru_cache.go:113-121 | a lookup loses exactly the record OnEvicted is told of, which is the one found out of time |
| RecencyLists.AgreesFind | v3/collections/lru_cache.go:48-49 | looking a key up in the table and in the list comes to the same |
| LRUCaches.LRUCache.constructor | v3/collections/lru_cache.go:64-70 | a new cache is empty with the given bound |
| LRUCaches.LRUCache.AddRecord | v3/collections/lru_cache.go:88-106 | the list becomes that of an addition, the result says whether the key existed, and OnEvicted hears of exactly the record pushed out |
| LRUCaches.LRUCache.Add | v3/collections/lru_cache.go:73-75 | an addition without expiry; OnEvicted hears of exactly the record pushed out |
| LRUCaches.LRUCache.AddWithTTL | v3/collections/lru_cache.go:78-85 | an addition that expires ttl after now; OnEvicted hears of exactly the record pushed out |
| LRUCaches.LRUCache.Get | v3/collections/lru_cache.go:109-128 | returns the live value, removes an expired record and tells OnEvicted of it, moves a hit to the front, and counts a hit or a miss |
| LRUCaches.LRUCache.Remove | v3/collections/lru_cache.go:131-138 | exactly the key's record goes and OnEvicted hears of it |
| LRUCaches.LRUCache.RemoveOldest | v3/collections/lru_cache.go:141-146 | the record at the back goes |
| LRUCaches.LRUCache.RemoveElement | v3/collections/lru_cache.go:148-155 | the element leaves list and table together, which stay in agreement |
| LRUCaches.LRUCache.Peek | v3/collections/lru_cache.go:187-196 | the stored value, expired or not, and nothing changes |
| LRUCaches.LRUCache.ReadStats | v3/collections/lru_cache.go:165-173 | hits and misses add up to the lookups since the last reading, and the counters restart |
| Schedules.NextKeepsInv | v3/clock/frozen.go:53-151 | every step with a non-negative duration and a new timer to start keeps schedule and firings in order, as long as a Reset of a timer still pending from an earlier Reset keeps that timer in its place |
| Schedules.RunKeepsOrder | v3/clock/frozen.go:53-151 | over every run of such steps the log of firings is in order of time, and of insertion among equal times |
| Schedules.RunInOrderExactly | v3/clock/frozen.go:53-175 | over every run with non-negative durations and new timers to start, each state has firings and schedule in order if and only if every Reset keeps its timer in place |
| Schedules.FireUsesOneBeat | v3/clock/frozen.go:58-75 | every turn of the loop uses up exactly one due beat, which is why it ends |
| Schedules.FireAllExact | v3/clock/frozen.go:53-88 | from a schedule in order an advance fires exactly the beats that are due and leaves every timer strictly in the future |
| Schedules.AdvanceSplits | v3/clock/frozen.go:53-124 | advancing by a and then b gives the same firings, schedule, channels and clock as advancing by a+b |
| Callbacks.CallbacksSeeWhereTheAdvanceEnds | v3/clock/frozen.go:76-86 | with callbacks time cannot be split: from a new clock, two advances by one make a timer due that a callback started and one advance by two does not |
| Callbacks.CallsSplitExactly | v3/clock/frozen.go:53-88 | two advances call the same functions at the same clock times as one of their joint length if and only if the second is empty or no function is due in the first |
| Schedules.FiringsBounded | v3/clock/frozen.go:76-86 | while the clock stands still, callbacks that start timers only in the future and reset timers only within the order cannot add firings beyond the beats due at the start |
| Schedules.ResetIsStopStart | v3/clock/frozen.go:170-175 | without a stale mark Reset is Stop followed by a new start |
| Schedules.StopUnschedulesExactly | v3/clock/frozen.go:90-108 | Stop takes a timer off the schedule if and only if it is not pending with its stopped mark set |
| Schedules.StopWorksExactly | v3/clock/frozen.go:90-108 | in every run in order from a new clock Stop leaves a pending timer on the schedule if and only if the timer was put there by Reset, and not by its creation or re-arming |
| Schedules.StopAfterResetDoesNothing | v3/clock/frozen.go:170-175 | after any Reset the timer is pending with the mark set and the next Stop changes nothing |
| Schedules.ResetSchedulesOnceExactly | v3/clock/frozen.go:170-175 | Reset leaves its timer scheduled once if and only if it was not pending with its stopped mark set |
| Schedules.ResetKeepsOrderExactly | v3/clock/frozen.go:170-175 | Reset leaves the schedule sorted if and only if whatever Stop has left of the timer still lies, at the new time, between its neighbours |
| Schedules.SecondResetBreaksOrder | v3/clock/frozen.go:170-175 | a run from a new clock after which a second Reset leaves the schedule out of order, and an advance to 8 does not fire the timer due at 7 |
| Tickers.NextKeepsTicking | v3/clock/frozen.go:69-75 | every step that does not turn the clock back and is not about the ticker itself keeps it scheduled once, for the beat after those fired, in whatever order the schedule is |
| Tickers.TicksExactly | v3/clock/frozen.go:69-75 | a ticker has beaten at the multiples of its interval, at most floor((now-s)/interval) times, and exactly that often if and only if no beat of it is due |
| Tickers.CaughtUpAfterAdvance | v3/clock/frozen.go:110-124 | with the schedule sorted, no beat is due once an advance has finished |
| TickerRuns.TickerOverRun | v3/clock/frozen.go:189-201 | the same from its creation on, over every run of steps that leave it alone and do not turn the clock back |
| Tickers.SlotHoldsEarliest | v3/clock/frozen.go:59-68 | over every run a channel holds the first beat since it was last read, however many follow, and nothing if there was none |
| Tickers.FunctionsSendNothing | v3/clock/frozen.go:59-68 | a timer with a function sends nothing |
| TimerRuns.TimerOverRun | v3/clock/frozen.go:40-51 | over every run that leaves it alone a new timer is scheduled once for d from its start, or has fired exactly once, at that time, which has passed |
| TimerRuns.ResetOverRun | v3/clock/frozen.go:170-175 | the same from a Reset on, unless the timer was pending with its stopped mark set |
| TimerRuns.StoppedOverRun | v3/clock/frozen.go:90-108 | a stopped timer never fires again over any run that leaves it alone, unless it was pending with its stopped mark set |
| OneShots.FiredExactly | v3/clock/frozen.go:110-124 | with none of its beats due such a timer has fired if and only if its time has come |
| OneShots.StartedIsKnown | v3/clock/frozen.go:90-124 | over every run in order a timer once started is pending or carries the stopped mark |
| OneShots.ClockFollows | v3/clock/frozen.go:53-57 | the clock is moved by advances only, and by their length |
| OneShots.AdvanceExact | v3/clock/frozen.go:53-88 | an advance moves the clock by its length, fires exactly the beats due by then and leaves the rest in the future |
| FrozenClocks.FrozenTime.UnlockedStartTimer | v3/clock/frozen.go:140-151 | the scan and shift amount to a stable insertion |
| FrozenClocks.FrozenTime.AfterFunc | v3/clock/frozen.go:40-51 | a new one-shot timer is scheduled d from now |
| FrozenClocks.FrozenTime.Tick | v3/clock/frozen.go:189-208 | a non-positive interval gives no ticker and changes nothing; otherwise one is scheduled an interval from now |
| FrozenClocks.FrozenTime.StopTimer | v3/clock/frozen.go:90-108 | unmarked and pending timers are taken out and marked; the result says whether that happened |
| FrozenClocks.FrozenTime.Reset | v3/clock/frozen.go:170-175 | Stop, then the time is rewritten wherever the timer is still listed, then it is inserted again; the result is that of Stop |
| FrozenClocks.FrozenTime.TakeHead | v3/clock/frozen.go:110-124 | the head leaves, is marked stopped, and its time is offered to an empty channel only |
| FrozenClocks.FrozenTime.FireNext | v3/clock/frozen.go:58-75 | one turn of the loop, with tickers re-armed and unmarked |
| FrozenClocks.FrozenTime.Advance | v3/clock/frozen.go:53-88 | the loop ends, and its result is the schedule after all due beats |
| FrozenClocks.FrozenTime.AdvanceReentrant | v3/clock/frozen.go:53-88 | with functions that start timers in the future, and stop, reset and read any timer known to them, those they started included, the loop still ends, fires at most the beats due at its start, keeps the order, and leaves every timer in the future |
| CampaignStores.FirstExists | v3/etcdutil/election.go:281-291 | whenever a key is alive one was created first |
| CampaignStores.FirstWhileLiveStable | v3/etcdutil/election.go:281-291 | whatever the store does, a first-created key stays first until it is deleted |
| CampaignStores.NotMissedStable | v3/etcdutil/election.go:310-316 | whatever the store does, a followed key is alive or its deletion is still ahead of the watcher |
| CampaignStores.AfterSplits | v3/etcdutil/election.go:312-316 | a watch from the revision after a given one is given all later events and no earlier one |
| Elections.NextKeepsInv | v3/etcdutil/election.go:178-363 | every step of every candidate and of the store keeps all candidates sound; only its owner creates a key |
| Elections.AtMostOneReigns | v3/etcdutil/election.go:383-400 | in every reachable state at most one candidate has its flag up with its own key in the store, and that key is the first created |
| Elections.CaughtUpAgrees | v3/etcdutil/election.go:295-363 | a watcher that has handled every event follows the first-created live key, and its flag says whether that key is its own |
| Elections.CaughtUpCandidatesAgree | v3/etcdutil/election.go:295-363 | candidates that have caught up follow the same key and at most one of them leads |
| Elections.SuccessorArises | v3/etcdutil/election.go:202-239 | from the start, two campaigns one after the other reach the state in which a handover can begin |
| Elections.FlagsOverlapAtHandover | v3/etcdutil/election.go:339-363 | after the leader's lease runs out both flags can be up, while only the successor's key is in the store |
| Departures.WithdrawDeletes | v3/etcdutil/election.go:241-251 | a withdrawal that reaches the store deletes exactly the candidate's key, and leaves a deletion event if it was there |
| Departures.WithdrawnIsNotFollowed | v3/etcdutil/election.go:364-376 | in every run, after such a withdrawal and until the candidate registers again, no watcher that has handled every event follows its key |
| Departures.ExpireDeletes | v3/etcdutil/election.go:253-258 | a lease that runs out takes exactly its own key with it |
| Departures.ExpiredStaysOut | v3/etcdutil/election.go:253-258 | in every run the key of a lease that ran out never comes back |
| Departures.RegisterFiles | v3/etcdutil/election.go:253-278 | a registration files the candidate's key under a revision above all others, or leaves the one it has, and returns that revision |
| Departures.OnlyRegisterCreates | v3/etcdutil/election.go:253-258 | a key comes into the store only by its owner's registration and only while its lease lives |
| Departures.WatchesFromRegistration | v3/etcdutil/election.go:312-316 | after its announcement a candidate is given every event after its registration and no other |
| Departures.AsksOnlyAboutLeader | v3/etcdutil/election.go:340-345 | a watcher asks who leads exactly on an event for the key it follows |
| Departures.EndsOnlyWhen | v3/etcdutil/election.go:202-239 | a campaign ends only without a registration, without a leader, on a fatal error, or after withdrawing on request |
| Departures.ErrorIsNotTheEnd | v3/etcdutil/election.go:206-235 | after an error the candidate can register again, at once or having withdrawn |
| Departures.GivingUp | v3/etcdutil/election.go:206-235 | a candidate that gives up after an error withdraws if it has registered, and just ends if it has not |
| Departures.FatalThenNewLease | v3/etcdutil/election.go:329-355 | a fatal error ends the watch with the flag down, and after the lease is lost the next one starts a new campaign |
| Departures.ShutdownWithdraws | v3/etcdutil/election.go:364-376 | shutting down goes by way of a withdrawal and leaves the flag down and, if the store was reached, no key |
| Departures.NoLeaderEndsQuietly | v3/etcdutil/election.go:304-306 | a candidate that finds no key ends its campaign without an error |
| Departures.RevisionCounts | v3/etcdutil/election.go:263 | every write takes one revision, and only those to campaign keys leave an event |
| CampaignKeys.KeyInjective | v3/etcdutil/election.go:253-258 | within an election different leases have different keys |
| CampaignKeys.TextLength | v3/etcdutil/election.go:255 | the lease is written in base 16 with as many digits as it needs |
| CampaignKeys.KeysMixExactly | v3/etcdutil/election.go:253-258 | another election's keys fall under this one's prefix if and only if its name extends this one's, or this one's is the other's followed by the text of a positive 64-bit lease |
| Sessions.NextKeepsInv | v3/etcdutil/session.go:65-158 | every step of the loop, Close, Reset and the election keeps calls and campaigns in step, and a lease is gained only when none is held |
| Sessions.ObserverHears | v3/etcdutil/session.go:71-158 | the observer is called exactly with a lease gained and without one on a failed grant, a lost heartbeat, a failed revocation and a close; other steps, a heartbeat among them, leave the election alone |
| Sessions.CanRegain | v3/etcdutil/session.go:37-41 | a running session that is not inside its observer can always come to hold a lease |
| Sessions.StopsOnlyWhenAsked | v3/etcdutil/session.go:76-115 | the loop stops only while a close or reset is under way |
| Sessions.CloseIsRemembered | v3/etcdutil/session.go:124-143 | in every run a close ends as a close and a reset as a reset |
| Sessions.ClosedMeans | v3/etcdutil/session.go:124-143 | Close leaves the loop stopped without a lease, Reset leaves it started again |
| Sessions.ClosedForGood | v3/etcdutil/session.go:132-143 | in every run a closed session stays closed and its observer hears no more |
| Sessions.FlagIsLastWord | v3/etcdutil/election.go:383-411 | in every run the flag says what was last found out, and errors, withdrawals and stops take it down |
| Sessions.LeasesAreSeparated | v3/etcdutil/session.go:65-158 | in every run two observer calls with a lease are separated by one without |
| Sessions.CampaignsFollowLeases | v3/etcdutil/election.go:178-239 | in every run all goroutines alive work for the lease handed over last, so those of two leases never meet; the flag is up only while one of them lives; each lease starts one campaign |
| Sessions.LossEndsCampaign | v3/etcdutil/election.go:181-194 | once onSessionChange has returned from a call without a lease, no goroutine is left and the flag is down |
| Campaigns.ObserveKeepsInv | v3/etcdutil/election.go:178-200 | a call with or without a lease keeps campaigns, wait group and flag accounted for |
| Campaigns.NextKeepsInv | v3/etcdutil/election.go:202-239 | every step of the outer and inner goroutines and of Stop keeps the counter equal to the goroutines alive, all of one lease, and the flag backed by one of them |
| Campaigns.LeavesOnlyWhen | v3/etcdutil/election.go:202-239 | a goroutine leaves only when it gives up before registering, finds no leader, has started its watch, or stops watching |
| Campaigns.ErrorIsRetried | v3/etcdutil/election.go:206-235 | after an error the campaign can go on; under a stop it withdraws and goes on, or gives up if it was not registered |
| Campaigns.LeavesAtOnce | v3/etcdutil/election.go:304-355 | a goroutine that finds no leader, or stops watching, leaves at once |
| Stops.StopReturnsExactly | v3/syncutil/waitgroup.go:56-85 | while Stop waits, some interleaving lets it return if and only if no goroutine has announced a leader without having taken the mutex for its watch |
| Sessions.StopCanHang | v3/etcdutil/election.go:324-327 | a run in which the lease is lost between announcement and watch: nothing of the election moves any more and the flag stays up |
| FanOuts.NeverPanics | v3/syncutil/fanout.go:63-84 | nothing is sent on the closed error channel |
| FanOuts.NextKeepsInv | v3/syncutil/fanout.go:46-93 | every step keeps slots, channel and errors accounted for |
| FanOuts.RunsAreBounded | v3/syncutil/fanout.go:63-72 | in every interleaving of a pool made with a size at most that many callbacks run at once, one if the size is zero |
| FanOuts.SpawnsExactly | v3/syncutil/fanout.go:31-72 | Run lets a callback start exactly while fewer than that many are on their way |
| FanOuts.ErrorsInOrder | v3/syncutil/fanout.go:46-60 | errors are collected in the order they were sent |
| FanOuts.WaitReturnsAllErrors | v3/syncutil/fanout.go:75-93 | when Wait returns every callback has finished and the errors are exactly the non-nil ones, with multiplicity and in the order they were sent |
| FanOuts.NeverStuck | v3/syncutil/fanout.go:46-93 | before Wait returns some step can always be taken |
| FanOuts.RunsAreFinite | v3/syncutil/fanout.go:46-93 | every run is bounded by the work in a new pool, and one that cannot go on has returned from Wait |
| Expiry.NextKeepsInv | v3/collections/expire_cache.go:73-177 | every critical section keeps records in place under the key they were added for, and approval after a call |
| Expiry.CachedFollows | v3/collections/expire_cache.go:73-116 | in every run a cached record holds the value last written to its key and expires ttl after the key was last touched |
| Expiry.OnlyVisitsRemove | v3/collections/expire_cache.go:142-177 | a key leaves only by a visit to it whose callback returned nil and whose record has run out |
| Expiry.VisitIsOver | v3/collections/expire_cache.go:156-166 | an error from the callback ends a visit just as its check does: until its next lookup the goroutine checks nothing |
| Expiry.RemovalNeedsApproval | v3/collections/expire_cache.go:142-177 | in every run a key leaves only by a visit to it whose callback has returned nil and not an error |
| Expiry.ClockFollows | v3/collections/expire_cache.go:86 | time passes only by itself |
| Expiry.ReplacedExactly | v3/collections/expire_cache.go:148-163 | at its check a visit holds another record than the cache if and only if the key was added since its lookup |
| Expiry.RemovedExactly | v3/collections/expire_cache.go:161-165 | a visit removes its key if and only if every use of the key before the first addition after its lookup is more than ttl ago |
| Expiry.RemovedTooEarlyExactly | v3/collections/expire_cache.go:142-177 | a visit removes a key within ttl of some use if and only if the key was added between its lookup and its check, no use before that addition is that recent, and some use from it on is |
| Expiry.RemovedOnlyWhenDue | v3/collections/expire_cache.go:142-177 | in every interleaving without an addition of the key between lookup and check, the key leaves only after the callback and more than ttl after every read or addition |
| Expiry.ProcessedExactly | v3/collections/expire_cache.go:142-177 | the callback was given the value the cache holds at the check, by the write it came from, if and only if the key was not added since the lookup and not written since the call |
| Expiry.ReplacementIsLost | v3/collections/expire_cache.go:93-103 | a run from a new cache in which a record replaced during the callback takes its fresh replacement with it |
| Expiry.UpdateIsLost | v3/collections/expire_cache.go:106-116 | a run from a new cache in which an update made during the callback is removed though no callback saw it |
| ExpireCaches.ExpireCache.Get | v3/collections/expire_cache.go:74-90 | returns the value, renews the record's expiry in place, and counts a hit or a miss |
| ExpireCaches.ExpireCache.Add | v3/collections/expire_cache.go:93-103 | files a new record under the key |
| ExpireCaches.ExpireCache.Update | v3/collections/expire_cache.go:106-116 | changes the value in place and not the expiry; a missing key is an error |
| ExpireCaches.ExpireCache.Look | v3/collections/expire_cache.go:147-154 | the lookup of a goroutine of Each; a missing key is an error |
| ExpireCaches.ExpireCache.Call | v3/collections/expire_cache.go:156-159 | the callback is given the record's present value |
| ExpireCaches.ExpireCache.Finish | v3/collections/expire_cache.go:161-165 | the check reads the record looked up, the deletion is by key |

## Left out

- FrozenClocks.FrozenTime.Advance: functions leave the clock alone here; `AdvanceReentrant` has them use it.
- FrozenClocks.FrozenTime.AdvanceReentrant: functions start timers only in the future, do not reset a timer still pending from an earlier Reset, and do not advance the clock themselves.
- TTLMaps.TTLMap.Get: has nothing happen between its read-locked and its write-locked section; `LockNGet` and `LockNDel` state what each section does in any state.
- TTLMaps.TTLMap.GetInt: likewise, being built on Get.
- Signers.Signer.SignRequest: the random source's bytes are a parameter; their distribution is not modelled.
- Signers.Signer.New: the host name read for metrics is not modelled.
- AfterFunc reading the clock in one critical section and starting the timer in another, with a concurrent advance in between.
- The expiry callback's own effects: OnExpire and OnEvicted are recorded as calls made.
- The 64-bit range of clock arithmetic outside the TTL map's durations, and of the statistics counters.
- Wait4Scheduled, Sleep and the system clocks: they wait in real time.
- The etcd client, gRPC and TLS: replaced by the abstract store; the Put fallback for a key held under another name is not modelled.
- Stops.StopReturnsExactly: says when some interleaving lets Stop return, not that every fair one does.
- Sessions.NextKeepsInv: overlapping calls of Session.Close and Session.Reset are not modelled.
- ExpireCaches.ExpireCache.Call: the code reads the value outside the mutex; here that read is one step.
- Concede: its clean-up runs under a context that is already cancelled.
- WaitGroup.Run, Go, Loop and Wait: they count goroutines and collect their errors, as the fan-out does.
- Keys, Each, Size and GetStats where not listed: they list, visit or count the entries of a cache.
- The etcd v2 election, back-off counters, broadcast, errors, setters, key files, sealed secrets and command-line tools.
