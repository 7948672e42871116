# Verified model of the keenetic-dns server

keenetic-dns answers DNS queries, remembers which addresses the answers named, and keeps the
router's route table in line with the hosts that are to be routed through an interface. This project
models the parts of the server and of its stream library that carry state, and proves what they keep.

| module (file) | what it models |
|---|---|
| `EndToEnd` | the whole system as a state machine, and what it guarantees for one address |
| `Timing` | the guarantee for one question, from the TTLs and the order of the answers |
| `Coverage` | why the hypotheses are exact, and the runs that lose a route |
| `Refinement` | the components as implementations of the machine's steps, up to a whole resolution |
| `SingleFlight` | the single-in-flight resolver as a transition system over any number of callers |
| `Routes`, `Service`, `Chains`, `Store`, `Hosts` | route controller, answer processing, CNAME chains, the doubly indexed store, host matching |
| `CacheModel`, `Resolvers` | the cache on values, and the cache and its two resolver layers on message objects |
| `RingBuffers`, `Selections`, `Streams`, `Paging`, `Followers`, `Cursors` | ring buffer, filtered queries, page links, the live follower, stream cursors |
| `Addresses` | addresses, their text form and the routes of the agent protocol |
| `Basics`, `Clocks`, `Messages` | machine integers, the clock, DNS messages |

Conventions. Time is an integer number of nanoseconds; `Clock.Read` may find any amount of time
passed, and loops that read the clock again for every element do so in the model. The width of Go's
`int` is the parameter `Width`, because the default build is 32-bit and a development build 64-bit.
Iteration over Go maps is a choice of any remaining key. The agent is a set of routes behind calls of
which any may fail, with or without effect. A call's outcome is part of its log, so that statements about
partial failure name the acknowledged calls and those the router took. Every run statement is for all runs.

Main results:

- **End to end** (`EndToEnd`, `Timing`). When an answer is processed and then cached, a route to one of its
  addresses that the agent acknowledged, or that was in place before, is in the router's table at every
  later moment for as long as the cache keeps serving some answer that selects the address
  (`Timing.ProcessedRouteStays`); and every address a served answer selects has a record that has not timed
  out. In between there may be any resolutions, waiters, sweeps, reloads and reconciliations, also partly
  failed ones, ones whose failed calls took effect, and ones with a wrong listing. The hypotheses concern
  only the questions the address is served under: what is cached is in time, no later answer to the same
  question cuts a record short that is still needed, and no reconciliation goes below a fixed route timeout.
- **When the hypotheses hold** (`Timing`). Positive TTLs and a route timeout of at least the processing delay
  make an answer in time; one resolution of a question at a time, from the cache miss to the caching, cuts
  nothing short (`OneAtATimeIsTimely`). The code does not enforce the latter: the cache sits outside the
  single-in-flight layer, so a caller that misses the cache after the clean-up and before the caching
  starts another resolution without any failure.
- **Exactness** (`Coverage`). An address is safe for everything that can follow if and only if each served
  entry that selects it is outlived by a record of it (`SafeIff`), a cached or recorded answer keeps it so if
  and only if the step is covered (`CoveredIff`), and otherwise a wait and a reconciliation without any
  failure lose its route while it is served (`RouteKeptIff`). Two runs from an empty system get there, one
  with a zero TTL (`ZeroTtlLosesRoute`), one with two overlapping resolutions (`OverlapLosesRoute`).
- **Refinement** (`Refinement`). A whole resolution on the real cache, service, store, controller and agent
  objects is a path of the machine, with the hypotheses for every other question kept.
- **Single flight** (`SingleFlight`). Overlapping inner calls for one question only after a failed one, and
  only when a retry displaced the earlier call while it was running; no deadlock; at most six steps, one
  wait and one inner call per caller; an empty map at the end; every result is what an inner call returned.
- **Reconciliation** (`Routes`). The believed set changes by exactly the acknowledged calls and the table by
  those the router took, the calls are exactly the differences, whatever the router listed, a second pass
  over true listings is idle, and a start-up without failures leaves the routes of the live stored records.
- **Streams**. A query over a wrapped ring is the filter of the newest appends, page links undo each
  other except in one exactly described case, and a follower delivers everything exactly as long as no
  matching entry was overwritten before a delivering poll.

Where the code and an expectation about it differ, the model follows the code:

- A cursor's counter is sign-extended when it is negative, so cursors go on increasing after 2^31
  appends, ignore the clock then, and fall back after 2^32 (`Cursors.CursorGrowsIff`, for whole runs of
  any length `Cursors.RunIncreasesIff`, for what a ring still holds `Streams.BufferOrderedIff`). Before
  that they fall at every wrap of the clock's 32-bit window, each 49.7 days (`Cursors.WindowBreaksOrder`).
- A follower that connects while the buffer is empty never delivers anything (`Followers.EmptyStartIsDeaf`).
- A page asked for before the cursor of the first matching entry is empty, but the previous link of its
  next page shows that entry (`Paging.PrevUndoesNext`, with an instance in `Paging.LinksCanDiffer`).
- Two answers to one question that overlap between processing and caching can leave a cached answer whose
  store record dies first, although no call has failed (`Coverage.OverlapLosesRoute`).
- `ParseIPv4` reports an error only for a prefix that is no integer; a malformed address or a prefix out
  of range panics (`Addresses.ParseOutcome`). The router's own listing contains such an address, `default`,
  when its table has a default route: reading that listing panics (`Routes.DefaultRoutePanics`), and the
  process ends before it has asked for any route change (`Routes.IPRouteController.ReconcileRoutes`).
- The seconds of a lifetime are computed in floating point, so from 2^24 seconds on a hit's TTL can be
  rounded up (`CacheModel.LongLifetimesRoundUp`), exactly when stated in `CacheModel.HitTTLExact` and by at
  most 238 nanoseconds.

## Model

| member | source | states |
|---|---|---|
| Timing.ProcessedRouteStays | dns-server/internal/ip_routes.go:98-199 | end to end: after an answer is processed and cached, a route in place to one of its addresses is in the router's table at every later moment, as long as some answer selecting the address is served under questions that are timely; everything else may happen in between, also before the caching |
| Timing.AcknowledgedRouteStays | dns-server/internal/ip_routes.go:164-185 | in particular a route the agent acknowledges during the processing |
| Timing.AnsweredRoutesStay | dns-server/internal/dns_resolver.go:117-123 | between processing and caching a route in place to a selected address stays in place until the records of the answer time out |
| Timing.ServedUnderIsLive | dns-server/internal/service.go:116-134 | one question alone: on any path timely for it, while it is served every address of its answer has a record that has not passed the route timeout |
| Timing.StepKeepsTimely | dns-server/internal/dns_resolver.go:109-127 | each timely step keeps the invariant of one question, whatever it does to other questions: its served entry is outlived by its records, and its processed answers still have theirs |
| Timing.OneAtATimeIsTimely | dns-server/internal/dns_resolver.go:59-127 | when the resolutions of a question never overlap, no answer to it cuts a needed record short |
| Timing.PositiveTtlsAreInTime | dns-server/internal/service.go:84-125 | positive TTLs and a route timeout of at least the delay from the service's clock reading to the caching make an answer in time |
| Timing.LoweredTtlsAreInTime | dns-server/internal/dns_resolver.go:141-150 | so they do when the TTLs have been lowered to other positive ones before the caching |
| Timing.TimelyIsOk | dns-server/internal/dns_store.go:45-54 | an address is safe when all questions it is served under are timely |
| EndToEnd.ServedAddressesAreLive | dns-server/internal/service.go:116-134 | one address alone: on any path covered for it, from any state in which it is safe, whenever the cache can serve it, it has a record that has not passed the route timeout |
| EndToEnd.ServedRoutesStay | dns-server/internal/ip_routes.go:98-162 | on such a path a believed route in the table stays so as long as some answer selecting its address is served |
| EndToEnd.LiveRouteSurvivesStep | dns-server/internal/ip_routes.go:146-161 | no single step removes a route in place whose address is live afterwards, also when unacknowledged calls take effect |
| EndToEnd.AcknowledgedIsThere | dns-server/internal/ip_routes.go:173-185 | a route acknowledged while an answer is processed is believed and in the table right after |
| EndToEnd.StepKeepsAddressOk | dns-server/internal/dns_cache.go:29-44 | each step covered for an address keeps it safe: every served entry that selects it is outlived by a record of it |
| Coverage.SafeIff | dns-server/internal/dns_cache.go:20-44 | an address is safe in a state if and only if on every covered path from there it is live whenever it is served |
| Coverage.CoveredIff | dns-server/internal/dns_cache.go:29-44 | when an answer is cached or recorded, the address is safe for everything that can follow if and only if the step is covered |
| Coverage.RouteKeptIff | dns-server/internal/ip_routes.go:98-162 | a route in place is kept on every covered path that keeps serving its address, if and only if the address is safe |
| Coverage.OutlivedRouteIsLost | dns-server/internal/ip_routes.go:98-162 | when it is not, waiting and a reconciliation with a true listing in which every call succeeds remove the route while the address is served |
| Coverage.ZeroTtlLosesRoute | dns-server/internal/dns_cache.go:33-43 | a run from an empty system with an hour's route timeout: a two-hour alias to an address with TTL zero is processed, its route acknowledged and the answer cached, and two hours later it is still served while the route is gone; only the caching is not covered |
| Coverage.OverlapLosesRoute | dns-server/internal/dns_resolver.go:93-121 | a run without any failure: a second caller misses the cache before the first answer is cached, gets a shorter TTL, and the first answer is cached last; two hours later it is served while the route is gone |
| Refinement.ServiceAnswers | dns-server/internal/service.go:81-137 | processing a reply with the real store, controller and agent is a sequence of steps of the end-to-end machine |
| Refinement.Resolve | dns-server/internal/dns_resolver.go:109-127 | a whole resolution on the objects: a hit is the stored answer under the asker's id, with live records for its safe addresses; a miss is processed by the service, then cached; the objects take steps of the machine that are timely for every other question, and for this one if it is cached in time and nobody else was resolving it |
| Refinement.LookUp | dns-server/internal/dns_resolver.go:111-119 | the lookup alone: every safe address of a hit has a live record in the real store when it is looked up |
| Refinement.CacheLooksUp | dns-server/internal/dns_resolver.go:111-119 | a miss starts a resolution in the machine, a hit changes nothing and returns what the machine says is served |
| Refinement.CacheKeeps | dns-server/internal/dns_cache.go:29-44 | putting a reply into the cache object is a passing of time and a caching step |
| Refinement.CacheSweeps | dns-server/internal/dns_cache.go:46-54 | the periodic cache sweep is a passing of time and a sweep step |
| Refinement.ControllerReconciles | dns-server/internal/ip_routes.go:82-88 | a configuration reload with any route timeout is one reconciliation step, unless it panics on the listing, and then it has changed no route |
| SingleFlight.StepKeepsInv | dns-server/internal/dns_resolver.go:59-100 | every atomic step keeps the protocol invariant on callers, requests, map entries and running inner calls |
| SingleFlight.OverlapMeansFailure | dns-server/internal/dns_resolver.go:66-97 | in every reachable state two inner calls for one question overlap only if an inner call for it has failed |
| SingleFlight.OverlapStartsAfterFailure | dns-server/internal/dns_resolver.go:72-90 | the step that starts the second of two overlapping calls comes after that failure |
| SingleFlight.EarlierCallWasDisplaced | dns-server/internal/dns_resolver.go:72-97 | of two overlapping calls for one question, the earlier one's entry was replaced by a retrying caller while it was running |
| SingleFlight.LateCallersShare | dns-server/internal/dns_resolver.go:66-80 | while no call for its question has failed, a caller arriving during a running inner call waits for exactly that call |
| SingleFlight.NextCallerCallsAgain | dns-server/internal/dns_resolver.go:66-90 | a caller that arrives when no inner call of its question is on its way makes one of its own, whatever calls have succeeded before |
| SingleFlight.EntryLeavesOnlyBy | dns-server/internal/dns_resolver.go:84-97 | a map entry goes away only by its own owner's clean-up or is replaced after a failed call for that question |
| SingleFlight.EntriesHaveActiveOwners | dns-server/internal/dns_resolver.go:87-97 | a map entry points to a request for its key whose owner has not passed its own clean-up |
| SingleFlight.EmptyWhenAllFinished | dns-server/internal/dns_resolver.go:93-97 | the map is empty once all callers have finished |
| SingleFlight.SharedRepliesAreFaithful | dns-server/internal/dns_resolver.go:72-77 | a shared reply has the waiter's id and question and the answer of a successful inner call of another caller for an equal question |
| SingleFlight.SharedRepliesAreReturned | dns-server/internal/dns_resolver.go:66-90 | in every run that answer is the one an inner call of the other caller has returned |
| SingleFlight.StoredOutcomes | dns-server/internal/dns_resolver.go:84-90 | in every run the stored outcome of a request is what the inner call of its owner returned |
| SingleFlight.FinishedResults | dns-server/internal/dns_resolver.go:59-100 | in every run a caller's own result is exactly what its own inner call returned, made directly if there is not just one question; no caller gives up because the call it waited for failed |
| SingleFlight.AwaitedOwnerMoves | dns-server/internal/dns_resolver.go:67-80 | the owner of an awaited open request is not waiting and can move |
| SingleFlight.NoDeadlock | dns-server/internal/dns_resolver.go:59-100 | while a caller has not finished some step other than a cancellation is possible |
| SingleFlight.RunsAreBounded | dns-server/internal/dns_resolver.go:59-100 | every run has at most six steps per caller, and one that cannot go on has finished everyone and emptied the map |
| SingleFlight.OneWaitOneCall | dns-server/internal/dns_resolver.go:66-90 | each caller ends at most one wait and makes at most one inner call |
| Routes.IPRouteController.ReconcileRoutes | dns-server/internal/ip_routes.go:128-162 | the agent is asked to add exactly the desired routes missing from the listing and to delete exactly the listed undesired ones; liveness is asked while the clock moves; when the listing panics no call is made |
| Routes.IPRouteController.Want | dns-server/internal/ip_routes.go:138-144 | a wanted route is crossed off the unknown ones or asked for |
| Routes.IPRouteController.WantLive | dns-server/internal/ip_routes.go:146-151 | exactly the believed routes whose address has an unexpired record are wanted |
| Routes.IPRouteController.WantStatic | dns-server/internal/ip_routes.go:153-157 | every static route is wanted |
| Routes.IPRouteController.DeleteUnknown | dns-server/internal/ip_routes.go:159-161 | each remaining unknown route is asked to be deleted |
| Routes.IPRouteController.Reconcile | dns-server/internal/ip_routes.go:98-126 | a sweep of the store, the rule asked for exactly when the agent says it is missing, then a pass over the table |
| Routes.IPRouteController.Start | dns-server/internal/ip_routes.go:76-105 | a start-up on which nothing fails leaves in the table the static routes, only live routes of stored records beside them, and a route for every stored record of a configured domain that is still unexpired |
| Routes.IPRouteController.UpdateConfig | dns-server/internal/ip_routes.go:82-88 | replaces all but the rule, then reconciles under the new configuration |
| Routes.IPRouteController.Init | dns-server/internal/ip_routes.go:90-96 | every stored record of a configured domain gets a believed route, and no other route appears |
| Routes.IPRouteController.AddRoute | dns-server/internal/ip_routes.go:164-171 | the agent is asked once, and only for a route not believed yet |
| Routes.IPRouteController.RequestRoute | dns-server/internal/ip_routes.go:173-185 | the believed set gains the route exactly when the call is acknowledged, the table when the router takes it |
| Routes.IPRouteController.RequestDeletion | dns-server/internal/ip_routes.go:187-199 | the believed set loses the route exactly when the call is acknowledged, the table when the router takes it |
| Routes.IPRouteController.LoadRoutes | dns-server/internal/ip_routes.go:214-234 | for any lines the router delivers: reading them panics if and only if some address panics, and otherwise gives exactly the routes of the lines whose address parses, of a failed listing none |
| Routes.IPRouteController.RemoveExpiredRecords | dns-server/internal/ip_routes.go:252-256 | drops what had expired at the start and keeps what is unexpired at the end of the pass |
| Routes.PassExactly | dns-server/internal/ip_routes.go:128-199 | exactness under partial failure: the believed set becomes old minus acknowledged deletions plus acknowledged additions, the table the same with the calls the router took, nothing is deleted after a failed listing, and without failures the table is the desired set |
| Routes.AppliedExactly | dns-server/internal/ip_routes.go:173-199 | when no route is both added and deleted, the order of the calls does not matter for their effect |
| Routes.SecondPassIsIdle | dns-server/internal/ip_routes.go:128-162 | after a pass without failures a second one over the same live addresses and configuration makes no call, when both listings are true |
| Routes.PassKeepsLive | dns-server/internal/ip_routes.go:146-161 | a believed, live route in the table survives any pass, also when unacknowledged calls take effect |
| Routes.TrueListingDecodes | dns-server/internal/ip_routes.go:223-232 | a listing that prints the routes of a table, in any order and with repetitions, reads back as the table if its number survives the protocol |
| Routes.DefaultRoutePanics | dns-server/internal/ip_routes.go:224-229 | one line for a default route makes reading the listing panic |
| Service.ProcessTypeAResponse | dns-server/internal/service.go:81-137 | nothing happens without selected addresses; otherwise each is recorded under the asked domain until the least TTL (at least a second) has passed, and exactly the routes not believed are asked for |
| Service.Index | dns-server/internal/service.go:84-96 | the first loop yields the alias map, the addresses by owner and the least address TTL |
| Service.Follow | dns-server/internal/service.go:98-114 | the second loop walks the chain, takes the least TTL on it and one interface for every configured name on it |
| Service.Record | dns-server/internal/service.go:129-134 | the last loop records every address and asks for all its routes |
| Service.ChoiceIsForced | dns-server/internal/service.go:99-105 | when no host is listed under two interfaces the interfaces are those matched by any name on the chain |
| Service.SortedAscending | dns-server/internal/service.go:117-119 | no kept address comes after one that is larger byte by byte |
| Service.RecordedExactly | dns-server/internal/service.go:129-130 | each kept address gets a record of the domain with the new expiry, and no other record changes |
| Chains.WalkEndsIff | dns-server/internal/service.go:102-114 | the walk ends if and only if following aliases reaches a name without one, and it visits exactly that path |
| Chains.SelectedIff | dns-server/internal/service.go:98-114 | an address is selected if and only if it belongs to the name at the end of such a path |
| Chains.WalkIsPath | dns-server/internal/service.go:102-114 | the names visited are distinct and all but the end are alias owners |
| Chains.WalkLength | dns-server/internal/service.go:102-114 | the loop looks at no more names than there are alias owners, plus one |
| Chains.ChainTtlIsLeast | dns-server/internal/service.go:85-109 | the TTL is the least of all address TTLs and of the alias TTLs on the chain, and is attained by one of them |
| Chains.AliasIsLast | dns-server/internal/service.go:93-94 | of several CNAME records of one owner the last one is kept |
| Chains.AddressesInOrder | dns-server/internal/service.go:88-92 | the addresses of a name are those of exactly its address records, each once and in their order |
| Store.DNSStore.Add | dns-server/internal/dns_store.go:45-54 | both indexes gain the record under its own keys and stay in agreement |
| Store.DNSStore.RemoveRecord | dns-server/internal/dns_store.go:56-65 | both indexes lose exactly the record's pair and stay in agreement |
| Store.DNSStore.RemoveExpired | dns-server/internal/dns_store.go:67-75 | under a moving clock, nothing expired at the start survives, everything unexpired at the end does, and survivors are untouched |
| Store.DNSStore.SweepDomain | dns-server/internal/dns_store.go:91-101 | the inner loop does so for one domain while removing from the map it iterates over |
| Store.DNSStore.Fill | dns-server/internal/dns_store.go:28-36 | the store holds exactly what the fold over the list leaves, with both indexes in agreement |
| Store.DNSStore.Records | dns-server/internal/dns_store.go:77-89 | lists exactly the stored records, each once |
| Store.DNSStore.LookupIP | dns-server/internal/dns_store.go:38-43 | lists exactly the stored records of an address, each once |
| Store.RemoveSpec | dns-server/internal/dns_store.go:139-149 | removal from a nested map keeps every other pair and leaves no empty inner map |
| Store.SetSpec | dns-server/internal/dns_store.go:131-137 | setting a pair of a nested map changes that pair only |
| Store.ContentsDetermineIndexes | dns-server/internal/dns_store.go:15-19 | two stores with the same records have the same indexes |
| Store.FilledIsLast | dns-server/internal/dns_store.go:28-36 | of several listed records of a pair the last one stays |
| Store.FillRestores | dns-server/internal/dns_store.go:28-36 | filling from the listed records of a store, in any order, restores them |
| Hosts.MatchesIsLabelSuffix | dns-server/internal/config.go:68-75 | the string test holds if and only if the configured name's labels are the last labels of the host |
| Hosts.LookupInList | dns-server/internal/config.go:68-75 | the list lookup holds if and only if some entry matches |
| Hosts.LookupHost | dns-server/internal/config.go:77-84 | returns some interface the host is configured for, and the empty name when there is none |
| Hosts.IfacesIff | dns-server/internal/config.go:68-84 | the interfaces a host may get are those with a configured name whose labels are its last labels |
| Hosts.NormalizeTrims | dns-server/internal/service.go:140-142 | normalising a name takes away exactly its trailing dots |
| CacheModel.ServesLastPut | dns-server/internal/dns_cache.go:20-54 | in every run of puts and sweeps a question is served exactly while its last cacheable put has not expired, and with that put |
| CacheModel.MinTTLIsLeast | dns-server/internal/dns_cache.go:29-39 | an answer is cached if and only if some TTL is usable in the build's `int`, and for its smallest positive TTL |
| CacheModel.CacheableIff | dns-server/internal/dns_cache.go:30-39 | in numbers: some TTL must be positive and, on a 32-bit build, below 2147483647 |
| CacheModel.HitTTLExact | dns-server/internal/dns_cache.go:65-72 | the TTL of a hit is the number of whole seconds left, or one when less than a second is left; below 2^24 seconds it never exceeds what is left, above exactly when the duration rounds up, by at most 238 nanoseconds |
| CacheModel.LongLifetimesRoundUp | dns-server/internal/dns_cache.go:65-72 | an instance of the rounding |
| CacheModel.HitTTLBounds | dns-server/internal/dns_cache.go:65-72 | the TTL of a hit is positive, never rises and never exceeds a positive TTL of the stored answer |
| Resolvers.DNSCache.Get | dns-server/internal/dns_cache.go:20-27 | a hit if and only if the entry is unexpired at the first clock reading, as a fresh copy equal to the stored message in id, question, response flag and records, except that all TTLs are those of the second reading |
| Resolvers.DNSCache.Put | dns-server/internal/dns_cache.go:29-44 | the entry is a deep copy of the answer with its end of life, or nothing changes |
| Resolvers.DNSCache.RemoveExpired | dns-server/internal/dns_cache.go:46-54 | drops only entries expired by its end and all that were expired at its start |
| Resolvers.Entry.Result | dns-server/internal/dns_cache.go:65-72 | a copy sharing nothing with the stored message and equal to it in every part, except that all TTLs are the whole seconds left, at least one |
| Resolvers.ResolveCached | dns-server/internal/dns_resolver.go:109-127 | for a single address question a hit is the stored question, response flag and records under the asker's id with one TTL; a miss passes the inner answer through and caches its value |
| Resolvers.Override | dns-server/internal/dns_resolver.go:141-150 | in place, no TTL of an address record rises, each is at most the override and either that or what it was, and other records keep theirs, even if a record occurs twice |
| Resolvers.ResolveOverriding | dns-server/internal/dns_resolver.go:136-152 | the override does this to hits and misses of single address questions, changes nothing else, and leaves every stored entry as the caching layer made it |
| RingBuffers.RingBuf.Add | internal/util/ring_buf.go:19-28 | the contents are the newest `capacity` items in order |
| RingBuffers.RingBuf.Get | internal/util/ring_buf.go:30-32 | slot arithmetic finds the item counted from the oldest |
| RingBuffers.RingBuf.Slice | internal/util/ring_buf.go:38-50 | the result is the requested stretch if and only if it does not run past the newest item; otherwise it goes round |
| RingBuffers.RingBuf.Values | internal/util/ring_buf.go:52-54 | the whole contents, oldest first |
| Streams.Buffered.Append | internal/stream/buffered.go:48-62 | the entry gets the cursor of the clock and counter and the buffer keeps the newest entries |
| Streams.Buffered.LookupPos | internal/stream/buffered.go:76-80 | the binary search finds the first cursor not below the given one |
| Streams.Buffered.Find | internal/stream/buffered.go:83-127 | on increasing cursors the answer is the first `count` matching entries strictly beyond the cursor in the direction asked, with end cursors, and `hasMore` exactly when more exist |
| Streams.AnswerMeans | internal/stream/buffered.go:83-127 | that answer in plain terms: which entries, in which order, how many, the two end cursors and `hasMore` |
| Streams.Buffered.Query | internal/stream/buffered.go:64-68 | the forward case over the retained entries |
| Streams.Buffered.QueryBackward | internal/stream/buffered.go:70-74 | the backward case, newest first |
| Streams.BufferIsLogTail | internal/stream/buffered.go:48-62 | after any run of appends the buffer is the tail of the log |
| Streams.BufferOrderedIff | internal/stream/buffered.go:48-58 | exactly when the entries a ring still holds after any number of appends have increasing cursors; earlier appends do not matter |
| Cursors.CursorHalves | internal/stream/buffered.go:51-51 | the high half is the low half of the clock and the low half the counter, but a negative counter fills the high half with ones |
| Cursors.CursorGrowsIff | internal/stream/buffered.go:51-52 | exactly when one append gets a larger cursor than the previous one |
| Cursors.RunIncreasesIff | internal/stream/buffered.go:48-58 | exactly when a whole run's cursors increase, for any start of the counter and any length |
| Cursors.IndexAtWraps | internal/stream/buffered.go:48-52 | the counter of append n in closed form: it runs through the 32-bit integers and starts again |
| Cursors.SteadyClockIncreases | internal/stream/buffered.go:48-58 | on a fresh buffer, a clock that does not go back within one window of 2^32 milliseconds is enough for 2^31 + 1 appends |
| Cursors.WindowBreaksOrder | internal/stream/buffered.go:51-52 | across the wrap of the clock's window two appends are out of order |
| Cursors.LongRunsBreakOrder | internal/stream/buffered.go:51-52 | no run of more than 2^32 appends on a fresh buffer keeps the order |
| Cursors.ParseFormat | internal/stream/cursor.go:14-36 | the 16-digit text of a cursor parses back to it |
| Cursors.FormatDigits | internal/stream/cursor.go:14-16 | the text of a cursor has 16 lower-case hexadecimal digits, most significant first |
| Cursors.ParseCursorIff | internal/stream/cursor.go:31-37 | exactly which texts are read as which cursor: its digits in either case, with any leading zeros |
| Cursors.FormatOrder | internal/stream/cursor.go:14-16 | the texts sort as the cursors do |
| Paging.ListPage | dns-server/internal/dns_server_http.go:226-271 | the handler's answer is the page next to the cursor in listing order, with its links |
| Paging.OpeningPage | dns-server/internal/dns_server_http.go:231-253 | without a cursor a list shows the oldest matching entries, a backward list the newest: 50 of them or the requested number, at least one |
| Paging.AfterPage | dns-server/internal/dns_server_http.go:234-253 | a page after a cursor shows the first matching entries that follow it in the listing; unreadable text counts as zero |
| Paging.BeforePage | dns-server/internal/dns_server_http.go:237-259 | a page before a cursor shows the last matching entries that precede it in the listing |
| Paging.PrevUndoesNext | dns-server/internal/dns_server_http.go:257-271 | going on to a non-empty next page and back shows the same entries, if and only if the page was not asked for before the cursor of the first matching entry |
| Paging.NextUndoesPrev | dns-server/internal/dns_server_http.go:257-271 | going back to a non-empty previous page and on shows the same entries, if and only if the page was not asked for after the cursor of the last matching entry |
| Paging.LinksCanDiffer | dns-server/internal/dns_server_http.go:266-271 | an instance of the exception |
| Paging.CrawlShowsAll | dns-server/internal/dns_server_http.go:261-271 | following next links shows every matching entry beyond the cursor once, in order, and stops |
| Paging.HasMoreTells | dns-server/internal/dns_server_http.go:261-268 | `hasMore` announces a non-empty next page, on a page asked for before a cursor a non-empty previous one |
| Followers.Follower.Poll | dns-server/internal/dns_server_http.go:317-326 | a poll fetches the first 1000 matching newer entries and moves the cursor only when the write succeeds |
| Followers.BatchMeans | dns-server/internal/dns_server_http.go:318-318 | what a poll fetches in plain terms: the first 1000 newer matching entries, oldest first, and it moves on when there is any |
| Followers.Follower.constructor | dns-server/internal/dns_server_http.go:298-298 | a follower starts at the newest entry |
| Followers.StartsAtNewest | dns-server/internal/dns_server_http.go:298-298 | that entry is the newest one, so a first poll right away delivers nothing |
| Followers.FollowerIsFaithful | dns-server/internal/dns_server_http.go:312-326 | over any run, what was delivered is in order, without repetition, due, and as many entries short as were overwritten before delivering polls |
| Followers.CompleteIff | dns-server/internal/dns_server_http.go:312-326 | a run has delivered everything up to its cursor if and only if nothing was skipped |
| Followers.RoomyRunSkipsNothing | dns-server/internal/dns_server_http.go:312-326 | nothing is skipped while at every poll the ring still holds everything newer than the cursor |
| Followers.EmptyStartIsDeaf | dns-server/internal/dns_server_http.go:298-298 | a follower that connects to an empty buffer never delivers anything |
| Addresses.ParsePrint | dns-server/internal/types.go:36-66 | parsing the printed form of any address with prefix 0 to 32 gives it back |
| Addresses.ParseDottedIff | dns-server/internal/types.go:36-51 | the scanner of dotted quads accepts exactly the texts that addresses print as, and reads back the four numbers |
| Addresses.ParseOutcome | dns-server/internal/types.go:36-51 | exactly which texts make the parser panic and which give an error |
| Addresses.ParseIff | dns-server/internal/types.go:36-51 | exactly which texts parse to a given address |
| Addresses.AtoiIff | dns-server/internal/types.go:43-48 | exactly which prefix texts are read as which number: numerals with leading zeros and a sign allowed, in the range of `int` |
| Addresses.PrintExamples | dns-server/internal/types.go:61-66 | what printed addresses look like |
| Addresses.DefaultPanics | dns-server/internal/types.go:20-25 | the router's name for the default route panics |
| Addresses.BadPrefixes | dns-server/internal/types.go:23-25 | a prefix of 33 panics and a prefix that is no number is an error, whatever the address |
| Addresses.TableRoundTripIff | dns-server/internal/ip_routes.go:244-250 | which table numbers survive the uint32 field, for both widths of `int` |
| Addresses.WireRoundTripIff | dns-server/internal/ip_routes.go:223-250 | a route mapped for the agent and loaded back is the same route if and only if its table number survives |
| Addresses.WireShows | dns-server/internal/ip_routes.go:244-250 | the agent is sent the interface, the printed address, and the table number itself when it fits |
| Addresses.FromWireIff | dns-server/internal/ip_routes.go:223-232 | exactly which route a listed line is read as |

## Left out

- Network clients and servers, the RPC transport, websocket and HTTP plumbing, and the agent's shell commands: an inner reply, a write or an agent call is a value or an outcome that may be a failure.
- Mutexes outside the single-in-flight resolver: operations of the store, the cache, the controller and the stream are atomic or sequential, except where a moving clock is modelled.
- The response code of a shared reply, which the code does not copy.
- A reply whose own question differs from the asked one: the end-to-end machine follows the chain from the asked name, the code from the name in the reply (service.go:82).
- Reloads to a route timeout below the one that the end-to-end statements fix; any other reload may happen.
- The routing rules themselves, of which only the calls are modelled, the route display (`Routes`, `handleRoutes`), logging, metrics, configuration loading and JSON files; saving and loading a store is listing and filling it.
- Stream listeners, the debouncing of updates and the copy of the cursor stored inside a value: a follower may poll at any time.
- A page size so large that allocating the result fails: `Streams.Buffered.Find` and `Paging.ListPage` promise an answer for every count, where the code allocates for as many entries as the client asks (buffered.go:118).
- Filters that look up the current routing configuration; a filter is a fixed predicate on values.
- A TTL override of 2^32 seconds or more; the override is given in whole seconds.
- IPv6 text, including IPv4-mapped forms, in `ParseIPv4`: it is treated like any text that is not a dotted quad.
- The contents of Go's error values: an error is only told apart from a result.
- Resolvers.DNSCache.Get: does not bound the TTL when a full second or more passes between its two clock readings after expiry, because Go leaves that conversion open.
- SingleFlight.SharedRepliesAreFaithful: a shared answer is a value, although in the code the waiter shares the owner's answer slice (dns_resolver.go:76), whose TTLs the outer override lowers in place (dns_resolver.go:146), so a waiter may hand lowered TTLs to its own `Put`; the caching step of the end-to-end machine allows for any other TTLs, and `Timing.LoweredTtlsAreInTime` for lowered ones.
