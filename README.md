# LazyCache files cache: a verified model of the cache engine

This project models the in-memory engine behind LazyCache's files cache in Dafny.

- **The table and its size total.** `FilesCacheImpl` keeps a table of entries by key. When a size limit is set, it also keeps a running size total.
- **Committing entries.** A `CacheEntry` is created open and configured. It is committed into the table when it is disposed (`SetEntry`). The commit resolves its absolute expiration, checks capacity, replaces or discards entries, and runs eviction callbacks.
- **Reads and removals.** Entries are read (`TryGetValue`) and removed (`Remove`).
- **Background work.** A scan (`ScanForExpiredItems`) drops expired entries. Capacity compaction (`Compact`, `OvercapacityCompaction`) removes expired entries first. It then takes Low, Normal and High priority entries, least recently used first, until a removal target is met.
- **Scopes.** Entries being built are kept on an immutable scope stack (`CacheEntryStack`), held in an ambient slot (`CacheEntryHelper`). When an entry closes, it hands its expiration tokens and absolute expiration to the entry that encloses it.
- **Options.** `FilesCacheOptions` validates the size limit and the compaction percentage, and computes the storage directory lazily.

Modules, in dependency order:

| module | file | what it holds |
|---|---|---|
| `Wrappers` | wrappers.dfy | `Option`, `Result`, `Outcome` (a thrown exception is a `Fail`/`Failure`) |
| `CacheTypes` | cache_types.dfy | eviction reasons, priorities, change tokens, callback registrations, errors, ticks per minute |
| `CacheEntryStacks` | entry_stack.dfy | the scope stack as an immutable datatype (pure) |
| `CacheEntryHelpers` | entry_helper.dfy | the ambient slot as an explicit `ScopeContext` object and the scope lease |
| `ExpiryRules` | expiry.dfy | the expiry rules of one entry as pure functions: marking, checking, resolving and merging absolute expirations |
| `CacheEntries` | cache_entry.dfy | class `CacheEntry`, every method proved against `ExpiryRules`; eviction callbacks |
| `SizeAccounting` | size_accounting.dfy | sums of sizes over the table and the capacity test |
| `Compaction` | compaction.dfy | the selection compaction makes, as pure functions over candidate lists (buckets, a sort by last access proved stable, take-until-target) |
| `FilesCaches` | files_cache.dfy | class `FilesCache`: table invariant, commit, read, remove, scan and compaction |
| `FilesCacheOptionsModel` | files_cache_options.dfy | class `FilesCacheOptions` with its validating setters |

How the source's features are modelled:

- **Time.** Times and durations are integer ticks. The clock is a `now` parameter.
- **Background work.** Starting a scan or queueing an overcapacity compaction increments a ghost counter (`scansStarted`, `compactionsQueued`). The background work itself is a separate public method (`ScanForExpiredItems`, `OvercapacityCompaction`), which a caller runs as the task would.
- **Eviction callbacks** run synchronously. Each delegate call is recorded in the entry's `notified` log.
- **Disposing an entry.** `CacheEntry.Dispose` calls back into the cache through a delegate. Because modules cannot depend on each other in a cycle, it is modelled as `FilesCache.DisposeEntry`.
- **Size accounting.** The table invariant `FilesCache.Valid` states three things. Every entry sits under its own key and has been committed. Without a limit the total is zero. With a limit every entry has a size, and the table's sum is at most the running total, which is at most the limit. `Unaccounted` is how far the total is ahead of the sum. The commit follows the source as written: it adds `Leaked` to `Unaccounted`, which is the size of an entry that fits but is discarded as expired on arrival (see Findings). Every other operation keeps `Unaccounted` unchanged. The corrected commit, `CommitCorrected`, keeps it unchanged too; with it, a cache that starts empty would keep its total equal to the sum of its entries' sizes.

## Model

| member | source | states |
|---|---|---|
| CacheEntryStacks.Peek | LazyCache/Providers/FilesCaches/CacheEntryStack.cs:27 | no entry exactly for the empty sentinel, the pushed entry for any other node |
| CacheEntryStacks.Push | LazyCache/Providers/FilesCaches/CacheEntryStack.cs:17-25 | the new node's entry is the pushed one, its predecessor is the receiver (never null), and the stack's entries gain it on top |
| CacheEntryStacks.PeekBelowPush | LazyCache/Providers/FilesCaches/CacheEntryStack.cs:17-27 | below the top of two pushes is the entry pushed first; stacking is last in, first out |
| CacheEntryHelpers.ScopeContext.constructor | LazyCache/Providers/FilesCaches/CacheEntryHelper.cs:10-14 | a fresh logical call context has an unset slot |
| CacheEntryHelpers.ScopeContext.GetOrCreateScopes | LazyCache/Providers/FilesCaches/CacheEntryHelper.cs:26-35 | returns the slot's stack, putting the empty sentinel there first when the slot is unset |
| CacheEntryHelpers.ScopeContext.Current | LazyCache/Providers/FilesCaches/CacheEntryHelper.cs:16 | the innermost open entry, none on an empty or unset slot, which becomes the sentinel |
| CacheEntryHelpers.ScopeContext.EnterScope | LazyCache/Providers/FilesCaches/CacheEntryHelper.cs:18-24 | pushes the entry and returns a lease remembering the stack it replaced |
| CacheEntryHelpers.ScopeLease.Dispose | LazyCache/Providers/FilesCaches/CacheEntryHelper.cs:37-44 | puts back exactly the captured stack, whatever was pushed since |
| CacheEntryHelpers.NestedScopes | LazyCache/Providers/FilesCaches/CacheEntryHelper.cs:16-44 | two scopes released in reverse order: the outer entry is current again, then the original stack is back |
| ExpiryRules.TimeExpired | LazyCache/Providers/FilesCaches/CacheEntry.cs:171-191 | the time test: the absolute expiration has been reached, or the sliding expiration has passed since the last access (a definition; CheckForExpiredTime is proved against it) |
| ExpiryRules.TokenFired | LazyCache/Providers/FilesCaches/CacheEntry.cs:193-208 | the token test: some expiration token has changed (a definition; CheckForExpiredTokens is proved against it) |
| ExpiryRules.ExpiredAt | LazyCache/Providers/FilesCaches/CacheEntry.cs:158-208 | what CheckExpired answers: already expired, or the time test or the token test holds (a definition; Checked and CheckExpired are proved against it) |
| ExpiryRules.MarkExpired | LazyCache/Providers/FilesCaches/CacheEntry.cs:163-169 | the entry becomes expired; the first reason it was given is kept; nothing else changes |
| ExpiryRules.Checked | LazyCache/Providers/FilesCaches/CacheEntry.cs:158-208 | expired afterwards exactly when expired already, past its absolute or sliding time, or with a changed token; marked Expired or TokenExpired in that order of precedence |
| ExpiryRules.FirstReasonWins | LazyCache/Providers/FilesCaches/CacheEntry.cs:163-169 | marking twice is marking once with the first reason |
| ExpiryRules.ExpiredIsSticky | LazyCache/Providers/FilesCaches/CacheEntry.cs:158-161 | once a check answers expired, every later check does and changes nothing |
| ExpiryRules.CheckKeepsReason | LazyCache/Providers/FilesCaches/CacheEntry.cs:158-208 | a check never overrides a reason already given, and touches only the flag and the reason |
| ExpiryRules.SlidingExpirationScenario | LazyCache/Providers/FilesCaches/CacheEntry.cs:179-188 | a five-second sliding expiration: live after four seconds, expired for reason Expired after six |
| ExpiryRules.ResolveAbsolute | LazyCache/Providers/FilesCaches/FilesCacheImpl.cs:83-97 | a relative expiration yields now + relative, which is kept when earlier than the explicit absolute expiration or when there is none |
| ExpiryRules.MergeAbsolute | LazyCache/Providers/FilesCaches/CacheEntry.cs:299-311 | the enclosing entry keeps the earlier of the two absolute expirations |
| ExpiryRules.MergeAbsoluteOrderFree | LazyCache/Providers/FilesCaches/CacheEntry.cs:299-311 | merging is symmetric and idempotent, so nested entries may close in any order |
| ExpiryRules.NestedPropagationScenario | LazyCache/Providers/FilesCaches/CacheEntry.cs:299-311 | an enclosing entry with no expiration ends up expiring when a nested entry with a ten-second relative expiration does |
| CacheEntries.Fired | LazyCache/Providers/FilesCaches/CacheEntry.cs:261-281 | at most one call per registration, each with the entry's key, value and reason; none when every delegate is null |
| CacheEntries.FiredAppend | LazyCache/Providers/FilesCaches/CacheEntry.cs:268-280 | callbacks registered later are called later |
| CacheEntries.FiredCountsDelegates | LazyCache/Providers/FilesCaches/CacheEntry.cs:268-280 | with no null delegate, each registration is called exactly once, in order, with its own state |
| CacheEntries.NullDelegateSkipped | LazyCache/Providers/FilesCaches/CacheEntry.cs:273-275 | three registrations with a null delegate in the middle give two calls, in order |
| CacheEntries.CacheEntry.constructor | LazyCache/Providers/FilesCaches/CacheEntry.cs:31-46 | every option unset, priority Normal, not added, and the entry pushed as the current scope with a lease on the previous stack |
| CacheEntries.CacheEntry.SetAbsoluteExpirationRelativeToNow | LazyCache/Providers/FilesCaches/CacheEntry.cs:60-72 | a duration that is not positive is rejected and nothing changes; anything else is stored |
| CacheEntries.CacheEntry.SetSlidingExpiration | LazyCache/Providers/FilesCaches/CacheEntry.cs:78-90 | a duration that is not positive is rejected and nothing changes; anything else is stored |
| CacheEntries.CacheEntry.SetSize | LazyCache/Providers/FilesCaches/CacheEntry.cs:126-138 | a negative size is rejected and nothing changes; null and non-negative sizes are stored |
| CacheEntries.CacheEntry.SetAbsoluteExpiration | LazyCache/Providers/FilesCaches/CacheEntry.cs:51-55 | stores the absolute expiration and nothing else |
| CacheEntries.CacheEntry.SetValue | LazyCache/Providers/FilesCaches/CacheEntry.cs:142 | stores the value and nothing else |
| CacheEntries.CacheEntry.SetPriority | LazyCache/Providers/FilesCaches/CacheEntry.cs:123 | stores the priority and nothing else |
| CacheEntries.CacheEntry.SetLastAccessed | LazyCache/Providers/FilesCaches/CacheEntry.cs:144 | stores the last access time and nothing else |
| CacheEntries.CacheEntry.AddExpirationToken | LazyCache/Providers/FilesCaches/CacheEntry.cs:95-103 | the token is appended to the entry's token list |
| CacheEntries.CacheEntry.RegisterPostEvictionCallback | LazyCache/Providers/FilesCaches/CacheEntry.cs:108-117 | the registration is appended, creating the list when it is null |
| CacheEntries.CacheEntry.MarkAdded | LazyCache/Providers/FilesCaches/CacheEntry.cs:150-152 | true on the first call only; the entry is added afterwards |
| CacheEntries.CacheEntry.SetExpired | LazyCache/Providers/FilesCaches/CacheEntry.cs:163-169 | the expiry state becomes MarkExpired of the old one |
| CacheEntries.CacheEntry.CheckForExpiredTime | LazyCache/Providers/FilesCaches/CacheEntry.cs:171-191 | answers whether the absolute or sliding time is up, and marks the entry Expired exactly then |
| CacheEntries.CacheEntry.CheckForExpiredTokens | LazyCache/Providers/FilesCaches/CacheEntry.cs:193-208 | answers whether some token has changed, and marks the entry TokenExpired exactly then |
| CacheEntries.CacheEntry.CheckExpired | LazyCache/Providers/FilesCaches/CacheEntry.cs:158-161 | answers ExpiredAt and leaves the state Checked gives |
| CacheEntries.CacheEntry.InvokeEvictionCallbacks | LazyCache/Providers/FilesCaches/CacheEntry.cs:253-281 | claims the callback list, leaving null, and calls each delegate in it once, with the current reason |
| CacheEntries.CallbacksRunOnce | LazyCache/Providers/FilesCaches/CacheEntry.cs:261-267 | a second invocation calls nothing more |
| CacheEntries.CacheEntry.PropagateOptions | LazyCache/Providers/FilesCaches/CacheEntry.cs:283-312 | no enclosing entry: nothing. Another enclosing entry gains all the tokens and keeps the earlier absolute expiration. The entry itself, when it has tokens, fails the enumeration as the source does |
| SizeAccounting.SumRemove | LazyCache/Providers/FilesCaches/FilesCacheImpl.cs:218-225 | taking a key out of the table takes its size out of the table's sum |
| SizeAccounting.SumUpdate | LazyCache/Providers/FilesCaches/FilesCacheImpl.cs:106-112 | storing a key replaces what it counted for in the sum |
| SizeAccounting.SumOverNonNegative | LazyCache/Providers/FilesCaches/FilesCacheImpl.cs:24 | the sum of sizes is never negative |
| SizeAccounting.ExceedsCapacity | LazyCache/Providers/FilesCaches/FilesCacheImpl.cs:253-281 | the capacity test: with a limit, an entry does not fit when the new total would be negative or above the limit; without one it always fits (a definition; UpdateCacheSizeExceedsCapacity is proved against it) |
| Compaction.ExpiredOfMembers | LazyCache/Providers/FilesCaches/FilesCacheImpl.cs:323-329 | the removal list holds exactly the candidates found expired |
| Compaction.BucketOfMembers | LazyCache/Providers/FilesCaches/FilesCacheImpl.cs:331-347 | a bucket holds exactly the unexpired candidates of its priority |
| Compaction.RouteSpec | LazyCache/Providers/FilesCaches/FilesCacheImpl.cs:323-349 | routing candidates one at a time builds the lists of all of them, with the expired cost summed |
| Compaction.InsertSpec | LazyCache/Providers/FilesCaches/FilesCacheImpl.cs:375-377 | insertion by last access keeps the list sorted and adds exactly the candidate |
| Compaction.SortByAccess | LazyCache/Providers/FilesCaches/FilesCacheImpl.cs:375-377 | OrderBy on the last access time as insertion sort, least recently used first (a definition; the lemmas below state what it does) |
| Compaction.AccessedAtAppend | LazyCache/Providers/FilesCaches/FilesCacheImpl.cs:375-377 | the candidates accessed at one time, picked from two lists joined, are those picked from each, in order |
| Compaction.AccessedAtNone | LazyCache/Providers/FilesCaches/FilesCacheImpl.cs:375-377 | a sorted list starting after a time has nothing accessed at that time |
| Compaction.InsertStable | LazyCache/Providers/FilesCaches/FilesCacheImpl.cs:375-377 | an inserted candidate goes after every candidate accessed at the same time |
| Compaction.SortByAccessStable | LazyCache/Providers/FilesCaches/FilesCacheImpl.cs:375-377 | the sort is stable: for every time, the candidates accessed then keep their order from the bucket |
| Compaction.SortByAccessSpec | LazyCache/Providers/FilesCaches/FilesCacheImpl.cs:375-377 | ordering a bucket by last access gives a sorted permutation of it |
| Compaction.SortByAccessMembers | LazyCache/Providers/FilesCaches/FilesCacheImpl.cs:375-377 | ordering neither adds nor loses a candidate |
| Compaction.Take | LazyCache/Providers/FilesCaches/FilesCacheImpl.cs:378-383 | one bucket pass over an ordered bucket: nothing when the target is already met, otherwise candidates in order, each adding its cost, up to and including the one that reaches the target (a definition; TakeSpec and TakeMinimal state what it does) |
| Compaction.TakeSpec | LazyCache/Providers/FilesCaches/FilesCacheImpl.cs:366-385 | a bucket pass takes a prefix of the ordered bucket, adds its cost to the removed size, and stops only at the target or the end |
| Compaction.TakeMinimal | LazyCache/Providers/FilesCaches/FilesCacheImpl.cs:381-383 | before the last candidate a pass took, the target was not yet met |
| Compaction.TakeAdvance | LazyCache/Providers/FilesCaches/FilesCacheImpl.cs:378-383 | one loop step of a bucket pass extends what it has taken by one candidate and its cost |
| Compaction.TakeStop | LazyCache/Providers/FilesCaches/FilesCacheImpl.cs:373-384 | a pass that ends, or meets the target, has taken exactly what it visited |
| Compaction.Selection | LazyCache/Providers/FilesCaches/FilesCacheImpl.cs:315-358 | the removal list Compact builds: the expired candidates, then the passes over Low, Normal and High ordered by last access (a definition; the Selection lemmas state what it does) |
| Compaction.SelectionRemovesExpiredFirst | LazyCache/Providers/FilesCaches/FilesCacheImpl.cs:315-359 | every expired candidate is removed, ahead of all others |
| Compaction.SelectionSparesNeverRemove | LazyCache/Providers/FilesCaches/FilesCacheImpl.cs:341-342 | no unexpired NeverRemove candidate is removed, and each part of the selection is from its own bucket |
| Compaction.PlanFromOrder | LazyCache/Providers/FilesCaches/FilesCacheImpl.cs:351-356 | buckets are taken Low, then Normal, then High, each as a prefix; a later one only when the earlier were taken whole |
| Compaction.SelectionBucketOrder | LazyCache/Providers/FilesCaches/FilesCacheImpl.cs:351-385 | the same for the candidates of a table, each bucket least recently used first |
| Compaction.SelectionReachesTarget | LazyCache/Providers/FilesCaches/FilesCacheImpl.cs:315-385 | compaction reaches the target, or it runs out and every candidate it may remove is selected |
| Compaction.SelectionMinimal | LazyCache/Providers/FilesCaches/FilesCacheImpl.cs:381-383 | the selection stops at the first bucket candidate that makes the removed size reach the target |
| Compaction.LeastRecentlyUsedLowGoesFirst | LazyCache/Providers/FilesCaches/FilesCacheImpl.cs:375-383 | with target 1, of two Low entries and one High entry the least recently used Low entry alone is removed |
| FilesCaches.Truncate | LazyCache/Providers/FilesCaches/FilesCacheImpl.cs:300 | a cast of a double within the integer range truncates toward zero |
| FilesCaches.CompactTargetBounds | LazyCache/Providers/FilesCaches/FilesCacheImpl.cs:310-313 | for a percentage within [0, 1], Compact's target is between none and all entries |
| FilesCaches.OvercapacityTargetPositive | LazyCache/Providers/FilesCaches/FilesCacheImpl.cs:288-301 | an overcapacity compaction that runs has a target of at least one |
| FilesCaches.OvercapacityCompactionReachesShare | LazyCache/Providers/FilesCaches/FilesCacheImpl.cs:288-301 | removing the target brings the total down to the (1 - percentage) share of the limit |
| FilesCaches.CommitSteps | LazyCache/Providers/FilesCaches/FilesCacheImpl.cs:82-160 | the steps before installing or discarding, and the install or discard, together make the whole commit as written, leaving Leaked in the total |
| FilesCaches.Leaked | LazyCache/Providers/FilesCaches/FilesCacheImpl.cs:102-160 | the size a commit as written leaves in the total with no entry to account for it: that of an entry that fits the limit but is expired on arrival (a definition; Commit and CommitSteps state it) |
| FilesCaches.SelectionInTable | LazyCache/Providers/FilesCaches/FilesCacheImpl.cs:357-358 | what compaction removes are table entries, each under its own key |
| FilesCaches.FilesCache.constructor | LazyCache/Providers/FilesCaches/FilesCacheImpl.cs:35-43 | an empty valid table, total zero, the last scan time set to now |
| FilesCaches.FilesCache.ValidBounds | LazyCache/Providers/FilesCaches/FilesCacheImpl.cs:24 | in a valid cache the total is within zero and the limit, and never behind the table's sum |
| FilesCaches.FilesCache.CheckDisposed | LazyCache/Providers/FilesCaches/FilesCacheImpl.cs:398-402 | fails with ObjectDisposed exactly once the cache is disposed |
| FilesCaches.FilesCache.ValidateCacheKey | LazyCache/Providers/FilesCaches/FilesCacheImpl.cs:404-408 | fails with ArgumentNull exactly for a null key |
| FilesCaches.FilesCache.Dispose | LazyCache/Providers/FilesCaches/FilesCacheImpl.cs:387-396 | idempotent; only the disposed flag changes |
| FilesCaches.FilesCache.CreateEntry | LazyCache/Providers/FilesCaches/FilesCacheImpl.cs:61-66 | fails once disposed (checked first) or for a null key; otherwise a fresh open entry, current in the caller's scope, with the table untouched |
| FilesCaches.FilesCache.StartScanForExpiredItems | LazyCache/Providers/FilesCaches/FilesCacheImpl.cs:233-241 | a scan starts, and the scan time moves to now, exactly when more than the scan frequency has passed |
| FilesCaches.FilesCache.RemoveEntry | LazyCache/Providers/FilesCaches/FilesCacheImpl.cs:218-225 | removes the pair only if the table holds this very entry under its key; then its size leaves the total and its callbacks run; otherwise nothing changes |
| FilesCaches.FilesCache.Remove | LazyCache/Providers/FilesCaches/FilesCacheImpl.cs:194-216 | a null key is refused before the disposed check. A present key leaves the table with its size, is marked Removed, and its callbacks run; its other fields are kept. A missing key changes nothing. A scan may start |
| FilesCaches.FilesCache.Detach | LazyCache/Providers/FilesCaches/FilesCacheImpl.cs:200-209 | the key leaves the table and, in a size-limited cache, its entry's size leaves the total; the invariant and Unaccounted are kept |
| FilesCaches.FilesCache.Evict | LazyCache/Providers/FilesCaches/FilesCacheImpl.cs:200-212 | a present key leaves the table with its size, its entry is marked Removed unless it already had a reason, and its callbacks run; its other fields are kept |
| FilesCaches.FilesCache.EntryExpired | LazyCache/Providers/FilesCaches/FilesCacheImpl.cs:227-231 | RemoveEntry followed by the scan check; a removed entry keeps its expiry state and its other fields, apart from the claimed callback list and the callback log |
| FilesCaches.FilesCache.ScanEntry | LazyCache/Providers/FilesCaches/FilesCacheImpl.cs:246-250 | an entry is checked at now and removed exactly when found expired; a removed one keeps its other fields |
| FilesCaches.FilesCache.ScanKey | LazyCache/Providers/FilesCaches/FilesCacheImpl.cs:248-249 | one round of the scan loop: the entry under the key is checked and removed if expired, and the scan's progress holds for the rest of the keys |
| FilesCaches.FilesCache.ScanAdvance | LazyCache/Providers/FilesCaches/FilesCacheImpl.cs:246-250 | a scan's progress survives one more key swept |
| FilesCaches.FilesCache.SweepAll | LazyCache/Providers/FilesCaches/FilesCacheImpl.cs:246-250 | the walk over the snapshot of the table sweeps every key, in no set order |
| FilesCaches.FilesCache.ScanEnds | LazyCache/Providers/FilesCaches/FilesCacheImpl.cs:243-251 | a finished scan has removed exactly the expired entries, checked all, and run the callbacks of exactly the removed ones, whose other fields are kept |
| FilesCaches.FilesCache.ScanForExpiredItems | LazyCache/Providers/FilesCaches/FilesCacheImpl.cs:243-251 | the table afterwards holds exactly the entries not expired at now; every entry is left checked; exactly the removed ones had their callbacks run, and their other fields are kept |
| FilesCaches.FilesCache.ReadEntry | LazyCache/Providers/FilesCaches/FilesCacheImpl.cs:174-186 | an expired entry not marked Replaced is removed, keeping its other fields, and the read misses. Any other entry is accessed now, its value returned, and its options handed to the innermost open entry |
| FilesCaches.FilesCache.ReadHit | LazyCache/Providers/FilesCaches/FilesCacheImpl.cs:180-186 | the entry's last access becomes now and its value is returned, unless handing its tokens to itself fails the read, as the source's enumeration does |
| FilesCaches.FilesCache.HandOver | LazyCache/Providers/FilesCaches/FilesCacheImpl.cs:185 | PropagateOptions to the current scope entry, keeping the table's invariant |
| FilesCaches.FilesCache.TryGetValue | LazyCache/Providers/FilesCaches/FilesCacheImpl.cs:166-191 | a null key is refused before the disposed check; a missing key misses; a present key reads as ReadEntry; a scan may start unless the read failed |
| FilesCaches.FilesCache.ReadKey | LazyCache/Providers/FilesCaches/FilesCacheImpl.cs:172-191 | the lookup once the key and the cache passed their checks: a missing key misses and changes nothing but the scan; a present one reads as ReadEntry |
| FilesCaches.FilesCache.UpdateCacheSizeExceedsCapacity | LazyCache/Providers/FilesCaches/FilesCacheImpl.cs:253-281 | without a limit an entry always fits. With one, the entry's size is added exactly when the new total stays within zero and the limit, and the answer is whether it did not |
| FilesCaches.FilesCache.TriggerOvercapacityCompaction | LazyCache/Providers/FilesCaches/FilesCacheImpl.cs:283-286 | queues one overcapacity compaction |
| FilesCaches.FilesCache.MarkPrior | LazyCache/Providers/FilesCaches/FilesCacheImpl.cs:99-101 | the entry the key held, marked Replaced |
| FilesCaches.FilesCache.Arrive | LazyCache/Providers/FilesCaches/FilesCacheImpl.cs:82-98 | the absolute expiration resolved and the entry accessed now |
| FilesCaches.FilesCache.Prepare | LazyCache/Providers/FilesCaches/FilesCacheImpl.cs:82-103 | arrival, the prior entry marked Replaced, the capacity check, and the expiry check at now |
| FilesCaches.FilesCache.Install | LazyCache/Providers/FilesCaches/FilesCacheImpl.cs:103-147 | the entry takes its key; the prior entry's size leaves the total and its callbacks run |
| FilesCaches.FilesCache.Discard | LazyCache/Providers/FilesCaches/FilesCacheImpl.cs:149-160 | an entry over capacity is marked Capacity and a compaction is queued. Its callbacks run, and the prior entry is removed with its size. The size the capacity check added for an entry that fitted stays in the total, as in the source |
| FilesCaches.FilesCache.Settle | LazyCache/Providers/FilesCaches/FilesCacheImpl.cs:103-160 | install when the entry fits and is not expired, discard otherwise; in a size-limited cache Unaccounted falls by the installed entry's size, and only on an install |
| FilesCaches.FilesCache.Commit | LazyCache/Providers/FilesCaches/FilesCacheImpl.cs:82-160 | the whole commit as written, per Commits: the replaced entry is marked Replaced, its callbacks run and its other fields are kept; the size total grows by Leaked beyond the table's sum; it also gives back the capacity and expiry verdicts |
| FilesCaches.FilesCache.CommitCorrected | LazyCache/Providers/FilesCaches/FilesCacheImpl.cs:82-160 | the corrected commit: Commit, then the size Leaked leaves the total again, so Unaccounted is unchanged |
| FilesCaches.FilesCache.Refund | LazyCache/Providers/FilesCaches/FilesCacheImpl.cs:149-160 | taking a size the table does not account for off the total keeps the invariant and changes nothing else a commit works on |
| FilesCaches.FilesCache.RefundedCommit | LazyCache/Providers/FilesCaches/FilesCacheImpl.cs:82-160 | a commit as written followed by a refund of Leaked is the corrected commit, and it ends with Unaccounted as before |
| FilesCaches.FilesCache.SetEntry | LazyCache/Providers/FilesCaches/FilesCacheImpl.cs:68-163 | nothing once disposed; an entry without a size is refused by a size-limited cache before anything changes; otherwise the commit as written and the scan check |
| FilesCaches.FilesCache.CommitAndScan | LazyCache/Providers/FilesCaches/FilesCacheImpl.cs:82-162 | the commit per Commits, and the scan check |
| FilesCaches.FilesCache.Open | LazyCache/Providers/FilesCaches/CacheEntry.cs:150-153 | the entry is marked added and its scope lease disposed; the table is untouched |
| FilesCaches.FilesCache.PassOn | LazyCache/Providers/FilesCaches/CacheEntry.cs:155 | the hand-over of options after a commit keeps what the commit did unless the receiving entry is the committed or the replaced one |
| FilesCaches.FilesCache.Notify | LazyCache/Providers/FilesCaches/CacheEntry.cs:154-155 | SetEntry, then, unless it refused the entry, the hand-over to the entry that is innermost again |
| FilesCaches.FilesCache.DisposeEntry | LazyCache/Providers/FilesCaches/CacheEntry.cs:148-156 | only the first call does anything: the entry is added, its scope stack restored, the entry committed, and its options handed to the enclosing entry |
| FilesCaches.FilesCache.PartitionKey | LazyCache/Providers/FilesCaches/FilesCacheImpl.cs:323-348 | one visit of Compact's first loop: the entry is checked at now and recorded as a candidate with its priority, last access and cost |
| FilesCaches.FilesCache.Partition | LazyCache/Providers/FilesCaches/FilesCacheImpl.cs:321-349 | every table entry is checked and routed once; the lists are those of the candidates seen |
| FilesCaches.FilesCache.ExpireNext | LazyCache/Providers/FilesCaches/FilesCacheImpl.cs:378-383 | one round of a bucket pass: the next candidate is marked Capacity, appended to the removal list, and its cost added |
| FilesCaches.FilesCache.ExpirePriorityBucket | LazyCache/Providers/FilesCaches/FilesCacheImpl.cs:366-385 | appends exactly what Take selects from the ordered bucket, returns the new removed size, and marks exactly those entries Capacity |
| FilesCaches.FilesCache.MarkCapacity | LazyCache/Providers/FilesCaches/FilesCacheImpl.cs:379 | one entry marked Capacity, no other touched |
| FilesCaches.FilesCache.MarkBuckets | LazyCache/Providers/FilesCaches/FilesCacheImpl.cs:351-356 | the three bucket passes produce the selection, and they mark exactly the bucket entries taken |
| FilesCaches.FilesCache.RemoveKey | LazyCache/Providers/FilesCaches/FilesCacheImpl.cs:357-358 | one visit of the last loop: RemoveEntry on the entry, and the removal's progress holds with its key added |
| FilesCaches.FilesCache.RemoveNext | LazyCache/Providers/FilesCaches/FilesCacheImpl.cs:357-358 | one round of the last loop: RemoveEntry on the next entry of the list, and the progress holds for the list's prefix one longer |
| FilesCaches.FilesCache.RemoveAll | LazyCache/Providers/FilesCaches/FilesCacheImpl.cs:357-358 | Compact's last loop removes each selected entry through RemoveEntry |
| FilesCaches.FilesCache.RemovedFromTable | LazyCache/Providers/FilesCaches/FilesCacheImpl.cs:357-358 | after the last loop the table is the old one without the selected keys |
| FilesCaches.FilesCache.RemoveSelected | LazyCache/Providers/FilesCaches/FilesCacheImpl.cs:357-358 | the table loses exactly the keys of the removal list, each through RemoveEntry, and Unaccounted is kept |
| FilesCaches.FilesCache.CompactTo | LazyCache/Providers/FilesCaches/FilesCacheImpl.cs:315-359 | the table loses exactly the selected keys; every entry was checked, the taken bucket entries were marked Capacity, and the removed ones had their callbacks run |
| FilesCaches.FilesCache.Compact | LazyCache/Providers/FilesCaches/FilesCacheImpl.cs:310-313 | CompactTo counting one per entry, towards the entry count times the percentage, truncated, a target between none and all entries |
| FilesCaches.FilesCache.OvercapacityCompaction | LazyCache/Providers/FilesCaches/FilesCacheImpl.cs:288-301 | runs exactly when a size limit is set and the total is above the (1 - percentage) share of it. It then compacts by entry size towards that share, with a target of at least one; otherwise nothing changes |
| FilesCaches.ExpiredCommitKeepsSize | LazyCache/Providers/FilesCaches/FilesCacheImpl.cs:68-163 | the input that shows the finding on the engine: limit 10, an empty cache, an entry of size 1 that is already expired, committed by DisposeEntry: the table stays empty and the total is 1 |
| FilesCaches.ReplacedEntryKeepsFields | LazyCache/Providers/FilesCaches/FilesCacheImpl.cs:99-147 | two commits under one key: the replaced entry keeps its value and priority and is marked Replaced |
| FilesCaches.CommitFirst | LazyCache/Providers/FilesCaches/FilesCacheImpl.cs:103-147 | an entry committed into an empty cache without a limit takes its key and keeps its value, priority and reason |
| FilesCaches.ExpiredCorrectedCommitFreesSize | LazyCache/Providers/FilesCaches/FilesCacheImpl.cs:68-163 | the same input with CommitCorrected: the table stays empty and the total is 0 |
| FilesCacheOptionsModel.FilesCacheOptions.constructor | LazyCache/Providers/FilesCaches/FilesCacheOptions.cs:16-40 | no size limit, compaction by 5 per cent, a scan at most once a minute |
| FilesCacheOptionsModel.FilesCacheOptions.SetSizeLimit | LazyCache/Providers/FilesCaches/FilesCacheOptions.cs:43-53 | a negative limit is rejected and the old one kept; null and non-negative limits are stored |
| FilesCacheOptionsModel.FilesCacheOptions.SetCompactionPercentage | LazyCache/Providers/FilesCaches/FilesCacheOptions.cs:58-64 | accepted exactly within [0, 1]; otherwise rejected with the old value kept |
| FilesCacheOptionsModel.FilesCacheOptions.SetExpirationScanFrequency | LazyCache/Providers/FilesCaches/FilesCacheOptions.cs:40 | stores the scan frequency and nothing else |
| FilesCacheOptionsModel.FilesCacheOptions.SetStorageDir | LazyCache/Providers/FilesCaches/FilesCacheOptions.cs:34 | stores the directory and nothing else |
| FilesCacheOptionsModel.FilesCacheOptions.GetStorageDir | LazyCache/Providers/FilesCaches/FilesCacheOptions.cs:25-33 | the stored directory; when unset, the default is stored and returned |
| FilesCacheOptionsModel.StorageDirIsStable | LazyCache/Providers/FilesCaches/FilesCacheOptions.cs:25-33 | once computed, the directory does not change, whatever default a later read would compute |

## Left out

- Concurrency: the concurrent dictionary, the Interlocked operations and the locks are sequential updates. The model has one thread of control.
- UpdateCacheSizeExceedsCapacity: the compare-and-swap retry loop (up to 100 attempts) is a single attempt, which is what every sequential run does.
- Background tasks (the scan task, the overcapacity work item, the token callback task and the callback task) are not scheduled. They are counted in ghost counters, or run synchronously.
- OvercapacityCompaction: the queued-compaction counter is not decremented when the work item runs.
- The clock is the `now` parameter. Times are integer ticks, not `DateTimeOffset`/`TimeSpan`.
- Doubles are reals, so rounding in `count * percentage` and `limit * (1 - percentage)` is not modelled. Only the final truncation toward zero is.
- Truncate: integers are unbounded, so the casts to `int` and `long` are modelled only for values within range. C# leaves the result unspecified for a product out of range or for NaN; NaN cannot arise from a percentage in [0, 1].
- Token registration (AttachTokens, DetachTokens, ExpirationTokensExpired) is not modelled. Only a token's changed flag is, as read by CheckForExpiredTokens. The token callback's effect is `SetExpired(TokenExpired)` on the entry, followed by `FilesCache.EntryExpired`.
- The finalizer and GC.SuppressFinalize have no counterpart.
- GetStorageDir: the default path built from the application-data folder and the process name is a parameter.
- CacheEntryHelper's AsyncLocal slot is an explicit ScopeContext object, one per logical call context.
- The failed TryAdd/TryUpdate branch of SetEntry cannot happen in a sequential run, so it is not modelled.
- The NotSupportedException for an undefined priority value cannot happen, because Priority is a closed datatype here.
- The ArgumentNullException for a null options accessor in the cache's constructor, and the null checks on CacheEntry's two constructor delegates, have no counterpart. The model's types exclude null for these arguments, so none of these checks can fail.
- Compaction's enumeration order of the table is arbitrary. The model records the order the first loop used (`keys`) and states its results over that order.
- ExpirePriorityBucket reads each entry's cost when the first loop of Compact records it. Nothing changes a size between the two loops, so this does not change the result.
- Notified: no claim about the commit is made when the innermost open scope is the committed entry or the entry it replaces. The hand-over of options then changes that entry's state once more.
- RanOnce: for an entry removed by compaction, the contract states the callback log and the cleared list. It leaves the entry's other fields as they were, without a separate claim about the value passed to each callback beyond the log.
- Valid: changing the Size of an entry after it has been committed is not modelled. The source's Size setter has no guard against it, and the caller keeps the entry after Dispose. Changing it makes the running total disagree with the entry's size, so a later Remove can throw or drive the total negative. The table invariant assumes this does not happen, so a committed entry's SetSize leaves Valid unprovable and no cache operation can be called after it.
- SetEntry, CommitAndScan, Notify and DisposeEntry use the commit as written (Commit). The corrected commit is the separate method CommitCorrected, so the table invariant allows the total to run ahead of the sum.
- CommitAndScan: the commit is made after the scan check rather than before it. The commit neither reads nor writes the scan time or the scan counter, so the final state is the same.

## Findings

| source | as written | input that shows it | evidently intended | confidence | as-written member | corrected member |
|---|---|---|---|---|---|---|
| LazyCache/Providers/FilesCaches/FilesCacheImpl.cs:102-160 | the capacity check adds the entry's size to the total whenever it fits, but when the entry is then discarded as expired on arrival nothing takes that size off again | size limit 10, an empty cache, an entry of size 1 whose absolute expiration is already past: the table stays empty and the total becomes 1 | the size of a discarded entry that was counted is taken off again, so the total stays equal to the table's sum | not executed | FilesCaches.ExpiredCommitKeepsSize | FilesCaches.FilesCache.CommitCorrected |
