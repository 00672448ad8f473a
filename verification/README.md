# Redis lock and QPS limiter — a Dafny model

This project models two sequential components of the `sr-assembly` library and proves properties of them.

- **`RedisLock`**: a lock over named resources, built on a key-value store with an atomic "set if absent" (`setNx`). It also uses a process-wide reentry table (`DefaultReentryConcurrentMap`) and a shared `AtomicInteger` called `DEFAULT_ZERO`.
- **`QpsLimitUtil.limit`**: a per-second admission counter keyed by `key + second`.

Both are written as a functional state machine. The lock state is one record, `RedisLock.LockState`, which holds:
- the store, a `map<string, string>`;
- the reentry table, a `map<string, int>` keyed by `resource + owner`;
- the `DEFAULT_ZERO` counter.

There is one reentry table because the Java backing map is static. So every `DefaultReentryConcurrentMap` instance shares that table, including the fresh instance `RedisOperator.reentryMap()` returns on each call.

Each public operation is a pure function. It returns a `Result` (a value or the `LockException` kind) together with the state afterwards, because an exception does not undo earlier effects.

`AtomicInteger` counters are 32-bit values that wrap around, and `long` sums wrap at 64 bits (`JavaLang`). Java's `/` truncates towards zero, and that is modelled explicitly too.

The busy-wait loops read an abstract clock. It is a sequence of `Tick`s, and each tick has:
- one `System.currentTimeMillis()` reading;
- the environment steps that reach the store before the next `setNx`. An environment step is a record expiring, or another process doing its own `setNx`.

`unlock` takes the environment steps that happen between its `get` and its `del`. Between calls, `RedisLock.Environment` changes only the store.

Modules, one per file: `Wrappers`, `JavaLang`, `RedisStore` (the abstract `RedisOperator`), `ReentryMap`, `RedisLock` (the code as written), `LockFindings` (as-written behaviour next to corrected definitions), and `QpsLimit`.

Behaviour of the code that a reader might not expect, modelled as written:
- The public `lock` has no reentrancy. Only the deprecated `reentryLock` probes the reentry table (`RedisLock.LockIsNotReentrant`).
- A timeout does not roll back reentry probes (`RedisLock.DeprecatedTimeoutKeepsProbes`).
- `tryLock` rejects a *positive* expiry time (see Findings).
- No key prefix is applied. `keyPrefix` is configured but never used by `RedisLock`.

## Model

| member | source | states |
|---|---|---|
| `RedisStore.SetNx` | lock/src/main/java/com/sr/assembly/lock/redis/RedisOperator.java:15 | set-if-absent: wins exactly when the key is absent; then the key holds the value; no other key changes |
| `RedisStore.Get` | lock/src/main/java/com/sr/assembly/lock/redis/RedisOperator.java:17 | the stored value, null exactly when the key is absent |
| `RedisStore.Del` | lock/src/main/java/com/sr/assembly/lock/redis/RedisOperator.java:19 | the key is gone and every other key keeps its value |
| `ReentryMap.Get` | lock/src/main/java/com/sr/assembly/lock/redis/DefaultReentryConcurrentMap.java:27-29 | null exactly when the key has no cell, otherwise that cell |
| `ReentryMap.GetOrDefault` | lock/src/main/java/com/sr/assembly/lock/redis/DefaultReentryConcurrentMap.java:22-25 | the stored cell when present, the default otherwise; the table is not changed, so the default is never inserted |
| `ReentryMap.Put` | lock/src/main/java/com/sr/assembly/lock/redis/DefaultReentryConcurrentMap.java:17-20 | a later `get(k)` returns `v`; `get` of every other key is unchanged |
| `ReentryMap.Remove` | lock/src/main/java/com/sr/assembly/lock/redis/DefaultReentryConcurrentMap.java:32-35 | a later `get(k)` returns null; `get` of every other key is unchanged |
| `JavaLang.IncrementAndGet` | lock/src/main/java/com/sr/assembly/lock/redis/RedisLock.java:165 | one up, and `Integer.MAX_VALUE` wraps to `Integer.MIN_VALUE` |
| `JavaLang.DecrementAndGet` | lock/src/main/java/com/sr/assembly/lock/redis/RedisLock.java:181 | one down, and `Integer.MIN_VALUE` wraps to `Integer.MAX_VALUE` |
| `JavaLang.AddLong` | lock/src/main/java/com/sr/assembly/lock/redis/RedisLock.java:111 | `currentTime + waitTime` is exact when it fits in a `long`, and wraps down or up by 2^64 when it overflows or underflows |
| `JavaLang.IsWhitespace` | lock/src/main/java/com/sr/assembly/lock/redis/RedisLock.java:46 | `Character.isWhitespace`: space, tab, newline and carriage return are whitespace; the no-break spaces U+00A0, U+2007, U+202F and every printable ASCII character are not |
| `JavaLang.IsBlank` | lock/src/main/java/com/sr/assembly/lock/redis/RedisLock.java:196 | `StringUtils.isBlank` (also called at lines 46, 65, 105, 132 and 144): null and "" are blank, and a string is not blank exactly when it is non-null and has a non-whitespace character |
| `JavaLang.ScanIsBlank` | lock/src/main/java/com/sr/assembly/lock/redis/RedisLock.java:196 | the index-by-index `Character.isWhitespace` scan of `StringUtils.isBlank`, stopping at the first non-whitespace character, answers exactly the null-empty-or-whitespace-only definition |
| `JavaLang.AddAndGet` | limit/src/main/java/com/sr/assembly/limit/QpsLimitUtil.java:45 | the exact sum when it fits in an `int`, otherwise the sum wrapped once |
| `JavaLang.Digits` | limit/src/main/java/com/sr/assembly/limit/QpsLimitUtil.java:40 | the decimal text of a number is non-empty, made only of digits, and has no leading zero unless the number is 0 |
| `JavaLang.DecimalString` | limit/src/main/java/com/sr/assembly/limit/QpsLimitUtil.java:40 | `String.valueOf(long)`: a minus sign exactly for negatives, then digits with no leading zero |
| `JavaLang.DecimalRoundTrip` | limit/src/main/java/com/sr/assembly/limit/QpsLimitUtil.java:40 | parsing the `String.valueOf(long)` text of a number gives back the number |
| `JavaLang.DecimalInjective` | limit/src/main/java/com/sr/assembly/limit/QpsLimitUtil.java:40 | distinct seconds have distinct decimal texts |
| `RedisLock.LessOrEqualZero` | lock/src/main/java/com/sr/assembly/lock/redis/RedisLock.java:208-210 | a `Long` is "less or equal zero" exactly when it is not a positive value: null counts as non-positive |
| `RedisLock.ReentryKey` | lock/src/main/java/com/sr/assembly/lock/redis/RedisLock.java:162 | the reentry key is the resource followed by the owner, with no separator (line 175 builds it the same way) |
| `RedisLock.ReentryKeysCanCollide` | lock/src/main/java/com/sr/assembly/lock/redis/RedisLock.java:162 | owner "2" on "order1" and owner "12" on "order" share one reentry cell |
| `RedisLock.BuildThreadId` | lock/src/main/java/com/sr/assembly/lock/redis/RedisLock.java:195-200 | the result is never blank; a blank owner becomes `"NONE"`; a non-blank owner is returned unchanged |
| `RedisLock.BuildThreadIdIdempotent` | lock/src/main/java/com/sr/assembly/lock/redis/RedisLock.java:195-200 | normalising an already normalised owner changes nothing |
| `RedisLock.TryLock` | lock/src/main/java/com/sr/assembly/lock/redis/RedisLock.java:45-52 | throws, with the state unchanged, exactly when the resource is blank or the expiry is positive (the check is negated); otherwise returns the result of one `setNx`: true exactly when the resource was free, and then the resource holds the normalised owner; the reentry table and `DEFAULT_ZERO` are untouched |
| `RedisLock.Poll` | lock/src/main/java/com/sr/assembly/lock/redis/RedisLock.java:110-120 | on success the resource holds the owner; a timeout after at least one attempt leaves the resource held by someone |
| `RedisLock.PollAcquiredIff` | lock/src/main/java/com/sr/assembly/lock/redis/RedisLock.java:110-120 | the loop acquires exactly when some attempt made before the deadline finds the resource free |
| `RedisLock.Lock` | lock/src/main/java/com/sr/assembly/lock/redis/RedisLock.java:104-121 | throws an argument error, with the state unchanged, exactly when the resource is blank or `waitTime` or `expireTime` is null or not positive; returns only true or throws a timeout; true means the resource holds the normalised owner; never reads or writes the reentry table or `DEFAULT_ZERO` |
| `RedisLock.LockSucceedsIff` | lock/src/main/java/com/sr/assembly/lock/redis/RedisLock.java:108-120 | with valid arguments, `lock` returns true exactly when an attempt before `start + waitTime` finds the resource free, and throws a timeout otherwise |
| `RedisLock.LockIsNotReentrant` | lock/src/main/java/com/sr/assembly/lock/redis/RedisLock.java:104-121 | an owner that already holds the resource times out on a second `lock` while the store is left alone |
| `RedisLock.LockThenUnlock` | lock/src/main/java/com/sr/assembly/lock/redis/RedisLock.java:104-153 | a successful `lock` followed by `unlock` of the same owner returns true and gives back the state the lock started from |
| `RedisLock.ProbeReentry` | lock/src/main/java/com/sr/assembly/lock/redis/RedisLock.java:161-166 | when the key has a cell, that cell goes up by one and is returned; otherwise the shared `DEFAULT_ZERO` goes up by one and is returned, and the table is unchanged; the store is untouched |
| `RedisLock.ProbeThenReentryUnlock` | lock/src/main/java/com/sr/assembly/lock/redis/RedisLock.java:161-187 | `reentryUnlock` undoes a probe of a recorded depth exactly; for an owner without one it returns -1 and the probe's `DEFAULT_ZERO` increment stays |
| `RedisLock.ReentryAttempt` | lock/src/main/java/com/sr/assembly/lock/redis/RedisLock.java:78-90 | a probe above one returns true without calling `setNx`; otherwise a free resource is taken and the owner's depth is set to exactly one and every other reentry entry is unchanged; a held resource means another iteration, and the probe's increment is kept |
| `RedisLock.ReentryPoll` | lock/src/main/java/com/sr/assembly/lock/redis/RedisLock.java:76-92 | the loop ends only in true or a timeout |
| `RedisLock.ReentryLockDeprecated` | lock/src/main/java/com/sr/assembly/lock/redis/RedisLock.java:63-93 | the argument check is the same as `lock`'s, with the state unchanged on failure; otherwise the result is only true or a timeout |
| `RedisLock.DeprecatedReentersHeldLock` | lock/src/main/java/com/sr/assembly/lock/redis/RedisLock.java:69-74 | an owner with a recorded depth gets true at once: the depth goes up by one and nothing else changes |
| `RedisLock.ReentryPollTimeoutKeepsProbes` | lock/src/main/java/com/sr/assembly/lock/redis/RedisLock.java:78-92 | a loop timeout for an owner without a recorded depth leaves the table unchanged; `DEFAULT_ZERO` (starting at most 1) ends no lower than it started and at most 1 |
| `RedisLock.DeprecatedTimeoutKeepsProbes` | lock/src/main/java/com/sr/assembly/lock/redis/RedisLock.java:72-92 | a timeout does not roll back: the table is unchanged and `DEFAULT_ZERO` (starting below `Integer.MAX_VALUE`) ends strictly above where it started, at most 1 |
| `RedisLock.ReentryPollKeepsDepthsPositive` | lock/src/main/java/com/sr/assembly/lock/redis/RedisLock.java:78-90 | the loop keeps every recorded depth at least one |
| `RedisLock.DeprecatedKeepsDepthsPositive` | lock/src/main/java/com/sr/assembly/lock/redis/RedisLock.java:63-93 | the deprecated call keeps every recorded depth at least one |
| `RedisLock.ReentryUnlock` | lock/src/main/java/com/sr/assembly/lock/redis/RedisLock.java:174-187 | returns -1 with the table unchanged when the key has no cell; otherwise returns the decremented depth, and removes the cell exactly when that depth is 0; the store and `DEFAULT_ZERO` are untouched |
| `RedisLock.ReentryUnlockKeepsDepthsPositive` | lock/src/main/java/com/sr/assembly/lock/redis/RedisLock.java:174-187 | every recorded depth stays at least one, and a recorded owner gets back a depth that is not negative |
| `RedisLock.ReleaseRecord` | lock/src/main/java/com/sr/assembly/lock/redis/RedisLock.java:143-152 | a blank stored value gives true with the store unchanged; the owner's own value is deleted, with true; any other owner's value gives a not-owner error with the store unchanged |
| `RedisLock.Unlock` | lock/src/main/java/com/sr/assembly/lock/redis/RedisLock.java:131-153 | a blank resource throws before anything else; a depth still above zero gives true without reading the store; otherwise the store phase follows the stored value (blank, own, or foreign); the reentry table ends as `reentryUnlock` leaves it |
| `RedisLock.UnlockKeepsDepthsPositive` | lock/src/main/java/com/sr/assembly/lock/redis/RedisLock.java:131-153 | `unlock` keeps every recorded depth at least one |
| `RedisLock.UnlockCanDeleteForeignRecord` | lock/src/main/java/com/sr/assembly/lock/redis/RedisLock.java:123-152 | if the record expires and another process takes it between `get` and `del`, `unlock` still returns true and deletes the other process's record |
| `RedisLock.Environment` | lock/src/main/java/com/sr/assembly/lock/redis/RedisOperator.java:15-19 | what other processes and expiry do between calls changes only the store |
| `LockFindings.TryLockRejectsPositiveExpiry` | lock/src/main/java/com/sr/assembly/lock/redis/RedisLock.java:45-48 | as written, `tryLock("order", "worker-1", 30000L)` throws, and the same call with a null expiry proceeds |
| `LockFindings.TryLockIntended` | lock/src/main/java/com/sr/assembly/lock/redis/RedisLock.java:45-52 | with the check the exception message describes, the call throws exactly on a blank resource or a null or non-positive expiry, and proceeds only with a positive expiry |
| `LockFindings.TryLockCheckIsInverted` | lock/src/main/java/com/sr/assembly/lock/redis/RedisLock.java:46 | for every non-blank resource, the code as written proceeds exactly when the intended check rejects |
| `LockFindings.DeprecatedLockSkipsStore` | lock/src/main/java/com/sr/assembly/lock/redis/RedisLock.java:72-83 | for an owner without a recorded depth, and `DEFAULT_ZERO` between 0 and `Integer.MAX_VALUE - 2`, the deprecated `reentryLock` never writes the store or the table; it returns true when `DEFAULT_ZERO` is at least one, or when it is zero and the clock allows one iteration |
| `LockFindings.DeprecatedLockIgnoresHolder` | lock/src/main/java/com/sr/assembly/lock/redis/RedisLock.java:63-93 | "worker-2" holds "order" and `DEFAULT_ZERO` is 1, yet `reentryLock("order", "worker-1", 100L, 100L)` returns true |
| `LockFindings.ProbeIntended` | lock/src/main/java/com/sr/assembly/lock/redis/RedisLock.java:161-166 | with a fresh zero cell as the default, an owner without a recorded depth sees 1 and changes nothing; a recorded depth goes up by one |
| `LockFindings.ReentryPollIntended` | lock/src/main/java/com/sr/assembly/lock/redis/RedisLock.java:78-92 | the corrected loop ends in true or a timeout and never touches `DEFAULT_ZERO` |
| `LockFindings.ReentryLockIntended` | lock/src/main/java/com/sr/assembly/lock/redis/RedisLock.java:63-93 | the corrected `reentryLock` has the same argument check, returns only true or a timeout, and leaves `DEFAULT_ZERO` alone |
| `LockFindings.ReentryPollIntendedIsPoll` | lock/src/main/java/com/sr/assembly/lock/redis/RedisLock.java:78-90 | for an owner without a recorded depth, the corrected loop is exactly `lock`'s poll, plus recording depth one on success |
| `LockFindings.ReentryLockIntendedIsExclusive` | lock/src/main/java/com/sr/assembly/lock/redis/RedisLock.java:63-93 | the corrected call returns true for an owner without a recorded depth only after its own `setNx`, with the store holding the owner and depth one recorded; a timeout leaves the table unchanged |
| `LockFindings.IntendedReentrancyRoundTrip` | lock/src/main/java/com/sr/assembly/lock/redis/RedisLock.java:63-153 | corrected lock, lock, unlock, unlock by one owner all return true; the first unlock keeps the store record, and the second restores the starting state |
| `LockFindings.LockWithLongestWaitGivesUp` | lock/src/main/java/com/sr/assembly/lock/redis/RedisLock.java:110-112 | as written, `lock` with `waitTime = Long.MAX_VALUE` throws a timeout on a free resource without calling `setNx` |
| `LockFindings.SaturatingDeadline` | lock/src/main/java/com/sr/assembly/lock/redis/RedisLock.java:111 | the clamped deadline is never after `start + waitTime` and is after `start` whenever `start` is not the largest `long` |
| `LockFindings.LockSaturating` | lock/src/main/java/com/sr/assembly/lock/redis/RedisLock.java:104-121 | `lock` with the clamped deadline keeps all of `lock`'s guarantees |
| `LockFindings.LockSaturatingTriesFirst` | lock/src/main/java/com/sr/assembly/lock/redis/RedisLock.java:110-116 | with the clamped deadline, a valid call always makes its first attempt, so a free resource is always acquired |
| `QpsLimit.Second` | limit/src/main/java/com/sr/assembly/limit/QpsLimitUtil.java:39 | milliseconds to seconds, truncating towards zero as Java's `long` division does |
| `QpsLimit.Limit` | limit/src/main/java/com/sr/assembly/limit/QpsLimitUtil.java:38-49 | a null key throws with nothing changed; otherwise the bucket `key + second` exists afterwards, starts at 0 if it was new, and goes up by `num` even when the call is rejected; every other bucket keeps its count; the call throws exactly when the new count is above `limit`, so reaching `limit` exactly is allowed |
| `QpsLimit.LimitOne` | limit/src/main/java/com/sr/assembly/limit/QpsLimitUtil.java:58-60 | `limit(key, limit)` is `limit(key, 1, limit)` |
| `QpsLimit.BucketKey` | limit/src/main/java/com/sr/assembly/limit/QpsLimitUtil.java:40 | the bucket key starts with the caller's key, and the rest reads back as the current second |
| `QpsLimit.BucketsCanCollide` | limit/src/main/java/com/sr/assembly/limit/QpsLimitUtil.java:39-40 | key "a1" in second 23 and key "a" in second 123 share one bucket |
| `QpsLimit.BucketKeyInjectiveSameWidth` | limit/src/main/java/com/sr/assembly/limit/QpsLimitUtil.java:39-40 | when both seconds have the same number of digits, equal bucket keys mean the same key and the same second |
| `QpsLimit.SameKeyNewSecondNewBucket` | limit/src/main/java/com/sr/assembly/limit/QpsLimitUtil.java:39-40 | one key in two different seconds always uses two different buckets |
| `QpsLimit.Burst` | limit/src/main/java/com/sr/assembly/limit/QpsLimitUtil.java:58-60 | a run of calls gives one admitted-or-rejected answer per call |
| `QpsLimit.BurstFrom` | limit/src/main/java/com/sr/assembly/limit/QpsLimitUtil.java:41-48 | single-weight calls within one second: call i is admitted exactly when the count it reaches is within the limit; the bucket ends at its start plus the number of calls, rejected calls included |
| `QpsLimit.BurstAdmitsUpToLimit` | limit/src/main/java/com/sr/assembly/limit/QpsLimitUtil.java:41-48 | from a new bucket, single-weight calls within one second admit exactly the first `limit` calls |

## Findings

| source | as written | input that shows it | evidently intended | confidence | as-written member | corrected member |
|---|---|---|---|---|---|---|
| lock/src/main/java/com/sr/assembly/lock/redis/RedisLock.java:46 | `!numberLessAndEqualsThanZero(expireTime)` rejects a positive expiry and accepts a null or non-positive one | `tryLock("order", "worker-1", 30000L)` throws `LockException` | reject a null or non-positive expiry, as the exception message says | not executed; high | `LockFindings.TryLockRejectsPositiveExpiry` | `LockFindings.TryLockIntended` |
| lock/src/main/java/com/sr/assembly/lock/redis/RedisLock.java:164 | the probe of an owner without a cell increments the shared `DEFAULT_ZERO`. After the first probe of the process every such probe returns at least 2, so `reentryLock` returns true without ever calling `setNx` | `DEFAULT_ZERO` = 1 and the store maps "order" to "worker-2"; `reentryLock("order", "worker-1", 100L, 100L)` returns true | an owner without a cell probes as depth 1 and changes nothing, then competes through `setNx` (proved in `LockFindings.ReentryLockIntendedIsExclusive`) | not executed; high | `LockFindings.DeprecatedLockIgnoresHolder` | `LockFindings.ReentryLockIntended` |
| lock/src/main/java/com/sr/assembly/lock/redis/RedisLock.java:111 | `currentTime + waitTime` overflows, so the loop condition is false at once | `lock("order", "worker-1", Long.MAX_VALUE, 1000L)` on a free resource throws a timeout without calling `setNx` | the deadline is clamped at `Long.MAX_VALUE`, so at least one attempt is made (proved in `LockFindings.LockSaturatingTriesFirst`) | not executed; medium | `LockFindings.LockWithLongestWaitGivesUp` | `LockFindings.LockSaturating` |

The same overflow exists at line 77 of the deprecated `reentryLock`. That model keeps the code as written.

## Left out

- Concurrency: everything is sequential. The `ConcurrentHashMap` and `AtomicInteger` atomicity is not modelled. Other processes and record expiry appear only as environment steps: before each `setNx` attempt, between `unlock`'s `get` and `del`, and between calls.
- Store failures: Redis and network errors are not modelled. The code propagates them unchanged.
- Time-to-live: `expireTime` is passed to the store, but the model does not track it. Expiry is an environment step. The concrete backend's reaction to a null or non-positive expiry (reachable only through the `tryLock` finding) is not known, so `setNx` is a plain set-if-absent there too.
- Wall-clock time: clock readings are a parameter. The blocking calls require the readings to reach the computed deadline eventually. A clock that never does would make the Java loop spin forever, and that case is not modelled.
- `RedisProperties.keyPrefix`: it is configured but never used by `RedisLock`, so no prefix is modelled.
- The unused static `REENTRY_MAP` of `RedisOperator`, the `ReentryMap` interface (its contract is the `ReentryMap` module), the `QpsLimit` annotation and the `QpsLimitAOP` interception: no logic to model.
- Exception messages: `LockException` and `LimitException` are reduced to error variants.
- The Caffeine cache: access expiry after 3 seconds, the 3000-entry maximum, eviction, and the null that `get` can return after an eviction at line 43 of `QpsLimitUtil`. The limiter's cache is a plain map.
- Character set: `Character.isWhitespace` is modelled with the current Unicode tables, so U+180E (whitespace on Java 8 only) is not whitespace here. UTF-16 surrogate code units cannot occur in a Dafny string.
- `RedisLock.DeprecatedKeepsDepthsPositive`: holds only while the caller's own depth is below `Integer.MAX_VALUE`, because `incrementAndGet` wraps there.
- `RedisLock.ReentryPollKeepsDepthsPositive`: the same bound as above.
- `RedisLock.DeprecatedTimeoutKeepsProbes`: stated only for `DEFAULT_ZERO` below `Integer.MAX_VALUE`; at `Integer.MAX_VALUE` the probe wraps the counter to `Integer.MIN_VALUE`, so "ends above where it started" no longer holds.
- `RedisLock.ReentryPollTimeoutKeepsProbes`: stated only for `DEFAULT_ZERO` at most 1, the value every non-returning iteration leaves it at; it no longer counts the exact number of probes, only bounds the counter.
- `LockFindings.DeprecatedLockSkipsStore`: stated for `DEFAULT_ZERO` between 0 and `Integer.MAX_VALUE - 2`. After 2^31 probes the counter wraps negative, probes return at most 1 again, and `setNx` is reached.
