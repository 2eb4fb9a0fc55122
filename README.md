# Redis lock service: acquire and release

This project models `LockServiceRedisImpl`, the Redis-backed lock of coder-clan/lock-redis, and proves what its two
operations guarantee. The service builds a mutual-exclusion lock out of three store commands: SET with NX and EX
(set-if-absent with expiry), GET and DEL.

- `lock(bean)` derives the store key `lockType + lockKey` and opens a connection. It then makes up to
  `retryTime + 1` set-if-absent attempts, writing the owner with expiry `maxLockTime`. It returns `true` at the first
  attempt that sets the key. It sleeps `retryDelay` after every attempt that finds the key taken, the last one
  included, and returns `false` when the attempts run out. Any failure becomes a `LockException`.
- `unlock(bean)` reads the key. It does nothing if the key is absent, deletes it if it holds the caller's owner, and
  leaves it alone if it holds someone else. Any failure becomes a `LockException`.
- Both operations close the connection on every path on which they opened it.

Layout:

- `types.dfy` (`LockTypes`): the lock request (`LockBean`), the stored `Entry`, `LockException` and the call
  `Outcome` (a normal return or a thrown `LockException`).
- `store.dfy` (`RedisStore`): the store as an in-memory map from key to (owner, ttl), as a state value
  (`StoreState`) and as a class `Store`. Each command (connect, set-if-absent, get, delete, close) is a step function
  with a method of the class proved to follow it. The store counts the commands it receives and the connections
  left open. Whatever happens between this client's commands is given as a schedule `env` from command number to
  `Event`:
  - `Outage`: that command fails without reaching the store;
  - `Expired(key)`: the entry under `key` expires;
  - `Acquired(key, entry)`: the entry expires and another client takes the key.
- `threads.dfy` (`Threads`): `Thread.sleep` as a class `Sleeper` that counts its calls. A negative delay raises
  `IllegalArgumentException`. The calls whose numbers appear in `interrupts` are interrupted.
- `protocol.dfy` (`LockProtocol`): the store key `Key`, the attempt count `Attempts`, and the protocol as functions
  `TryFrom` (the retry loop), `LockSpec` and `UnlockSpec`.
- `service.dfy` (`LockServiceRedis`): the class `LockServiceRedisImpl`. Its `Lock` method is the counted loop and
  `Unlock` the read-then-delete; each is proved to compute `LockSpec` / `UnlockSpec` exactly.
- `properties.dfy` (`LockProperties`): the guarantees, as lemmas about `LockSpec` and `UnlockSpec`.

On three edges the model keeps the code's behaviour:

- A negative `retryTime` gives zero attempts and a `false` result.
- An interrupted sleep ends `lock` with a `LockException`, not with a "not acquired" answer.
- A negative `retryDelay` makes the first sleep throw, so `lock` ends with a `LockException`.

## Model

| member | source | states |
|---|---|---|
| `LockProtocol.TryFrom` | src/main/java/org/coderclan/lock/redis/LockServiceRedisImpl.java:35-45 | the retry loop opens and closes no connection |
| `LockServiceRedis.LockServiceRedisImpl.Lock` | src/main/java/org/coderclan/lock/redis/LockServiceRedisImpl.java:27-57 | the counted loop computes exactly `LockSpec`; it leaves no connection open; it makes at most `retryTime + 1` set-if-absent calls, and all of them when it returns `false`; on `true` it slept once per failed attempt and not after the success |
| `LockServiceRedis.LockServiceRedisImpl.Unlock` | src/main/java/org/coderclan/lock/redis/LockServiceRedisImpl.java:64-103 | the read-then-delete computes exactly `UnlockSpec` and leaves no connection open; a reported other holder is never the caller |
| `RedisStore.Store.GetConnection` | src/main/java/org/coderclan/lock/redis/LockServiceRedisImpl.java:33 | opening a connection fails on an outage and otherwise adds one open connection |
| `RedisStore.Store.SetIfAbsent` | src/main/java/org/coderclan/lock/redis/LockServiceRedisImpl.java:36 | SET NX EX writes the entry only when the key is absent and reports whether it did |
| `RedisStore.Store.Get` | src/main/java/org/coderclan/lock/redis/LockServiceRedisImpl.java:71 | GET returns the stored owner or nothing and changes no entry |
| `RedisStore.Store.Del` | src/main/java/org/coderclan/lock/redis/LockServiceRedisImpl.java:80 | DEL removes the key and returns how many keys it removed (0 or 1) |
| `RedisStore.Store.CloseConnection` | src/main/java/org/coderclan/lock/redis/LockServiceRedisImpl.java:50-54 | closing gives back one open connection and touches nothing else |
| `Threads.Sleeper.Sleep` | src/main/java/org/coderclan/lock/redis/LockServiceRedisImpl.java:44 | each sleep is counted; a negative delay raises IllegalArgumentException, an interrupted call raises InterruptedException |
| `LockProperties.KeyDeterminesLockKey` | src/main/java/org/coderclan/lock/redis/LockServiceRedisImpl.java:59-61 | within one lock type, two requests share a store key if and only if their lock keys are equal |
| `LockProperties.KeyNamespacedByType` | src/main/java/org/coderclan/lock/redis/LockServiceRedisImpl.java:59-61 | for one lock key, two requests share a store key if and only if their lock types are equal, so subsystems using the same resource name under different types never share a lock |
| `LockProperties.KeyCollision` | src/main/java/org/coderclan/lock/redis/LockServiceRedisImpl.java:59-61 | when both the lock type and the lock key differ, the plain concatenation can give two requests the same key: ("ab", "c") and ("a", "bc") |
| `LockProperties.TryAccounting` | src/main/java/org/coderclan/lock/redis/LockServiceRedisImpl.java:35-45 | the loop issues only set-if-absent commands, at most one per remaining attempt, all of them when it answers false, and one sleep after each attempt that found the key taken |
| `LockProperties.LockAccounting` | src/main/java/org/coderclan/lock/redis/LockServiceRedisImpl.java:27-57 | lock makes at most `retryTime + 1` set calls; `false` only after all of them and as many sleeps; `true` right after the successful call with no sleep after it; no GET or DEL; the open-connection count is restored |
| `LockProperties.TryContended` | src/main/java/org/coderclan/lock/redis/LockServiceRedisImpl.java:35-45 | against a key that stays held, each remaining attempt fails and sleeps, and the loop answers false |
| `LockProperties.LockContended` | src/main/java/org/coderclan/lock/redis/LockServiceRedisImpl.java:35-56 | against a held key, lock makes exactly `retryTime + 1` set calls and sleeps, changes no entry and returns false |
| `LockProperties.LockNegativeDelay` | src/main/java/org/coderclan/lock/redis/LockServiceRedisImpl.java:44-49 | against a held key a negative retryDelay ends lock with a LockException after one attempt and one sleep call |
| `LockProperties.LockUncontended` | src/main/java/org/coderclan/lock/redis/LockServiceRedisImpl.java:36-40 | on a free key lock returns true after one set call and no sleep, adding only key -> (owner, maxLockTime) |
| `LockProperties.TryFreed` | src/main/java/org/coderclan/lock/redis/LockServiceRedisImpl.java:35-45 | if the key is freed just before attempt j, the loop succeeds exactly there |
| `LockProperties.LockSucceedsWhenFreed` | src/main/java/org/coderclan/lock/redis/LockServiceRedisImpl.java:36-40 | if the holder's entry expires just before attempt j, lock returns true after exactly j set calls and j - 1 sleeps |
| `LockProperties.TryOnlyAdds` | src/main/java/org/coderclan/lock/redis/LockServiceRedisImpl.java:36 | with no other client acting, the loop only adds its own entry, and only to a free key |
| `LockProperties.LockOnlyAddsOwnEntry` | src/main/java/org/coderclan/lock/redis/LockServiceRedisImpl.java:36 | lock never overwrites a held key: unless it returns true the entries are unchanged; on true the key was free and now holds exactly (owner, maxLockTime) |
| `LockProperties.TryFailureSurfaces` | src/main/java/org/coderclan/lock/redis/LockServiceRedisImpl.java:35-49 | the loop stops at its first failing command; a store exception from it happens exactly when its last command failed |
| `LockProperties.LockFailureSurfaces` | src/main/java/org/coderclan/lock/redis/LockServiceRedisImpl.java:47-54 | a store failure ends lock at once as a LockException, never as false and never retried; sleep failures surface the same way: `lock` returns normally only if none of its sleeps was interrupted and, when it slept, the delay was not negative; the connection count is restored on every path |
| `LockProperties.UnlockQuiet` | src/main/java/org/coderclan/lock/redis/LockServiceRedisImpl.java:71-93 | an absent key is a no-op; the caller's entry is deleted; another owner's entry is left as is, without an error |
| `LockProperties.UnlockFailureSurfaces` | src/main/java/org/coderclan/lock/redis/LockServiceRedisImpl.java:64-103 | unlock restores the connection count, throws exactly when its last command failed, and with no other client acting deletes only the caller's own entry |
| `LockProperties.UnlockRace` | src/main/java/org/coderclan/lock/redis/LockServiceRedisImpl.java:71-80 | if the key is re-taken by another client between GET and DEL, unlock deletes that client's entry |
| `LockProperties.UnlockExpiredBeforeDelete` | src/main/java/org/coderclan/lock/redis/LockServiceRedisImpl.java:80-86 | if the entry expires between GET and DEL, DEL removes nothing and unlock returns normally |
| `LockProperties.LockThenUnlock` | src/main/java/org/coderclan/lock/redis/LockServiceRedisImpl.java:59-67 | lock then unlock with the same request address the same key and restore the entries and the connection count |
| `LockProperties.MutualExclusion` | src/main/java/org/coderclan/lock/redis/LockServiceRedisImpl.java:35-40 | after one request takes a key, a second request for it gets false and the holder's entry stays |
| `LockProperties.ReleaseByOtherKeepsLock` | src/main/java/org/coderclan/lock/redis/LockServiceRedisImpl.java:88-93 | unlock with a different owner reports the real holder and leaves its entry unchanged |
| `LockProperties.OrderScenario` | src/main/java/org/coderclan/lock/redis/LockServiceRedisImpl.java:27-103 | workerA takes order/42 at once; workerB tries three times and gets false; workerA releases; workerB then takes it at once |

## Left out

- `LockRedisAutoConfiguration` (Spring bean wiring) is not part of this model; `LockServiceRedisImpl.constructor` stands in for it.
- The Redis client, connection factory and key serializer are not part of this model. The serializer is taken to be
  injective, so comparing serialized byte arrays (line 78) is string equality.
- The source files of `LockBean`, `LockException` and `LockService` are not part of this model. `LockBean` is a
  datatype with unbounded integers, so an overflow of `retryTime + 1` in Java `int` arithmetic is not modelled.
- Logging and the text of exception messages are left out, including the unlock message at line 96 that prints the
  lock type twice. The `Release` result of `Unlock` stands for which log line `unlock` writes; the Java method
  returns `void`.
- Time is not modelled. A sleep is only counted, and expiry appears only as `Expired` and `Acquired` events in the
  store's schedule. `maxLockTime` is recorded as given; the store's own rejection of an invalid expiry is not modelled.
- Closing a connection never fails in the model. In Java an exception from `close()` in `finally` would escape
  unwrapped.
- A `null` count from DEL (line 82) is not modelled: DEL always answers a number.
- Concurrency between processes is modelled only as the scheduled events between this client's commands. Real
  interleavings in wall-clock time are left out.
- MutualExclusion: proved for one store and one sequence of calls with no other client acting, not for all
  wall-clock interleavings of many processes.
- LockOnlyAddsOwnEntry: proved when no other client acts on the store; with interference, the entries also change
  by the scheduled events. A failed command is taken to have had no effect on the store. A SET NX that the server
  applied but whose reply was lost is not modelled, so after `lock` throws, the caller's entry may in fact exist,
  while this lemma says the entries are unchanged.
