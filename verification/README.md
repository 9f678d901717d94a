# In-memory cache service, modelled in Dafny

This project models `CacheService`, the in-memory key-value cache of the
`hello_spring` application. It is a bounded store of `String` keys and
`Object` values. Entries expire ten minutes after they were last written
(`expireAfterWrite`), and the store is configured for at most 1000 entries
(`maximumSize`); the library enforces that bound in its asynchronous
maintenance, so it can briefly hold more. The model enforces the bound within
each call. Its operations are `put`, `get`, `delete`, `size` and `clear`.
`put` throws `IllegalArgumentException` for a null key or a null value.
`get` and `delete` treat a null key as absent.

The model is functional:

- `Cache.Store<V>` is an immutable value. It maps each resident key to an
  `Entry(value, writtenAt)` and fixes `ttl` and `capacity` at construction.
- Every operation is a pure function of the store. Operations that depend on
  time take the clock reading `now` (milliseconds) as a parameter.
- Java `null` is `Wrappers.Option.None`. A thrown exception is
  `Wrappers.Result.Err(IllegalArgument(message))`, with the source's messages.
- The value type is a type parameter `V`. The cache never inspects values.
- The storage library behind the class picks eviction victims by its own
  policy. That choice is the `victim` parameter of `Put`/`Write`. When a new key
  pushes the store over its capacity, `victim` is evicted if it is resident.
  Otherwise the newcomer itself is dropped, which is how an admission policy
  rejects a candidate. So a key can be evicted only by a write that names it
  as the victim, or as the newcomer.
- An entry is live while `now < writtenAt + ttl`. This is the library's
  expire-after-write rule: an entry has expired once `now - writtenAt >= ttl`.

Files:

- `wrappers.dfy`: `Option` and `Result`.
- `cache.dfy`: module `Cache`, with the store, its configuration and the five operations.
- `properties.dfy`: module `CacheProperties`, with single-operation properties
  stated through `get`, `size` and the resident entries.
- `machine.dfy`: module `CacheMachine`. It defines the service as a state
  machine (`Step` per call, `Run` over a call sequence) and proves properties
  of whole call sequences.
- `scenarios.dfy`: module `CacheScenarios`, with the unit-test scenarios,
  stated through `put` and proved for every clock reading and every eviction choice.

Two abstractions of the code are worth stating up front:

- The code hands eviction to a library that does not promise
  least-recently-used order, so the model allows any victim.
- The code's `get` calls the library's `getIfPresent`, which records the access
  for the eviction policy and, on an expired entry, schedules its clean-up. The
  model's `Get` does neither: it never changes the store, and `Size` counts
  resident entries, including expired ones not yet reclaimed.

## Model

| member | source | states |
|---|---|---|
| Cache.New | src/main/java/com/example/hello_spring/services/CacheService.java:24-29 | A new service is empty and valid, with a TTL of ten minutes (600000 ms) and a capacity of 1000 entries |
| Cache.Put | src/main/java/com/example/hello_spring/services/CacheService.java:37-45 | A null key fails with "Cache key cannot be null". A non-null key with a null value fails with "Cache value cannot be null". `put` succeeds exactly when both are non-null, and then performs the write |
| Cache.Write | src/main/java/com/example/hello_spring/services/CacheService.java:44 | A write gives the kept key the new value and restarts its TTL. Every other resident entry is an unchanged old entry. Nothing is evicted when the key was resident or the store had room. Only the named victim or the newcomer can go. A valid store stays valid and never shrinks |
| Cache.Get | src/main/java/com/example/hello_spring/services/CacheService.java:53-58 | A null key gives absent. A value is returned only for a resident key whose entry is less than `ttl` old, and it is that entry's value. Every such entry is returned |
| Cache.Delete | src/main/java/com/example/hello_spring/services/CacheService.java:65-70 | A null or absent key leaves the store unchanged. Otherwise the key is gone, every other entry is kept unchanged, and the size drops by one |
| Cache.Size | src/main/java/com/example/hello_spring/services/CacheService.java:77-79 | The size is 0 exactly when no entry is resident, and never exceeds the capacity of a valid store |
| Cache.Clear | src/main/java/com/example/hello_spring/services/CacheService.java:84-86 | After `clear` the size is 0 and `get` is absent for every key at every time. The configuration is kept |
| CacheProperties.LiveKeysWithinSize | src/main/java/com/example/hello_spring/services/CacheService.java:72-79 | The number of keys `get` can return a value for never exceeds the reported size |
| CacheProperties.WriteAdmits | src/main/java/com/example/hello_spring/services/CacheService.java:22-27 | In a valid store, a written key is kept exactly when it was already resident, the store had room, or the policy evicts some other resident entry |
| CacheProperties.PutThenGet | src/main/java/com/example/hello_spring/services/CacheService.java:37-58 | After a kept `put(k, v)` at time t, `get(k)` returns v at every time before t + ttl, however old the previous write of k was |
| CacheProperties.PutThenExpire | src/main/java/com/example/hello_spring/services/CacheService.java:26 | After `put(k, v)` at time t, `get(k)` is absent at every time from t + ttl on |
| CacheProperties.Overwrite | src/test/java/com/example/hello_spring/services/CacheServiceTest.java:149-164 | Rewriting a resident key keeps the size. The result is the old map with only that key's entry replaced |
| CacheProperties.PutNewKeyBelowCapacity | src/test/java/com/example/hello_spring/services/CacheServiceTest.java:116-126 | A new key written while there is room is kept, and the size grows by exactly one |
| CacheProperties.PutNewKeyWhenFull | src/main/java/com/example/hello_spring/services/CacheService.java:27 | A new key written into a full valid store costs exactly one entry, so the size stays at the capacity |
| CacheProperties.EvictionOnlyWhenFull | src/main/java/com/example/hello_spring/services/CacheService.java:18-27 | If a write removes an entry of a valid store, the written key was new and the store was full, and the removed entry is the named victim |
| CacheProperties.DeleteThenGet | src/test/java/com/example/hello_spring/services/CacheServiceTest.java:87-98 | After `delete(k)`, `get(k)` is absent at every time |
| CacheProperties.DeleteSize | src/test/java/com/example/hello_spring/services/CacheServiceTest.java:100-129 | `delete` lowers the size by one exactly when the key was non-null and resident, and keeps it exactly when the key was null or absent |
| CacheMachine.Step | src/main/java/com/example/hello_spring/services/CacheService.java:37-86 | A call never changes the configuration and keeps a valid store valid. A call throws exactly for `put` with a null argument, and then leaves the store as it was. `get` and `size` never change the store |
| CacheMachine.RunPreservesValid | src/main/java/com/example/hello_spring/services/CacheService.java:27 | After any sequence of calls, a valid store is still within its capacity |
| CacheMachine.RunKeepsConfig | src/main/java/com/example/hello_spring/services/CacheService.java:16-29 | The TTL and the capacity fixed at construction never change |
| CacheMachine.RunKeepsUntouched | src/main/java/com/example/hello_spring/services/CacheService.java:44-86 | Calls that neither write k, delete k, clear, nor name k as the eviction victim keep k's entry exactly |
| CacheMachine.RunNoWrite | src/main/java/com/example/hello_spring/services/CacheService.java:44-86 | Calls that do not write k can drop k's entry but never create or change it |
| CacheMachine.RoundTrip | src/test/java/com/example/hello_spring/services/CacheServiceTest.java:22-54 | After a kept `put(k, v)` at time t and any calls that leave k untouched, `get(k)` at a time before t + ttl returns v |
| CacheMachine.ExpireAfterWrite | src/main/java/com/example/hello_spring/services/CacheService.java:26 | If k was last written at or before t, then after any calls that do not rewrite k, `get(k)` at or after t + ttl returns null |
| CacheMachine.DistinctPutsGrow | src/test/java/com/example/hello_spring/services/CacheServiceTest.java:116-126 | Writing n distinct new keys into a store with room for them grows the size by n, whatever value, clock reading and eviction choice each write has. Every earlier entry is kept, and every new key holds its own value and write time |
| CacheMachine.ClearThenPuts | src/main/java/com/example/hello_spring/services/CacheService.java:84-86 | After `clear`, writing n distinct keys (n within the capacity, each with its own value, clock reading and eviction choice) gives size exactly n. A key written before the clear and not rewritten is never found again |
| CacheScenarios.SizeScenario | src/test/java/com/example/hello_spring/services/CacheServiceTest.java:116-129 | The size reads 0, 1, 2 over two distinct writes into a new service, then 1 after deleting the first key |
| CacheScenarios.ClearScenario | src/test/java/com/example/hello_spring/services/CacheServiceTest.java:131-147 | After three distinct writes the size is 3. After `clear` it is 0 and none of the three keys is found |
| CacheScenarios.OverwriteScenario | src/test/java/com/example/hello_spring/services/CacheServiceTest.java:149-164 | The original value is read back, then the rewritten one, and the size is 1 |
| CacheScenarios.DeleteScenario | src/test/java/com/example/hello_spring/services/CacheServiceTest.java:87-98 | A written key is found before `delete` and absent after it |
| CacheScenarios.NullArgumentScenario | src/test/java/com/example/hello_spring/services/CacheServiceTest.java:63-85 | On a new service, `put(null, v)` and `put(k, null)` throw, `get(null)` is absent and `delete(null)` leaves the service as it was |
| CacheScenarios.SeparateInstancesScenario | src/test/java/com/example/hello_spring/services/CacheServiceTest.java:166-175 | A second new service does not see a key written to the first |

## Left out

- Eviction-victim choice: the library's policy is not part of this model. Its choice is a free parameter, so no strict least-recently-used order is claimed.
- Background maintenance: the library reclaims expired entries and evicts over-capacity entries asynchronously, so between maintenance runs it can hold, and `size()` can report, more than 1000 entries. The model evicts within the `put` call itself. It never reclaims expired entries on its own, and `Get` never removes an expired entry. `Size` therefore counts expired entries that are still resident.
- Stores already over capacity: the library evicts until the store is within its bound. `Write` evicts one entry per write. The two agree on every store reachable from `New`, since `RunPreservesValid` keeps those within capacity.
- Size estimate: `size` returns the library's estimated count as a Java `long`. The model returns the exact resident count as a `nat`, which never exceeds the capacity after a call completes.
- Concurrency and thread safety: these are internal to the library. The model is a single-threaded sequence of calls.
- Real time: `TimeUnit` and the clock are replaced by the `now`/`at` parameter in milliseconds. Its readings need not be monotone.
- Spring wiring: the `@Service` singleton scope and injection are framework behaviour.
- `PingService`: network calls, scheduling, date formatting and logging only.
- `HelloController`: HTTP endpoints that read JVM memory and the wall clock.
- `UserRepository`: derived database queries that the persistence framework implements.
- `AppConfig` and `HelloSpringApplication`: bootstrap with no logic of their own.
