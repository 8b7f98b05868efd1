# Hotcache in Dafny

A model of `Hotcache`, an in-process key-value cache with a time-to-live
per key. The cache keeps two pieces of state:

- `store`, the authoritative map from key to entry (payload and expiry);
- `expiringKeys`, an unordered registry of keys that were written with a
  non-zero time-to-live. It may hold duplicates and stale keys.

Reads (`Get`, `Has`) evict lazily: a key found expired is reported absent and
then deleted. A background ticker runs `tick`, which samples up to 1000
random registry slots. For each sampled slot it calls `attemptEviction`, and
removes the slot by swap-with-last-then-truncate when the key is gone, never
expires, or is due (in which case the entry is deleted first).

Files:

- `cache_value.dfy` (module `CacheValue`): the entry and its expiry
  (`Never | At(t)` instead of the zero-time sentinel), the read-path and
  sweeper tests `Live` and `Evictable`, the lookup `get` as the function
  `Lookup`, and `Visible`, the live keys and payloads a caller can observe at
  an instant. It also holds lemmas about how writes, deletes, evictions and
  the passage of time change that view, and "last write wins" over any
  series of writes.
- `registry.dfy` (module `Registry`): swap-with-last-then-truncate and its
  counting argument.
- `hotcache.dfy` (module `Hotcache`): the class `Hotcache<V>` with fields
  `store` and `expiringKeys`, every public operation, the helpers `set`
  (`Put`) and `evict` (`Evict`), and the sweeper (`AttemptEviction`,
  `CheckSlot`, `Tick`). The class invariant `Valid()` says that the registry
  may be stale but is never incomplete: every stored entry that can expire
  has its key in the registry. Every operation preserves it.
- `hotcache_tests.dfy` (module `HotcacheTests`): client scenarios matching
  the repository's tests, with clock readings fixed in place of sleeps.

Time is the parameter `now` (an `int`, read as milliseconds in the
scenarios). A time-to-live is an `int`, and zero means "never expires". The
random index of `tick` is a nondeterministic choice `index :| 0 <= index <
|expiringKeys|`, so every proved property holds for every possible draw.
That choice has to exist, so the verifier must show that the registry is
non-empty at every draw. The loop invariant `keylength - i <=
|expiringKeys|` carries that fact, because each iteration removes at most
one slot.

## The expiry boundary

The read path treats an entry as expired only when its expiry is strictly
before the clock (`hotcache.go:116`). The sweeper deletes an entry once its
expiry is not after the clock (`hotcache.go:218`). At exactly `expiry ==
now` a read still returns the value, but a sweep at that instant deletes it.
`CacheValue.LiveAndEvictable` and `HotcacheTests.BoundaryScenario` state
this. The system's stated design disagrees: it calls a key live only when
its expiry is strictly after the current time, so reads at the expiry
instant would miss. The model follows the code. For the same reason the expiry scenarios read at `11` for a
ten-millisecond entry written at `0`.

## Model

| member | source | states |
|---|---|---|
| CacheValue.Lookup | hotcache.go:109-121 | `get` reports Found exactly for keys visible at `now`, with the visible payload. It reports Expired exactly for keys that are stored but not visible, and Absent exactly for keys not stored. |
| CacheValue.LiveAndEvictable | hotcache.go:214-220 | The read-path liveness test of line 116 and the sweeper's due test overlap at exactly one instant: the expiry itself. |
| CacheValue.VisibleAfterWrite | hotcache.go:124-133 | Overwriting one key changes the observable view only at that key. The new payload is visible exactly when the new expiry is live, and otherwise the key disappears from view. |
| CacheValue.VisibleAfterRemove | hotcache.go:102-106 | Deleting a key hides that key and nothing else. |
| CacheValue.EvictExpiredUnobservable | hotcache.go:153-160 | Lazy eviction of an entry that the read path already treats as expired leaves the observable view unchanged. |
| CacheValue.DueRemovalsUnobservableLater | hotcache.go:214-224 | A store that lost only entries due at `now` and changed no other entry looks the same as before at every instant after `now`. |
| CacheValue.VisibleShrinksOverTime | hotcache.go:116-120 | An entry never becomes live again. Whatever is visible later was visible earlier with the same payload. |
| CacheValue.ReadAfterWrite | hotcache.go:109-133 | After a write, a read at any later instant finds the written payload exactly while `ttl == 0` or the clock is at or before `now + ttl`. Otherwise it reports Expired, whatever the key held before. |
| CacheValue.LastWriteWins | hotcache.go:124-133 | After any series of writes, a key holds exactly the payload and expiry of the last write to it. Earlier time-to-lives are discarded. |
| CacheValue.UnwrittenKeysKept | hotcache.go:130-133 | A key that no write in a series touches keeps its entry, or stays absent. |
| Registry.SwapTruncate | hotcache.go:200-203 | Removing a slot shortens the registry by one and removes exactly one occurrence of that slot's key (multiset difference). |
| Registry.SwapTruncateCounts | hotcache.go:201-202 | The counting argument: overwriting the slot with the last key and truncating leaves every other key's number of occurrences unchanged. |
| Registry.SwapTruncateSlots | hotcache.go:201-202 | The removed slot now holds the former last key, and every other surviving slot is unchanged. |
| Registry.OtherKeysSurvive | hotcache.go:200-203 | A key other than the removed slot's key is still in the registry afterwards. |
| Hotcache.DroppedSettledTrans | hotcache.go:182-205 | Registry removals compose across sweeper iterations. A key whose slot was dropped stays settled (absent or never expiring) while the store only loses entries. |
| Hotcache.Hotcache.constructor | hotcache.go:30-40 | `New` yields an empty store and an empty registry, and the invariant holds. |
| Hotcache.Hotcache.Stop | hotcache.go:43-55 | `Stop` empties both the store and the registry. |
| Hotcache.Hotcache.Evict | hotcache.go:154-160 | `evict` deletes the key from the store and leaves the registry untouched. |
| Hotcache.Hotcache.Put | hotcache.go:124-138 | `set` overwrites the key's entry with the payload and `ExpiryFor(now, ttl)`. It appends the key to the registry exactly when `ttl != 0`, and keeps the invariant. |
| Hotcache.Hotcache.Get | hotcache.go:58-70 | `Get` returns the payload and `true` exactly when the key is visible. Otherwise it returns `None` and `false`. It deletes the key exactly when the key is stored but expired, leaves the registry and the observable view unchanged, and changes nothing for an absent or live key. |
| Hotcache.Hotcache.Has | hotcache.go:88-100 | `Has` returns `true` exactly when the key is visible. It has the same lazy eviction and the same unchanged registry and view as `Get`. |
| Hotcache.Hotcache.Set | hotcache.go:73-85 | `Set` is last write wins. Only the key's entry changes, the registry grows by the key exactly when `ttl != 0`, and the view becomes the old view updated at the key (or without the key, for a negative ttl). |
| Hotcache.Hotcache.SetNX | hotcache.go:140-151 | `SetNX` returns `false` and changes nothing when the key is live. Otherwise it returns `true` with exactly the post-state of `Set`, including when it overwrites an expired entry. |
| Hotcache.Hotcache.Delete | hotcache.go:102-106 | `Delete` removes the key from the store, is a no-op for an absent key, and leaves the registry untouched. |
| Hotcache.Hotcache.AttemptEviction | hotcache.go:209-227 | `attemptEviction` returns `true` exactly when the key is absent, never expires, or is due. It deletes the entry only in the due case, and after `true` the key is settled. |
| Hotcache.Hotcache.CheckSlot | hotcache.go:184-204 | One sweeper iteration on an in-range slot. The store loses the slot's key exactly when it is due. The slot is removed by swap-and-truncate exactly when `attemptEviction` says so. The invariant is kept. |
| Hotcache.Hotcache.Tick | hotcache.go:170-206 | `tick` does nothing on an empty registry and otherwise samples `min(len, 1000)` slots, each drawn from a non-empty registry. It never deletes an entry that never expires or is not yet due, never changes an entry, leaves the view at every instant after `now` unchanged, and only shrinks the registry (as a multiset). Every key whose slot it dropped is settled, and the invariant is kept. |
| HotcacheTests.GetNonexistent | hotcache_test.go:10-16 | Reading a key that was never written gives `None` and `false`. |
| HotcacheTests.ExpiryScenario | hotcache_test.go:27-42 | A ten-millisecond entry is read back at once and is absent to `Get` and `Has` once its expiry has passed. |
| HotcacheTests.DeleteScenario | hotcache_test.go:44-59 | After `Delete`, `Get` and `Has` report the key absent. |
| HotcacheTests.SetNXScenario | hotcache_test.go:101-123 | `SetNX` succeeds on a new key, refuses it while live, and succeeds again after expiry, and the second payload is then read. |
| HotcacheTests.LastWriteScenario | hotcache.go:73-85 | A write without expiry followed by one with a ten-millisecond expiry leaves a key that is absent after ten milliseconds. |
| HotcacheTests.BoundaryScenario | hotcache.go:214-224 | At exactly its expiry an entry is still read, yet a sweep of its slot at that instant deletes it. |

## Left out

- Locking: the two `sync.RWMutex` fields and their acquisition order (`hotcache.go:17-18`). Every public operation is one atomic step. So the concurrent claim that exactly one of many simultaneous `SetNX` calls wins cannot be stated. The window in `Get`/`Has` between releasing the read lock and taking the write lock, and the unlocked reads of the registry in `tick`, are not modelled either.
- The bounds re-check of a drawn index in `tick` (`hotcache.go:188-192`) can only fire when the registry shrinks concurrently. Sequentially it is unreachable, and the model omits it. Instead the model proves that the drawn index is always in range.
- The ticker and the goroutine (`New`'s `time.NewTicker`, `startTicker`, and `ticker.Stop` in `Stop`). `Tick` is an operation that a caller may invoke at any time, and the model has no notion of a stopped ticker. After `Stop` the model behaves like a fresh empty cache.
- Clock: `time.Now()` becomes the parameter `now`. Each call reads the clock once. In the source, `attemptEviction` reads the clock again for every sample, so later samples of one tick may see a later time. `Tick`'s guarantees are stated for a single reading, and later readings only make more entries due.
- Durations: `time.Duration` is an unbounded `int`, and overflow of `now + ttl` is not modelled.
- Randomness: `rand.Seed` and `rand.Intn` become an arbitrary in-range index. The probabilistic claim that the store and registry eventually drain is not stated.
- Values: `interface{}` payloads become a type parameter `V`, and `nil` becomes `None`.
