/**
 * The cache instance: the authoritative store and the registry of keys that
 * were written with a time-to-live, the five public operations, shutdown,
 * and the sampling sweeper that the background ticker runs.
 *
 * Every public operation is one atomic step; the two locks of the original
 * only serialise these steps. The clock is the parameter `now`; the random
 * index of the sweeper is an arbitrary choice within the registry's bounds.
 */
module Hotcache {
  import opened CacheValue
  import opened Registry

  datatype Option<T> = None | Some(value: T)

  /** At most this many registry slots are sampled per tick. */
  const SampleCap: nat := 1000

  /** A registry key no longer needs sampling: it is gone from the store or
      its entry never expires. */
  predicate Settled<V>(store: Store<V>, key: string)
  {
    key !in store || store[key].expiry.Never?
  }

  /** Every key that lost a registry slot going from `before` to `after` is
      settled in `store`. */
  ghost predicate DroppedSettled<V>(store: Store<V>, before: seq<string>, after: seq<string>)
  {
    forall k :: k in multiset(before) - multiset(after) ==> Settled(store, k)
  }

  /** Registry removals compose across sweeper iterations: the store only
      loses entries and never changes one, so a key settled earlier stays
      settled. */
  lemma DroppedSettledTrans<V>(s1: Store<V>, s2: Store<V>, k0: seq<string>, k1: seq<string>, k2: seq<string>)
    requires multiset(k2) <= multiset(k1) <= multiset(k0)
    requires s2.Keys <= s1.Keys && forall k :: k in s2 ==> s2[k] == s1[k]
    requires DroppedSettled(s1, k0, k1) && DroppedSettled(s2, k1, k2)
    ensures DroppedSettled(s2, k0, k2)
  {
    forall k | k in multiset(k0) - multiset(k2) ensures Settled(s2, k) {
      if multiset(k1)[k] < multiset(k0)[k] {
        assert k in multiset(k0) - multiset(k1);
      } else {
        assert k in multiset(k1) - multiset(k2);
      }
    }
  }

  class Hotcache<V> {
    /** The authoritative map from key to entry. */
    var store: Store<V>
    /** Keys written with a non-zero time-to-live; unordered, may hold
        duplicates and keys whose entries are gone or never expire. */
    var expiringKeys: seq<string>

    /** The registry may be stale, but never incomplete: every stored entry
        that can expire is reachable by the sweeper. */
    ghost predicate Valid()
      reads this
    {
      forall k :: k in store && store[k].expiry.At? ==> k in expiringKeys
    }

    /** `New`: an empty store and an empty registry. */
    constructor ()
      ensures Valid()
      ensures store == map[] && expiringKeys == []
    {
      store := map[];
      expiringKeys := [];
    }

    /** `Stop` drops every entry and the whole registry. */
    method Stop()
      modifies this
      ensures Valid()
      ensures store == map[] && expiringKeys == []
    {
      expiringKeys := [];
      store := map[];
    }

    /** `evict`: delete `key` from the store and deliberately leave the
        registry alone; the sweeper cleans up stale registry slots. */
    method Evict(key: string)
      requires Valid()
      modifies this
      ensures Valid()
      ensures store == old(store) - {key}
      ensures expiringKeys == old(expiringKeys)
    {
      store := store - {key};
    }

    /** `set`: overwrite the entry for `key` and, for a non-zero
        time-to-live, append `key` to the registry. */
    method Put(key: string, value: V, ttl: int, now: int)
      requires Valid()
      modifies this
      ensures Valid()
      ensures store == old(store)[key := Entry(value, ExpiryFor(now, ttl))]
      ensures expiringKeys == if ttl != 0 then old(expiringKeys) + [key] else old(expiringKeys)
    {
      var expireAt := ExpiryFor(now, ttl);
      store := store[key := Entry(value, expireAt)];
      if ttl != 0 {
        expiringKeys := expiringKeys + [key];
      }
    }

    /** `Get`: the live payload of `key`, if any. A key found expired is
        reported absent and then evicted, which no caller can observe. */
    method Get(key: string, now: int) returns (val: Option<V>, ok: bool)
      requires Valid()
      modifies this
      ensures Valid()
      ensures ok <==> key in old(Visible(store, now))
      ensures val == if ok then Some(old(Visible(store, now))[key]) else None
      ensures store == if key in old(store) && !Live(old(store)[key].expiry, now)
                       then old(store) - {key} else old(store)
      ensures expiringKeys == old(expiringKeys)
      ensures Visible(store, now) == old(Visible(store, now))
    {
      var probe := Lookup(store, key, now);
      match probe
      case Absent =>
        val, ok := None, false;
      case Expired =>
        EvictExpiredUnobservable(store, key, now);
        Evict(key);
        val, ok := None, false;
      case Found(v) =>
        val, ok := Some(v), true;
    }

    /** `Has`: whether `key` is live, with the same lazy eviction as `Get`. */
    method Has(key: string, now: int) returns (ok: bool)
      requires Valid()
      modifies this
      ensures Valid()
      ensures ok <==> key in old(Visible(store, now))
      ensures store == if key in old(store) && !Live(old(store)[key].expiry, now)
                       then old(store) - {key} else old(store)
      ensures expiringKeys == old(expiringKeys)
      ensures Visible(store, now) == old(Visible(store, now))
    {
      var probe := Lookup(store, key, now);
      if probe.Expired? {
        EvictExpiredUnobservable(store, key, now);
        Evict(key);
      }
      ok := probe.Found?;
    }

    /** `Set`: unconditional overwrite; the most recent write's time-to-live
        alone decides when `key` expires. */
    method Set(key: string, value: V, ttl: int, now: int)
      requires Valid()
      modifies this
      ensures Valid()
      ensures store == old(store)[key := Entry(value, ExpiryFor(now, ttl))]
      ensures expiringKeys == if ttl != 0 then old(expiringKeys) + [key] else old(expiringKeys)
      ensures Visible(store, now) == if ttl >= 0 then old(Visible(store, now))[key := value]
                                     else old(Visible(store, now)) - {key}
    {
      VisibleAfterWrite(store, key, value, ExpiryFor(now, ttl), now);
      Put(key, value, ttl, now);
    }

    /** `SetNX`: write only when `key` is not live; an expired entry that is
        still stored is overwritten like an absent one. */
    method SetNX(key: string, value: V, ttl: int, now: int) returns (inserted: bool)
      requires Valid()
      modifies this
      ensures Valid()
      ensures inserted <==> key !in old(Visible(store, now))
      ensures !inserted ==> store == old(store) && expiringKeys == old(expiringKeys)
      ensures inserted ==> store == old(store)[key := Entry(value, ExpiryFor(now, ttl))]
      ensures inserted ==> expiringKeys == if ttl != 0 then old(expiringKeys) + [key] else old(expiringKeys)
    {
      var probe := Lookup(store, key, now);
      if probe.Found? {
        return false;
      }
      Put(key, value, ttl, now);
      return true;
    }

    /** `Delete`: remove `key` if present; the registry is not touched. */
    method Delete(key: string)
      requires Valid()
      modifies this
      ensures Valid()
      ensures store == old(store) - {key}
      ensures expiringKeys == old(expiringKeys)
    {
      store := store - {key};
    }

    /** `attemptEviction`: report whether the registry slot holding `key` may
        be dropped, deleting the entry first when it is due. A key that is
        absent or never expires is reported as evicted without any change. */
    method AttemptEviction(key: string, now: int) returns (evicted: bool)
      modifies this
      ensures evicted <==> Settled(old(store), key) || Evictable(old(store)[key].expiry, now)
      ensures store == if key in old(store) && Evictable(old(store)[key].expiry, now)
                       then old(store) - {key} else old(store)
      ensures evicted ==> Settled(store, key)
      ensures expiringKeys == old(expiringKeys)
    {
      if key !in store || store[key].expiry.Never? {
        return true;
      }
      if !Evictable(store[key].expiry, now) {
        return false;
      }
      store := store - {key};
      return true;
    }

    /** One iteration of `tick` on the drawn slot `index`: attempt eviction of
        its key and, when that succeeds, remove the slot by
        swap-with-last-then-truncate. */
    method CheckSlot(index: nat, now: int)
      requires Valid()
      requires index < |expiringKeys|
      modifies this
      ensures Valid()
      ensures var key := old(expiringKeys)[index];
              store == if key in old(store) && Evictable(old(store)[key].expiry, now)
                       then old(store) - {key} else old(store)
      ensures var key := old(expiringKeys)[index];
              expiringKeys == if Settled(old(store), key) || Evictable(old(store)[key].expiry, now)
                              then SwapTruncate(old(expiringKeys), index) else old(expiringKeys)
      ensures store.Keys <= old(store).Keys
      ensures forall k :: k in store ==> store[k] == old(store)[k]
      ensures |expiringKeys| + 1 >= |old(expiringKeys)|
      ensures multiset(expiringKeys) <= multiset(old(expiringKeys))
      ensures DroppedSettled(store, old(expiringKeys), expiringKeys)
    {
      var key := expiringKeys[index];
      var evicted := AttemptEviction(key, now);
      if evicted {
        ghost var before := expiringKeys;
        expiringKeys := expiringKeys[index := expiringKeys[|expiringKeys| - 1]];
        expiringKeys := expiringKeys[..|expiringKeys| - 1];
        assert expiringKeys == SwapTruncate(before, index);
        forall k | k in store && store[k].expiry.At? ensures k in expiringKeys {
          OtherKeysSurvive(before, index, k);
        }
      }
    }

    /** `tick`: sample up to `SampleCap` registry slots at random. A slot
        whose key is settled, or whose entry is due and gets deleted, is
        removed by swap-with-last-then-truncate; any other slot stays. */
    method Tick(now: int) returns (ghost samples: nat)
      requires Valid()
      modifies this
      ensures samples == if |old(expiringKeys)| < SampleCap then |old(expiringKeys)| else SampleCap
      ensures old(expiringKeys) == [] ==> store == old(store) && expiringKeys == []
      ensures Valid()
      ensures store.Keys <= old(store).Keys
      ensures forall k :: k in store ==> store[k] == old(store)[k]
      ensures forall k :: k in old(store) && !Evictable(old(store)[k].expiry, now) ==> k in store
      ensures multiset(expiringKeys) <= multiset(old(expiringKeys))
      ensures |old(expiringKeys)| - |expiringKeys| <= SampleCap
      ensures DroppedSettled(store, old(expiringKeys), expiringKeys)
      ensures forall later :: now < later ==> Visible(store, later) == old(Visible(store, later))
    {
      samples := 0;
      var keylength := |expiringKeys|;
      if keylength == 0 {
        return;
      }
      var toCheck := if keylength < SampleCap then keylength else SampleCap;
      ghost var store0, keys0 := store, expiringKeys;
      for i := 0 to toCheck
        invariant samples == i
        invariant keylength - i <= |expiringKeys|
        invariant Valid()
        invariant store.Keys <= store0.Keys
        invariant forall k :: k in store ==> store[k] == store0[k]
        invariant forall k :: k in store0 && !Evictable(store0[k].expiry, now) ==> k in store
        invariant multiset(expiringKeys) <= multiset(keys0)
        invariant DroppedSettled(store, keys0, expiringKeys)
      {
        // The draw of `rand.Intn`: the registry is non-empty here, so an
        // in-range index exists and the bounds re-check never fires.
        var index :| 0 <= index < |expiringKeys|;
        ghost var store1, keys1 := store, expiringKeys;
        CheckSlot(index, now);
        DroppedSettledTrans(store1, store, keys0, keys1, expiringKeys);
        samples := samples + 1;
      }
      forall later | now < later ensures Visible(store, later) == Visible(store0, later) {
        DueRemovalsUnobservableLater(store0, store, now, later);
      }
    }
  }
}
