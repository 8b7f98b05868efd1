/**
 * The value wrapper of the cache (`cacheValue`: a payload and an expiry) and
 * the read-side semantics built on it: when an entry counts as live, what a
 * lookup under the store lock reports (`get`), and what a caller can observe
 * of a whole store at a given instant.
 */
module CacheValue {

  /** When an entry stops being valid. The source encodes `Never` as the zero
      time; here it is a constructor of its own, so that no computed instant
      can be mistaken for "no expiry". */
  datatype Expiry = Never | At(t: int)

  /** One stored entry: the caller's payload and its expiry. */
  datatype Entry<V> = Entry(value: V, expiry: Expiry)

  /** The authoritative store, keyed by the caller's string keys. */
  type Store<V> = map<string, Entry<V>>

  /** The expiry that a write with time-to-live `ttl` at instant `now` gets:
      a zero duration means "never expires", any other duration (negative
      ones included) is added to the clock. */
  function ExpiryFor(now: int, ttl: int): Expiry
  {
    if ttl == 0 then Never else At(now + ttl)
  }

  /** The read path's liveness test: an entry is expired only when its expiry
      lies strictly before `now`, so at exactly its expiry it is still read. */
  predicate Live(e: Expiry, now: int)
  {
    e.Never? || now <= e.t
  }

  /** The sweeper's test: an entry may be swept once its expiry is not after
      `now`, which includes the instant of expiry itself. */
  predicate Evictable(e: Expiry, now: int)
  {
    e.At? && e.t <= now
  }

  /** What a caller can observe of the store at `now`: the live keys with
      their payloads. Expired entries that are still stored are invisible. */
  function Visible<V>(store: Store<V>, now: int): map<string, V>
  {
    map k | k in store && Live(store[k].expiry, now) :: store[k].value
  }

  /** The three outcomes of a lookup under the store lock. */
  datatype Probe<V> = Absent | Expired | Found(value: V)

  /** The lock-free lookup `get`: a missing key, a stored but expired key
      (which the caller is then expected to evict), or the live payload. */
  function Lookup<V>(store: Store<V>, key: string, now: int): (r: Probe<V>)
    ensures r.Found? <==> key in Visible(store, now)
    ensures r.Found? ==> r.value == Visible(store, now)[key]
    ensures r.Expired? <==> key in store && key !in Visible(store, now)
    ensures r.Absent? <==> key !in store
  {
    if key !in store then Absent
    else if !Live(store[key].expiry, now) then Expired
    else Found(store[key].value)
  }

  /** The two tests disagree at exactly one instant: an entry whose expiry is
      `now` is still returned by reads, yet the sweeper may delete it. */
  lemma LiveAndEvictable(e: Expiry, now: int)
    ensures Live(e, now) && Evictable(e, now) <==> e == At(now)
  {
  }

  /** Writing `key` changes the observable view at `key` only: the new payload
      becomes visible exactly when the new expiry is live. */
  lemma VisibleAfterWrite<V>(store: Store<V>, key: string, value: V, e: Expiry, now: int)
    ensures Visible(store[key := Entry(value, e)], now)
         == if Live(e, now) then Visible(store, now)[key := value]
            else Visible(store, now) - {key}
  {
  }

  /** Deleting `key` hides `key` and nothing else. */
  lemma VisibleAfterRemove<V>(store: Store<V>, key: string, now: int)
    ensures Visible(store - {key}, now) == Visible(store, now) - {key}
  {
  }

  /** Lazy eviction is unobservable: deleting an entry that the read path
      already treats as expired leaves the view at `now` unchanged. */
  lemma EvictExpiredUnobservable<V>(store: Store<V>, key: string, now: int)
    requires key in store && !Live(store[key].expiry, now)
    ensures Visible(store - {key}, now) == Visible(store, now)
  {
  }

  /** A store that lost only entries due at `now`, and changed no other
      entry, looks the same as before at every instant after `now`. */
  lemma DueRemovalsUnobservableLater<V>(before: Store<V>, after: Store<V>, now: int, later: int)
    requires after.Keys <= before.Keys
    requires forall k :: k in after ==> after[k] == before[k]
    requires forall k :: k in before && k !in after ==> Evictable(before[k].expiry, now)
    requires now < later
    ensures Visible(after, later) == Visible(before, later)
  {
    assert Visible(after, later).Keys == Visible(before, later).Keys;
  }

  /** Nothing comes back to life: whatever is visible at `later` was visible,
      with the same payload, at every earlier instant. */
  lemma VisibleShrinksOverTime<V>(store: Store<V>, earlier: int, later: int)
    requires earlier <= later
    ensures Visible(store, later).Keys <= Visible(store, earlier).Keys
    ensures forall k :: k in Visible(store, later) ==> Visible(store, later)[k] == Visible(store, earlier)[k]
  {
  }

  /** A write followed by a read at any instant `later` (not before the
      write) finds the written payload exactly while the new expiry has not
      passed, whatever was stored under the key before. */
  lemma ReadAfterWrite<V>(store: Store<V>, key: string, value: V, ttl: int, now: int, later: int)
    requires now <= later
    ensures Lookup(store[key := Entry(value, ExpiryFor(now, ttl))], key, later)
         == if ttl == 0 || later <= now + ttl then Found(value) else Expired
  {
  }

  /** One call of `Set` as a value: key, payload, time-to-live and the
      instant of the call. */
  datatype Write<V> = Write(key: string, value: V, ttl: int, at: int)

  /** The store after the writes `ws`, applied in order. */
  function ApplyWrites<V>(store: Store<V>, ws: seq<Write<V>>): Store<V>
    decreases |ws|
  {
    if ws == [] then store
    else
      var w := ws[|ws| - 1];
      ApplyWrites(store, ws[..|ws| - 1])[w.key := Entry(w.value, ExpiryFor(w.at, w.ttl))]
  }

  /** Last write wins: after any series of writes, a key holds exactly the
      payload and expiry of the last write to it; earlier time-to-lives are
      discarded, not combined. */
  lemma {:induction false} LastWriteWins<V>(store: Store<V>, ws: seq<Write<V>>, j: nat)
    requires j < |ws|
    requires forall l :: j < l < |ws| ==> ws[l].key != ws[j].key
    ensures ws[j].key in ApplyWrites(store, ws)
    ensures ApplyWrites(store, ws)[ws[j].key] == Entry(ws[j].value, ExpiryFor(ws[j].at, ws[j].ttl))
  {
    if j < |ws| - 1 {
      LastWriteWins(store, ws[..|ws| - 1], j);
    }
  }

  /** Keys that no write touches keep their entry, or stay absent. */
  lemma {:induction false} UnwrittenKeysKept<V>(store: Store<V>, ws: seq<Write<V>>, key: string)
    requires forall l :: 0 <= l < |ws| ==> ws[l].key != key
    ensures key in ApplyWrites(store, ws) <==> key in store
    ensures key in store ==> ApplyWrites(store, ws)[key] == store[key]
  {
    if ws != [] {
      UnwrittenKeysKept(store, ws[..|ws| - 1], key);
    }
  }
}
