/**
 * Client scenarios over the cache, one per behaviour exercised by the
 * repository's tests. Instants are milliseconds; each scenario fixes the
 * clock readings that the tests obtain by sleeping.
 */
module HotcacheTests {
  import opened CacheValue
  import opened Hotcache

  /** A key that was never written is absent. */
  method GetNonexistent() returns (val: Option<string>, ok: bool)
    ensures val == None && !ok
  {
    var cache := new Hotcache<string>();
    val, ok := cache.Get("xd", 0);
  }

  /** A ten-millisecond entry is read back at once and is gone once its
      expiry has passed, for `Get` and for `Has` alike. */
  method ExpiryScenario() returns (first: Option<string>, later: Option<string>, has: bool)
    ensures first == Some("xd") && later == None && !has
  {
    var cache := new Hotcache<string>();
    cache.Set("xd", "xd", 10, 0);
    var ok;
    first, ok := cache.Get("xd", 0);
    later, ok := cache.Get("xd", 11);
    cache.Set("xd", "xd", 10, 20);
    has := cache.Has("xd", 31);
  }

  /** After `Delete`, the key reads as absent whatever it held before. */
  method DeleteScenario() returns (before: Option<string>, after: Option<string>, has: bool)
    ensures before == Some("xd") && after == None && !has
  {
    var cache := new Hotcache<string>();
    cache.Set("xd", "xd", 0, 0);
    var ok;
    before, ok := cache.Get("xd", 0);
    cache.Delete("xd");
    after, ok := cache.Get("xd", 0);
    has := cache.Has("xd", 0);
  }

  /** `SetNX` refuses a live key, then succeeds once the entry has expired,
      and the second payload is what is read afterwards. */
  method SetNXScenario() returns (a: bool, b: bool, c: bool, val: Option<string>)
    ensures a && !b && c && val == Some("xd2")
  {
    var cache := new Hotcache<string>();
    a := cache.SetNX("xd", "xd", 10, 0);
    b := cache.SetNX("xd", "xd", 0, 0);
    c := cache.SetNX("xd", "xd2", 0, 11);
    var ok;
    val, ok := cache.Get("xd", 11);
  }

  /** Last write wins: a later write with a time-to-live replaces an earlier
      write without one, so the key expires. */
  method LastWriteScenario() returns (val: Option<string>)
    ensures val == None
  {
    var cache := new Hotcache<string>();
    cache.Set("k", "v1", 0, 0);
    cache.Set("k", "v2", 10, 0);
    var ok;
    val, ok := cache.Get("k", 11);
  }

  /** At exactly its expiry an entry is still read, but a sweep at that
      instant deletes it: the read path and the sweeper draw the line on
      different sides of the same instant. */
  method BoundaryScenario() returns (read: Option<string>, swept: bool)
    ensures read == Some("v") && swept
  {
    var cache := new Hotcache<string>();
    cache.Set("k", "v", 10, 0);
    var ok;
    read, ok := cache.Get("k", 10);
    cache.CheckSlot(0, 10);
    swept := "k" !in cache.store;
  }
}
