/** The in-memory registry cache (`src/prefix/regeditor/cache.rs`): one
    entry per prefix path, each served until its age exceeds its time to
    live.  Time is a reading of a monotonic clock in nanoseconds, passed in
    by the caller. */
module Cache {
  import opened Common
  import Store

  const NanosPerSecond: nat := 1_000_000_000

  /** Five minutes. */
  const DefaultCacheTtl: nat := 300 * NanosPerSecond

  datatype CacheEntry = CacheEntry(registry: Store.Registry, createdAt: nat, ttl: nat)

  /** Time elapsed from `since` to `now`; a reading earlier than `since`
      counts as no time at all, as `Instant::duration_since` saturates. */
  function Age(now: nat, since: nat): (r: nat)
    ensures now >= since ==> r + since == now
    ensures now <= since ==> r == 0
  {
    if now >= since then now - since else 0
  }

  /** `is_expired`: strictly older than the time to live, that is, read
      after the last instant of its lifetime. */
  function IsExpired(e: CacheEntry, now: nat): (b: bool)
    ensures b <==> now > e.createdAt + e.ttl
  {
    Age(now, e.createdAt) > e.ttl
  }

  datatype RegistryCache = RegistryCache(entries: map<string, CacheEntry>, defaultTtl: nat)

  /** `new`: an empty cache whose entries live for `ttl`. */
  function NewCache(ttl: nat): (c: RegistryCache)
    ensures |c.entries| == 0 && c.defaultTtl == ttl
    ensures forall prefix, now :: GetCachedRegistry(c, prefix, now).None?
  {
    RegistryCache(map[], ttl)
  }

  /** `with_default_ttl`, also the `Default` of the cache. */
  function WithDefaultTtl(): (c: RegistryCache)
    ensures |c.entries| == 0 && c.defaultTtl == 300 * 1_000_000_000
  {
    NewCache(DefaultCacheTtl)
  }

  /** `get_cached_registry`: the registry cached for `prefix`, unless the
      entry has expired. */
  function GetCachedRegistry(c: RegistryCache, prefix: string, now: nat): (r: Option<Store.Registry>)
    ensures r.Some? <==> prefix in c.entries && Age(now, c.entries[prefix].createdAt) <= c.entries[prefix].ttl
    ensures r.Some? ==> r.value == c.entries[prefix].registry
  {
    if prefix in c.entries && !IsExpired(c.entries[prefix], now) then Some(c.entries[prefix].registry) else None
  }

  /** `cache_registry`: stores `reg` for `prefix` with the default time to
      live, replacing any earlier entry.  It is served at every reading up
      to `now` plus the time to live and at none after. */
  function CacheRegistry(c: RegistryCache, prefix: string, reg: Store.Registry, now: nat): (r: RegistryCache)
    ensures r.defaultTtl == c.defaultTtl
    ensures r.entries.Keys == c.entries.Keys + {prefix}
    ensures forall t: nat :: GetCachedRegistry(r, prefix, t) == (if t <= now + c.defaultTtl then Some(reg) else None)
    ensures forall p, t: nat :: p != prefix ==> GetCachedRegistry(r, p, t) == GetCachedRegistry(c, p, t)
  {
    c.(entries := c.entries[prefix := CacheEntry(reg, now, c.defaultTtl)])
  }

  /** `invalidate_cache`: forgets the entry for `prefix`. */
  function InvalidateCache(c: RegistryCache, prefix: string): (r: RegistryCache)
    ensures r.defaultTtl == c.defaultTtl
    ensures r.entries.Keys == c.entries.Keys - {prefix}
    ensures forall t: nat :: GetCachedRegistry(r, prefix, t).None?
    ensures forall p, t: nat :: p != prefix ==> GetCachedRegistry(r, p, t) == GetCachedRegistry(c, p, t)
  {
    c.(entries := c.entries - {prefix})
  }

  /** `clear_all_cache`: forgets every entry. */
  function ClearAllCache(c: RegistryCache): (r: RegistryCache)
    ensures r.defaultTtl == c.defaultTtl && |r.entries| == 0
    ensures forall p, t: nat :: GetCachedRegistry(r, p, t).None?
  {
    c.(entries := map[])
  }

  /** `cleanup_expired`: drops every entry that is not strictly younger
      than its time to live.  The source runs the removal as a spawned task
      that reads the clock when it runs; here it happens at `now`. */
  function CleanupExpired(c: RegistryCache, now: nat): (r: RegistryCache)
    ensures r.defaultTtl == c.defaultTtl
    ensures forall p :: p in r.entries <==> p in c.entries && Age(now, c.entries[p].createdAt) < c.entries[p].ttl
    ensures forall p :: p in r.entries ==> r.entries[p] == c.entries[p]
  {
    c.(entries := map p | p in c.entries && Age(now, c.entries[p].createdAt) < c.entries[p].ttl :: c.entries[p])
  }

  datatype CacheStats = CacheStats(totalEntries: nat, expiredEntries: nat, validEntries: nat)

  /** The prefixes whose entries have expired at `now`. */
  function ExpiredAt(c: RegistryCache, now: nat): set<string> {
    set p | p in c.entries && IsExpired(c.entries[p], now)
  }

  /** `stats`: the entries, the expired ones, and the rest.  The rest are
      exactly the entries `get_cached_registry` would serve at `now`. */
  function Stats(c: RegistryCache, now: nat): (s: CacheStats)
    ensures s.totalEntries == |c.entries|
    ensures s.expiredEntries + s.validEntries == s.totalEntries
    ensures s.validEntries == |set p | p in c.entries && GetCachedRegistry(c, p, now).Some?|
  {
    var expired := ExpiredAt(c, now);
    var served := set p | p in c.entries && GetCachedRegistry(c, p, now).Some?;
    assert c.entries.Keys == expired + served;
    assert expired * served == {};
    CardinalityOfDisjointUnion(expired, served);
    CacheStats(|c.entries|, |expired|, |c.entries| - |expired|)
  }

  lemma CardinalityOfDisjointUnion<T>(a: set<T>, b: set<T>)
    requires a * b == {}
    ensures |a + b| == |a| + |b|
  {
  }

  // ---------------------------------------------------------------------------
  // Properties
  // ---------------------------------------------------------------------------

  /** An entry exactly as old as its time to live is still served, yet
      `cleanup_expired` removes it: the two use different comparisons. */
  lemma CleanupBoundary(c: RegistryCache, p: string, now: nat)
    requires p in c.entries && Age(now, c.entries[p].createdAt) == c.entries[p].ttl
    ensures GetCachedRegistry(c, p, now).Some?
    ensures GetCachedRegistry(CleanupExpired(c, now), p, now).None?
  {
  }

  /** Away from that boundary, cleanup changes no answer given at `now`. */
  lemma CleanupKeepsAnswers(c: RegistryCache, p: string, now: nat)
    requires p in c.entries ==> Age(now, c.entries[p].createdAt) != c.entries[p].ttl
    ensures GetCachedRegistry(CleanupExpired(c, now), p, now) == GetCachedRegistry(c, p, now)
  {
  }

  /** After a cleanup no entry counts as expired at the same reading. */
  lemma CleanupLeavesNoExpired(c: RegistryCache, now: nat)
    ensures Stats(CleanupExpired(c, now), now).expiredEntries == 0
    ensures Stats(CleanupExpired(c, now), now).validEntries == |CleanupExpired(c, now).entries|
  {
    var r := CleanupExpired(c, now);
    assert ExpiredAt(r, now) == {};
  }

  /** The basic scenario: nothing cached, then a registry cached and
      served, then invalidated and gone. */
  lemma BasicOperations(path: string, reg: Store.Registry, now: nat)
    ensures var c := WithDefaultTtl();
      GetCachedRegistry(c, path, now).None?
      && GetCachedRegistry(CacheRegistry(c, path, reg, now), path, now) == Some(reg)
      && GetCachedRegistry(InvalidateCache(CacheRegistry(c, path, reg, now), path), path, now).None?
  {
  }

  /** The statistics scenario: two different prefixes cached at the same
      reading are two valid entries; clearing leaves none. */
  lemma StatsOfTwoEntries(p1: string, p2: string, now: nat)
    requires p1 != p2
    ensures var c := CacheRegistry(CacheRegistry(WithDefaultTtl(), p1, Store.New(), now), p2, Store.New(), now);
      Stats(c, now) == CacheStats(2, 0, 2)
      && Stats(ClearAllCache(c), now).totalEntries == 0
  {
    var c := CacheRegistry(CacheRegistry(WithDefaultTtl(), p1, Store.New(), now), p2, Store.New(), now);
    assert c.entries.Keys == {p1, p2};
    assert ExpiredAt(c, now) == {};
  }
}
