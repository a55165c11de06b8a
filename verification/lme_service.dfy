/** The service-layer variant of the price refresh (`LMEService`): the
    same bounded retry, but a successful body is enriched with PTAX rates
    before it is cached and returned, and the fallback after a failed
    refresh goes through the time-checked `cacheService.get()`.

    PTAX enrichment is a parameter: it never throws (its own failures turn
    into null rates), so it is a total function of the upstream body. */
module LmeService {
  import opened Wrappers
  import Retry
  import CacheService

  const MAX_RETRIES: nat := 3
  const RETRY_DELAY: nat := 1000

  datatype Service<P> = Service(cache: CacheService.Cache<P>, upstream: seq<Retry.Outcome<P>>, calls: nat)

  function Consume<P>(upstream: seq<Retry.Outcome<P>>, n: nat): seq<Retry.Outcome<P>> {
    if n <= |upstream| then upstream[n..] else []
  }

  function Refresh<P>(s: Service<P>): Retry.Run<P> {
    Retry.FetchWithRetry(s.upstream, MAX_RETRIES, RETRY_DELAY)
  }

  /** `fetchDataWithRetry()`: on success the enriched payload is cached
      (stamped after the retry waits) and returned; a failure leaves the
      cache alone. */
  function FetchDataWithRetry<P>(s: Service<P>, now: nat, enrich: P -> P): (r: (Result<P>, Service<P>))
    ensures 1 <= r.1.calls - s.calls <= MAX_RETRIES + 1
    ensures r.0.Ok? <==> Refresh(s).result.Ok?
    ensures r.0.Ok? ==>
      r.0.value == enrich(Refresh(s).result.value)
      && r.1.cache == CacheService.Set(s.cache, enrich(Refresh(s).result.value), now + Refresh(s).waited)
    ensures r.0.Err? ==> r.1.cache == s.cache && r.0 == Refresh(s).result
  {
    var run := Refresh(s);
    var consumed := s.(upstream := Consume(s.upstream, run.calls), calls := s.calls + run.calls);
    match run.result
    case Ok(data) =>
      var enriched := enrich(data);
      (Ok(enriched), consumed.(cache := CacheService.Set(s.cache, enriched, now + run.waited)))
    case Err(message) => (Err(message), consumed)
  }

  /** `getData()` as written: cache first; otherwise refresh; when the
      refresh fails, read the cache again through `get()`, at the time the
      failure is known. */
  function GetData<P>(s: Service<P>, now: nat, enrich: P -> P): (r: (Result<P>, Service<P>))
    ensures CacheService.Get(s.cache, now).Some? ==>
      r == (Ok(CacheService.Get(s.cache, now).value), s)
    ensures CacheService.Get(s.cache, now).None? ==> r == GetDataAfterMiss(s, now, enrich)
    ensures CacheService.Get(s.cache, now).None? ==> MissOutcome(s, now, enrich, r)
  {
    var cached := CacheService.Get(s.cache, now);
    if cached.Some? then (Ok(cached.value), s)
    else GetDataAfterMiss(s, now, enrich)
  }

  /** What a refresh after a cache miss yields: the calls it made; on
      success the enriched payload, cached and returned; on failure an
      unchanged cache, and the payload `get()` still holds when the failure
      is known, or else the last error. */
  ghost predicate MissOutcome<P>(s: Service<P>, now: nat, enrich: P -> P, r: (Result<P>, Service<P>)) {
    var run := Refresh(s);
    1 <= r.1.calls - s.calls <= MAX_RETRIES + 1
    && (run.result.Ok? ==>
          r.0 == Ok(enrich(run.result.value))
          && r.1.cache == CacheService.Set(s.cache, enrich(run.result.value), now + run.waited))
    && (run.result.Err? ==>
          r.1.cache == s.cache
          && r.0 == (match CacheService.Get(s.cache, now + run.waited)
                     case Some(stale) => Ok(stale)
                     case None => run.result))
  }

  function GetDataAfterMiss<P>(s: Service<P>, now: nat, enrich: P -> P): (r: (Result<P>, Service<P>))
    ensures MissOutcome(s, now, enrich, r)
  {
    var (result, after) := FetchDataWithRetry(s, now, enrich);
    if result.Ok? then (result, after)
    else
      var fallback := CacheService.Get(after.cache, now + Refresh(s).waited);
      if fallback.Some? then (Ok(fallback.value), after) else (result, after)
  }

  /** Whenever `get()` answers, `getData` returns that value and makes no
      upstream call. */
  lemma CachedAnswerMakesNoCall<P>(s: Service<P>, now: nat, enrich: P -> P)
    requires CacheService.Get(s.cache, now).Some?
    ensures GetData(s, now, enrich).0 == Ok(s.cache.data.value)
    ensures GetData(s, now, enrich).1.calls == s.calls
  {
  }

  /** What is returned and cached on success is the enriched payload, not
      the raw upstream body. */
  lemma SuccessCachesEnriched<P>(s: Service<P>, now: nat, enrich: P -> P)
    requires CacheService.Get(s.cache, now).None? && Refresh(s).result.Ok?
    ensures GetData(s, now, enrich).0 == Ok(enrich(Refresh(s).result.value))
    ensures GetData(s, now, enrich).1.cache.data == Some(enrich(Refresh(s).result.value))
  {
  }

  /** As written, the fallback can never answer: the entry that `get()`
      refused at `now` is still refused after the retry waits, so a failed
      refresh always rethrows, even when expired data is stored. */
  lemma FallbackNeverServes<P>(s: Service<P>, now: nat, enrich: P -> P)
    requires CacheService.Get(s.cache, now).None?
    requires Refresh(s).result.Err?
    ensures GetData(s, now, enrich).0 == Refresh(s).result
  {
    var after := FetchDataWithRetry(s, now, enrich).1;
    CacheService.ExpiredStaysExpired(after.cache, now, now + Refresh(s).waited);
  }

  /** A concrete case: data stored at time 1 and read at 400000 (expired),
      with an upstream that only fails. The stale data is not served. */
  lemma StaleDataNotServed(enrich: string -> string)
    ensures var s := Service(CacheService.Cache(Some(1), Some("prices"), CacheService.DEFAULT_EXPIRATION), [], 0);
      GetData(s, 400000, enrich).0.Err?
  {
    var s := Service(CacheService.Cache(Some(1), Some("prices"), CacheService.DEFAULT_EXPIRATION), [], 0);
    FallbackNeverServes(s, 400000, enrich);
  }

  /** `getData()` with the fallback the comment in the source describes:
      after a failed refresh, cached data "even if expired" is returned. */
  function GetDataWithStaleFallback<P>(s: Service<P>, now: nat, enrich: P -> P): (r: (Result<P>, Service<P>))
    ensures CacheService.Get(s.cache, now).Some? ==> r.0 == Ok(s.cache.data.value) && r.1.calls == s.calls
  {
    var cached := CacheService.Get(s.cache, now);
    if cached.Some? then (Ok(cached.value), s)
    else
      var (result, after) := FetchDataWithRetry(s, now, enrich);
      if result.Ok? then (result, after)
      else if s.cache.data.Some? then (Ok(s.cache.data.value), after)
      else (result, after)
  }

  /** With the corrected fallback, a failed refresh rethrows only when
      nothing at all is stored; stored data of any age is served. */
  lemma StaleFallbackServes<P>(s: Service<P>, now: nat, enrich: P -> P)
    requires Refresh(s).result.Err?
    ensures GetDataWithStaleFallback(s, now, enrich).0.Err? <==> s.cache.data.None?
    ensures s.cache.data.Some? ==> GetDataWithStaleFallback(s, now, enrich).0 == Ok(s.cache.data.value)
  {
  }
}
