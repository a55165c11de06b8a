/** The Express price proxy (`server.js`, and the same logic in
    `backup/server.js`): `/health`, and `/api/lme`, which answers from a
    five-minute cache, refreshes through the bounded retry, falls back to
    cached data of any age when the refresh fails, and answers 500 only
    when there is nothing cached.

    The server state holds the cache, the upstream oracle still to be
    consumed and the number of upstream calls made so far. A request is
    handled at clock `now`; a successful refresh is stamped after the waits
    it went through (`now` plus the retry delays; the calls themselves are
    taken to be instantaneous). */
module PriceProxy {
  import opened Wrappers
  import Retry
  import CacheService

  const MAX_RETRIES: nat := 3
  const RETRY_DELAY: nat := 1000
  const EXPIRATION: nat := 5 * 60 * 1000

  const SOURCE_HEADER := "X-Data-Source"
  const CACHE_ERROR := "Erro ao buscar dados da API"

  datatype Route = HealthRoute | LmeRoute

  /** A JSON reply: a 200 body with its extra headers, the 500 error object,
      or the health document. Timestamps are clock values. */
  datatype Reply<P> =
    | Json(body: P, headers: map<string, string>)
    | ServerError(error: string, message: string, timestamp: nat)
    | HealthStatus(status: string, timestamp: nat)

  datatype Server<P> = Server(cache: CacheService.Cache<P>, upstream: seq<Retry.Outcome<P>>, calls: nat)

  /** The server as it starts: `dataCache` empty with a five-minute lifetime. */
  function Start<P>(upstream: seq<Retry.Outcome<P>>): (s: Server<P>)
    ensures s.cache.data.None? && s.cache.timestamp.None?
    ensures s.cache.expirationTime == EXPIRATION && s.calls == 0
  {
    Server(CacheService.New(EXPIRATION), upstream, 0)
  }

  /** `fetchDataWithRetry()` against the server's oracle. */
  function Refresh<P>(s: Server<P>): Retry.Run<P> {
    Retry.FetchWithRetry(s.upstream, MAX_RETRIES, RETRY_DELAY)
  }

  /** The oracle after `n` calls were made. */
  function Consume<P>(upstream: seq<Retry.Outcome<P>>, n: nat): seq<Retry.Outcome<P>> {
    if n <= |upstream| then upstream[n..] else []
  }

  /** The `/api/lme` handler. */
  function HandleLme<P>(s: Server<P>, now: nat): (r: (Reply<P>, Server<P>))
    ensures r.1.calls - s.calls <= MAX_RETRIES + 1
    ensures CacheService.IsValid(s.cache, now) ==>
      r == (Json(s.cache.data.value, map[]), s)
    ensures !CacheService.IsValid(s.cache, now) && Refresh(s).result.Ok? ==>
      r.0 == Json(Refresh(s).result.value, map[])
      && r.1.cache == CacheService.Cache(Some(now + Refresh(s).waited), Some(Refresh(s).result.value), EXPIRATION)
    ensures !CacheService.IsValid(s.cache, now) && Refresh(s).result.Err? ==>
      r.1.cache == s.cache
    ensures !CacheService.IsValid(s.cache, now) && Refresh(s).result.Err? && s.cache.data.Some? ==>
      r.0 == Json(s.cache.data.value, map[SOURCE_HEADER := "cache"])
    ensures !CacheService.IsValid(s.cache, now) && Refresh(s).result.Err? && s.cache.data.None? ==>
      r.0 == ServerError(CACHE_ERROR, Refresh(s).result.message, now + Refresh(s).waited)
  {
    if CacheService.IsValid(s.cache, now) then (Json(s.cache.data.value, map[]), s)
    else
      var run := Refresh(s);
      var after := now + run.waited;
      var consumed := s.(upstream := Consume(s.upstream, run.calls), calls := s.calls + run.calls);
      match run.result
      case Ok(data) =>
        (Json(data, map[]), consumed.(cache := CacheService.Cache(Some(after), Some(data), EXPIRATION)))
      case Err(message) =>
        if s.cache.data.Some? then (Json(s.cache.data.value, map[SOURCE_HEADER := "cache"]), consumed)
        else (ServerError(CACHE_ERROR, message, after), consumed)
  }

  /** Dispatch one GET request. */
  function Handle<P>(s: Server<P>, route: Route, now: nat): (r: (Reply<P>, Server<P>))
    ensures route == HealthRoute ==> r == (HealthStatus("healthy", now), s)
    ensures route == LmeRoute ==> r == HandleLme(s, now)
  {
    match route
    case HealthRoute => (HealthStatus("healthy", now), s)
    case LmeRoute => HandleLme(s, now)
  }

  /** A request is answered without any upstream call exactly when the cache
      holds data with a truthy timestamp strictly younger than five minutes. */
  lemma AnsweredFromCacheIff<P>(s: Server<P>, now: nat)
    requires s.cache.expirationTime == EXPIRATION
    ensures HandleLme(s, now).1.calls == s.calls <==>
      s.cache.data.Some? && s.cache.timestamp.Some? && s.cache.timestamp.value != 0
      && now - s.cache.timestamp.value < EXPIRATION
  {
  }

  /** One refresh makes between one and four upstream calls and waits a
      fixed second before each retry. */
  lemma RefreshBounded<P>(s: Server<P>)
    ensures 1 <= Refresh(s).calls <= 4
    ensures Refresh(s).waited == 1000 * (Refresh(s).calls - 1)
  {
  }

  /** The expiration time stays five minutes, whatever the server handles. */
  lemma ExpirationInvariant<P>(s: Server<P>, route: Route, now: nat)
    requires s.cache.expirationTime == EXPIRATION
    ensures Handle(s, route, now).1.cache.expirationTime == EXPIRATION
  {
  }

  /** The 500 error object is sent only when the refresh failed and nothing
      at all was cached; whenever data of any age is cached, it is sent. */
  lemma ServerErrorIff<P>(s: Server<P>, now: nat)
    ensures HandleLme(s, now).0.ServerError? <==>
      !CacheService.IsValid(s.cache, now) && Refresh(s).result.Err? && s.cache.data.None?
    ensures s.cache.data.Some? ==> HandleLme(s, now).0.Json?
  {
  }

  /** The stale-cache header is set exactly when the refresh failed and
      older data was served instead. */
  lemma CacheHeaderIff<P>(s: Server<P>, now: nat)
    ensures HandleLme(s, now).0.Json? && SOURCE_HEADER in HandleLme(s, now).0.headers <==>
      !CacheService.IsValid(s.cache, now) && Refresh(s).result.Err? && s.cache.data.Some?
  {
  }

  /** `/health` answers "healthy" and leaves the cache, the oracle and the
      call count exactly as they were. */
  lemma HealthIsIndependent<P>(s: Server<P>, now: nat)
    ensures Handle(s, HealthRoute, now).0.status == "healthy"
    ensures Handle(s, HealthRoute, now).1 == s
  {
  }

  /** After a successful refresh stamped at a truthy time `t`, a request made
      less than five minutes after `t` is answered with the same data and no
      upstream call. */
  lemma RefreshedDataServedUntilExpiry<P>(s: Server<P>, now: nat, later: nat)
    requires !CacheService.IsValid(s.cache, now) && Refresh(s).result.Ok?
    requires now + Refresh(s).waited != 0
    requires later - (now + Refresh(s).waited) < EXPIRATION
    ensures HandleLme(HandleLme(s, now).1, later).1.calls == HandleLme(s, now).1.calls
    ensures HandleLme(HandleLme(s, now).1, later).0 == HandleLme(s, now).0
  {
  }
}
