/** The single-slot cache with a time-to-live: `CacheService` of the service
    layer, and the shape of the Express server's `dataCache`.

    Times are milliseconds on the caller's clock (`Date.now()`), passed in.
    As in JavaScript, a timestamp of 0 is falsy and therefore never counts
    as set. */
module CacheService {
  import opened Wrappers

  /** Five minutes, the default time-to-live. */
  const DEFAULT_EXPIRATION: nat := 5 * 60 * 1000

  datatype Cache<P> = Cache(timestamp: Option<nat>, data: Option<P>, expirationTime: int)

  /** `new CacheService(expirationTime)`: nothing stored yet. */
  function New<P>(expirationTime: int): (c: Cache<P>)
    ensures c.data.None? && c.timestamp.None?
    ensures c.expirationTime == expirationTime
  {
    Cache(None, None, expirationTime)
  }

  /** The entry has data and a (truthy) timestamp, and is younger than the
      time-to-live; the comparison is strict. */
  predicate IsValid<P>(c: Cache<P>, now: nat): (r: bool)
    ensures r ==> c.data.Some? && c.timestamp.Some? && 0 < c.timestamp.value
    ensures r ==> now < c.timestamp.value + c.expirationTime
    ensures c.expirationTime <= 0 && now >= c.timestamp.GetOr(0) ==> !r
  {
    c.data.Some? && c.timestamp.Some? && c.timestamp.value != 0
    && now - c.timestamp.value < c.expirationTime
  }

  /** `set(data)`: a fresh entry stamped `now`; the time-to-live is kept. */
  function Set<P>(c: Cache<P>, data: P, now: nat): (r: Cache<P>)
    ensures r.data == Some(data) && r.timestamp == Some(now)
    ensures r.expirationTime == c.expirationTime
  {
    Cache(Some(now), Some(data), c.expirationTime)
  }

  /** `get()`: the stored data while the entry is valid, otherwise null. */
  function Get<P>(c: Cache<P>, now: nat): (r: Option<P>)
    ensures r.Some? ==> c.data == r
  {
    if IsValid(c, now) then c.data else None
  }

  /** `clear()`: drops data and timestamp, keeps the time-to-live. */
  function Clear<P>(c: Cache<P>): (r: Cache<P>)
    ensures r.data.None? && r.timestamp.None?
    ensures r.expirationTime == c.expirationTime
  {
    Cache(None, None, c.expirationTime)
  }

  /** `get()` answers exactly when data and timestamp are set and the entry
      is strictly younger than its time-to-live. */
  lemma GetHitIff<P>(c: Cache<P>, now: nat)
    ensures Get(c, now).Some? <==>
      c.data.Some? && c.timestamp.Some? && c.timestamp.value != 0
      && now - c.timestamp.value < c.expirationTime
    ensures Get(c, now).Some? ==> Get(c, now) == c.data
  {
  }

  /** A new instance holds nothing, so `get()` is null before the first `set`. */
  lemma GetOfNew<P>(expirationTime: int, now: nat)
    ensures Get(New<P>(expirationTime), now).None?
  {
  }

  /** After `clear()`, `get()` is null whatever the time. */
  lemma GetAfterClear<P>(c: Cache<P>, now: nat)
    ensures Get(Clear(c), now).None?
  {
  }

  /** Reading back a `set(d)` made at `t` at a later time `t2`: the data
      comes back exactly while less than the time-to-live has passed (and
      the stamp `t` is truthy). */
  lemma GetAfterSet<P>(c: Cache<P>, d: P, t: nat, t2: nat)
    ensures Get(Set(c, d, t), t2) == (if t != 0 && t2 - t < c.expirationTime then Some(d) else None)
  {
  }

  /** Right after `set(d)`, with a positive time-to-live and a truthy clock,
      `get()` returns `d`. */
  lemma GetRightAfterSet<P>(c: Cache<P>, d: P, now: nat)
    requires c.expirationTime > 0 && now > 0
    ensures Get(Set(c, d, now), now) == Some(d)
  {
  }

  /** Once expired, an entry stays expired as the clock moves on. */
  lemma ExpiredStaysExpired<P>(c: Cache<P>, now: nat, later: nat)
    requires now <= later
    requires !IsValid(c, now)
    ensures !IsValid(c, later)
    ensures Get(c, later).None?
  {
  }
}
