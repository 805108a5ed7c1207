/** Kombo_Cache: fetched job lists kept as WordPress transients.

    The transient store is a map from key to the stored list and its timeout
    (the `_transient_timeout_` option, a Unix time). As get_transient does, a
    lookup treats an entry whose timeout lies in the past as absent. The md5
    digest of the JSON-encoded key data is a function parameter. */
module Cache {
  import opened Common
  import opened Strings
  import Feed

  const Prefix := "kombo_vagas_"
  const MinuteInSeconds := 60
  /** The accepted cache duration, in minutes: one minute to a day. */
  const MinMinutes := 1
  const MaxMinutes := 1440

  /** WordPress absint() of an integer: its magnitude. */
  function AbsInt(x: int): (r: nat)
    ensures r == x || r == -x
  {
    if x < 0 then -x else x
  }

  /** PHP substr(s, 0, n). */
  function Take(s: string, n: nat): (r: string)
    ensures |r| == (if |s| < n then |s| else n)
    ensures r == s[..|r|]
  {
    if |s| <= n then s else s[..n]
  }

  /** generate_cache_key: the prefix and the first 16 characters of the digest
      of the (sanitized) CID and absint(limit). */
  function KeyFor(digest: (string, nat) -> string, cid: string, limit: int): (k: string)
    ensures |Prefix| <= |k| <= |Prefix| + 16
    ensures k[..|Prefix|] == Prefix
    ensures |digest(cid, AbsInt(limit))| >= 16 ==> |k| == |Prefix| + 16
    ensures |digest(cid, AbsInt(limit))| < 16 ==> |k| == |Prefix| + |digest(cid, AbsInt(limit))|
    ensures k[|Prefix|..] == digest(cid, AbsInt(limit))[..|k| - |Prefix|]
  {
    Prefix + Take(digest(cid, AbsInt(limit)), 16)
  }

  /** minutes_to_seconds: absint, then clamped to [1, 1440] minutes. */
  function MinutesToSeconds(minutes: int): (s: nat)
    ensures MinMinutes * MinuteInSeconds <= s <= MaxMinutes * MinuteInSeconds
    ensures s % MinuteInSeconds == 0
    ensures MinMinutes <= AbsInt(minutes) <= MaxMinutes ==> s == AbsInt(minutes) * MinuteInSeconds
    ensures AbsInt(minutes) < MinMinutes ==> s == MinMinutes * MinuteInSeconds
    ensures AbsInt(minutes) > MaxMinutes ==> s == MaxMinutes * MinuteInSeconds
  {
    var m := AbsInt(minutes);
    var clamped := if m < MinMinutes then MinMinutes else if m > MaxMinutes then MaxMinutes else m;
    clamped * MinuteInSeconds
  }

  datatype Entry = Entry(jobs: seq<Feed.Job>, timeout: int)

  type Store = map<string, Entry>

  /** get_transient at time `now`: the stored list unless its timeout has passed. */
  function Lookup(store: Store, key: string, now: int): (r: Option<seq<Feed.Job>>)
    ensures r.Some? <==> key in store && now <= store[key].timeout
    ensures r.Some? ==> r.value == store[key].jobs
  {
    if key in store && !(store[key].timeout < now) then Some(store[key].jobs) else None
  }

  /** What get_or_fetch returns, the store after it, and whether the producer ran. */
  datatype Outcome = Outcome(result: Feed.Fetched, store: Store, fetched: bool)

  /** get_or_fetch. `produced` is what the producer would return if it were
      called; on a hit it is not called and plays no part. */
  function GetOrFetch(store: Store, digest: (string, nat) -> string, cid: string, limit: int,
                      minutes: int, now: int, produced: Feed.Fetched): (o: Outcome)
    ensures o.fetched <==> Lookup(store, KeyFor(digest, cid, limit), now).None?
    ensures !o.fetched ==> o.store == store && o.result == Feed.Ok(Lookup(store, KeyFor(digest, cid, limit), now).value)
    ensures o.fetched ==> o.result == produced
    ensures produced.Err? ==> o.store == store
    ensures o.fetched && produced.Ok? ==>
      o.store == store[KeyFor(digest, cid, limit) := Entry(produced.jobs, now + MinutesToSeconds(minutes))]
  {
    var key := KeyFor(digest, cid, limit);
    match Lookup(store, key, now)
    case Some(jobs) => Outcome(Feed.Ok(jobs), store, false)
    case None =>
      if produced.Ok? then Outcome(produced, store[key := Entry(produced.jobs, now + MinutesToSeconds(minutes))], true)
      else Outcome(produced, store, true)
  }

  /** has_valid_cache: a lookup on the key finds a live entry. */
  function HasValidCache(store: Store, digest: (string, nat) -> string, cid: string, limit: int, now: int): (b: bool)
    ensures b <==> KeyFor(digest, cid, limit) in store && now <= store[KeyFor(digest, cid, limit)].timeout
  {
    Lookup(store, KeyFor(digest, cid, limit), now).Some?
  }

  datatype CacheInfo = CacheInfo(cacheKey: string, expiresAt: int, remainingTime: nat, isExpired: bool)

  /** get_cache_info: None (PHP's false) when there is no timeout for the key;
      otherwise the seconds left, never negative, and whether none are. */
  function GetCacheInfo(store: Store, digest: (string, nat) -> string, cid: string, limit: int, now: int): (r: Option<CacheInfo>)
    ensures r.None? <==> KeyFor(digest, cid, limit) !in store
    ensures r.Some? ==> r.value.cacheKey == KeyFor(digest, cid, limit)
    ensures r.Some? ==> r.value.expiresAt == store[KeyFor(digest, cid, limit)].timeout
    ensures r.Some? ==> (r.value.isExpired <==> r.value.expiresAt <= now)
    ensures r.Some? ==> r.value.remainingTime == (if r.value.isExpired then 0 else r.value.expiresAt - now)
  {
    var key := KeyFor(digest, cid, limit);
    if key !in store then None
    else
      var timeout := store[key].timeout;
      var remaining := timeout - now;
      Some(CacheInfo(key, timeout, if remaining < 0 then 0 else remaining, remaining <= 0))
  }

  // ---------------------------------------------------------------------
  // Properties
  // ---------------------------------------------------------------------

  /** The key depends on the limit only through its magnitude. */
  lemma KeyIgnoresSign(digest: (string, nat) -> string, cid: string, l1: int, l2: int)
    requires AbsInt(l1) == AbsInt(l2)
    ensures KeyFor(digest, cid, l1) == KeyFor(digest, cid, l2)
  {
  }

  /** Within [1, 1440] minutes the duration in seconds gives the minutes back. */
  lemma MinutesToSecondsInverse(minutes: int)
    requires MinMinutes <= minutes <= MaxMinutes
    ensures MinutesToSeconds(minutes) / MinuteInSeconds == minutes
  {
  }

  /** On a hit the producer's result makes no difference at all. */
  lemma HitIgnoresProducer(store: Store, digest: (string, nat) -> string, cid: string, limit: int,
                           minutes: int, now: int, f1: Feed.Fetched, f2: Feed.Fetched)
    requires HasValidCache(store, digest, cid, limit, now)
    ensures GetOrFetch(store, digest, cid, limit, minutes, now, f1)
         == GetOrFetch(store, digest, cid, limit, minutes, now, f2)
  {
  }

  /** has_valid_cache answers whether get_or_fetch would be served without
      calling the producer. */
  lemma ValidCacheMeansNoFetch(store: Store, digest: (string, nat) -> string, cid: string, limit: int,
                               minutes: int, now: int, produced: Feed.Fetched)
    ensures HasValidCache(store, digest, cid, limit, now)
        <==> !GetOrFetch(store, digest, cid, limit, minutes, now, produced).fetched
  {
  }

  /** After a successful fetch, asking again for the same CID and limit (of
      either sign) while the stored entry lasts is a hit with the same list, even
      when that list is empty. */
  lemma SecondCallHits(store: Store, digest: (string, nat) -> string, cid: string, limit: int, limit2: int,
                       minutes: int, minutes2: int, now: int, later: int, jobs: seq<Feed.Job>, produced2: Feed.Fetched)
    requires !HasValidCache(store, digest, cid, limit, now)
    requires AbsInt(limit2) == AbsInt(limit)
    requires now <= later <= now + MinutesToSeconds(minutes)
    ensures var first := GetOrFetch(store, digest, cid, limit, minutes, now, Feed.Ok(jobs));
      var second := GetOrFetch(first.store, digest, cid, limit2, minutes2, later, produced2);
      && first.fetched
      && !second.fetched
      && second.result == Feed.Ok(jobs)
      && second.store == first.store
  {
    var first := GetOrFetch(store, digest, cid, limit, minutes, now, Feed.Ok(jobs));
    KeyIgnoresSign(digest, cid, limit, limit2);
    var key := KeyFor(digest, cid, limit);
    assert first.store[key] == Entry(jobs, now + MinutesToSeconds(minutes));
  }

  /** A failed fetch leaves every later lookup answering as before, so the
      next call fetches again. */
  lemma ErrorNotCached(store: Store, digest: (string, nat) -> string, cid: string, limit: int,
                       minutes: int, now: int, e: Feed.FetchError, key: string, t: int)
    ensures var o := GetOrFetch(store, digest, cid, limit, minutes, now, Feed.Err(e));
      && (o.fetched ==> o.result == Feed.Err(e))
      && Lookup(o.store, key, t) == Lookup(store, key, t)
  {
  }

  /** get_cache_info and get_transient agree except in the very second of the
      timeout: then the entry is reported expired yet is still served. */
  lemma InfoAgreesWithLookup(store: Store, digest: (string, nat) -> string, cid: string, limit: int, now: int)
    requires GetCacheInfo(store, digest, cid, limit, now).Some?
    ensures var info := GetCacheInfo(store, digest, cid, limit, now).value;
      && (!info.isExpired ==> HasValidCache(store, digest, cid, limit, now))
      && (HasValidCache(store, digest, cid, limit, now) && info.isExpired ==> info.expiresAt == now)
  {
  }
}
