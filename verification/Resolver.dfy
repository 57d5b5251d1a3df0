/** The caching resolver: what it serves over every run, against any upstream and any clock that does
    not run backwards. Instants are nanoseconds up to `imax`, the largest instant the clock can hold. */
module Resolver {
  import opened Prelude
  import opened Errors
  import D = Dns

  const NANOS: nat := 1_000_000_000

  datatype Cached = Cached(addrs: seq<Ipv4>, expiresAt: nat)

  type Cache = map<string, Cached>

  /** One call of `resolve`: the instants the clock shows before the lookup, after it, and once more,
      and what the upstream would answer during it. */
  datatype Call = Call(host: string, now: nat, done: nat, again: nat, up: D.Upstream) {
    function Looked(): Result<D.Lookup, Error> {
      D.Chase(up, host, 0)
    }
  }

  /** `checked_add(ttl).unwrap_or_else(Instant::now)`. */
  function Expiry(call: Call, ttl: nat, imax: nat): nat {
    if call.done + ttl * NANOS <= imax then call.done + ttl * NANOS else call.again
  }

  predicate Hits(cache: Cache, call: Call) {
    call.host in cache && cache[call.host].expiresAt > call.now
  }

  function Served(cache: Cache, call: Call): Result<seq<Ipv4>, Error> {
    if Hits(cache, call) then Ok(cache[call.host].addrs)
    else
      match call.Looked()
      case Err(e) => Err(e)
      case Ok(found) => Ok(found.addrs)
  }

  function After(cache: Cache, call: Call, imax: nat): Cache {
    if Hits(cache, call) then cache
    else
      match call.Looked()
      case Err(_) => cache - {call.host}
      case Ok(found) => cache[call.host := Cached(found.addrs, Expiry(call, found.ttlSecs, imax))]
  }

  // ---------------------------------------------------------------- runs

  /** The cache after a run. */
  function CacheAfter(calls: seq<Call>, imax: nat): Cache {
    if calls == [] then map[]
    else After(CacheAfter(calls[..|calls| - 1], imax), calls[|calls| - 1], imax)
  }

  predicate HitAt(calls: seq<Call>, k: nat, imax: nat)
    requires k < |calls|
  {
    Hits(CacheAfter(calls[..k], imax), calls[k])
  }

  function ServedAt(calls: seq<Call>, k: nat, imax: nat): Result<seq<Ipv4>, Error>
    requires k < |calls|
  {
    Served(CacheAfter(calls[..k], imax), calls[k])
  }

  /** The clock never runs backwards, within a call or between calls. */
  predicate Timely(calls: seq<Call>) {
    && (forall k :: 0 <= k < |calls| ==> calls[k].now <= calls[k].done <= calls[k].again)
    && (forall j, k :: 0 <= j < k < |calls| ==> calls[j].again <= calls[k].now)
  }

  /** Call `j` went upstream for `host`, and no later one among the first `k` did. */
  predicate LastRefresh(calls: seq<Call>, k: nat, host: string, j: nat, imax: nat)
    requires k <= |calls|
  {
    && j < k && calls[j].host == host && !HitAt(calls, j, imax)
    && forall i :: j < i < k && calls[i].host == host ==> HitAt(calls, i, imax)
  }

  predicate NeverRefreshed(calls: seq<Call>, k: nat, host: string, imax: nat)
    requires k <= |calls|
  {
    forall i :: 0 <= i < k && calls[i].host == host ==> HitAt(calls, i, imax)
  }

  /** The entry that a refresh leaves, if it succeeded. */
  predicate EntryOf(cache: Cache, call: Call, imax: nat) {
    match call.Looked()
    case Err(_) => call.host !in cache
    case Ok(found) =>
      call.host in cache && cache[call.host] == Cached(found.addrs, Expiry(call, found.ttlSecs, imax))
  }

  lemma CacheStep(calls: seq<Call>, k: nat, imax: nat)
    requires k < |calls|
    ensures CacheAfter(calls[..k + 1], imax) == After(CacheAfter(calls[..k], imax), calls[k], imax)
  {
    assert calls[..k + 1][..k] == calls[..k];
  }

  /** At every moment of every run the cache holds for a host exactly what the last lookup for that
      host left: its addresses until its expiry if it succeeded, nothing if it failed. Calls for other
      hosts, and hits, change nothing. */
  lemma {:induction false} CacheIsLastRefresh(calls: seq<Call>, k: nat, host: string, j: nat, imax: nat)
    requires k <= |calls| && LastRefresh(calls, k, host, j, imax)
    ensures EntryOf(CacheAfter(calls[..k], imax), calls[j], imax)
    decreases k
  {
    CacheStep(calls, k - 1, imax);
    if j < k - 1 {
      CacheIsLastRefresh(calls, k - 1, host, j, imax);
    }
  }

  lemma {:induction false} NoEntryBeforeRefresh(calls: seq<Call>, k: nat, host: string, imax: nat)
    requires k <= |calls| && NeverRefreshed(calls, k, host, imax)
    ensures host !in CacheAfter(calls[..k], imax)
    decreases k
  {
    if k > 0 {
      CacheStep(calls, k - 1, imax);
      NoEntryBeforeRefresh(calls, k - 1, host, imax);
      assert calls[k - 1].host == host ==> HitAt(calls, k - 1, imax);
    }
  }

  lemma {:induction false} FindLastRefresh(calls: seq<Call>, k: nat, host: string, imax: nat) returns (j: nat)
    requires k <= |calls| && host in CacheAfter(calls[..k], imax)
    ensures LastRefresh(calls, k, host, j, imax)
    decreases k
  {
    CacheStep(calls, k - 1, imax);
    if calls[k - 1].host == host && !HitAt(calls, k - 1, imax) {
      j := k - 1;
    } else {
      j := FindLastRefresh(calls, k - 1, host, imax);
    }
  }

  // ---------------------------------------------------------------- the guarantees

  /** `calls[k]` is served what `calls[j]` fetched for the same host, and is still within its lifetime. */
  predicate FreshFrom(calls: seq<Call>, k: nat, j: nat, imax: nat)
    requires k < |calls|
  {
    && j < k && calls[j].host == calls[k].host && !HitAt(calls, j, imax)
    && calls[j].Looked().Ok?
    && ServedAt(calls, k, imax) == Ok(calls[j].Looked().value.addrs)
    && calls[j].done <= calls[k].now < calls[j].done + calls[j].Looked().value.ttlSecs * NANOS
  }

  /** Freshness: a hit serves exactly what the last lookup for that host fetched, before that lookup's
      lifetime, between 30 and 300 seconds, has passed. Everything else is a new lookup's own result. */
  lemma HitsAreFresh(calls: seq<Call>, k: nat, imax: nat)
    requires k < |calls| && Timely(calls)
    ensures HitAt(calls, k, imax) ==>
      exists j :: FreshFrom(calls, k, j, imax) && LastRefresh(calls, k, calls[k].host, j, imax)
    ensures !HitAt(calls, k, imax) ==>
      match calls[k].Looked()
      case Err(e) => ServedAt(calls, k, imax) == Err(e)
      case Ok(found) => ServedAt(calls, k, imax) == Ok(found.addrs)
  {
    if HitAt(calls, k, imax) {
      var j := FindLastRefresh(calls, k, calls[k].host, imax);
      CacheIsLastRefresh(calls, k, calls[k].host, j, imax);
      assert calls[j].again <= calls[k].now;
      assert FreshFrom(calls, k, j, imax);
    }
  }

  /** Refresh rate: after a lookup that succeeded without clock overflow, every call for that host that
      starts before its lifetime has passed is a hit; so none goes upstream for at least 30 seconds. */
  lemma {:induction false} NoRefreshWithinLifetime(calls: seq<Call>, j: nat, k: nat, imax: nat)
    requires j < k < |calls| && Timely(calls)
    requires calls[j].host == calls[k].host && !HitAt(calls, j, imax)
    requires calls[j].Looked().Ok?
    requires calls[j].done + calls[j].Looked().value.ttlSecs * NANOS <= imax
    requires calls[k].now < calls[j].done + calls[j].Looked().value.ttlSecs * NANOS
    ensures HitAt(calls, k, imax)
    decreases k
  {
    forall i | j < i < k && calls[i].host == calls[j].host
      ensures HitAt(calls, i, imax)
    {
      NoRefreshWithinLifetime(calls, j, i, imax);
    }
    CacheIsLastRefresh(calls, k, calls[j].host, j, imax);
  }

  lemma NoRefreshWithinThirtySeconds(calls: seq<Call>, j: nat, k: nat, imax: nat)
    requires j < k < |calls| && Timely(calls)
    requires calls[j].host == calls[k].host && !HitAt(calls, j, imax)
    requires calls[j].Looked().Ok?
    requires calls[j].done + 300 * NANOS <= imax
    requires calls[k].now < calls[j].done + 30 * NANOS
    ensures HitAt(calls, k, imax)
  {
    D.ChaseFindsAddresses(calls[j].up, calls[j].host, 0);
    NoRefreshWithinLifetime(calls, j, k, imax);
  }

  /** When no TTL of the answers that a lookup ended with is above 30 seconds, its entry is not served from
      30 seconds after the lookup on. */
  lemma ShortTtlExpires(calls: seq<Call>, j: nat, k: nat, names: seq<string>, found: D.Lookup, imax: nat)
    requires j < k < |calls| && Timely(calls)
    requires LastRefresh(calls, k, calls[k].host, j, imax)
    requires D.TrueReading(calls[j].up.read) && D.FoundAlong(calls[j].up, names, calls[j].host, 0, found)
    requires forall a ::
      a in calls[j].up.ask(|names| - 1, names[|names| - 1]).value.answers && a.ttl.Some? ==> a.ttl.value <= 30
    requires calls[k].now >= calls[j].done + 30 * NANOS
    ensures !HitAt(calls, k, imax)
  {
    D.FollowedIsChased(calls[j].up, names, calls[j].host, 0, found);
    D.ShortLife(calls[j].up.ask(|names| - 1, names[|names| - 1]).value.answers, found.ttlSecs);
    CacheIsLastRefresh(calls, k, calls[k].host, j, imax);
    assert calls[j].again <= calls[k].now;
  }

  /** With clock overflow the entry expires at once: it is never served. */
  lemma OverflowNeverServes(calls: seq<Call>, j: nat, k: nat, imax: nat)
    requires j < k < |calls| && Timely(calls)
    requires LastRefresh(calls, k, calls[k].host, j, imax)
    requires calls[j].Looked().Ok?
    requires calls[j].done + calls[j].Looked().value.ttlSecs * NANOS > imax
    ensures !HitAt(calls, k, imax)
  {
    CacheIsLastRefresh(calls, k, calls[k].host, j, imax);
    assert calls[j].again <= calls[k].now;
  }

  /** No empty resolution in any reachable state, cached or served. */
  lemma {:induction false} NeverEmpty(calls: seq<Call>, host: string, imax: nat)
    ensures host in CacheAfter(calls, imax) ==> CacheAfter(calls, imax)[host].addrs != []
    decreases |calls|
  {
    if calls != [] {
      var last := calls[|calls| - 1];
      NeverEmpty(calls[..|calls| - 1], host, imax);
      if last.Looked().Ok? {
        D.ChaseFindsAddresses(last.up, last.host, 0);
      }
    }
  }

  lemma NeverServesNothing(calls: seq<Call>, k: nat, imax: nat)
    requires k < |calls|
    ensures ServedAt(calls, k, imax).Ok? ==> ServedAt(calls, k, imax).value != []
  {
    NeverEmpty(calls[..k], calls[k].host, imax);
    if calls[k].Looked().Ok? {
      D.ChaseFindsAddresses(calls[k].up, calls[k].host, 0);
    }
  }

  // ---------------------------------------------------------------- the object

  lemma OneMoreCall(calls: seq<Call>, call: Call, imax: nat)
    ensures CacheAfter(calls + [call], imax) == After(CacheAfter(calls, imax), call, imax)
    ensures ServedAt(calls + [call], |calls|, imax) == Served(CacheAfter(calls, imax), call)
    ensures var r := Served(CacheAfter(calls, imax), call); r.Ok? ==> r.value != []
  {
    assert (calls + [call])[..|calls|] == calls;
    NeverServesNothing(calls + [call], |calls|, imax);
  }

  /** What a call that does not hit leaves, and returns. */
  lemma Missed(cache: Cache, call: Call, imax: nat)
    requires !Hits(cache, call)
    ensures call.Looked().Err? ==>
      After(cache, call, imax) == cache - {call.host} && Served(cache, call) == Err(call.Looked().error)
    ensures call.Looked().Ok? ==>
      var found := call.Looked().value;
      && After(cache, call, imax)
        == (cache - {call.host})[call.host := Cached(found.addrs, Expiry(call, found.ttlSecs, imax))]
      && Served(cache, call) == Ok(found.addrs)
  {
    if call.Looked().Ok? {
      var found := call.Looked().value;
      RemovedThenInserted(cache, call.host, Cached(found.addrs, Expiry(call, found.ttlSecs, imax)));
    }
  }

  lemma RemovedThenInserted(cache: Cache, host: string, entry: Cached)
    ensures (cache - {host})[host := entry] == cache[host := entry]
  {
  }

  class DnsResolver {
    var cache: Cache
    const imax: nat
    ghost var calls: seq<Call>

    /** The cache is the one of the run so far. */
    ghost predicate Valid()
      reads this
    {
      cache == CacheAfter(calls, imax)
    }

    constructor (imax: nat)
      ensures Valid() && calls == [] && cache == map[] && this.imax == imax
    {
      this.imax := imax;
      cache := map[];
      calls := [];
    }

    method Resolve(call: Call) returns (r: Result<seq<Ipv4>, Error>, asked: seq<string>)
      requires Valid()
      modifies this
      ensures Valid() && calls == old(calls) + [call]
      ensures r == ServedAt(calls, |calls| - 1, imax)
      ensures cache == After(old(cache), call, imax)
      ensures asked == if Hits(old(cache), call) then [] else D.Asked(call.up, call.host, 0)
      ensures |asked| <= 4
      ensures r.Ok? ==> r.value != []
    {
      OneMoreCall(calls, call, imax);
      calls := calls + [call];
      if call.host in cache && cache[call.host].expiresAt > call.now {
        return Ok(cache[call.host].addrs), [];
      }
      Missed(cache, call, imax);
      cache := cache - {call.host};
      var found;
      found, asked := D.ResolveHostV4(call.up, call.host, 0);
      match found {
        case Err(e) =>
          r := Err(e);
        case Ok(lookup) =>
          cache := cache[call.host := Cached(lookup.addrs, Expiry(call, lookup.ttlSecs, imax))];
          r := Ok(lookup.addrs);
      }
    }
  }
}
