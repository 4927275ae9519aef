/**
 * `fetchGitHubData`: the process-wide one-hour cache in front of the GitHub
 * statistics, the fallback to the static mock snapshot, and the live path.
 *
 * The clock reading, the outcome of the GraphQL request and "30 days ago" are
 * parameters of the call. The module-level `GITHUB_TOKEN` and the imported
 * `mock-stats.json` are fixed when the object is built.
 */
module StatsEndpoint {
  import opened Wrappers
  import opened GitHubStats

  /** `CACHE_DURATION`: one hour in milliseconds. */
  const CacheDuration: int := 1000 * 60 * 60

  /**
   * What the request to the GraphQL endpoint came to: a decoded response, or
   * a failure (network error, a body that is not JSON, or a payload whose
   * shape makes the processing throw).
   */
  datatype Upstream = Failed | Responded(response: Response)

  /**
   * The user payload the live path goes on with, or `None` when the call
   * falls back to the mock snapshot: no token, a failed request, a response
   * with `errors`, or a null or absent `user`.
   */
  function LiveUser(token: string, upstream: Upstream): Option<User>
  {
    if token == "" then None
    else match upstream
      case Failed => None
      case Responded(response) => if response.errors then None else response.user
  }

  class StatsService {
    /** `GITHUB_TOKEN`; the empty string stands for an unset or empty variable. */
    const token: string
    /** The contents of `mock-stats.json`. */
    const mockStats: Snapshot
    var cachedStats: Option<Snapshot>
    var lastFetchTime: int

    constructor (token: string, mockStats: Snapshot)
      ensures this.token == token && this.mockStats == mockStats
      ensures cachedStats == None && lastFetchTime == 0
      ensures CacheHoldsLiveData()
    {
      this.token := token;
      this.mockStats := mockStats;
      cachedStats := None;
      lastFetchTime := 0;
    }

    /** The cache answers a call made at `now`. */
    predicate CacheValid(now: int)
      reads this
    {
      cachedStats.Some? && now - lastFetchTime < CacheDuration
    }

    /** Only snapshots computed from a live payload are ever cached, never the mock one. */
    ghost predicate CacheHoldsLiveData()
      reads this
    {
      cachedStats.Some? ==> exists user, since :: cachedStats.value == Aggregate(user, since)
    }

    /**
     * A valid cache entry is returned as is; otherwise every fallback returns
     * the mock snapshot and leaves the cache alone; otherwise the snapshot is
     * computed from the payload, cached and stamped with `now`.
     */
    method FetchGitHubData(now: int, thirtyDaysAgo: int, upstream: Upstream) returns (stats: Snapshot)
      requires CacheHoldsLiveData()
      modifies this
      ensures CacheHoldsLiveData()
      ensures old(CacheValid(now)) ==> stats == old(cachedStats).value && unchanged(this)
      ensures !old(CacheValid(now)) && LiveUser(token, upstream).None? ==>
        stats == mockStats && unchanged(this)
      ensures !old(CacheValid(now)) && LiveUser(token, upstream).Some? ==>
        && stats == Aggregate(LiveUser(token, upstream).value, thirtyDaysAgo)
        && cachedStats == Some(stats) && lastFetchTime == now
    {
      if cachedStats.Some? && now - lastFetchTime < CacheDuration {
        return cachedStats.value;
      }
      if token == "" {
        return mockStats;
      }
      match upstream {
        case Failed =>
          return mockStats;
        case Responded(response) =>
          if response.errors {
            return mockStats;
          }
          if response.user.None? {
            return mockStats;
          }
          var result := ProcessUser(response.user.value, thirtyDaysAgo);
          cachedStats := Some(result);
          lastFetchTime := now;
          return result;
      }
    }

    /**
     * Two calls less than an hour apart return the same snapshot whenever the
     * first was served from the cache (and the entry is still valid at the
     * second call) or refreshed it from a live payload.
     */
    method FetchTwice(now1: int, since1: int, upstream1: Upstream, now2: int, since2: int, upstream2: Upstream)
      returns (first: Snapshot, second: Snapshot)
      requires CacheHoldsLiveData()
      requires now2 - now1 < CacheDuration
      modifies this
      ensures CacheHoldsLiveData()
      ensures old(CacheValid(now1)) && now2 - old(lastFetchTime) < CacheDuration ==> second == first
      ensures !old(CacheValid(now1)) && LiveUser(token, upstream1).Some? ==> second == first
    {
      first := FetchGitHubData(now1, since1, upstream1);
      second := FetchGitHubData(now2, since2, upstream2);
    }
  }
}
