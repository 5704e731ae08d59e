/**
  The rate limiter used by the root API route: the process-wide table of
  windows, updated in place by `checkRateLimit` and read by
  `getRateLimitInfo`, which reports `10 - count` without clamping.
 */
module LibRateLimit {
  import opened RateWindow

  /** What `getRateLimitInfo` reports. */
  datatype RateLimitInfo = RateLimitInfo(remaining: int, reset: int)

  /** The module-level `rateLimitMap`; the clock reading is passed in as `now`. */
  class RateLimiter {
    var records: map<string, RateRecord>

    /** Every stored window has counted at least the request that opened it. */
    ghost predicate Valid()
      reads this
    {
      forall k :: k in records ==> records[k].count >= 1
    }

    constructor ()
      ensures Valid() && records == map[]
    {
      records := map[];
    }

    /**
      `checkRateLimit(id, max, window)` at time `now`: restarts an ended
      window, refuses at the cap, otherwise counts the request.
     */
    method CheckRateLimit(id: string, max: int, window: int, now: int) returns (allowed: bool)
      requires Valid()
      modifies this
      ensures Valid()
      ensures Outcome(allowed, records) == Check(old(records), id, max, window, now)
    {
      if id !in records || now > records[id].resetTime {
        records := records[id := RateRecord(1, now + window)];
        return true;
      }
      var record := records[id];
      if record.count >= max {
        return false;
      }
      records := records[id := record.(count := record.count + 1)];
      return true;
    }

    /**
      `getRateLimitInfo(id)`: `10 - count` and the stored end of the window
      (ended or not), or a full quota and a window from `now` for an unknown id.
     */
    function GetRateLimitInfo(id: string, now: int): (info: RateLimitInfo)
      requires Valid()
      reads this
      ensures id !in records ==> info == RateLimitInfo(DefaultMaxRequests, now + DefaultWindowMs)
      ensures id in records ==> info.remaining + records[id].count == DefaultMaxRequests
      ensures id in records ==> info.reset == records[id].resetTime
      ensures info.remaining <= DefaultMaxRequests
    {
      if id in records then
        RateLimitInfo(DefaultMaxRequests - records[id].count, records[id].resetTime)
      else RateLimitInfo(DefaultMaxRequests, now + DefaultWindowMs)
    }
  }

  /**
    After a refusal under the route's limit of 10, the report shows no quota
    left, provided every stored count was already within `1..10`.
   */
  lemma RejectedReportsNothingLeft(l: RateLimiter, before: map<string, RateRecord>, id: string, window: int, now: int)
    requires CountsWithin(before, DefaultMaxRequests)
    requires !Check(before, id, DefaultMaxRequests, window, now).allowed
    requires l.Valid()
    requires l.records == Check(before, id, DefaultMaxRequests, window, now).records
    ensures l.GetRateLimitInfo(id, now).remaining == 0
  {
  }

  /**
    The report ignores the limit actually used: after 11 calls in one window
    under a limit of 11, it shows `-1` requests remaining.
   */
  lemma RemainingGoesNegative(l: RateLimiter, id: string, window: int, times: seq<int>)
    requires |times| == 11
    requires forall i :: 1 <= i < |times| ==> times[i] <= times[0] + window
    requires l.Valid()
    requires l.records == Run(map[], id, 11, window, times).records
    ensures l.GetRateLimitInfo(id, times[10]).remaining == -1
  {
    FreshWindowAdmitsExactlyMax(map[], id, 11, window, times);
  }

  /** Three requests are allowed under a limit of three, the fourth is refused. */
  method ThreeThenRefused(id: string, now: int) returns (verdicts: seq<bool>)
    ensures verdicts == [true, true, true, false]
  {
    var l := new RateLimiter();
    var a := l.CheckRateLimit(id, 3, DefaultWindowMs, now);
    var b := l.CheckRateLimit(id, 3, DefaultWindowMs, now);
    var c := l.CheckRateLimit(id, 3, DefaultWindowMs, now);
    var d := l.CheckRateLimit(id, 3, DefaultWindowMs, now);
    verdicts := [a, b, c, d];
  }
}
