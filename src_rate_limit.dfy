/**
  The rate limiter used by the `src/` API route: the same fixed-window table
  as the root copy, but `getRateLimitInfo` clamps the remaining quota at 0.
 */
module SrcRateLimit {
  import opened RateWindow

  /** What `getRateLimitInfo` reports. */
  datatype RateLimitInfo = RateLimitInfo(remaining: int, reset: int)

  /** The module-level `rateLimitMap`; the clock reading is passed in as `now`. */
  class RateLimiter {
    var records: map<string, RateRecord>

    /** Every stored window has counted at least the request that opened it. */
    ghost predicate Valid()
      reads this
    {
      forall k :: k in records ==> records[k].count >= 1
    }

    constructor ()
      ensures Valid() && records == map[]
    {
      records := map[];
    }

    /**
      `checkRateLimit(identifier, maxRequests, windowMs)` at time `now`:
      restarts an ended window, refuses at the cap, otherwise counts the request.
     */
    method CheckRateLimit(identifier: string, maxRequests: int, windowMs: int, now: int) returns (allowed: bool)
      requires Valid()
      modifies this
      ensures Valid()
      ensures Outcome(allowed, records) == Check(old(records), identifier, maxRequests, windowMs, now)
    {
      if identifier !in records || now > records[identifier].resetTime {
        records := records[identifier := RateRecord(1, now + windowMs)];
        return true;
      }
      var record := records[identifier];
      if record.count >= maxRequests {
        return false;
      }
      records := records[identifier := record.(count := record.count + 1)];
      return true;
    }

    /**
      `getRateLimitInfo(identifier)`: `max(0, 10 - count)` and the stored end
      of the window, or a full quota and a window from `now` for an unknown id.
     */
    function GetRateLimitInfo(identifier: string, now: int): (info: RateLimitInfo)
      requires Valid()
      reads this
      ensures 0 <= info.remaining <= DefaultMaxRequests
      ensures identifier !in records ==> info == RateLimitInfo(DefaultMaxRequests, now + DefaultWindowMs)
      ensures identifier in records ==> info.reset == records[identifier].resetTime
      ensures identifier in records && 0 <= records[identifier].count <= DefaultMaxRequests ==>
                info.remaining + records[identifier].count == DefaultMaxRequests
      ensures identifier in records && records[identifier].count >= DefaultMaxRequests ==> info.remaining == 0
    {
      if identifier !in records then
        RateLimitInfo(DefaultMaxRequests, now + DefaultWindowMs)
      else
        var left := DefaultMaxRequests - records[identifier].count;
        RateLimitInfo(if left > 0 then left else 0, records[identifier].resetTime)
    }
  }

  /** After a refusal under the route's limit of 10, the report shows no quota left, whatever the table held. */
  lemma RejectedReportsNothingLeft(l: RateLimiter, before: map<string, RateRecord>, id: string, window: int, now: int)
    requires !Check(before, id, DefaultMaxRequests, window, now).allowed
    requires l.Valid()
    requires l.records == Check(before, id, DefaultMaxRequests, window, now).records
    ensures l.GetRateLimitInfo(id, now).remaining == 0
  {
  }

  /** The report ignores the limit actually used: after 11 calls under a limit of 11 it still shows 0, not -1. */
  lemma RemainingClampedAtZero(l: RateLimiter, id: string, window: int, times: seq<int>)
    requires |times| == 11
    requires forall i :: 1 <= i < |times| ==> times[i] <= times[0] + window
    requires l.Valid()
    requires l.records == Run(map[], id, 11, window, times).records
    ensures l.GetRateLimitInfo(id, times[10]).remaining == 0
    ensures l.records[id].count == 11
  {
    FreshWindowAdmitsExactlyMax(map[], id, 11, window, times);
  }
}
