/**
  The fixed-window decision that both copies of `checkRateLimit` make, as a
  function from the table of records to the verdict and the new table, and
  what follows from it over a series of calls.
 */
module RateWindow {

  /** One client's window: requests counted so far and when the window ends (ms). */
  datatype RateRecord = RateRecord(count: int, resetTime: int)

  /** The verdict of one call and the table it leaves behind. */
  datatype Outcome = Outcome(allowed: bool, records: map<string, RateRecord>)

  /** The defaults of `checkRateLimit`, also hard-wired into `getRateLimitInfo`. */
  const DefaultMaxRequests: int := 10
  const DefaultWindowMs: int := 60000

  /** `id` has a window that has not ended at `now` (the comparison is strict: `now > resetTime` ends it). */
  predicate IsLive(records: map<string, RateRecord>, id: string, now: int) {
    id in records && now <= records[id].resetTime
  }

  /**
    One call of `checkRateLimit(id, max, window)` at time `now`: a missing or
    ended window restarts with one request; a live window at its cap refuses
    and changes nothing; otherwise the count goes up by one.
   */
  function Check(records: map<string, RateRecord>, id: string, max: int, window: int, now: int): (o: Outcome)
    ensures id in o.records
    ensures forall k :: k != id ==> (k in o.records <==> k in records)
    ensures forall k :: k != id && k in records ==> o.records[k] == records[k]
    ensures o.allowed <==> !IsLive(records, id, now) || records[id].count < max
    ensures !o.allowed ==> o.records == records
    ensures !IsLive(records, id, now) ==> o.records[id] == RateRecord(1, now + window)
    ensures IsLive(records, id, now) && o.allowed ==>
              o.records[id] == RateRecord(records[id].count + 1, records[id].resetTime)
  {
    if id !in records || now > records[id].resetTime then
      Outcome(true, records[id := RateRecord(1, now + window)])
    else if records[id].count >= max then
      Outcome(false, records)
    else
      Outcome(true, records[id := records[id].(count := records[id].count + 1)])
  }

  /** Every stored count lies in `1..max`. */
  predicate CountsWithin(records: map<string, RateRecord>, max: int) {
    forall k :: k in records ==> 1 <= records[k].count <= max
  }

  /** With `max >= 1` used on every call, stored counts stay within `1..max`. */
  lemma CheckKeepsCountsWithin(records: map<string, RateRecord>, id: string, max: int, window: int, now: int)
    requires max >= 1 && CountsWithin(records, max)
    ensures CountsWithin(Check(records, id, max, window, now).records, max)
  {
  }

  /** At `now == resetTime` the window is still live: it is not restarted. */
  lemma BoundaryIsLive(records: map<string, RateRecord>, id: string, max: int, window: int)
    requires id in records
    ensures var r := records[id]; var o := Check(records, id, max, window, r.resetTime);
            (o.allowed <==> r.count < max)
            && o.records[id] == (if r.count < max then r.(count := r.count + 1) else r)
  {
  }

  /** The verdicts and the final table of a series of calls by one client at the given times. */
  datatype Trace = Trace(results: seq<bool>, records: map<string, RateRecord>)

  function Run(records: map<string, RateRecord>, id: string, max: int, window: int, times: seq<int>): (t: Trace)
    ensures |t.results| == |times|
    decreases |times|
  {
    if times == [] then Trace([], records)
    else
      var o := Check(records, id, max, window, times[0]);
      var rest := Run(o.records, id, max, window, times[1..]);
      Trace([o.allowed] + rest.results, rest.records)
  }

  /**
    Inside a live window that started with count `c`, call `i` is allowed
    exactly when `c + i < max`; the window's end never moves and the count
    stops at the cap.
   */
  lemma {:induction false} LiveWindowRun(records: map<string, RateRecord>, id: string, max: int, window: int, times: seq<int>)
    requires id in records
    requires forall i :: 0 <= i < |times| ==> times[i] <= records[id].resetTime
    ensures var t := Run(records, id, max, window, times); var c := records[id].count;
            && (forall i :: 0 <= i < |times| ==> t.results[i] == (c + i < max))
            && id in t.records && t.records[id].resetTime == records[id].resetTime
            && t.records[id].count == (if c >= max then c else if c + |times| <= max then c + |times| else max)
  {
    if times != [] {
      var o := Check(records, id, max, window, times[0]);
      var c := records[id].count;
      assert IsLive(records, id, times[0]);
      LiveWindowRun(o.records, id, max, window, times[1..]);
      var t := Run(records, id, max, window, times);
      var rest := Run(o.records, id, max, window, times[1..]);
      assert t.results == [o.allowed] + rest.results;
      if c < max {
        assert o.records[id].count == c + 1;
        forall i | 1 <= i < |times| ensures t.results[i] == (c + i < max) {
          assert t.results[i] == rest.results[i - 1];
        }
      } else {
        assert o.records == records;
        forall i | 1 <= i < |times| ensures t.results[i] == (c + i < max) {
          assert t.results[i] == rest.results[i - 1];
        }
      }
    }
  }

  /**
    Starting from a missing or ended window at time `times[0]`, with every
    later call before that new window ends: exactly the first `max` calls are
    allowed, and the stored count is the number of allowed calls.
   */
  lemma FreshWindowAdmitsExactlyMax(records: map<string, RateRecord>, id: string, max: int, window: int, times: seq<int>)
    requires max >= 1 && times != [] && !IsLive(records, id, times[0])
    requires forall i :: 1 <= i < |times| ==> times[i] <= times[0] + window
    ensures var t := Run(records, id, max, window, times);
            && (forall i :: 0 <= i < |times| ==> t.results[i] == (i < max))
            && id in t.records
            && t.records[id] == RateRecord(if |times| <= max then |times| else max, times[0] + window)
  {
    var o := Check(records, id, max, window, times[0]);
    var rest := times[1..];
    assert forall i :: 0 <= i < |rest| ==> rest[i] == times[i + 1];
    LiveWindowRun(o.records, id, max, window, rest);
    var t := Run(records, id, max, window, times);
    var tr := Run(o.records, id, max, window, rest);
    assert t.results == [true] + tr.results;
    forall i | 1 <= i < |times| ensures t.results[i] == (i < max) {
      assert t.results[i] == tr.results[i - 1];
    }
  }
}
