/** The fixed-window hit counter: for each socket, the number of calls in the current window and
    the time the window started. */
module RateLimiting {
  import opened Wrappers

  /** The defaults of rateLimiter(socket, limit, interval): 20 calls per 10000 ms. */
  const DefaultLimit: int := 20
  const DefaultInterval: int := 10000

  /** One socket's record: calls counted in the window, and the window's start (ms). */
  datatype HitRecord = HitRecord(count: nat, time: int)

  /** The record a call at `now` leaves behind, given the socket's record before it (None when the
      socket has none): a missing record starts as count 0 at `now`; the window restarts only when
      strictly more than `interval` ms have passed since it started; the count then goes up by one. */
  function Touch(rec: Option<HitRecord>, now: int, interval: int): HitRecord {
    var start := rec.GetOr(HitRecord(0, now));
    var current := if now - start.time > interval then HitRecord(0, now) else start;
    current.(count := current.count + 1)
  }

  /** The module-level userHits table. */
  class RateLimiter {
    var userHits: map<SocketId, HitRecord>

    constructor ()
      ensures userHits == map[]
    {
      userHits := map[];
    }

    /** rateLimiter(socket, limit, interval) at time `now`: updates the socket's record and answers
        whether the call is within the limit. */
    method Hit(socketId: SocketId, now: int, limit: int, interval: int) returns (allowed: bool)
      modifies this
      ensures userHits == old(userHits)[socketId := Touch(Lookup(old(userHits), socketId), now, interval)]
      ensures allowed <==> userHits[socketId].count <= limit
    {
      var record := if socketId in userHits then userHits[socketId] else HitRecord(0, now);
      if now - record.time > interval {
        record := HitRecord(0, now);
      }
      record := record.(count := record.count + 1);
      userHits := userHits[socketId := record];
      allowed := record.count <= limit;
    }
  }

  /** userHits.get(id): the record, or nothing. */
  function Lookup(hits: map<SocketId, HitRecord>, id: SocketId): (r: Option<HitRecord>)
    ensures r.Some? <==> id in hits
    ensures r.Some? ==> r.value == hits[id]
  {
    if id in hits then Some(hits[id]) else None
  }

  /** A socket without a record starts a window at `now` with this call counted. */
  lemma FirstCall(now: int, interval: int)
    ensures Touch(None, now, interval) == HitRecord(1, now)
  {
  }

  /** Every call adds exactly one to the count of the current window, and the window changes only
      when more than `interval` ms have passed since it started. */
  lemma TouchCounts(rec: HitRecord, now: int, interval: int)
    ensures now - rec.time > interval ==> Touch(Some(rec), now, interval) == HitRecord(1, now)
    ensures now - rec.time <= interval ==> Touch(Some(rec), now, interval) == HitRecord(rec.count + 1, rec.time)
  {
  }

  /** The answers to a series of calls by one socket at the given times. */
  function Results(rec: Option<HitRecord>, times: seq<int>, limit: int, interval: int): (r: seq<bool>)
    ensures |r| == |times|
    decreases |times|
  {
    if times == [] then []
    else
      var next := Touch(rec, times[0], interval);
      [next.count <= limit] + Results(Some(next), times[1..], limit, interval)
  }

  /** The number of calls allowed among `answers`. */
  function AllowedCount(answers: seq<bool>): nat {
    if answers == [] then 0 else (if answers[0] then 1 else 0) + AllowedCount(answers[1..])
  }

  /** Inside one window that already counts `c` calls, the k-th further call is allowed exactly
      when c + k + 1 is at most the limit. */
  lemma {:induction false} ResultsInWindow(c: nat, t0: int, times: seq<int>, limit: int, interval: int)
    requires forall i :: 0 <= i < |times| ==> times[i] - t0 <= interval
    ensures forall k :: 0 <= k < |times| ==>
              (Results(Some(HitRecord(c, t0)), times, limit, interval)[k] <==> c + k + 1 <= limit)
    decreases |times|
  {
    if times != [] {
      ResultsInWindow(c + 1, t0, times[1..], limit, interval);
      var r := Results(Some(HitRecord(c, t0)), times, limit, interval);
      var rest := Results(Some(HitRecord(c + 1, t0)), times[1..], limit, interval);
      assert r == [c + 1 <= limit] + rest;
      forall k | 1 <= k < |times|
        ensures r[k] <==> c + k + 1 <= limit
      {
        assert r[k] == rest[k - 1];
      }
    }
  }

  /** Calls that all fall in the window a first call opens: call k (from 0) is allowed exactly when
      k + 1 is at most the limit. */
  lemma FreshWindow(times: seq<int>, limit: int, interval: int)
    requires times != []
    requires forall i :: 0 <= i < |times| ==> times[i] - times[0] <= interval
    ensures forall k :: 0 <= k < |times| ==> (Results(None, times, limit, interval)[k] <==> k + 1 <= limit)
  {
    var t0 := times[0];
    var r := Results(None, times, limit, interval);
    var rest := Results(Some(HitRecord(1, t0)), times[1..], limit, interval);
    assert r == [1 <= limit] + rest;
    ResultsInWindow(1, t0, times[1..], limit, interval);
    forall k | 1 <= k < |times|
      ensures r[k] <==> k + 1 <= limit
    {
      assert r[k] == rest[k - 1];
      assert rest[k - 1] <==> 1 + (k - 1) + 1 <= limit;
    }
  }

  /** Answers that are true exactly on the first `m` calls allow min(|answers|, m) calls. */
  lemma {:induction false} AllowedPrefix(answers: seq<bool>, m: int)
    requires forall k :: 0 <= k < |answers| ==> (answers[k] <==> k < m)
    ensures AllowedCount(answers) == if m <= 0 then 0 else if m < |answers| then m else |answers|
  {
    if answers != [] {
      AllowedPrefix(answers[1..], m - 1);
    }
  }

  /** At most `limit` calls are allowed in one window. */
  lemma AtMostLimitPerWindow(times: seq<int>, limit: int, interval: int)
    requires times != []
    requires forall i :: 0 <= i < |times| ==> times[i] - times[0] <= interval
    ensures AllowedCount(Results(None, times, limit, interval)) <= if limit < 0 then 0 else limit
  {
    FreshWindow(times, limit, interval);
    AllowedPrefix(Results(None, times, limit, interval), limit);
  }

  /** With the defaults, the 21st call inside one window is refused and the first 20 are allowed. */
  lemma TwentyFirstRefused(times: seq<int>)
    requires |times| >= 21
    requires forall i :: 0 <= i < |times| ==> times[i] - times[0] <= DefaultInterval
    ensures var r := Results(None, times, DefaultLimit, DefaultInterval);
            !r[20] && forall k :: 0 <= k < 20 ==> r[k]
  {
    FreshWindow(times, DefaultLimit, DefaultInterval);
  }

  /** The first call after the window has run out is counted 1 in a new window, so it is allowed
      whenever the limit allows any call at all. */
  lemma ResetAfterWindow(rec: HitRecord, now: int, limit: int, interval: int)
    requires now - rec.time > interval
    ensures Touch(Some(rec), now, interval).count == 1
    ensures Touch(Some(rec), now, interval).count <= limit <==> 1 <= limit
  {
    TouchCounts(rec, now, interval);
  }
}
