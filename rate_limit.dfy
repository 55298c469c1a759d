/**
 * The sliding-window rate limiter (`RateLimit`, backend/app/utils/rate_limit.py):
 * each user's admitted requests are logged as timestamps in one item; a
 * request is admitted while fewer than `max_requests` of them lie in the last
 * `window_seconds`, and every store failure admits it (fail open).
 */
module RateLimiter {
  import opened Common
  import opened Records
  import opened Store

  const DefaultMaxRequests := 5
  const DefaultWindowSeconds := 60

  // ---------------------------------------------------------------------------
  // Pruning
  // ---------------------------------------------------------------------------

  /**
   * `_clean_old_requests`: the timestamps later than `now - window`, in their
   * order. Timestamps are whole seconds.
   */
  function CleanOldRequests(requests: seq<int>, now: int, window: int): (r: seq<int>)
    ensures |r| <= |requests|
  {
    if requests == [] then []
    else
      var rest := CleanOldRequests(requests[1..], now, window);
      if requests[0] > now - window then [requests[0]] + rest else rest
  }

  /** Pruning keeps exactly the timestamps later than `now - window`. */
  lemma {:induction false} CleanMembers(requests: seq<int>, now: int, window: int)
    ensures forall x :: x in CleanOldRequests(requests, now, window) <==> x in requests && x > now - window
  {
    if requests != [] {
      CleanMembers(requests[1..], now, window);
      assert requests == [requests[0]] + requests[1..];
    }
  }

  /** Timestamps in non-decreasing order. */
  predicate Ascending(s: seq<int>) {
    forall i, j :: 0 <= i < j < |s| ==> s[i] <= s[j]
  }

  /** On an ascending log, pruning drops a prefix: what is left is a suffix. */
  lemma {:induction false} CleanAscendingSuffix(requests: seq<int>, now: int, window: int) returns (k: nat)
    requires Ascending(requests)
    ensures k <= |requests| && CleanOldRequests(requests, now, window) == requests[k..]
    ensures forall i :: 0 <= i < k ==> requests[i] <= now - window
  {
    if requests == [] {
      k := 0;
    } else if requests[0] > now - window {
      k := 0;
      forall i | 0 <= i < |requests|
        ensures requests[i] > now - window
      {
        assert requests[0] <= requests[i];
      }
      CleanKeepsRecent(requests, now, window);
    } else {
      var j := CleanAscendingSuffix(requests[1..], now, window);
      k := j + 1;
      assert requests[1..][j..] == requests[k..];
    }
  }

  /** A log every timestamp of which is inside the window is kept whole. */
  lemma {:induction false} CleanKeepsRecent(requests: seq<int>, now: int, window: int)
    requires forall i :: 0 <= i < |requests| ==> requests[i] > now - window
    ensures CleanOldRequests(requests, now, window) == requests
  {
    if requests != [] {
      CleanKeepsRecent(requests[1..], now, window);
      assert requests == [requests[0]] + requests[1..];
    }
  }

  /** Pruning twice at the same time prunes nothing more. */
  lemma {:induction false} CleanIdempotent(requests: seq<int>, now: int, window: int)
    ensures CleanOldRequests(CleanOldRequests(requests, now, window), now, window) == CleanOldRequests(requests, now, window)
  {
    var r := CleanOldRequests(requests, now, window);
    CleanMembers(requests, now, window);
    forall i | 0 <= i < |r|
      ensures r[i] > now - window
    {
      assert r[i] in r;
    }
    CleanKeepsRecent(r, now, window);
  }

  // ---------------------------------------------------------------------------
  // check_rate_limit
  // ---------------------------------------------------------------------------

  /**
   * Where the store raises, if it does: reading the log, or writing it back.
   * Either is caught and the request admitted.
   */
  datatype Fault = NoFault | ReadFails | WriteFails

  /** `response['Item'].get('requests', [])`: an item without a request log counts as an empty one. */
  function StoredRequests(item: Item): seq<int> {
    if item.RequestLogItem? then item.log.requests else []
  }

  /** The log item of a user. */
  function LogItem(email: string, requests: seq<int>): (item: Item)
    ensures item.Key() == RateLimitKey(email)
  {
    RequestLogItem(RequestLog(UserPk(email), RateLimitSk, requests))
  }

  /** `check_rate_limit` once the log has been read: `stored` is the user's item, None when there is none. */
  function CheckOn(stored: Option<Item>, email: string, now: int, maxRequests: int, window: int, fault: Fault): Outcome<bool> {
    match stored
    case Some(item) =>
      var requests := CleanOldRequests(StoredRequests(item), now, window);
      if |requests| >= maxRequests then Outcome(Ok(false), None)
      else if fault == WriteFails then Outcome(Ok(true), None)
      else Outcome(Ok(true), Some(LogItem(email, requests + [now])))
    case None =>
      if fault == WriteFails then Outcome(Ok(true), None)
      else Outcome(Ok(true), Some(LogItem(email, [now])))
  }

  /** `check_rate_limit` as a function of the table: whether the request is admitted, and the log written. */
  function CheckSpec(es: seq<Item>, email: string, now: int, maxRequests: int, window: int, fault: Fault): Outcome<bool> {
    if fault == ReadFails then Outcome(Ok(true), None)
    else CheckOn(Find(es, RateLimitKey(email)), email, now, maxRequests, window, fault)
  }

  /**
   * The decision: a request is refused exactly when the log is read, exists,
   * and already holds `maxRequests` timestamps inside the window; then nothing
   * is written. It never raises. An admitted request that is written is logged
   * after the surviving timestamps, under the user's own key, so no log grows
   * past `maxRequests`; a missing log is created holding only this request,
   * whatever `maxRequests` is.
   */
  lemma CheckEffect(es: seq<Item>, email: string, now: int, maxRequests: int, window: int, fault: Fault)
    ensures CheckSpec(es, email, now, maxRequests, window, fault).reply.Ok?
    ensures CheckSpec(es, email, now, maxRequests, window, fault).reply == Ok(false) <==>
      fault != ReadFails && Find(es, RateLimitKey(email)).Some? &&
      |CleanOldRequests(StoredRequests(Find(es, RateLimitKey(email)).value), now, window)| >= maxRequests
    ensures CheckSpec(es, email, now, maxRequests, window, fault).reply == Ok(false) ==>
      CheckSpec(es, email, now, maxRequests, window, fault).write.None?
    ensures CheckSpec(es, email, now, maxRequests, window, fault).write.Some? <==>
      fault == NoFault && CheckSpec(es, email, now, maxRequests, window, fault).reply == Ok(true)
    ensures CheckSpec(es, email, now, maxRequests, window, fault).write.Some? ==>
      CheckSpec(es, email, now, maxRequests, window, fault).write.value.Key() == RateLimitKey(email)
    ensures Find(es, RateLimitKey(email)).None? && fault == NoFault ==>
      CheckSpec(es, email, now, maxRequests, window, fault).write == Some(LogItem(email, [now]))
    ensures Find(es, RateLimitKey(email)).Some? && CheckSpec(es, email, now, maxRequests, window, fault).write.Some? ==>
      CheckSpec(es, email, now, maxRequests, window, fault).write ==
        Some(LogItem(email, CleanOldRequests(StoredRequests(Find(es, RateLimitKey(email)).value), now, window) + [now])) &&
      |CheckSpec(es, email, now, maxRequests, window, fault).write.value.log.requests| <= maxRequests
  {
  }

  /**
   * What the limiter keeps of a user's log: it is in order and holds nothing
   * later than `now`.
   */
  predicate LogInvariant(es: seq<Item>, email: string, now: int) {
    Find(es, RateLimitKey(email)).Some? ==>
      var requests := StoredRequests(Find(es, RateLimitKey(email)).value);
      Ascending(requests) && forall i :: 0 <= i < |requests| ==> requests[i] <= now
  }

  /** Admitting requests as the clock moves on keeps the log in order, and leaves every other item alone. */
  lemma CheckPreservesInvariant(es: seq<Item>, email: string, now: int, later: int, maxRequests: int, window: int,
                                fault: Fault, k: ItemKey)
    requires LogInvariant(es, email, now) && now <= later
    ensures LogInvariant(Commit(es, CheckSpec(es, email, later, maxRequests, window, fault).write), email, later)
    ensures k != RateLimitKey(email) ==>
      Find(Commit(es, CheckSpec(es, email, later, maxRequests, window, fault).write), k) == Find(es, k)
  {
    var o := CheckSpec(es, email, later, maxRequests, window, fault);
    var key := RateLimitKey(email);
    CheckEffect(es, email, later, maxRequests, window, fault);
    if o.write.Some? {
      FindUpsert(es, o.write.value, key);
      FindUpsert(es, o.write.value, k);
      if Find(es, key).Some? {
        AppendKeepsOrder(StoredRequests(Find(es, key).value), later, window);
      }
    }
  }

  /** Pruning an ordered log with nothing later than `later`, then appending `later`, leaves it ordered. */
  lemma AppendKeepsOrder(stored: seq<int>, later: int, window: int)
    requires Ascending(stored) && forall i :: 0 <= i < |stored| ==> stored[i] <= later
    ensures var written := CleanOldRequests(stored, later, window) + [later];
      Ascending(written) && forall i :: 0 <= i < |written| ==> written[i] <= later
  {
    var pruned := CleanOldRequests(stored, later, window);
    var j := CleanAscendingSuffix(stored, later, window);
    var written := pruned + [later];
    forall i | 0 <= i < |written|
      ensures written[i] <= later
    {
      if i < |pruned| {
        assert written[i] == stored[j + i];
      }
    }
    forall a, b | 0 <= a < b < |written|
      ensures written[a] <= written[b]
    {
      assert written[a] == stored[j + a];
      if b < |pruned| {
        assert written[b] == stored[j + b];
      }
    }
  }

  // ---------------------------------------------------------------------------
  // get_remaining_requests
  // ---------------------------------------------------------------------------

  /** What `get_remaining_requests` returns: the requests left, and when the window frees one. */
  datatype Quota = Quota(remaining: int, reset: int)

  /**
   * `get_remaining_requests` as a function of the table. The requests left are
   * never negative and never more than the limit, and the reset time is never
   * in the past.
   */
  function RemainingSpec(es: seq<Item>, email: string, now: int, maxRequests: int, window: int, readFails: bool): (q: Quota)
    ensures maxRequests >= 0 ==> 0 <= q.remaining <= maxRequests
    ensures q.reset >= now
  {
    if readFails then Quota(maxRequests, now)
    else
      match Find(es, RateLimitKey(email))
      case None => Quota(maxRequests, now)
      case Some(item) =>
        var requests := CleanOldRequests(StoredRequests(item), now, window);
        var remaining := if maxRequests - |requests| > 0 then maxRequests - |requests| else 0;
        if requests != [] then
          CleanMembers(StoredRequests(item), now, window);
          assert requests[0] in requests;
          Quota(remaining, requests[0] + window)
        else Quota(remaining, now)
  }

  /**
   * On an ascending log, the reset time is exactly when the oldest counted
   * request leaves the window: until then the same requests count, from then
   * on fewer do.
   */
  lemma {:induction false} ResetWindow(stored: seq<int>, now: int, window: int, later: int)
    requires Ascending(stored) && CleanOldRequests(stored, now, window) != [] && now <= later
    ensures var counted := CleanOldRequests(stored, now, window);
      (later < counted[0] + window ==> CleanOldRequests(stored, later, window) == counted) &&
      (later >= counted[0] + window ==> |CleanOldRequests(stored, later, window)| < |counted|)
  {
    var k := CleanAscendingSuffix(stored, now, window);
    var k2 := CleanAscendingSuffix(stored, later, window);
    CleanMembers(stored, now, window);
    CleanMembers(stored, later, window);
    var oldest := stored[k];
    assert CleanOldRequests(stored, now, window)[0] == oldest;
    if k2 < |stored| {
      assert stored[k2..][0] == stored[k2];
      assert stored[k2] in CleanOldRequests(stored, later, window);
    }
    if k2 <= k {
      assert stored[k2..][k - k2] == oldest;
      assert oldest in CleanOldRequests(stored, later, window);
    }
  }

  /**
   * The reset time `get_remaining_requests` reports for a readable log with
   * requests in the window is the moment its oldest request stops counting.
   */
  lemma ResetIsWhenOldestExpires(es: seq<Item>, email: string, now: int, later: int, maxRequests: int, window: int)
    requires LogInvariant(es, email, now) && Find(es, RateLimitKey(email)).Some? && now <= later
    requires CleanOldRequests(StoredRequests(Find(es, RateLimitKey(email)).value), now, window) != []
    ensures var stored := StoredRequests(Find(es, RateLimitKey(email)).value);
      var reset := RemainingSpec(es, email, now, maxRequests, window, false).reset;
      (later < reset ==> CleanOldRequests(stored, later, window) == CleanOldRequests(stored, now, window)) &&
      (later >= reset ==> |CleanOldRequests(stored, later, window)| < |CleanOldRequests(stored, now, window)|)
  {
    ResetWindow(StoredRequests(Find(es, RateLimitKey(email)).value), now, window, later);
  }

  /**
   * The two operations agree: with a positive limit and the log readable, a
   * request is refused exactly when no request remains.
   */
  lemma RefusedIffNoneRemaining(es: seq<Item>, email: string, now: int, maxRequests: int, window: int)
    requires maxRequests > 0
    ensures CheckSpec(es, email, now, maxRequests, window, NoFault).reply == Ok(false) <==>
      RemainingSpec(es, email, now, maxRequests, window, false).remaining == 0
  {
    CheckEffect(es, email, now, maxRequests, window, NoFault);
  }

  // ---------------------------------------------------------------------------
  // A burst of requests
  // ---------------------------------------------------------------------------

  /** The decisions on a run of requests at the given times, none failing, and the table after them. */
  function RunChecks(es: seq<Item>, email: string, times: seq<int>, maxRequests: int, window: int): (seq<bool>, seq<Item>)
    decreases |times|
  {
    if times == [] then ([], es)
    else
      var o := CheckSpec(es, email, times[0], maxRequests, window, NoFault);
      var next := RunChecks(Commit(es, o.write), email, times[1..], maxRequests, window);
      ([o.reply == Ok(true)] + next.0, next.1)
  }

  /** `n` admissions in a row. */
  function Admitted(n: nat): seq<bool> {
    if n == 0 then [] else [true] + Admitted(n - 1)
  }

  /** The decisions of a run on the user's own log, `stored` being that log as the run finds it. */
  function RunOnLog(stored: Option<Item>, email: string, times: seq<int>, maxRequests: int, window: int): seq<bool>
    decreases |times|
  {
    if times == [] then []
    else
      var o := CheckOn(stored, email, times[0], maxRequests, window, NoFault);
      [o.reply == Ok(true)] + RunOnLog(if o.write.Some? then o.write else stored, email, times[1..], maxRequests, window)
  }

  /** A run's decisions depend on the user's own log only: no other item is read or written. */
  lemma {:induction false} RunChecksOnLog(es: seq<Item>, email: string, times: seq<int>, maxRequests: int, window: int)
    ensures RunChecks(es, email, times, maxRequests, window).0 ==
      RunOnLog(Find(es, RateLimitKey(email)), email, times, maxRequests, window)
    decreases |times|
  {
    if times != [] {
      var o := CheckSpec(es, email, times[0], maxRequests, window, NoFault);
      CheckEffect(es, email, times[0], maxRequests, window, NoFault);
      if o.write.Some? {
        FindUpsert(es, o.write.value, RateLimitKey(email));
      }
      RunChecksOnLog(Commit(es, o.write), email, times[1..], maxRequests, window);
    }
  }

  /** A stored log lying wholly inside the window decides by its length alone. */
  lemma CheckRecentLog(email: string, logged: seq<int>, now: int, maxRequests: int, window: int)
    requires forall i :: 0 <= i < |logged| ==> logged[i] > now - window
    ensures CheckOn(Some(LogItem(email, logged)), email, now, maxRequests, window, NoFault) ==
      if |logged| >= maxRequests then Outcome(Ok(false), None)
      else Outcome(Ok(true), Some(LogItem(email, logged + [now])))
  {
    CleanKeepsRecent(logged, now, window);
  }

  /** The times of a burst: `maxRequests + 1` requests, in order, all within less than one window. */
  predicate Burst(times: seq<int>, maxRequests: int, window: int) {
    maxRequests >= 1 && |times| == maxRequests + 1 && Ascending(times) && times[|times| - 1] - times[0] < window
  }

  /** Every request of a burst before request `k` is still inside the window at request `k`. */
  lemma BurstRecent(times: seq<int>, maxRequests: int, window: int, k: nat)
    requires Burst(times, maxRequests, window) && k <= maxRequests
    ensures forall i :: 0 <= i < |times[..k]| ==> times[..k][i] > times[k] - window
  {
    forall i | 0 <= i < |times[..k]|
      ensures times[..k][i] > times[k] - window
    {
      assert times[0] <= times[i] && times[k] <= times[|times| - 1];
    }
  }

  /** From a log holding the first `k` requests of the burst, the rest are admitted up to the limit, then one refused. */
  lemma {:induction false} BurstFrom(email: string, times: seq<int>, maxRequests: int, window: int, k: nat)
    requires Burst(times, maxRequests, window) && 1 <= k <= maxRequests
    ensures RunOnLog(Some(LogItem(email, times[..k])), email, times[k..], maxRequests, window) ==
      Admitted(maxRequests - k) + [false]
    decreases maxRequests - k
  {
    BurstRecent(times, maxRequests, window, k);
    CheckRecentLog(email, times[..k], times[k], maxRequests, window);
    assert times[k..][0] == times[k] && times[k..][1..] == times[k + 1..];
    if k == maxRequests {
      assert times[k + 1..] == [];
      assert Admitted(0) + [false] == [false];
    } else {
      assert times[..k] + [times[k]] == times[..k + 1];
      BurstFrom(email, times, maxRequests, window, k + 1);
      var more := Admitted(maxRequests - (k + 1));
      assert Admitted(maxRequests - k) == [true] + more;
      assert [true] + (more + [false]) == ([true] + more) + [false];
    }
  }

  /**
   * A user with no log who sends `maxRequests + 1` requests within one window
   * has the first `maxRequests` admitted and the last refused.
   */
  lemma BurstAdmitsLimit(es: seq<Item>, email: string, times: seq<int>, maxRequests: int, window: int)
    requires Find(es, RateLimitKey(email)).None? && Burst(times, maxRequests, window)
    ensures RunChecks(es, email, times, maxRequests, window).0 == Admitted(maxRequests) + [false]
  {
    RunChecksOnLog(es, email, times, maxRequests, window);
    assert CheckOn(None, email, times[0], maxRequests, window, NoFault).write == Some(LogItem(email, [times[0]]));
    assert times[..1] == [times[0]];
    BurstFrom(email, times, maxRequests, window, 1);
    assert Admitted(maxRequests) == [true] + Admitted(maxRequests - 1);
  }

  /** With the defaults, a sixth request within a minute is refused. */
  lemma SixthRequestRefused(es: seq<Item>, email: string, t: int)
    requires Find(es, RateLimitKey(email)).None?
    ensures RunChecks(es, email, [t, t + 1, t + 2, t + 3, t + 4, t + 59], DefaultMaxRequests, DefaultWindowSeconds).0 ==
      [true, true, true, true, true, false]
  {
    var times := [t, t + 1, t + 2, t + 3, t + 4, t + 59];
    BurstAdmitsLimit(es, email, times, DefaultMaxRequests, DefaultWindowSeconds);
    assert Admitted(5) == [true, true, true, true, true];
  }

  // ---------------------------------------------------------------------------
  // The limiter
  // ---------------------------------------------------------------------------

  class RateLimit {
    const table: Table
    const maxRequests: int
    const windowSeconds: int

    constructor(table: Table, maxRequests: int, windowSeconds: int)
      ensures this.table == table && this.maxRequests == maxRequests && this.windowSeconds == windowSeconds
    {
      this.table := table;
      this.maxRequests := maxRequests;
      this.windowSeconds := windowSeconds;
    }

    /** `RateLimit()`: five requests a minute. */
    constructor Default(table: Table)
      ensures this.table == table && maxRequests == DefaultMaxRequests && windowSeconds == DefaultWindowSeconds
    {
      this.table := table;
      maxRequests := DefaultMaxRequests;
      windowSeconds := DefaultWindowSeconds;
    }

    /** `check_rate_limit`, step by step; `fault` says where the store raises, if it does. */
    method CheckRateLimit(email: string, now: int, fault: Fault) returns (allowed: bool)
      requires table.Valid()
      modifies table
      ensures table.Valid()
      ensures Ok(allowed) == CheckSpec(old(table.entries), email, now, maxRequests, windowSeconds, fault).reply
      ensures table.entries ==
        Commit(old(table.entries), CheckSpec(old(table.entries), email, now, maxRequests, windowSeconds, fault).write)
    {
      if fault == ReadFails {
        return true;
      }
      var response := table.GetItem(RateLimitKey(email));
      if response.Some? {
        var requests := CleanOldRequests(StoredRequests(response.value), now, windowSeconds);
        if |requests| >= maxRequests {
          return false;
        }
        requests := requests + [now];
        if fault == WriteFails {
          return true;
        }
        table.PutItem(LogItem(email, requests));
      } else {
        if fault == WriteFails {
          return true;
        }
        table.PutItem(LogItem(email, [now]));
      }
      return true;
    }

    /** `get_remaining_requests`, step by step; it changes nothing. */
    method GetRemainingRequests(email: string, now: int, readFails: bool) returns (quota: Quota)
      ensures quota == RemainingSpec(table.entries, email, now, maxRequests, windowSeconds, readFails)
    {
      if readFails {
        return Quota(maxRequests, now);
      }
      var response := table.GetItem(RateLimitKey(email));
      if response.None? {
        return Quota(maxRequests, now);
      }
      var requests := CleanOldRequests(StoredRequests(response.value), now, windowSeconds);
      var remaining := maxRequests - |requests|;
      if remaining < 0 {
        remaining := 0;
      }
      var reset := now;
      if requests != [] {
        reset := requests[0] + windowSeconds;
      }
      quota := Quota(remaining, reset);
    }
  }
}
