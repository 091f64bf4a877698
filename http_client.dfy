/**
 * The sliding-window `RateLimiter` of the HTTP client: a queue of the
 * timestamps of granted permits, pruned from the front and appended at the
 * back. Time is an integer `now` supplied by the caller, in the same unit as
 * `rate_period`.
 */
module HttpClient {
  import opened Sequences

  /** Oldest first. */
  predicate Sorted(s: seq<int>) {
    forall i, j :: 0 <= i <= j < |s| ==> s[i] <= s[j]
  }

  /** The `popleft` loop: how many leading timestamps are more than `period`
      old at `now`. The first one it leaves is at most `period` old, so an
      entry exactly `period` old is kept. */
  function StalePrefix(pool: seq<int>, now: int, period: int): (k: nat)
    ensures k <= |pool|
    ensures forall j :: 0 <= j < k ==> now - pool[j] > period
    ensures k < |pool| ==> now - pool[k] <= period
  {
    if pool != [] && now - pool[0] > period then 1 + StalePrefix(pool[1..], now, period) else 0
  }

  /** One admission attempt at `now`: prune the stale prefix, then grant and
      append `now` when fewer than `limit` timestamps remain. */
  function Attempt(pool: seq<int>, limit: int, period: int, now: int): (bool, seq<int>) {
    var kept := pool[StalePrefix(pool, now, period)..];
    if |kept| < limit then (true, kept + [now]) else (false, kept)
  }

  /** An attempt removes only a stale prefix; a refusal changes nothing else,
      and a grant adds exactly `now` at the back and leaves at most `limit`
      timestamps. */
  lemma AttemptChangesOnlyStalePrefix(pool: seq<int>, limit: int, period: int, now: int)
    ensures var (granted, after) := Attempt(pool, limit, period, now);
            exists k :: 0 <= k <= |pool|
              && (forall j :: 0 <= j < k ==> now - pool[j] > period)
              && (granted <==> |pool| - k < limit)
              && after == pool[k..] + (if granted then [now] else [])
              && (granted ==> |after| <= limit)
  {
    var k := StalePrefix(pool, now, period);
    assert pool[k..] + [] == pool[k..];
  }

  /** With a clock that does not run backwards, the pool stays oldest first,
      and after an attempt every timestamp left in it is at most `period` old. */
  lemma AttemptKeepsWindow(pool: seq<int>, limit: int, period: int, now: int)
    requires Sorted(pool)
    requires forall j :: 0 <= j < |pool| ==> pool[j] <= now
    requires period >= 0
    ensures var after := Attempt(pool, limit, period, now).1;
            && Sorted(after)
            && forall j :: 0 <= j < |after| ==> 0 <= now - after[j] <= period
  {
    var k := StalePrefix(pool, now, period);
    var kept := pool[k..];
    assert forall j :: 0 <= j < |kept| ==> now - kept[j] <= period by {
      forall j | 0 <= j < |kept| ensures now - kept[j] <= period {
        assert pool[k] <= pool[k + j];
      }
    }
  }

  /** The timestamps granted by attempts at `times`, starting from `pool`. */
  function Grants(pool: seq<int>, limit: int, period: int, times: seq<int>): seq<int>
    decreases |times|
  {
    if times == [] then []
    else
      var step := Attempt(pool, limit, period, times[0]);
      (if step.0 then [times[0]] else []) + Grants(step.1, limit, period, times[1..])
  }

  /** No stretch of at most `period` time units holds more than `limit` grants:
      grants i..j with `grants[j] - grants[i] <= period` number at most `limit`. */
  predicate WindowRespected(grants: seq<int>, limit: int, period: int) {
    forall i, j :: 0 <= i <= j < |grants| && grants[j] - grants[i] <= period ==> j - i < limit
  }

  /** Granting at `t` keeps the window when every timestamp before `lo` is
      more than `period` older than `t` and fewer than `limit` come after. */
  lemma GrantKeepsWindow(history: seq<int>, lo: nat, t: int, limit: int, period: int)
    requires lo <= |history| && |history| - lo < limit
    requires forall j :: 0 <= j < lo ==> t - history[j] > period
    requires WindowRespected(history, limit, period)
    ensures WindowRespected(history + [t], limit, period)
  {
    var next := history + [t];
    forall i, j | 0 <= i <= j < |next| && next[j] - next[i] <= period
      ensures j - i < limit
    {
      if j < |history| {
        assert next[i] == history[i] && next[j] == history[j];
      } else if i < lo {
        assert next[i] == history[i];
      }
    }
  }

  /** Appending a timestamp no older than the rest keeps the order. */
  lemma AppendKeepsSorted(s: seq<int>, t: int)
    requires Sorted(s) && forall j :: 0 <= j < |s| ==> s[j] <= t
    ensures Sorted(s + [t]) && forall j :: 0 <= j < |s + [t]| ==> (s + [t])[j] <= t
  {
  }

  /** The stale prefix of the pool `history[m..]` extends the part of the
      history that is already stale. */
  lemma StaleExtends(history: seq<int>, m: nat, last: int, period: int, t: int)
    requires m <= |history|
    requires forall j :: 0 <= j < m ==> last - history[j] > period
    requires last <= t
    ensures var k := StalePrefix(history[m..], t, period);
            forall j :: 0 <= j < m + k ==> t - history[j] > period
  {
    var pool := history[m..];
    var k := StalePrefix(pool, t, period);
    forall j | 0 <= j < m + k ensures t - history[j] > period {
      if j >= m {
        assert pool[j - m] == history[j];
      }
    }
  }

  /** A granted first attempt: its time joins the history, and the remaining
      attempts start from the history after the stale prefix. */
  lemma GrantedStep(history: seq<int>, m: nat, k: nat, limit: int, period: int, times: seq<int>)
    requires m <= |history| && times != []
    requires k == StalePrefix(history[m..], times[0], period)
    requires |history| - m - k < limit
    ensures var next := history + [times[0]];
            history + Grants(history[m..], limit, period, times)
              == next + Grants(next[m + k..], limit, period, times[1..])
  {
    var pool := history[m..];
    var next := history + [times[0]];
    assert pool[k..] + [times[0]] == next[m + k..];
    var rest := Grants(next[m + k..], limit, period, times[1..]);
    assert Grants(pool, limit, period, times) == [times[0]] + rest;
    ConcatAssoc(history, [times[0]], rest);
  }

  /** A refused first attempt: the history stays, and the remaining attempts
      start from the history after the stale prefix. */
  lemma RefusedStep(history: seq<int>, m: nat, k: nat, limit: int, period: int, times: seq<int>)
    requires m <= |history| && times != []
    requires k == StalePrefix(history[m..], times[0], period)
    requires |history| - m - k >= limit
    ensures Grants(history[m..], limit, period, times)
              == Grants(history[m + k..], limit, period, times[1..])
  {
    assert history[m..][k..] == history[m + k..];
  }

  /** One attempt of the induction: the history after it is still oldest
      first and within the window, its pool is again a suffix whose
      predecessors are stale at the attempt time, and the grants still to come
      are those of the remaining attempts. */
  lemma Advance(history: seq<int>, m: nat, last: int, limit: int, period: int, times: seq<int>)
    returns (next: seq<int>, m2: nat)
    requires m <= |history| && times != []
    requires Sorted(history) && forall j :: 0 <= j < |history| ==> history[j] <= last
    requires forall j :: 0 <= j < m ==> last - history[j] > period
    requires WindowRespected(history, limit, period)
    requires last <= times[0]
    ensures m2 <= |next|
    ensures Sorted(next) && forall j :: 0 <= j < |next| ==> next[j] <= times[0]
    ensures forall j :: 0 <= j < m2 ==> times[0] - next[j] > period
    ensures WindowRespected(next, limit, period)
    ensures history + Grants(history[m..], limit, period, times)
              == next + Grants(next[m2..], limit, period, times[1..])
  {
    var t := times[0];
    var k := StalePrefix(history[m..], t, period);
    StaleExtends(history, m, last, period, t);
    m2 := m + k;
    if |history| - m - k < limit {
      next := history + [t];
      assert WindowRespected(next, limit, period) by {
        GrantKeepsWindow(history, m + k, t, limit, period);
      }
      AppendKeepsSorted(history, t);
      GrantedStep(history, m, k, limit, period, times);
    } else {
      next := history;
      assert Grants(history[m..], limit, period, times)
          == Grants(next[m2..], limit, period, times[1..]) by {
        RefusedStep(history, m, k, limit, period, times);
      }
    }
  }

  /** The induction behind GrantsRespectWindow. `history` is every grant so
      far, the pool is its suffix from `m` on, and everything before `m` was
      already stale at the last attempt time `last`. */
  lemma {:induction false} WindowRespectedFrom(
    history: seq<int>, m: nat, last: int, limit: int, period: int, times: seq<int>)
    requires m <= |history|
    requires Sorted(history) && forall j :: 0 <= j < |history| ==> history[j] <= last
    requires forall j :: 0 <= j < m ==> last - history[j] > period
    requires WindowRespected(history, limit, period)
    requires Sorted(times) && (times != [] ==> last <= times[0])
    ensures var all := history + Grants(history[m..], limit, period, times);
            Sorted(all) && WindowRespected(all, limit, period)
    decreases |times|
  {
    if times == [] {
      assert history + Grants(history[m..], limit, period, times) == history;
    } else {
      var next, m2 := Advance(history, m, last, limit, period, times);
      assert times[1..] != [] ==> times[0] <= times[1..][0];
      assert Sorted(times[1..]);
      WindowRespectedFrom(next, m2, times[0], limit, period, times[1..]);
    }
  }

  /** The sliding-window guarantee: for attempts made with a clock that does
      not run backwards, starting from an empty pool, the grants are oldest
      first and no stretch of `period` time units holds more than `limit` of
      them. */
  lemma GrantsRespectWindow(limit: int, period: int, times: seq<int>)
    requires Sorted(times)
    ensures var grants := Grants([], limit, period, times);
            Sorted(grants) && WindowRespected(grants, limit, period)
  {
    var last := if times == [] then 0 else times[0];
    WindowRespectedFrom([], 0, last, limit, period, times);
    assert [] + Grants([], limit, period, times) == Grants([], limit, period, times);
  }

  /** `RateLimiter`: at most `rateLimit` permits per `ratePeriod`, with the
      grant timestamps of the current window in `requestPool`. The retry
      interval only paces the waiting loop, which the model leaves to the
      caller (repeated TryAcquire calls). */
  class RateLimiter {
    var rateLimit: int
    var ratePeriod: int
    var requestPool: seq<int>

    /** The pool never holds more timestamps than there are permits. */
    ghost predicate Valid()
      reads this
    {
      requestPool == [] || |requestPool| <= rateLimit
    }

    /** `RateLimiter(rate_limit, rate_period)`: an empty pool. */
    constructor (rateLimit: int, ratePeriod: int)
      ensures this.rateLimit == rateLimit && this.ratePeriod == ratePeriod
      ensures requestPool == [] && Valid()
    {
      this.rateLimit := rateLimit;
      this.ratePeriod := ratePeriod;
      requestPool := [];
    }

    /** `RateLimiter()`: two permits per five time units. */
    constructor Default()
      ensures rateLimit == 2 && ratePeriod == 5
      ensures requestPool == [] && Valid()
    {
      rateLimit := 2;
      ratePeriod := 5;
      requestPool := [];
    }

    /** The inner loop of `_limiter`: pop timestamps from the front while the
        oldest is more than `ratePeriod` old. */
    method Prune(now: int)
      modifies this`requestPool
      ensures requestPool == old(requestPool)[StalePrefix(old(requestPool), now, ratePeriod)..]
    {
      ghost var popped := 0;
      while requestPool != []
        invariant popped <= StalePrefix(old(requestPool), now, ratePeriod)
        invariant requestPool == old(requestPool)[popped..]
        decreases |requestPool|
      {
        if now - requestPool[0] > ratePeriod {
          requestPool := requestPool[1..];
          popped := popped + 1;
        } else {
          break;
        }
      }
    }

    /** One pass of `_limiter` (and of `_async_limiter`, whose admission logic
        is the same over the same pool): prune, then grant a permit and record
        `now` if fewer than `rateLimit` timestamps remain. */
    method TryAcquire(now: int) returns (granted: bool)
      requires Valid()
      modifies this`requestPool
      ensures Valid()
      ensures (granted, requestPool) == Attempt(old(requestPool), rateLimit, ratePeriod, now)
    {
      Prune(now);
      granted := |requestPool| < rateLimit;
      if granted {
        requestPool := requestPool + [now];
      }
    }

    /** `__exit__` / `__aexit__`: a permit is never handed back; only time
        frees a slot. */
    method Exit()
      ensures requestPool == old(requestPool)
    {
    }
  }
}
