/**
 * The HTTP-level backoff that replaces gspread's HTTP clients: a minimum
 * spacing between requests, and a bounded retry with exponential backoff
 * that honours `Retry-After`.
 */
module SheetBackoff {
  import opened Wrappers
  import opened Text
  import opened Collections
  import Remote
  import RateLimit

  function RMin(a: real, b: real): real { if a <= b then a else b }
  function RMax(a: real, b: real): real { if a >= b then a else b }

  /**
   * The environment settings `SHEETS_MAX_RETRIES`, `SHEETS_BACKOFF_BASE`,
   * `SHEETS_BACKOFF_JITTER`, `SHEETS_BACKOFF_CAP` and `SHEETS_MIN_INTERVAL`.
   */
  datatype Config = Config(maxRetries: int, base: real, jitter: real, cap: real, minInterval: real)

  /** The settings when none of the variables is set. */
  const Defaults := Config(7, 0.8, 0.25, 16.0, 1.0)

  // ---------------------------------------------------------------------
  // The throttle

  /** The clock, and the new `_last_request_ts`, after the throttle at `now`. */
  function Throttled(last: real, now: real, minInterval: real): real {
    var wait := minInterval - (now - last);
    if wait > 0.0 then now + wait else now
  }

  /** The request start leaves the previous one at least `minInterval` behind, and the clock does not go back. */
  lemma ThrottledSpacing(last: real, now: real, minInterval: real)
    ensures Throttled(last, now, minInterval) >= last + minInterval
    ensures Throttled(last, now, minInterval) >= now
    ensures Throttled(last, now, minInterval) == RMax(now, last + minInterval)
  {
  }

  /** `_last_request_ts`, shared by every request. */
  class Throttle {
    var lastRequest: real

    constructor ()
      ensures lastRequest == 0.0
    {
      lastRequest := 0.0;
    }

    /** `_pre_request_throttle` */
    method PreRequest(clock: Remote.Clock, minInterval: real)
      modifies this, clock
      ensures clock.now == Throttled(old(lastRequest), old(clock.now), minInterval)
      ensures lastRequest == clock.now
    {
      var now := clock.now;
      var wait := minInterval - (now - lastRequest);
      if wait > 0.0 {
        clock.Sleep(wait);
      }
      lastRequest := clock.now;
    }
  }

  // ---------------------------------------------------------------------
  // Which errors are retried, and for how long

  /** `_should_retry`: throttling and server errors of the API, recognised by status or message. */
  predicate ShouldRetry(e: Remote.Exc) {
    e.ApiError?
    && (Remote.StatusCode(e) in {Some(429), Some(500), Some(502), Some(503), Some(504)}
        || var msg := Lower(e.message);
           Contains(msg, "quota exceeded") || Contains(msg, "rate limit") || Contains(msg, " 429"))
  }

  /**
   * Every error this layer retries is one the retry-forever wrapper treats as
   * a quota or server error, except one recognised only by " 429" in its
   * message, and conversely every quota or server error is retried here.
   */
  lemma ShouldRetryAgrees(e: Remote.Exc)
    ensures RateLimit.Classify(e) in {RateLimit.Quota, RateLimit.Server} ==> ShouldRetry(e)
    ensures ShouldRetry(e) && !Contains(Lower(e.message), " 429")
      ==> RateLimit.Classify(e) in {RateLimit.Quota, RateLimit.Server}
    ensures ShouldRetry(e) ==> e.ApiError?
  {
  }

  /**
   * `_parse_retry_after`: no value or an empty one gives 0, otherwise the
   * stripped text as a float, or 0 when it does not parse. `parse` is
   * Python's `float` on the stripped text.
   */
  function ParseRetryAfter(value: Option<string>, parse: string -> Option<real>): real {
    if value.None? || value.value == "" then 0.0
    else match parse(Strip(value.value))
      case Some(x) => x
      case None => 0.0
  }

  /** `_retry_after_seconds`: the `Retry-After` header of an API error's response, 0 for anything else. */
  function RetryAfterSeconds(e: Remote.Exc, parse: string -> Option<real>): real {
    if e.ApiError? && e.response.Some? then ParseRetryAfter(e.response.value.retryAfter, parse) else 0.0
  }

  /** A non-zero wait only comes from a non-empty `Retry-After` header that parses to it. */
  lemma RetryAfterSource(e: Remote.Exc, parse: string -> Option<real>)
    ensures RetryAfterSeconds(e, parse) != 0.0 ==>
      e.ApiError? && e.response.Some? && e.response.value.retryAfter.Some?
      && var v := e.response.value.retryAfter.value;
         v != "" && parse(Strip(v)) == Some(RetryAfterSeconds(e, parse))
    ensures !e.ApiError? || e.response.None? || e.response.value.retryAfter in {None, Some("")} ==>
      RetryAfterSeconds(e, parse) == 0.0
  {
  }

  /**
   * The backoff before jitter: `base * 2 ** attempt`, capped. `noise(a)` is the
   * `random.uniform(-jitter / 2, jitter / 2)` drawn after attempt `a`.
   */
  function Backoff(cfg: Config, noise: nat -> real, attempt: nat): real {
    RMax(0.0, Capped(cfg, attempt) + noise(attempt))
  }

  /** `min(cap, base * 2 ** attempt)` */
  function Capped(cfg: Config, attempt: nat): (c: real)
    ensures c <= cfg.cap
  {
    RMin(cfg.cap, cfg.base * Pow2(attempt) as real)
  }

  /** The sleep after attempt `attempt` raised `e`. */
  function Pause(cfg: Config, parse: string -> Option<real>, noise: nat -> real, e: Remote.Exc, attempt: nat): real {
    RMax(RetryAfterSeconds(e, parse), Backoff(cfg, noise, attempt))
  }

  /** The sleep after a failed attempt, as a function of the error and the attempt. */
  type Pauser = (Remote.Exc, nat) -> real

  function Pauses(cfg: Config, parse: string -> Option<real>, noise: nat -> real): Pauser {
    (e: Remote.Exc, attempt: nat) => Pause(cfg, parse, noise, e, attempt)
  }

  /** The capped backoff, jittered and clipped at 0, stays within half the jitter of the capped value. */
  lemma JitteredWithin(cap: real, c: real, n: real, jitter: real)
    requires c <= cap
    ensures RMax(0.0, c + n) >= 0.0
    ensures -jitter / 2.0 <= n <= jitter / 2.0 ==>
      c - jitter / 2.0 <= RMax(0.0, c + n) <= RMax(0.0, c + jitter / 2.0)
      && RMax(0.0, c + n) <= RMax(0.0, cap + jitter / 2.0)
  {
  }

  /**
   * The sleep is never negative and never shorter than the server's
   * `Retry-After`; with noise drawn from the jitter range the backoff part
   * lies within half the jitter of `min(cap, base * 2 ** attempt)`, so it
   * never exceeds the cap by more than that.
   */
  lemma PauseBounds(cfg: Config, parse: string -> Option<real>, noise: nat -> real, e: Remote.Exc, attempt: nat)
    ensures Pause(cfg, parse, noise, e, attempt) >= 0.0
    ensures Pause(cfg, parse, noise, e, attempt) >= RetryAfterSeconds(e, parse)
    ensures Pause(cfg, parse, noise, e, attempt) >= Backoff(cfg, noise, attempt)
    ensures -cfg.jitter / 2.0 <= noise(attempt) <= cfg.jitter / 2.0 ==>
      var exp := Capped(cfg, attempt);
      exp - cfg.jitter / 2.0 <= Backoff(cfg, noise, attempt) <= RMax(0.0, exp + cfg.jitter / 2.0)
      && Backoff(cfg, noise, attempt) <= RMax(0.0, cfg.cap + cfg.jitter / 2.0)
  {
    JitteredWithin(cfg.cap, Capped(cfg, attempt), noise(attempt), cfg.jitter);
  }

  // ---------------------------------------------------------------------
  // The retry loop of the patched clients

  /** The outcome of a request, the start of every attempt, and the clock at the end. */
  datatype Sent<T> = Sent(result: Remote.Outcome<T>, starts: seq<real>, now: real)

  /** `max_retries - attempt` retries left, none once it is reached. */
  function RetriesLeft(cfg: Config, attempt: nat): nat {
    if attempt < cfg.maxRetries then cfg.maxRetries - attempt else 0
  }

  /** The last request of a trace gives up when it returned, ran out of retries, or raised an error not worth retrying. */
  predicate Final<T>(cfg: Config, r: Remote.Outcome<T>, attempt: nat) {
    r.Returned? || attempt as int >= cfg.maxRetries || !ShouldRetry(r.exc)
  }

  /**
   * The loop from attempt `attempt`, with `_last_request_ts` at `last` and the
   * clock at `now`; attempt `a` of the underlying request has outcome `send(a)`.
   */
  function Retrying<T>(cfg: Config, send: nat -> Remote.Outcome<T>, pause: Pauser, attempt: nat, last: real, now: real): Sent<T>
    decreases RetriesLeft(cfg, attempt)
  {
    var t := Throttled(last, now, cfg.minInterval);
    var r := send(attempt);
    if Final(cfg, r, attempt) then Sent(r, [t], t)
    else
      var rest := Retrying(cfg, send, pause, attempt + 1, t, t + pause(r.exc, attempt));
      Sent(rest.result, [t] + rest.starts, rest.now)
  }

  /**
   * At most `max_retries + 1` requests in all. The outcome is the last
   * request's; every request before it raised an error worth retrying, and a
   * retryable error is only passed on once the retries are used up.
   */
  lemma {:induction false} RetryingOutcome<T>(cfg: Config, send: nat -> Remote.Outcome<T>, pause: Pauser,
                                                attempt: nat, last: real, now: real)
    ensures var s := Retrying(cfg, send, pause, attempt, last, now);
      1 <= |s.starts| <= RetriesLeft(cfg, attempt) + 1
      && s.result == send(attempt + |s.starts| - 1)
      && Final(cfg, s.result, attempt + |s.starts| - 1)
      && (forall a :: attempt <= a < attempt + |s.starts| - 1 ==> send(a).Raised? && ShouldRetry(send(a).exc))
      && (s.result.Raised? && ShouldRetry(s.result.exc) ==> |s.starts| == RetriesLeft(cfg, attempt) + 1)
    decreases RetriesLeft(cfg, attempt)
  {
    var t := Throttled(last, now, cfg.minInterval);
    var r := send(attempt);
    if !Final(cfg, r, attempt) {
      RetryingOutcome(cfg, send, pause, attempt + 1, t, t + pause(r.exc, attempt));
    }
  }

  /**
   * The requests start in order, each at least `minInterval` after the
   * previous one (the first after `last`), never before `now`, and the loop
   * ends no earlier than the last start.
   */
  lemma {:induction false} RetryingSpacing<T>(cfg: Config, send: nat -> Remote.Outcome<T>, pause: Pauser,
                                                attempt: nat, last: real, now: real)
    ensures var s := Retrying(cfg, send, pause, attempt, last, now);
      |s.starts| > 0
      && s.starts[0] >= last + cfg.minInterval && s.starts[0] >= now
      && (forall i :: 0 <= i < |s.starts| - 1 ==> s.starts[i + 1] >= s.starts[i] + cfg.minInterval)
      && s.now >= s.starts[|s.starts| - 1]
    decreases RetriesLeft(cfg, attempt)
  {
    var t := Throttled(last, now, cfg.minInterval);
    ThrottledSpacing(last, now, cfg.minInterval);
    var r := send(attempt);
    if !Final(cfg, r, attempt) {
      var rest := Retrying(cfg, send, pause, attempt + 1, t, t + pause(r.exc, attempt));
      RetryingSpacing(cfg, send, pause, attempt + 1, t, t + pause(r.exc, attempt));
      var s := [t] + rest.starts;
      forall i | 0 <= i < |s| - 1 ensures s[i + 1] >= s[i] + cfg.minInterval {
        if i > 0 {
          assert s[i] == rest.starts[i - 1] && s[i + 1] == rest.starts[i];
        }
      }
    }
  }

  /** `done` followed by the starts of `s`. */
  function After<T>(done: seq<real>, s: Sent<T>): Sent<T> {
    Sent(s.result, done + s.starts, s.now)
  }

  /** One turn of the loop: the attempt's outcome ends it, or its start comes before those of the retry. */
  lemma RetryingStep<T>(cfg: Config, send: nat -> Remote.Outcome<T>, pause: Pauser, attempt: nat, last: real, now: real)
    ensures var t := Throttled(last, now, cfg.minInterval);
      var r := send(attempt);
      Retrying(cfg, send, pause, attempt, last, now) ==
        if Final(cfg, r, attempt) then Sent(r, [t], t)
        else After([t], Retrying(cfg, send, pause, attempt + 1, t, t + pause(r.exc, attempt)))
  {
  }

  /** Moving one start from the trace into the prefix before it. */
  lemma AfterShift<T>(done: seq<real>, t: real, s: Sent<T>)
    ensures After(done, After([t], s)) == After(done + [t], s)
  {
    AppendAssoc(done, [t], s.starts);
  }

  /** The pauses are never negative. */
  ghost predicate NonNegative(pause: Pauser) {
    forall e, a :: pause(e, a) >= 0.0
  }

  lemma PausesNonNegative(cfg: Config, parse: string -> Option<real>, noise: nat -> real)
    ensures NonNegative(Pauses(cfg, parse, noise))
  {
    forall e, a ensures Pauses(cfg, parse, noise)(e, a) >= 0.0 {
      PauseBounds(cfg, parse, noise, e, a);
    }
  }

  /**
   * One attempt of the loop: wait out the minimum interval, send, and sleep
   * the pause when the outcome is not final.
   */
  method Attempt<T>(th: Throttle, clock: Remote.Clock, cfg: Config, send: nat -> Remote.Outcome<T>, pause: Pauser, attempt: nat)
    returns (r: Remote.Outcome<T>, final: bool)
    requires NonNegative(pause)
    modifies th, clock
    ensures var t := Throttled(old(th.lastRequest), old(clock.now), cfg.minInterval);
      r == send(attempt) && th.lastRequest == t && final == Final(cfg, r, attempt)
      && clock.now == if final then t else t + pause(r.exc, attempt)
  {
    th.PreRequest(clock, cfg.minInterval);
    r := send(attempt);
    final := r.Returned? || attempt >= cfg.maxRetries || !ShouldRetry(r.exc);
    if !final {
      clock.Sleep(pause(r.exc, attempt));
    }
  }

  /** The retry loop, sleeping `pause(e, a)` after attempt `a` raised `e`. */
  method Retry<T>(th: Throttle, clock: Remote.Clock, cfg: Config, send: nat -> Remote.Outcome<T>, pause: Pauser)
    returns (r: Remote.Outcome<T>)
    requires NonNegative(pause)
    modifies th, clock
    ensures var s := Retrying(cfg, send, pause, 0, old(th.lastRequest), old(clock.now));
      r == s.result && clock.now == s.now && th.lastRequest == s.starts[|s.starts| - 1]
  {
    ghost var total := Retrying(cfg, send, pause, 0, th.lastRequest, clock.now);
    ghost var done: seq<real> := [];
    var attempt: nat := 0;
    assert [] + total.starts == total.starts;
    while true
      invariant After(done, Retrying(cfg, send, pause, attempt, th.lastRequest, clock.now)) == total
      decreases RetriesLeft(cfg, attempt)
    {
      RetryingStep(cfg, send, pause, attempt, th.lastRequest, clock.now);
      var final;
      r, final := Attempt(th, clock, cfg, send, pause, attempt);
      if final {
        return;
      }
      AfterShift(done, th.lastRequest, Retrying(cfg, send, pause, attempt + 1, th.lastRequest, clock.now));
      done := done + [th.lastRequest];
      attempt := attempt + 1;
    }
  }

  /**
   * `request` of `_BackoffHTTPClient` and of `_BackoffBatchHTTPClient`, whose
   * loops are the same: the outcome, the clock and `_last_request_ts` are
   * those of `Retrying` from the first attempt.
   */
  method Request<T>(th: Throttle, clock: Remote.Clock, cfg: Config, send: nat -> Remote.Outcome<T>,
                    parse: string -> Option<real>, noise: nat -> real)
    returns (r: Remote.Outcome<T>)
    modifies th, clock
    ensures var s := Retrying(cfg, send, Pauses(cfg, parse, noise), 0, old(th.lastRequest), old(clock.now));
      r == s.result && clock.now == s.now && th.lastRequest == s.starts[|s.starts| - 1]
  {
    PausesNonNegative(cfg, parse, noise);
    r := Retry(th, clock, cfg, send, Pauses(cfg, parse, noise));
  }

  // ---------------------------------------------------------------------
  // Installation

  /**
   * The patch state: the `_PATCHED` flag, whether gspread's `HTTPClient` is
   * the backoff client, whether gspread has a `BatchHTTPClient`, and how many
   * backoff subclasses have been stacked on it.
   */
  datatype Patches = Patches(patched: bool, httpBackoff: bool, hasBatch: bool, batchLayers: nat)

  /** Before the first install. */
  const Unpatched := Patches(false, false, false, 0)

  /** `install_gspread_backoff` */
  function InstallAfter(p: Patches): Patches {
    if p.patched then p
    else Patches(true, true, p.hasBatch, if p.hasBatch then p.batchLayers + 1 else p.batchLayers)
  }

  /** `InstallAfter` applied `n` times. */
  function InstallTimes(p: Patches, n: nat): Patches
    decreases n
  {
    if n == 0 then p else InstallAfter(InstallTimes(p, n - 1))
  }

  /**
   * Installing is idempotent: any number of installs after the first changes
   * nothing, so from an unpatched state the batch client gets exactly one
   * backoff layer (when it exists) and the retry loops never nest.
   */
  lemma {:induction false} InstallIdempotent(p: Patches, n: nat)
    requires n >= 1
    ensures InstallTimes(p, n) == InstallAfter(p)
    ensures InstallAfter(InstallAfter(p)) == InstallAfter(p)
    ensures InstallAfter(p).patched && (!p.patched ==> InstallAfter(p).httpBackoff)
    ensures !p.patched && p.batchLayers == 0 ==> InstallTimes(p, n).batchLayers == (if p.hasBatch then 1 else 0)
    decreases n
  {
    if n > 1 {
      InstallIdempotent(p, n - 1);
    }
  }

  /** The module state that installation changes. */
  class Installer {
    var patched: bool
    var httpBackoff: bool
    var hasBatch: bool
    var batchLayers: nat

    /** An unpatched gspread, with or without a `BatchHTTPClient`. */
    constructor (hasBatch: bool)
      ensures State() == Unpatched.(hasBatch := hasBatch)
    {
      patched := false;
      httpBackoff := false;
      this.hasBatch := hasBatch;
      batchLayers := 0;
    }

    function State(): Patches
      reads this
    {
      Patches(patched, httpBackoff, hasBatch, batchLayers)
    }

    method Install()
      modifies this
      ensures State() == InstallAfter(old(State()))
    {
      if patched {
        return;
      }
      httpBackoff := true;
      if hasBatch {
        batchLayers := batchLayers + 1;
      }
      patched := true;
    }
  }
}
