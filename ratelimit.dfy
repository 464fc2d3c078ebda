/**
 * The process-wide throttle (`global_rate_limit`) and the retry-forever
 * wrapper (`never_fail_api_call`) that every `safe_*` spreadsheet helper
 * goes through.
 */
module RateLimit {
  import opened Wrappers
  import opened Text
  import opened Collections
  import Remote

  function Min(a: int, b: int): int { if a <= b then a else b }

  // ---------------------------------------------------------------------
  // The throttle

  /** The module globals `_LAST_API_CALL`, `_API_CALL_COUNT` and `_CALL_WINDOW_START`. */
  datatype GateState = GateState(lastCall: real, count: nat, windowStart: real)

  /** The globals and the clock after one pass through the throttle. */
  datatype Gated = Gated(state: GateState, now: real)

  /** The counting window, and the buffer added to a forced wait for it to close. */
  const Window: real := 60.0
  const WindowBuffer: real := 5.0

  /** The wait until the window that opened at `windowStart` has closed, plus the buffer. */
  function WindowWait(windowStart: real, now: real): real {
    Window - (now - windowStart) + WindowBuffer
  }

  /** The window after the reset that a call at least a minute after its start causes. */
  function Rolled(g: GateState, now: real): GateState {
    if now - g.windowStart >= Window then g.(count := 0, windowStart := now) else g
  }

  /**
   * One pass through the wrapper of `global_rate_limit(minInterval, perMinute)`
   * at clock `now`. The interval wait is measured from `now`, read before any
   * window wait, so a call that waited for the window may wait once more.
   */
  function GateAfter(g: GateState, now: real, minInterval: real, perMinute: int): Gated {
    var g1 := Rolled(g, now);
    var w := WindowWait(g1.windowStart, now);
    var full := g1.count >= perMinute && w > 0.0;
    var g2 := if full then g1.(count := 0, windowStart := now + w) else g1;
    var t := if full then now + w else now;
    var sinceLast := now - g.lastCall;
    var t' := if sinceLast < minInterval then t + (minInterval - sinceLast) else t;
    Gated(g2.(lastCall := t', count := g2.count + 1), t')
  }

  /** The shared throttle state, updated in place by every wrapped call. */
  class Limiter {
    var lastCall: real
    var count: nat
    var windowStart: real

    /** The module's initial globals. */
    constructor ()
      ensures lastCall == 0.0 && count == 0 && windowStart == 0.0
    {
      lastCall := 0.0;
      count := 0;
      windowStart := 0.0;
    }

    function State(): GateState
      reads this
    {
      GateState(lastCall, count, windowStart)
    }

    /** The body of the wrapper before it calls the wrapped function. */
    method Gate(clock: Remote.Clock, minInterval: real, perMinute: int)
      modifies this, clock
      ensures var r := GateAfter(old(State()), old(clock.now), minInterval, perMinute);
        State() == r.state && clock.now == r.now
    {
      var now := clock.now;
      if now - windowStart >= Window {
        count := 0;
        windowStart := now;
      }
      if count >= perMinute {
        var wait := WindowWait(windowStart, now);
        if wait > 0.0 {
          clock.Sleep(wait);
          count := 0;
          windowStart := clock.now;
        }
      }
      var sinceLast := now - lastCall;
      if sinceLast < minInterval {
        clock.Sleep(minInterval - sinceLast);
      }
      lastCall := clock.now;
      count := count + 1;
    }
  }

  /**
   * The clock never goes back, the call is stamped with the clock at which it
   * leaves the throttle, and it leaves at least `minInterval` after the
   * previous call.
   */
  lemma GateSpacing(g: GateState, now: real, minInterval: real, perMinute: int)
    ensures var r := GateAfter(g, now, minInterval, perMinute);
      r.now >= now && r.state.lastCall == r.now && r.state.lastCall >= g.lastCall + minInterval
  {
  }

  /**
   * A window that is still open and already holds `perMinute` calls always
   * forces a wait: the call leaves no earlier than the buffer after the window
   * closes, and opens a new window.
   */
  lemma {:induction false} GateFullWindowWaits(g: GateState, now: real, minInterval: real, perMinute: int)
    requires Rolled(g, now).count >= perMinute
    ensures var r := GateAfter(g, now, minInterval, perMinute);
      r.now >= Rolled(g, now).windowStart + Window + WindowBuffer && r.state.count == 1
  {
    var g1 := Rolled(g, now);
    assert now - g1.windowStart < Window;
    assert WindowWait(g1.windowStart, now) > WindowBuffer;
  }

  /**
   * With a positive limit, the count after a call lies between 1 and the
   * limit. The call stays in the current window, and counts one more in it,
   * exactly when the window is still open and not yet full; otherwise it
   * opens a new window and counts one.
   */
  lemma {:induction false} GateCount(g: GateState, now: real, minInterval: real, perMinute: int)
    requires perMinute >= 1
    ensures var r := GateAfter(g, now, minInterval, perMinute);
      1 <= r.state.count <= perMinute
      && (r.state.windowStart == g.windowStart <==> now - g.windowStart < Window && g.count < perMinute)
      && (r.state.windowStart == g.windowStart ==> r.state.count == g.count + 1)
      && (r.state.windowStart != g.windowStart ==> r.state.count == 1)
  {
    var g1 := Rolled(g, now);
    if g1.count >= perMinute {
      GateFullWindowWaits(g, now, minInterval, perMinute);
    }
  }

  /** `wait_for_quota_reset`: 120 one-second sleeps. */
  method WaitForQuotaReset(clock: Remote.Clock)
    modifies clock
    ensures clock.now == old(clock.now) + 120.0
  {
    for i := 0 to 120
      invariant clock.now == old(clock.now) + i as real
    {
      clock.Sleep(1.0);
    }
  }

  // ---------------------------------------------------------------------
  // The retry-forever wrapper

  const BaseDelay: nat := 10
  const MaxDelay: nat := 1800

  /** The four ways `never_fail_api_call` treats a failed attempt. */
  datatype Failure = Quota | Server | UnknownApi | Unexpected

  predicate IsQuotaFailure(status: Option<int>, msg: string) {
    status == Some(429) || Contains(msg, "quota exceeded") || Contains(msg, "rate limit")
  }

  function Classify(e: Remote.Exc): Failure {
    match e
    case ApiError(_, message) =>
      var status := Remote.StatusCode(e);
      if IsQuotaFailure(status, Lower(message)) then Quota
      else if status in {Some(500), Some(502), Some(503), Some(504)} then Server
      else UnknownApi
    case OtherError(_) => Unexpected
  }

  /** The wait after a quota failure at attempt `attempt` (from 1), `msg` lower-cased. */
  function QuotaWait(msg: string, attempt: nat): nat
    requires attempt >= 1
  {
    if Contains(msg, "per minute") then Min(MaxDelay, 60 + attempt * 60)
    else if Contains(msg, "per day") then MaxDelay
    else Min(MaxDelay, BaseDelay * Pow2(Min(attempt - 1, 8)))
  }

  /** The seconds `never_fail_api_call` sleeps after attempt `attempt` raised `e`. */
  function WaitFor(e: Remote.Exc, attempt: nat): nat
    requires attempt >= 1
  {
    match Classify(e)
    case Quota => QuotaWait(Lower(e.message), attempt)
    case Server => Min(60, 5 * attempt)
    case UnknownApi => Min(120, 10 * attempt)
    case Unexpected => Min(60, 5 * attempt)
  }

  lemma {:induction false} Pow2Mono(i: nat, j: nat)
    requires i <= j
    ensures 1 <= Pow2(i) <= Pow2(j)
    decreases j
  {
    if i < j {
      Pow2Mono(i, j - 1);
    } else if i > 0 {
      Pow2Mono(i - 1, i - 1);
    }
  }

  /**
   * Every failed attempt is followed by a wait of at least five seconds, and
   * the waits are capped per kind: a minute for server and unexpected errors,
   * two for unknown API errors, thirty for quota errors.
   */
  lemma WaitBounds(e: Remote.Exc, attempt: nat)
    requires attempt >= 1
    ensures 5 <= WaitFor(e, attempt) <= MaxDelay
    ensures Classify(e) in {Server, Unexpected} ==> WaitFor(e, attempt) <= 60
    ensures Classify(e) == UnknownApi ==> WaitFor(e, attempt) <= 120
  {
    Pow2Mono(0, Min(attempt - 1, 8));
  }

  /** For one error, the wait never shrinks from one attempt to a later one. */
  lemma WaitMonotone(e: Remote.Exc, a: nat, b: nat)
    requires 1 <= a <= b
    ensures WaitFor(e, a) <= WaitFor(e, b)
  {
    Pow2Mono(Min(a - 1, 8), Min(b - 1, 8));
  }

  /** From the ninth attempt on, a quota error that is neither per-minute nor per-day waits the full cap. */
  lemma QuotaWaitSaturates(msg: string, attempt: nat)
    requires attempt >= 9 && !Contains(msg, "per minute")
    ensures QuotaWait(msg, attempt) == MaxDelay
  {
    assert Pow2(8) == 256 by {
      assert Pow2(4) == 16;
    }
  }

  /** The chunk length of a long quota wait. */
  const ChunkLength: nat := 30

  /** The sleeps that make up a quota wait of `total` seconds. */
  function Chunks(total: nat): seq<nat>
    decreases total
  {
    if total == 0 then [] else [Min(ChunkLength, total)] + Chunks(total - Min(ChunkLength, total))
  }

  /** The chunks add up to the wait, each lasts between one second and the chunk length, and all but the last are full. */
  lemma {:induction false} ChunksSpec(total: nat)
    ensures Total(Chunks(total)) == total
    ensures forall i :: 0 <= i < |Chunks(total)| ==> 0 < Chunks(total)[i] <= ChunkLength
    ensures forall i :: 0 <= i < |Chunks(total)| - 1 ==> Chunks(total)[i] == ChunkLength
    decreases total
  {
    if total > 0 {
      var c := Min(ChunkLength, total);
      ChunksSpec(total - c);
      var rest := Chunks(total - c);
      assert Chunks(total) == [c] + rest;
      assert ([c] + rest)[1..] == rest;
      if |rest| > 0 {
        assert c == ChunkLength;
      }
    }
  }

  /** The chunked sleep of a quota wait. */
  method ChunkedWait(clock: Remote.Clock, total: nat) returns (slept: seq<nat>)
    modifies clock
    ensures slept == Chunks(total)
    ensures clock.now == old(clock.now) + Total(slept) as real
  {
    var remaining: nat := total;
    slept := [];
    while remaining > 0
      invariant remaining <= total
      invariant slept + Chunks(remaining) == Chunks(total)
      invariant Total(slept) == total - remaining
      invariant clock.now == old(clock.now) + Total(slept) as real
      decreases remaining
    {
      var chunk := Min(ChunkLength, remaining);
      assert Chunks(remaining) == [chunk] + Chunks(remaining - chunk);
      clock.Sleep(chunk as real);
      remaining := remaining - chunk;
      TotalSnoc(slept, chunk);
      assert slept + [chunk] + Chunks(remaining) == slept + ([chunk] + Chunks(remaining));
      slept := slept + [chunk];
    }
    assert Chunks(remaining) == [];
    assert slept + [] == slept;
  }

  /** The waits after attempts 1 to `n`, each of which raised. */
  function Waits<T>(call: nat -> Remote.Outcome<T>, n: nat): seq<nat>
    decreases n
  {
    if n == 0 then []
    else Waits(call, n - 1) + [if call(n).Raised? then WaitFor(call(n).exc, n) else 0]
  }

  /** `n` failed attempts wait at least five seconds each. */
  lemma {:induction false} WaitsAtLeast<T>(call: nat -> Remote.Outcome<T>, n: nat)
    requires forall a :: 1 <= a <= n ==> call(a).Raised?
    ensures |Waits(call, n)| == n && Total(Waits(call, n)) >= 5 * n
    decreases n
  {
    if n > 0 {
      WaitsAtLeast(call, n - 1);
      WaitBounds(call(n).exc, n);
      TotalSnoc(Waits(call, n - 1), WaitFor(call(n).exc, n));
    }
  }

  /** One more failed attempt adds its wait to the total. */
  lemma WaitsStep<T>(call: nat -> Remote.Outcome<T>, n: nat)
    requires n >= 1 && call(n).Raised?
    ensures Total(Waits(call, n)) == Total(Waits(call, n - 1)) + WaitFor(call(n).exc, n)
  {
    TotalSnoc(Waits(call, n - 1), WaitFor(call(n).exc, n));
  }

  /** The wait after attempt `attempt` raised `e`: chunked for a quota error, one sleep otherwise. */
  method WaitAfter(clock: Remote.Clock, e: Remote.Exc, attempt: nat)
    requires attempt >= 1
    modifies clock
    ensures clock.now == old(clock.now) + WaitFor(e, attempt) as real
  {
    var wait := WaitFor(e, attempt);
    if Classify(e) == Quota {
      var slept := ChunkedWait(clock, wait);
      ChunksSpec(wait);
    } else {
      clock.Sleep(wait as real);
    }
  }

  /**
   * `never_fail_api_call`: attempt `n` (from 1) of `func()` has `call(n)` as
   * its outcome. The loop only ends when an attempt returns; `bound`, an
   * attempt that does, stands for the assumption that one eventually will.
   * The result is the first returned value, and the clock has advanced by the
   * waits after all the failed attempts before it.
   */
  method NeverFail<T>(clock: Remote.Clock, call: nat -> Remote.Outcome<T>, ghost bound: nat)
    returns (value: T, attempts: nat)
    requires bound >= 1 && call(bound).Returned?
    modifies clock
    ensures 1 <= attempts <= bound && call(attempts) == Remote.Returned(value)
    ensures forall a :: 1 <= a < attempts ==> call(a).Raised?
    ensures clock.now == old(clock.now) + Total(Waits(call, attempts - 1)) as real
  {
    var attempt := 0;
    while true
      invariant attempt < bound
      invariant forall a :: 1 <= a <= attempt ==> call(a).Raised?
      invariant clock.now == old(clock.now) + Total(Waits(call, attempt)) as real
      decreases bound - attempt
    {
      attempt := attempt + 1;
      var r := call(attempt);
      if r.Returned? {
        return r.value, attempt;
      }
      assert call(attempt).Raised? && attempt != bound;
      ghost var before := clock.now;
      WaitAfter(clock, r.exc, attempt);
      WaitsStep(call, attempt);
      assert clock.now == before + WaitFor(r.exc, attempt) as real;
    }
  }

  // ---------------------------------------------------------------------
  // The safe_* helpers

  /** The spreadsheet operations with a `safe_*` helper. */
  datatype SafeOp = GetAllValues | UpdateRange | BatchUpdate | AppendRows | GetWorksheet | RowValues | GetRange | UpdateCell

  datatype Limits = Limits(minInterval: real, perMinute: nat)

  /**
   * The throttle settings of each helper. At its own minimum interval no
   * helper could reach its per-minute limit within one window.
   */
  function LimitsOf(op: SafeOp): (l: Limits)
    ensures 5.0 <= l.minInterval && 8 <= l.perMinute <= 15
    ensures l.minInterval * l.perMinute as real > Window
  {
    match op
    case GetAllValues => Limits(6.0, 12)
    case UpdateRange => Limits(8.0, 10)
    case BatchUpdate => Limits(10.0, 8)
    case AppendRows => Limits(8.0, 10)
    case GetWorksheet => Limits(5.0, 15)
    case RowValues => Limits(5.0, 15)
    case GetRange => Limits(6.0, 12)
    case UpdateCell => Limits(8.0, 10)
  }

  /**
   * A `safe_*` helper: one pass through the shared throttle with the helper's
   * settings, then the retry-forever loop around the remote call.
   */
  method SafeCall<T>(lim: Limiter, clock: Remote.Clock, op: SafeOp, call: nat -> Remote.Outcome<T>, ghost bound: nat)
    returns (value: T, attempts: nat)
    requires bound >= 1 && call(bound).Returned?
    modifies lim, clock
    ensures var g := GateAfter(old(lim.State()), old(clock.now), LimitsOf(op).minInterval, LimitsOf(op).perMinute);
      lim.State() == g.state
      && 1 <= attempts <= bound && call(attempts) == Remote.Returned(value)
      && (forall a :: 1 <= a < attempts ==> call(a).Raised?)
      && clock.now == g.now + Total(Waits(call, attempts - 1)) as real
  {
    var l := LimitsOf(op);
    lim.Gate(clock, l.minInterval, l.perMinute);
    value, attempts := NeverFail(clock, call, bound);
  }
}
