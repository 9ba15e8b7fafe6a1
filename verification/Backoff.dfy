/** The two bounded retry loops: reconnect's own (client.go:403-525) and the retry interceptors
    (interceptor_retry.go:17-134). Durations are int64 nanoseconds. */
module Backoff {
  import opened Bytes

  const MAX_RECONNECT_DELAY: int := 30_000_000_000
  const TWO62: int := 0x4000_0000_0000_0000

  type duration = d: int | -2 * TWO62 <= d < 2 * TWO62

  /** Conversion to int64. */
  function I64(x: int): duration { (x + 2 * TWO62) % (4 * TWO62) - 2 * TWO62 }

  function Pow2(n: nat): nat { if n == 0 then 1 else 2 * Pow2(n - 1) }

  function MinOf(a: int, b: int): int { if a < b then a else b }

  /** Doubled in int64, then capped. */
  function DoubleCapped(delay: duration, limit: duration): duration {
    var doubled := I64(2 * (delay as int));
    if doubled > limit then limit else doubled
  }

  lemma DoubleCappedExact(delay: duration, limit: duration)
    requires 0 <= delay
    ensures DoubleCapped(delay, limit) ==
              if delay < TWO62 then MinOf(2 * (delay as int), limit)
              else MinOf(2 * (delay as int) - 4 * TWO62, limit)
  {
  }

  /** Doubling a capped value and capping again is capping the double. */
  lemma {:induction false} DoublingStep(d: nat, n: nat, limit: nat)
    ensures MinOf(2 * MinOf(d * Pow2(n), limit), limit) == MinOf(d * Pow2(n + 1), limit)
  {
    assert d * Pow2(n + 1) == 2 * (d * Pow2(n));
  }

  // ---------- reconnect ----------

  /** What one pass through the loop meets: a closed client, auto-reconnect turned off, a dial that works. */
  datatype Pass = Pass(closed: bool, disabled: bool, dialled: bool)

  /** StillTrying means the passes given ran out. */
  datatype Reconnected = Connected | ClientClosed | AutoReconnectDisabled | RetriesExhausted | StillTrying

  /** The value of `delay` when attempt k >= 2 is made; it stops changing once it is not positive. */
  function DelayBefore(initial: duration, backoff: bool, k: nat): duration
    requires k >= 2
  {
    if !backoff then 0
    else if k == 2 then initial
    else
      var previous := DelayBefore(initial, backoff, k - 1);
      if previous > 0 then DoubleCapped(previous, MAX_RECONNECT_DELAY) else previous
  }

  /** Sleeping for no time is not sleeping. */
  function Slept(d: duration): duration { if d > 0 then d else 0 }

  /** The loop of reconnect with the flag already taken; sleeps[i] is the pause before attempt i + 2. */
  method Reconnect(maxRetries: int, initial: duration, backoff: bool, passes: seq<Pass>)
    returns (r: Reconnected, attempts: nat, sleeps: seq<duration>)
    ensures attempts <= |passes| && (maxRetries > 0 ==> attempts <= maxRetries)
    ensures forall i :: 0 <= i < attempts ==> !passes[i].closed && !passes[i].disabled
    ensures forall i :: 0 <= i < attempts ==> (passes[i].dialled <==> r.Connected? && i == attempts - 1)
    ensures r.Connected? ==> attempts > 0
    ensures r.ClientClosed? ==> attempts < |passes| && passes[attempts].closed
    ensures r.AutoReconnectDisabled? ==> attempts < |passes| && !passes[attempts].closed && passes[attempts].disabled
    ensures r.RetriesExhausted? ==> maxRetries > 0 && attempts == maxRetries < |passes|
                                    && !passes[attempts].closed && !passes[attempts].disabled
    ensures r.StillTrying? ==> attempts == |passes|
    ensures maxRetries > 0 && |passes| > maxRetries ==> !r.StillTrying?
    ensures |sleeps| == (if attempts == 0 then 0 else attempts - 1)
    ensures forall i :: 0 <= i < |sleeps| ==> sleeps[i] == Slept(DelayBefore(initial, backoff, i + 2))
  {
    var delay: duration := if backoff then initial else 0;
    attempts, sleeps := 0, [];
    while attempts < |passes|
      invariant attempts <= |passes| && (maxRetries > 0 ==> attempts <= maxRetries)
      invariant forall i :: 0 <= i < attempts ==> !passes[i].closed && !passes[i].disabled && !passes[i].dialled
      invariant |sleeps| == (if attempts == 0 then 0 else attempts - 1)
      invariant forall i :: 0 <= i < |sleeps| ==> sleeps[i] == Slept(DelayBefore(initial, backoff, i + 2))
      invariant delay == DelayBefore(initial, backoff, if attempts == 0 then 2 else attempts + 1)
    {
      var pass := passes[attempts];
      if pass.closed {
        return ClientClosed, attempts, sleeps;
      }
      if pass.disabled {
        return AutoReconnectDisabled, attempts, sleeps;
      }
      if maxRetries > 0 && attempts >= maxRetries {
        return RetriesExhausted, attempts, sleeps;
      }
      attempts := attempts + 1;
      if attempts > 1 && delay > 0 {
        sleeps := sleeps + [delay];
        if backoff {
          delay := DoubleCapped(delay, MAX_RECONNECT_DELAY);
        }
      } else if attempts > 1 {
        sleeps := sleeps + [0];
      }
      if pass.dialled {
        return Connected, attempts, sleeps;
      }
    }
    return StillTrying, attempts, sleeps;
  }

  lemma {:induction false} NoDelayBefore(initial: duration, k: nat)
    requires initial <= 0 && k >= 2
    ensures DelayBefore(initial, true, k) == initial
  {
    if k > 2 {
      NoDelayBefore(initial, k - 1);
    }
  }

  /** The pause before attempt k, for every initial delay d: none if d is not positive; first d itself, even above
      the cap; then min(d * 2^(k-2), 30s), unless doubling d overflows, when there are no more pauses. */
  lemma {:induction false} ReconnectDelayIs(initial: duration, k: nat)
    requires k >= 2
    ensures Slept(DelayBefore(initial, true, k)) == (
              if initial <= 0 then 0
              else if k == 2 then initial
              else if initial < TWO62 then MinOf((initial as int) * Pow2(k - 2), MAX_RECONNECT_DELAY)
              else 0)
  {
    if initial <= 0 {
      NoDelayBefore(initial, k);
    } else if k == 3 {
      DoubleCappedExact(initial, MAX_RECONNECT_DELAY);
      assert Pow2(1) == 2;
    } else if k > 3 {
      ReconnectDelayIs(initial, k - 1);
      var previous := DelayBefore(initial, true, k - 1);
      if initial < TWO62 {
        PositivePower(initial, k - 3);
        DoubleCappedExact(previous, MAX_RECONNECT_DELAY);
        DoublingStep(initial, k - 3, MAX_RECONNECT_DELAY);
      }
    }
  }

  lemma {:induction false} PositivePower(d: int, n: nat)
    requires d > 0
    ensures d * Pow2(n) >= d
  {
    if n > 0 {
      PositivePower(d, n - 1);
      assert d * Pow2(n) == 2 * (d * Pow2(n - 1));
    }
  }

  /** No pause exceeds the cap, at any attempt, if and only if the configured delay does not. */
  lemma CappedWhen(initial: duration)
    ensures (forall k: nat :: k >= 2 ==> Slept(DelayBefore(initial, true, k)) <= MAX_RECONNECT_DELAY)
       <==> initial <= MAX_RECONNECT_DELAY
  {
    forall k: nat | k >= 2
      ensures initial <= MAX_RECONNECT_DELAY ==> Slept(DelayBefore(initial, true, k)) <= MAX_RECONNECT_DELAY
    {
      ReconnectDelayIs(initial, k);
    }
    assert DelayBefore(initial, true, 2) == initial;
  }

  // ---------- The retry interceptors ----------

  /** One call of the invoker; contextDone is ctx.Err() != nil right after it. */
  datatype Call<V, E> = Call(value: V, error: Option<E>, contextDone: bool)

  datatype Returned<V, E> =
    | Success(value: V)
    | ContextError(error: E)
    | NotRetried(value: V, error: E)
    | GaveUp(tries: int, last: Option<Call<V, E>>)

  /** A call after which no other is made. */
  predicate Final<V, E>(c: Call<V, E>, shouldRetry: E -> bool) {
    c.error.None? || c.contextDone || !shouldRetry(c.error.value)
  }

  /** What the interceptor returns for a final call. */
  function Verdict<V, E>(c: Call<V, E>, shouldRetry: E -> bool): Returned<V, E>
    requires Final(c, shouldRetry)
  {
    if c.error.None? then Success(c.value)
    else if c.contextDone then ContextError(c.error.value)
    else NotRetried(c.value, c.error.value)
  }

  /** Calls stop at the first final one, or after maxRetries + 1. */
  ghost predicate Stopped<V, E>(maxRetries: int, calls: nat -> Call<V, E>, shouldRetry: E -> bool, n: nat,
        r: Returned<V, E>) {
    && n <= (if maxRetries < 0 then 0 else maxRetries + 1)
    && (forall i: nat :: i < n - 1 ==> !Final(calls(i), shouldRetry))
    && (n > 0 && Final(calls(n - 1), shouldRetry) ==> r == Verdict(calls(n - 1), shouldRetry))
    && (n == 0 || !Final(calls(n - 1), shouldRetry) ==>
          && n == (if maxRetries < 0 then 0 else maxRetries + 1)
          && r == GaveUp(maxRetries + 1, if n == 0 then None else Some(calls(n - 1))))
  }

  /** What stopping means, call by call: a call is repeated only after an error outside a finished context that
      should be retried; the first call that succeeds, fails in a finished context, or fails with another error is
      the last, and decides the result; without one there are maxRetries + 1 calls and the last error is wrapped. */
  lemma StoppedMeans<V, E>(maxRetries: int, calls: nat -> Call<V, E>, shouldRetry: E -> bool, n: nat,
        r: Returned<V, E>)
    requires Stopped(maxRetries, calls, shouldRetry, n, r)
    ensures forall i: nat :: i < n - 1 ==>
              calls(i).error.Some? && !calls(i).contextDone && shouldRetry(calls(i).error.value)
    ensures n > 0 && calls(n - 1).error.None? ==> r == Success(calls(n - 1).value)
    ensures n > 0 && calls(n - 1).error.Some? && calls(n - 1).contextDone ==>
              r == ContextError(calls(n - 1).error.value)
    ensures n > 0 && calls(n - 1).error.Some? && !calls(n - 1).contextDone ==>
              if shouldRetry(calls(n - 1).error.value)
              then n == maxRetries + 1 && r == GaveUp(maxRetries + 1, Some(calls(n - 1)))
              else r == NotRetried(calls(n - 1).value, calls(n - 1).error.value)
    ensures n <= (if maxRetries < 0 then 0 else maxRetries + 1) && (n == 0 ==> maxRetries < 0)
  {
  }

  /** RetryInterceptorConditional; RetryInterceptor is the same loop with every error retried. */
  method RetryConditional<V, E>(maxRetries: int, delay: duration, shouldRetry: E -> bool, calls: nat -> Call<V, E>)
    returns (r: Returned<V, E>, n: nat, sleeps: seq<duration>)
    ensures Stopped(maxRetries, calls, shouldRetry, n, r)
    ensures |sleeps| == (if n == 0 then 0 else n - 1) && forall i :: 0 <= i < |sleeps| ==> sleeps[i] == delay
  {
    n, sleeps := 0, [];
    var last: Option<Call<V, E>> := None;
    var attempt := 0;
    while attempt <= maxRetries
      invariant 0 <= attempt == n && (attempt > 0 ==> attempt <= maxRetries + 1)
      invariant forall i: nat :: i < n ==> !Final(calls(i), shouldRetry)
      invariant last == if n == 0 then None else Some(calls(n - 1))
      invariant |sleeps| == (if attempt <= maxRetries then n else if n == 0 then 0 else n - 1)
      invariant forall i :: 0 <= i < |sleeps| ==> sleeps[i] == delay
      decreases maxRetries + 1 - attempt
    {
      var c := calls(attempt);
      n, last := n + 1, Some(c);
      if c.error.None? {
        return Success(c.value), n, sleeps;
      }
      if c.contextDone {
        return ContextError(c.error.value), n, sleeps;
      }
      if !shouldRetry(c.error.value) {
        return NotRetried(c.value, c.error.value), n, sleeps;
      }
      if attempt < maxRetries {
        sleeps := sleeps + [delay];
      }
      attempt := attempt + 1;
    }
    return GaveUp(maxRetries + 1, last), n, sleeps;
  }

  /** The pause after call i. */
  function RetryDelay(initial: duration, limit: duration, i: nat): duration {
    if i == 0 then initial else DoubleCapped(RetryDelay(initial, limit, i - 1), limit)
  }

  /** The first n pauses. */
  function RetryDelays(initial: duration, limit: duration, n: nat): (ds: seq<duration>)
    ensures |ds| == n
  {
    seq<duration>(n, i requires 0 <= i < n => RetryDelay(initial, limit, i))
  }

  function Always<E>(): E -> bool { _ => true }

  method RetryWithBackoff<V, E>(maxRetries: int, initial: duration, limit: duration, calls: nat -> Call<V, E>)
    returns (r: Returned<V, E>, n: nat, sleeps: seq<duration>)
    ensures Stopped(maxRetries, calls, Always(), n, r)
    ensures sleeps == RetryDelays(initial, limit, if n == 0 then 0 else n - 1)
  {
    n, sleeps := 0, [];
    var last: Option<Call<V, E>> := None;
    var delay := initial;
    var attempt := 0;
    while attempt <= maxRetries
      invariant 0 <= attempt == n && (attempt > 0 ==> attempt <= maxRetries + 1)
      invariant forall i: nat :: i < n ==> calls(i).error.Some? && !calls(i).contextDone
      invariant last == if n == 0 then None else Some(calls(n - 1))
      invariant sleeps == RetryDelays(initial, limit, if attempt <= maxRetries then n else if n == 0 then 0 else n - 1)
      invariant attempt <= maxRetries ==> delay == RetryDelay(initial, limit, attempt)
      decreases maxRetries + 1 - attempt
    {
      var c := calls(attempt);
      n, last := n + 1, Some(c);
      if c.error.None? {
        return Success(c.value), n, sleeps;
      }
      if c.contextDone {
        return ContextError(c.error.value), n, sleeps;
      }
      if attempt < maxRetries {
        assert RetryDelays(initial, limit, n) == sleeps + [delay];
        sleeps := sleeps + [delay];
        delay := DoubleCapped(delay, limit);
      }
      attempt := attempt + 1;
    }
    return GaveUp(maxRetries + 1, last), n, sleeps;
  }

  /** The same recurrence with its own cap: the pause after call i >= 1 is min(d * 2^i, limit). */
  lemma {:induction false} RetryDelayIs(initial: duration, limit: duration, i: nat)
    requires 0 <= initial < TWO62 && 0 <= limit < TWO62
    ensures RetryDelay(initial, limit, i) == if i == 0 then initial else MinOf((initial as int) * Pow2(i), limit)
  {
    if i == 1 {
      DoubleCappedExact(initial, limit);
      assert Pow2(1) == 2;
    } else if i > 1 {
      RetryDelayIs(initial, limit, i - 1);
      NonNegativePower(initial, i - 1);
      DoubleCappedExact(RetryDelay(initial, limit, i - 1), limit);
      DoublingStep(initial, i - 1, limit);
    }
  }

  lemma {:induction false} NonNegativePower(d: int, n: nat)
    requires d >= 0
    ensures d * Pow2(n) >= 0
  {
    if n > 0 {
      NonNegativePower(d, n - 1);
      assert d * Pow2(n) == 2 * (d * Pow2(n - 1));
    }
  }

  /** Below an overflowing cap the delay keeps doubling, and so passes 2^62 at some call. */
  lemma GrowsPast(initial: duration, limit: duration, i: nat) returns (j: nat)
    requires limit >= TWO62 && RetryDelay(initial, limit, i) > 0
    ensures RetryDelay(initial, limit, j) >= TWO62
    decreases TWO62 - RetryDelay(initial, limit, i)
  {
    if RetryDelay(initial, limit, i) >= TWO62 {
      return i;
    }
    DoubleCappedExact(RetryDelay(initial, limit, i), limit);
    j := GrowsPast(initial, limit, i + 1);
  }

  /** The pause the formula gives after call i. */
  function FormulaPause(initial: duration, limit: duration, i: nat): int {
    var d := MinOf((initial as int) * Pow2(i), limit);
    if d > 0 then d else 0
  }

  /** No pause after call i at all, or a wrong one, once the delay before it was 2^62 or more. */
  lemma OverflowBreaksFormula(initial: duration, limit: duration, i: nat)
    requires initial > 0 && limit > 0 && RetryDelay(initial, limit, i) >= TWO62
    ensures Slept(RetryDelay(initial, limit, i + 1)) != FormulaPause(initial, limit, i + 1)
  {
    DoubleCappedExact(RetryDelay(initial, limit, i), limit);
    PositivePower(initial, i + 1);
  }

  /** With no cap above 0 there are no pauses after the first. */
  lemma NoCapNoPauses(initial: duration, limit: duration, i: nat)
    requires limit <= 0 && i >= 1
    ensures Slept(RetryDelay(initial, limit, i)) == 0 == FormulaPause(initial, limit, i)
  {
  }

  lemma {:induction false} NoDelayNoPauses(limit: duration, i: nat)
    requires limit > 0
    ensures RetryDelay(0, limit, i) == 0 && FormulaPause(0, limit, i) == 0
  {
    if i > 0 {
      NoDelayNoPauses(limit, i - 1);
      DoubleCappedExact(0, limit);
    }
  }

  // ---------- Negative delays ----------

  predicate MinusPower(d: int, k: nat) { k <= 63 && d == -(Pow2(k) as int) }

  ghost predicate IsMinusPower(d: int) { exists k: nat :: MinusPower(d, k) }

  lemma Pow2Of63()
    ensures Pow2(62) == TWO62 && Pow2(63) == 2 * TWO62
  {
    Pow2Sum(31, 31);
    assert Pow2(31) == 0x8000_0000 by {
      Pow2Sum(16, 15);
      Pow2Sum(8, 8);
      Pow2Sum(8, 7);
      assert Pow2(7) == 128;
    }
  }

  lemma {:induction false} Pow2Sum(a: nat, b: nat)
    ensures Pow2(a + b) == Pow2(a) * Pow2(b)
  {
    if a > 0 {
      Pow2Sum(a - 1, b);
      assert Pow2(a) * Pow2(b) == 2 * (Pow2(a - 1) * Pow2(b));
    }
  }

  lemma {:induction false} Pow2Grows(a: nat, b: nat)
    requires a < b
    ensures Pow2(a) < Pow2(b)
    decreases b
  {
    if a > 0 {
      Pow2Grows(a - 1, b - 1);
    } else if b > 1 {
      Pow2Grows(a, b - 1);
    }
  }

  lemma LeastIsMinusPower()
    ensures IsMinusPower(-2 * TWO62)
  {
    Pow2Of63();
    assert MinusPower(-2 * TWO62, 63);
  }

  /** int64 doubling of a negative delay: exact down to -2^62, then it wraps. */
  lemma NegativeDoubling(d: duration, limit: duration)
    requires d < 0 < limit
    ensures DoubleCapped(d, limit) == if d >= -TWO62 then 2 * (d as int) else MinOf(2 * (d as int) + 4 * TWO62, limit)
  {
  }

  /** A delay of minus a power of two doubles to -2^63 and then to 0, and stays there: never a pause. */
  lemma {:induction false} MinusPowerNeverPauses(initial: duration, limit: duration, i: nat)
    requires initial < 0 < limit && IsMinusPower(initial)
    ensures RetryDelay(initial, limit, i) == 0 || IsMinusPower(RetryDelay(initial, limit, i))
    ensures RetryDelay(initial, limit, i) <= 0
  {
    if i > 0 {
      MinusPowerNeverPauses(initial, limit, i - 1);
      var d := RetryDelay(initial, limit, i - 1);
      if d == 0 {
        DoubleCappedExact(0, limit);
      } else {
        var k: nat :| MinusPower(d, k);
        MinusPowerDoubles(d, k, limit);
      }
    }
  }

  lemma MinusPowerDoubles(d: duration, k: nat, limit: duration)
    requires d < 0 < limit && MinusPower(d, k)
    ensures DoubleCapped(d, limit) == 0 || (DoubleCapped(d, limit) < 0 && MinusPower(DoubleCapped(d, limit), k + 1))
  {
    Pow2Of63();
    NegativeDoubling(d, limit);
    if k <= 62 {
      if k < 62 { Pow2Grows(k, 62); }
      assert Pow2(k + 1) == 2 * Pow2(k);
    }
  }

  /** Any other negative delay wraps, at some call, to a pause. */
  lemma {:induction false} OtherNegativePauses(initial: duration, limit: duration, i: nat) returns (j: nat)
    requires limit > 0 && RetryDelay(initial, limit, i) < 0 && !IsMinusPower(RetryDelay(initial, limit, i))
    ensures j >= 1 && RetryDelay(initial, limit, j) > 0
    decreases 2 * TWO62 + RetryDelay(initial, limit, i)
  {
    var d := RetryDelay(initial, limit, i);
    NegativeDoubling(d, limit);
    if d < -TWO62 {
      LeastIsMinusPower();
      return i + 1;
    }
    if IsMinusPower(2 * (d as int)) {
      HalfOfMinusPower(d);
    }
    j := OtherNegativePauses(initial, limit, i + 1);
  }

  lemma HalfOfMinusPower(d: int)
    requires d < 0 && IsMinusPower(2 * d)
    ensures IsMinusPower(d)
  {
    var k: nat :| MinusPower(2 * d, k);
    assert MinusPower(d, k - 1);
  }

  /** For every delay and cap, negative ones included, the pause after each later call is min(d * 2^i, cap), or
      none if that is not positive, if and only if doubling never goes wrong: there is no positive cap, the
      delay is 0, delay and cap are both below 2^62 nanoseconds, or the delay is minus a power of two. */
  lemma RetryDelayIsWhen(initial: duration, limit: duration)
    ensures (forall i: nat :: i >= 1 ==> Slept(RetryDelay(initial, limit, i)) == FormulaPause(initial, limit, i))
       <==> || limit <= 0 || initial == 0
            || (0 < initial < TWO62 && limit < TWO62)
            || (initial < 0 && IsMinusPower(initial))
  {
    if limit <= 0 {
      forall i: nat | i >= 1 ensures Slept(RetryDelay(initial, limit, i)) == FormulaPause(initial, limit, i) {
        NoCapNoPauses(initial, limit, i);
      }
    } else if initial == 0 {
      forall i: nat ensures Slept(RetryDelay(initial, limit, i)) == FormulaPause(initial, limit, i) {
        NoDelayNoPauses(limit, i);
      }
    } else if initial < 0 {
      NegativeDelayIsWhen(initial, limit);
    } else {
      PositiveDelayIsWhen(initial, limit);
    }
  }

  lemma PositiveDelayIsWhen(initial: duration, limit: duration)
    requires initial > 0 && limit > 0
    ensures (forall i: nat :: i >= 1 ==> Slept(RetryDelay(initial, limit, i)) == FormulaPause(initial, limit, i))
       <==> initial < TWO62 && limit < TWO62
  {
    if initial < TWO62 && limit < TWO62 {
      forall i: nat | i >= 1 ensures Slept(RetryDelay(initial, limit, i)) == FormulaPause(initial, limit, i) {
        RetryDelayIs(initial, limit, i);
      }
    } else if initial >= TWO62 {
      OverflowBreaksFormula(initial, limit, 0);
    } else {
      var j := GrowsPast(initial, limit, 0);
      OverflowBreaksFormula(initial, limit, j);
    }
  }

  lemma NegativeDelayIsWhen(initial: duration, limit: duration)
    requires initial < 0 < limit
    ensures (forall i: nat :: i >= 1 ==> Slept(RetryDelay(initial, limit, i)) == FormulaPause(initial, limit, i))
       <==> IsMinusPower(initial)
  {
    forall i: nat ensures FormulaPause(initial, limit, i) == 0 {
      PositivePower(-(initial as int), i);
      assert (initial as int) * Pow2(i) == -(-(initial as int) * Pow2(i));
    }
    if IsMinusPower(initial) {
      forall i: nat ensures Slept(RetryDelay(initial, limit, i)) == 0 {
        MinusPowerNeverPauses(initial, limit, i);
      }
    } else {
      var j := OtherNegativePauses(initial, limit, 0);
      assert Slept(RetryDelay(initial, limit, j)) != FormulaPause(initial, limit, j);
    }
  }

  /** No pause of the retry interceptor exceeds its cap if and only if the initial delay does not: like the
      reconnect loop it does not cap the first pause. */
  lemma RetryCappedWhen(initial: duration, limit: duration)
    ensures (forall i: nat :: Slept(RetryDelay(initial, limit, i)) <= Slept(limit)) <==> initial <= Slept(limit)
  {
    forall i: nat ensures i >= 1 ==> RetryDelay(initial, limit, i) <= limit {
    }
    assert RetryDelay(initial, limit, 0) == initial;
  }
}
