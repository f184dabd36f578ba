/** The bounded retry loop of the proxy. */
module Retry {
  import opened Responses
  import Int64
  import FailureRate
  import Composite

  /** Bad Gateway, Service Unavailable and Gateway Timeout (sections 15.6.3 to 15.6.5 of RFC 9110). */
  predicate IsRetryable(status: int) {
    status == 502 || status == 503 || status == 504
  }

  function MaxAttempts(retryAttempts: int): (n: nat)
    ensures n >= 1
  {
    if retryAttempts + 1 < 1 then 1 else retryAttempts + 1
  }

  /** The attempt whose response is delivered: the first one, from `a` on, that is not retryable, or the last. */
  function Decisive(backend: nat -> seq<Op>, n: nat, a: nat): (k: nat)
    requires 1 <= a <= n
    ensures a <= k <= n
    decreases n - a
  {
    if a == n || !IsRetryable(StatusOf(backend(a))) then a else Decisive(backend, n, a + 1)
  }

  /** It is the minimum of the first non-retryable attempt and the attempt limit. */
  lemma {:induction false} DecisiveIsMinimum(backend: nat -> seq<Op>, n: nat, a: nat)
    requires 1 <= a <= n
    ensures var k := Decisive(backend, n, a);
            && (forall i: nat | a <= i < k :: IsRetryable(StatusOf(backend(i))))
            && (k < n ==> !IsRetryable(StatusOf(backend(k))))
    decreases n - a
  {
    if a < n && IsRetryable(StatusOf(backend(a))) {
      DecisiveIsMinimum(backend, n, a + 1);
    }
  }

  /** In statuses: attempt `k` is the one delivered exactly when every earlier one answered 502, 503 or 504 and
      `k` either answered something else or is the last that the configured retries allow. */
  lemma DeliveredExactlyWhen(backend: nat -> seq<Op>, retryAttempts: int, k: nat)
    requires k >= 1
    ensures Decisive(backend, MaxAttempts(retryAttempts), 1) == k <==>
      var retries := if retryAttempts > 0 then retryAttempts else 0;
      && k <= retries + 1
      && (forall a: nat | 1 <= a < k :: StatusOf(backend(a)) in {502, 503, 504})
      && (k == retries + 1 || StatusOf(backend(k)) !in {502, 503, 504})
  {
    var d := Decisive(backend, MaxAttempts(retryAttempts), 1);
    DecisiveIsMinimum(backend, MaxAttempts(retryAttempts), 1);
    assert d < k ==> 1 <= d;
  }

  /** The first attempt in [a, k] that finds the request cancelled, or k + 1. */
  function FirstCancelled(cancelled: nat -> bool, k: nat, a: nat): (c: nat)
    requires a <= k + 1
    ensures a <= c <= k + 1
    decreases k + 1 - a
  {
    if a == k + 1 || cancelled(a) then a else FirstCancelled(cancelled, k, a + 1)
  }

  lemma {:induction false} FirstCancelledIsFirst(cancelled: nat -> bool, k: nat, a: nat)
    requires a <= k + 1
    ensures var c := FirstCancelled(cancelled, k, a);
            (forall i: nat | a <= i < c :: !cancelled(i)) && (c <= k ==> cancelled(c))
    decreases k + 1 - a
  {
    if a <= k && !cancelled(a) {
      FirstCancelledIsFirst(cancelled, k, a + 1);
    }
  }

  const MILLISECOND: int := 1_000_000
  const REQUEST_CANCELLED: string := "request cancelled"

  function Pow2(n: nat): (p: nat)
    ensures p >= 1
  {
    if n == 0 then 1 else 2 * Pow2(n - 1)
  }

  /** `time.Duration(100*(1<<(attempt-1))) * time.Millisecond` in int64 arithmetic. */
  function Backoff(attempt: nat): int
    requires attempt >= 1
  {
    Int64.Wrap(Int64.Wrap(100 * Int64.Wrap(Pow2(attempt - 1))) * MILLISECOND)
  }

  function Backoffs(n: nat): seq<int> {
    if n == 0 then [] else Backoffs(n - 1) + [Backoff(n)]
  }

  function Repeat(b: bool, n: nat): seq<bool> {
    if n == 0 then [] else Repeat(b, n - 1) + [b]
  }

  /** The gateway's own 504 body. */
  function CancelReply(w: Wire): Wire {
    var c := Commit(w.(headers := w.headers["Content-Type" := ["application/json"]]), 504);
    c.(body := c.body + REQUEST_CANCELLED)
  }

  /** How a response reaches the client: straight through on the last attempt, replayed on an earlier one. */
  function Delivery(w: Wire, latency: string, ops: seq<Op>, isFinal: bool): Wire {
    if isFinal then Direct(w, latency, ops) else Replay(w, latency, Buffered(ops))
  }

  /** What the client has once the handler is done: the response `ops` and nothing of any other. A replay brings
      every header value, direct delivery those added before the status went out. */
  ghost predicate ReceivesExactly(before: Wire, after: Wire, ops: seq<Op>, direct: bool) {
    var d := Finish(after);
    && d.sent && d.status == StatusOf(ops) && d.body == before.body + BodyOf(ops)
    && forall key | key != LATENCY ::
         Get(d.sentHeaders, key) == Get(before.headers, key) + Values(ops, key, direct)
  }

  ghost predicate ReceivesCancellation(before: Wire, after: Wire) {
    var d := Finish(after);
    && d.sent && d.status == 504 && d.body == before.body + REQUEST_CANCELLED
    && d.sentHeaders == before.headers["Content-Type" := ["application/json"]]
  }

  /** Either path delivers exactly one response, a cancellation exactly the 504. */
  lemma ExactlyOneResponse(w: Wire, latency: string, ops: seq<Op>, isFinal: bool)
    requires !w.sent
    ensures ReceivesExactly(w, Delivery(w, latency, ops, isFinal), ops, isFinal)
    ensures ReceivesCancellation(w, CancelReply(w))
  {
    var d := Finish(Delivery(w, latency, ops, isFinal));
    ReplayEqualsDirect(w, latency, ops, "");
    forall key | key != LATENCY
      ensures Get(d.sentHeaders, key) == Get(w.headers, key) + Values(ops, key, isFinal)
    {
      ReplayEqualsDirect(w, latency, ops, key);
    }
  }

  /** The loop of `ServeHTTP`. `backend(a)` is what the backend would answer on attempt `a`, `cancelled(a)`
      whether the request context is done when attempt `a` starts. `records` lists what the breaker is told
      (true for a failure), `waits` the sleeps in nanoseconds. */
  method ServeAttempts(rec: ResponseRecorder, buf: ResponseBuffer, backend: nat -> seq<Op>,
                       cancelled: nat -> bool, retryAttempts: int, latency: string)
    returns (contacts: nat, records: seq<bool>, waits: seq<int>)
    requires !rec.wire.sent && !rec.written && rec.statusCode == OK
    modifies rec, buf
    ensures
      var n := MaxAttempts(retryAttempts);
      var k := Decisive(backend, n, 1);
      var c := FirstCancelled(cancelled, k, 1);
      if c <= k then
        && contacts == c - 1 && records == Repeat(true, c - 1) && waits == Backoffs(c - 1)
        && rec.wire == CancelReply(old(rec.wire)) && ReceivesCancellation(old(rec.wire), rec.wire)
      else
        && contacts == k && waits == Backoffs(k - 1)
        && records == Repeat(true, k - 1) + [StatusOf(backend(k)) in {502, 503, 504}]
        && rec.statusCode == StatusOf(backend(k))
        && rec.wire == Delivery(old(rec.wire), latency, backend(k), k == n)
        && ReceivesExactly(old(rec.wire), rec.wire, backend(k), k == n)
  {
    contacts, records, waits := 0, [], [];
    var maxAttempts := MaxAttempts(retryAttempts);
    ghost var k := Decisive(backend, maxAttempts, 1);
    ghost var c := FirstCancelled(cancelled, k, 1);
    var attempt: nat := 1;
    while attempt <= maxAttempts
      invariant 1 <= attempt <= k <= maxAttempts && attempt <= c
      invariant k == Decisive(backend, maxAttempts, attempt)
      invariant c == FirstCancelled(cancelled, k, attempt)
      invariant contacts == attempt - 1 && records == Repeat(true, attempt - 1) && waits == Backoffs(attempt - 1)
      invariant rec.wire == old(rec.wire) && !rec.written && rec.statusCode == OK
      decreases maxAttempts - attempt
    {
      if cancelled(attempt) {
        assert c == attempt;
        ExactlyOneResponse(rec.wire, latency, [], false);
        rec.wire := CancelReply(rec.wire);
        return;
      }
      assert c == FirstCancelled(cancelled, k, attempt + 1);
      contacts := contacts + 1;
      ExactlyOneResponse(rec.wire, latency, backend(attempt), attempt == maxAttempts);
      var failed, done := TryOnce(rec, buf, backend(attempt), attempt == maxAttempts, latency);
      records := records + [failed];
      if done {
        assert k == attempt < c;
        return;
      }
      waits := waits + [Backoff(attempt)];
      attempt := attempt + 1;
    }
  }

  /** One contact with the backend: the last attempt writes straight to the client, an earlier one is
      buffered and only replayed if its status is not retryable. */
  method TryOnce(rec: ResponseRecorder, buf: ResponseBuffer, ops: seq<Op>, isFinal: bool, latency: string)
    returns (failed: bool, done: bool)
    requires !rec.wire.sent && !rec.written && rec.statusCode == OK
    modifies rec, buf
    ensures failed == (StatusOf(ops) in {502, 503, 504})
    ensures done == (isFinal || !failed)
    ensures done ==> rec.statusCode == StatusOf(ops)
    ensures done ==> rec.wire == Delivery(old(rec.wire), latency, ops, isFinal)
    ensures !done ==> rec.wire == old(rec.wire) && !rec.written && rec.statusCode == OK
  {
    if isFinal {
      rec.Relay(latency, ops);
      return IsRetryable(rec.statusCode), true;
    }
    buf.Reset();
    buf.Capture(ops);
    BufferedMeaning(ops, "");
    if !IsRetryable(buf.statusCode) {
      buf.ReplayTo(rec, latency);
      return false, true;
    }
    return true, false;
  }

  // ---------- One request can open the breaker ----------

  /** What the stack is told about the attempts, the first of them being attempt 1. */
  function Reported(records: seq<bool>, latency: nat -> int, now: nat -> int): seq<Composite.Call> {
    if records == [] then [] else
    var a := |records|;
    Reported(records[..a - 1], latency, now)
    + [if records[a - 1] then Composite.Failed(latency(a), now(a)) else Composite.Succeeded(latency(a), now(a))]
  }

  lemma {:induction false} FailuresReported(cfg: Composite.Config, m: nat, latency: nat -> int, now: nat -> int)
    ensures |Repeat(true, m)| == m
    ensures var calls := Reported(Repeat(true, m), latency, now);
            && |calls| == m && (forall i | 0 <= i < m :: calls[i].Failed?)
            && Composite.Harmful(cfg, calls) == m
  {
    if m > 0 {
      FailuresReported(cfg, m - 1, latency, now);
      assert Repeat(true, m)[..m - 1] == Repeat(true, m - 1);
      var calls := Reported(Repeat(true, m), latency, now);
      assert calls[..m - 1] == Reported(Repeat(true, m - 1), latency, now);
    }
  }

  /** Failures leave an open stack open. */
  lemma {:induction false} StaysOpen(s: Composite.Stack, calls: seq<Composite.Call>, j: nat)
    requires Composite.ValidConfig(s.config) && forall i | 0 <= i < |calls| :: calls[i].Failed?
    requires j <= |calls| && Composite.RunStack(s, calls[..j]).core.phase == FailureRate.Open
    ensures Composite.RunStack(s, calls).core.phase == FailureRate.Open
  {
    if j == |calls| {
      assert calls[..j] == calls;
    } else {
      var before := calls[..|calls| - 1];
      assert before[..j] == calls[..j];
      StaysOpen(s, before, j);
    }
  }

  lemma FailedCallsOpen(s: Composite.Stack, calls: seq<Composite.Call>)
    requires Composite.ValidConfig(s.config) && s.core.phase == FailureRate.Closed
    requires s.core.settings.window > 0 && s.core.settings.threshold <= 1.0
    requires forall i | 0 <= i < |calls| :: calls[i].Failed?
    requires Composite.Harmful(s.config, calls) >= s.core.settings.window
    ensures Composite.RunStack(s, calls).core.phase == FailureRate.Open
  {
    Composite.FullWindowOfHarmOpens(s, calls);
    var j: nat :| j <= |calls| && Composite.RunStack(s, calls[..j]).core.phase == FailureRate.Open;
    StaysOpen(s, calls, j);
  }

  /** Every attempt is to be retried and none finds the request cancelled. */
  ghost predicate AllFail(backend: nat -> seq<Op>, cancelled: nat -> bool, n: nat) {
    forall a: nat | 1 <= a <= n :: StatusOf(backend(a)) in {502, 503, 504} && !cancelled(a)
  }

  lemma AllFailExhausts(backend: nat -> seq<Op>, cancelled: nat -> bool, n: nat)
    requires n >= 1 && AllFail(backend, cancelled, n)
    ensures Decisive(backend, n, 1) == n && FirstCancelled(cancelled, n, 1) == n + 1
  {
    DecisiveIsMinimum(backend, n, 1);
    FirstCancelledIsFirst(cancelled, n, 1);
  }

  /** The loop asks the breaker once and reports every attempt. A request whose attempts all fail is sent to the
      backend as often as configured, and the closed stack it met is open as soon as the reports fill the
      window: from then on the loop contacts a backend that every other request is kept away from. */
  lemma OneRequestOpens(s: Composite.Stack, backend: nat -> seq<Op>, cancelled: nat -> bool, retryAttempts: int,
                        latency: nat -> int, now: nat -> int, m: nat)
    requires Composite.ValidConfig(s.config) && s.core.phase == FailureRate.Closed
    requires s.core.settings.window > 0 && s.core.settings.threshold <= 1.0
    requires AllFail(backend, cancelled, MaxAttempts(retryAttempts))
    requires s.core.settings.window <= m <= MaxAttempts(retryAttempts)
    ensures var n := MaxAttempts(retryAttempts); Decisive(backend, n, 1) == n && FirstCancelled(cancelled, n, 1) == n + 1
    ensures Composite.RunStack(s, Reported(Repeat(true, m), latency, now)).core.phase == FailureRate.Open
  {
    AllFailExhausts(backend, cancelled, MaxAttempts(retryAttempts));
    FailuresReported(s.config, m, latency, now);
    FailedCallsOpen(s, Reported(Repeat(true, m), latency, now));
  }

  // ---------- Backoff arithmetic ----------

  lemma {:induction false} Pow2Monotone(m: nat, n: nat)
    requires m <= n
    ensures Pow2(m) <= Pow2(n)
  {
    if m < n {
      Pow2Monotone(m, n - 1);
    }
  }

  lemma Pow2At()
    ensures Pow2(36) == 0x10_0000_0000 && Pow2(37) == 0x20_0000_0000
  {
    assert Pow2(6) == 64;
    assert Pow2(12) == 4096;
    assert Pow2(18) == 0x4_0000;
    assert Pow2(24) == 0x100_0000;
    assert Pow2(30) == 0x4000_0000;
    assert Pow2(36) == 0x10_0000_0000;
  }

  /** A wait is the intended 100 ms times a power of two exactly for the first 37 attempts; the 38th
      product no longer fits int64. */
  lemma BackoffIsExact(attempt: nat)
    requires attempt >= 1
    ensures Backoff(attempt) == 100 * Pow2(attempt - 1) * MILLISECOND <==> attempt <= 37
  {
    Pow2At();
    if attempt <= 37 {
      Pow2Monotone(attempt - 1, 36);
    } else {
      Pow2Monotone(37, attempt - 1);
    }
  }

  /** Every wait a route can incur is exact if and only if it is configured with at most 37 retries. */
  lemma WaitsAreExact(retryAttempts: int)
    ensures (forall a: nat | 1 <= a < MaxAttempts(retryAttempts) :: Backoff(a) == 100 * Pow2(a - 1) * MILLISECOND)
       <==> retryAttempts <= 37
  {
    if retryAttempts <= 37 {
      forall a: nat | 1 <= a < MaxAttempts(retryAttempts)
        ensures Backoff(a) == 100 * Pow2(a - 1) * MILLISECOND
      {
        BackoffIsExact(a);
      }
    } else {
      BackoffIsExact(38);
      assert 1 <= 38 < MaxAttempts(retryAttempts);
    }
  }

  function Sum(s: seq<int>): int {
    if s == [] then 0 else Sum(s[..|s| - 1]) + s[|s| - 1]
  }

  /** Total sleep before attempt `n + 1`: 100 * (2^n - 1) ms. */
  lemma {:induction false} TotalBackoff(n: nat)
    requires n <= 37
    ensures Sum(Backoffs(n)) == 100 * (Pow2(n) - 1) * MILLISECOND
  {
    if n > 0 {
      TotalBackoff(n - 1);
      BackoffIsExact(n);
      assert Backoffs(n)[..|Backoffs(n)| - 1] == Backoffs(n - 1);
    }
  }
}
