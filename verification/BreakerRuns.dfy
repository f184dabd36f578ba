/** Safety of the failure-rate breaker over whole runs. */
module BreakerRuns {
  import opened SlidingWindow
  import opened FailureRate

  /** The state reached from `c` after all of `ev`. */
  function Run(c: Core, ev: seq<Event>): Core {
    if ev == [] then c else Apply(Run(c, ev[..|ev| - 1]), ev[|ev| - 1])
  }

  /** The state before the `k`-th event. */
  function At(c: Core, ev: seq<Event>, k: nat): Core
    requires k <= |ev|
  {
    Run(c, ev[..k])
  }

  lemma AtStep(c: Core, ev: seq<Event>, k: nat)
    requires k < |ev|
    ensures At(c, ev, k + 1) == Apply(At(c, ev, k), ev[k])
  {
    assert ev[..k + 1][..k] == ev[..k];
  }

  /** No hot reload: the parameters other than the threshold stay fixed. */
  predicate Steady(ev: seq<Event>) {
    forall i | 0 <= i < |ev| :: !ev[i].Reconfig?
  }

  /** No hot reload and no operator reset. */
  predicate Unforced(ev: seq<Event>) {
    Steady(ev) && forall i | 0 <= i < |ev| :: !ev[i].Reset?
  }

  /** The threshold stays fixed too. */
  predicate FixedThreshold(ev: seq<Event>) {
    Steady(ev) && forall i | 0 <= i < |ev| :: !ev[i].SetThreshold?
  }

  function Successes(ev: seq<Event>): nat {
    if ev == [] then 0 else Successes(ev[..|ev| - 1]) + if ev[|ev| - 1].Success? then 1 else 0
  }

  /** Window size, reset timeout and probe quota never change inside a run. */
  lemma {:induction false} ParametersFixed(c: Core, ev: seq<Event>, k: nat)
    requires Steady(ev) && k <= |ev|
    ensures At(c, ev, k).settings.window == c.settings.window
    ensures At(c, ev, k).settings.resetTimeout == c.settings.resetTimeout
    ensures At(c, ev, k).settings.halfOpenMax == c.settings.halfOpenMax
    ensures FixedThreshold(ev) ==> At(c, ev, k).settings == c.settings
  {
    if k > 0 {
      ParametersFixed(c, ev, k - 1);
      AtStep(c, ev, k - 1);
    }
  }

  // ---------- What the outcome log is ----------

  /** Step `i - 1` cleared the window: it entered Closed, or a reload changed the window size. */
  predicate Clears(c: Core, ev: seq<Event>, i: nat)
    requires 0 < i <= |ev|
  {
    || (At(c, ev, i).phase == Closed && At(c, ev, i - 1).phase != Closed)
    || (ev[i - 1].Reconfig? && ev[i - 1].s.window != At(c, ev, i - 1).settings.window)
  }

  /** The latest step after which the window was cleared, or the start. */
  function ClearedAt(c: Core, ev: seq<Event>, i: nat): (j: nat)
    requires i <= |ev|
    ensures j <= i
  {
    if i == 0 then 0 else if Clears(c, ev, i) then i else ClearedAt(c, ev, i - 1)
  }

  /** What event `e` adds to the log: its outcome, if the breaker is closed. */
  function Added(c: Core, e: Event): seq<bool> {
    if c.phase == Closed && (e.Success? || e.Failure?) then [e.Failure?] else []
  }

  lemma LogStep(c: Core, e: Event)
    ensures var d := Apply(c, e);
            d.log == if (d.phase == Closed && c.phase != Closed) || (e.Reconfig? && e.s.window != c.settings.window)
                     then [] else c.log + Added(c, e)
  {
  }

  /** Outcomes reported at steps j..i-1 while the breaker was closed, oldest first. */
  function Recorded(c: Core, ev: seq<Event>, j: nat, i: nat): seq<bool>
    requires j <= i <= |ev|
    decreases i
  {
    if j == i then [] else
    Recorded(c, ev, j, i - 1) + Added(At(c, ev, i - 1), ev[i - 1])
  }

  /** The window is made of the newest outcomes recorded since it was last cleared, and of nothing older,
      after any mix of outcomes, requests, resets, threshold changes and resizes. */
  lemma {:induction false} WindowHoldsNewestOutcomes(s: Settings, ev: seq<Event>, i: nat)
    requires i <= |ev|
    ensures At(Fresh(s), ev, i).log == Recorded(Fresh(s), ev, ClearedAt(Fresh(s), ev, i), i)
  {
    if i > 0 {
      WindowHoldsNewestOutcomes(s, ev, i - 1);
      AtStep(Fresh(s), ev, i - 1);
      LogStep(At(Fresh(s), ev, i - 1), ev[i - 1]);
    }
  }

  // ---------- Recovery: closing takes exactly the configured number of probes ----------

  /** From the entry into HalfOpen at step `j` up to (not including) step `i`, the breaker stayed
      half-open, saw no failure, and counted every success. */
  ghost predicate ProbingSince(c: Core, ev: seq<Event>, j: nat, i: nat) {
    && j < i <= |ev|
    && At(c, ev, j).phase == Open
    && (forall m: nat | j < m <= i :: At(c, ev, m).phase == HalfOpen)
    && (forall m | j < m < i :: !ev[m].Failure?)
  }

  /** ... and its probe counter is the number of those successes. */
  ghost predicate Probed(c: Core, ev: seq<Event>, j: nat, i: nat) {
    ProbingSince(c, ev, j, i) && At(c, ev, i).probes == Successes(ev[j + 1..i])
  }

  lemma ProbedStart(c: Core, ev: seq<Event>, i: nat)
    requires Unforced(ev) && i < |ev|
    requires At(c, ev, i).phase != HalfOpen && At(c, ev, i + 1).phase == HalfOpen
    ensures Probed(c, ev, i, i + 1)
  {
    AtStep(c, ev, i);
    assert ev[i + 1..i + 1] == [];
  }

  lemma ProbedStep(c: Core, ev: seq<Event>, j: nat, i: nat)
    requires Unforced(ev) && i < |ev| && Probed(c, ev, j, i)
    requires At(c, ev, i + 1).phase == HalfOpen
    ensures Probed(c, ev, j, i + 1)
  {
    AtStep(c, ev, i);
    SuccessesStep(ev, j + 1, i);
  }

  lemma SuccessesStep(ev: seq<Event>, lo: nat, i: nat)
    requires lo <= i < |ev|
    ensures Successes(ev[lo..i + 1]) == Successes(ev[lo..i]) + if ev[i].Success? then 1 else 0
  {
    assert ev[lo..i + 1][..i - lo] == ev[lo..i];
  }

  lemma {:induction false} HalfOpenHistory(c: Core, ev: seq<Event>, i: nat)
    requires c.phase != HalfOpen && Unforced(ev) && i <= |ev|
    requires At(c, ev, i).phase == HalfOpen
    ensures exists j: nat :: Probed(c, ev, j, i)
  {
    assert i > 0;
    if At(c, ev, i - 1).phase == HalfOpen {
      HalfOpenHistory(c, ev, i - 1);
      var j: nat :| Probed(c, ev, j, i - 1);
      ProbedStep(c, ev, j, i - 1);
    } else {
      ProbedStart(c, ev, i - 1);
    }
  }

  /** Every entry into Closed follows, since the last entry into HalfOpen, exactly
      `halfOpenMax` recorded successes and no failure. */
  lemma ClosingNeedsAllProbes(c: Core, ev: seq<Event>, i: nat)
    requires c.phase != HalfOpen && c.settings.halfOpenMax >= 1 && Unforced(ev) && i < |ev|
    requires At(c, ev, i).phase != Closed && At(c, ev, i + 1).phase == Closed
    ensures ev[i].Success?
    ensures exists j: nat :: ProbingSince(c, ev, j, i)
                          && Successes(ev[j + 1..i + 1]) == c.settings.halfOpenMax
  {
    ClosingStep(c, ev, i);
    HalfOpenHistory(c, ev, i);
    var j: nat :| Probed(c, ev, j, i);
    SuccessesStep(ev, j + 1, i);
    assert ProbingSince(c, ev, j, i);
  }

  /** Only the success that completes the quota closes the breaker. */
  lemma ClosingStep(c: Core, ev: seq<Event>, i: nat)
    requires c.phase != HalfOpen && c.settings.halfOpenMax >= 1 && Unforced(ev) && i < |ev|
    requires At(c, ev, i).phase != Closed && At(c, ev, i + 1).phase == Closed
    ensures ev[i].Success? && At(c, ev, i).phase == HalfOpen
    ensures At(c, ev, i).probes + 1 == c.settings.halfOpenMax
  {
    AtStep(c, ev, i);
    ParametersFixed(c, ev, i);
    ProbesBelowQuota(c, ev, i);
  }

  /** A half-open breaker has not yet collected its quota. */
  lemma {:induction false} ProbesBelowQuota(c: Core, ev: seq<Event>, i: nat)
    requires c.phase != HalfOpen && c.settings.halfOpenMax >= 1 && Unforced(ev) && i <= |ev|
    requires At(c, ev, i).phase == HalfOpen
    ensures 0 <= At(c, ev, i).probes < c.settings.halfOpenMax
  {
    AtStep(c, ev, i - 1);
    ParametersFixed(c, ev, i - 1);
    if At(c, ev, i - 1).phase == HalfOpen {
      ProbesBelowQuota(c, ev, i - 1);
    }
  }

  /** `n` successful probes. */
  function Probes(n: nat): seq<Event> {
    seq(n, _ => Success)
  }

  lemma RunSnoc(c: Core, ev: seq<Event>, e: Event)
    ensures Run(c, ev + [e]) == Apply(Run(c, ev), e)
  {
    assert (ev + [e])[..|ev|] == ev;
  }

  lemma RunOne(c: Core, e: Event)
    ensures Run(c, [e]) == Apply(c, e)
  {
    assert [e][..0] == [];
  }

  lemma {:induction false} ProbesCount(c: Core, now: int, n: nat)
    requires c.phase == Open && now >= c.openedAt + c.settings.resetTimeout
    requires n < c.settings.halfOpenMax
    ensures var d := Run(c, [Ask(now)] + Probes(n));
            d.phase == HalfOpen && d.probes == n && d.settings == c.settings
  {
    if n == 0 {
      assert [Ask(now)] + Probes(0) == [Ask(now)];
      RunOne(c, Ask(now));
    } else {
      ProbesCount(c, now, n - 1);
      assert [Ask(now)] + Probes(n) == [Ask(now)] + Probes(n - 1) + [Success];
      RunSnoc(c, [Ask(now)] + Probes(n - 1), Success);
    }
  }

  /** Recovery: a request at or after the deadline and as many successes as the quota close an open breaker,
      with an empty window; not one success fewer does. */
  lemma RecoveryCloses(c: Core, now: int)
    requires c.phase == Open && now >= c.openedAt + c.settings.resetTimeout && c.settings.halfOpenMax >= 1
    ensures var d := Run(c, [Ask(now)] + Probes(c.settings.halfOpenMax)); d.phase == Closed && d.log == []
    ensures forall n: nat | n < c.settings.halfOpenMax :: Run(c, [Ask(now)] + Probes(n)).phase == HalfOpen
  {
    var n := c.settings.halfOpenMax - 1;
    ProbesCount(c, now, n);
    assert [Ask(now)] + Probes(n + 1) == [Ask(now)] + Probes(n) + [Success];
    RunSnoc(c, [Ask(now)] + Probes(n), Success);
    forall n: nat | n < c.settings.halfOpenMax ensures Run(c, [Ask(now)] + Probes(n)).phase == HalfOpen {
      ProbesCount(c, now, n);
    }
  }

  /** A failed probe, whatever came of the others, reopens the breaker for a whole timeout from then on. */
  lemma FailedProbeReopens(c: Core, now: int, n: nat, at: int)
    requires c.phase == Open && now >= c.openedAt + c.settings.resetTimeout && n < c.settings.halfOpenMax
    ensures var d := Run(c, [Ask(now)] + Probes(n) + [Failure(at)]);
            && d.phase == Open && d.openedAt == at
            && forall later: int :: Admits(d, later) <==> later >= at + c.settings.resetTimeout
  {
    ProbesCount(c, now, n);
    RunSnoc(c, [Ask(now)] + Probes(n), Failure(at));
  }

  /** An operator reset closes any breaker: one that was not closed starts an empty window, a closed one stays
      as it is. Requests pass at once. */
  lemma ResetCloses(c: Core)
    ensures var d := Apply(c, Reset);
            && d.phase == Closed && d.settings == c.settings
            && d.log == (if c.phase == Closed then c.log else [])
            && forall now: int :: Admits(d, now)
  {
  }

  /** A hot reload interrupts nothing: phase, opening time and collected probes stay, and an open breaker goes
      on refusing, for the new timeout. */
  lemma ReloadKeepsProgress(c: Core, s: Settings)
    ensures var d := Apply(c, Reconfig(s));
            && d.phase == c.phase && d.openedAt == c.openedAt && d.probes == c.probes && d.settings == s
            && (forall now: int :: Admits(d, now) <==> c.phase != Open || now >= c.openedAt + s.resetTimeout)
            && d.log == if s.window == c.settings.window then c.log else []
  {
  }

  // ---------- Isolation: an opened breaker refuses until its timeout ----------

  /** After opening at step `i`, as long as nobody has asked at or after the deadline the breaker is
      still open, and a request at step `k` gets through, and starts probing, exactly when the deadline
      has passed. */
  lemma {:induction false} OpenUntilDeadline(c: Core, ev: seq<Event>, i: nat, k: nat)
    requires Unforced(ev) && i < k < |ev|
    requires At(c, ev, i).phase != Open && At(c, ev, i + 1).phase == Open
    requires ev[i].Failure?
    requires forall m | i < m < k && ev[m].Ask? :: ev[m].now < ev[i].now + c.settings.resetTimeout
    ensures At(c, ev, k).phase == Open && At(c, ev, k).openedAt == ev[i].now
    ensures ev[k].Ask? ==>
      (Admits(At(c, ev, k), ev[k].now) <==> ev[k].now >= ev[i].now + c.settings.resetTimeout)
    ensures ev[k].Ask? ==>
      At(c, ev, k + 1).phase == if ev[k].now >= ev[i].now + c.settings.resetTimeout then HalfOpen else Open
  {
    AtStep(c, ev, k);
    ParametersFixed(c, ev, k);
    if k == i + 1 {
      AtStep(c, ev, i);
    } else {
      OpenUntilDeadline(c, ev, i, k - 1);
      AtStep(c, ev, k - 1);
      ParametersFixed(c, ev, k - 1);
    }
  }

  /** Only a failure opens a breaker. */
  lemma OpeningIsFailure(c: Core, ev: seq<Event>, i: nat)
    requires i < |ev| && At(c, ev, i).phase != Open && At(c, ev, i + 1).phase == Open
    ensures ev[i].Failure?
  {
    AtStep(c, ev, i);
  }

  /** Event `i` opened the breaker, and it has been open up to step `k` since. */
  ghost predicate OpenSince(c: Core, ev: seq<Event>, i: nat, k: nat) {
    && i < k <= |ev| && ev[i].Failure? && At(c, ev, i).phase != Open
    && (forall m: nat | i < m <= k :: At(c, ev, m).phase == Open)
    && At(c, ev, k).openedAt == ev[i].now
  }

  lemma {:induction false} OpenHistory(c: Core, ev: seq<Event>, k: nat)
    requires c.phase != Open && k <= |ev| && At(c, ev, k).phase == Open
    ensures exists i: nat :: OpenSince(c, ev, i, k)
  {
    assert k > 0;
    AtStep(c, ev, k - 1);
    if At(c, ev, k - 1).phase == Open {
      OpenHistory(c, ev, k - 1);
      var i: nat :| OpenSince(c, ev, i, k - 1);
      assert OpenSince(c, ev, i, k);
    } else {
      assert OpenSince(c, ev, k - 1, k);
    }
  }

  /** Nothing but an opening less than a timeout ago makes a breaker refuse: it has been open ever since. */
  lemma RefusalsFollowOpenings(c: Core, ev: seq<Event>, k: nat, now: int)
    requires c.phase != Open && Steady(ev) && k <= |ev|
    ensures !Admits(At(c, ev, k), now) <==>
      exists i: nat :: OpenSince(c, ev, i, k) && now < ev[i].now + c.settings.resetTimeout
  {
    ParametersFixed(c, ev, k);
    if At(c, ev, k).phase == Open {
      OpenHistory(c, ev, k);
      var i: nat :| OpenSince(c, ev, i, k);
      assert !Admits(At(c, ev, k), now) ==> OpenSince(c, ev, i, k) && now < ev[i].now + c.settings.resetTimeout;
    }
  }

  /** The clock never runs backwards over the requests of a run. */
  predicate ClockMonotone(ev: seq<Event>) {
    forall i, j | 0 <= i < j < |ev| && ev[i].Ask? && ev[j].Ask? :: ev[i].now <= ev[j].now
  }

  /** With a non-decreasing clock, whatever happens in between, every request arriving within
      `resetTimeout` of the opening is refused. */
  lemma RefusedWithinTimeout(c: Core, ev: seq<Event>, i: nat, k: nat)
    requires Unforced(ev) && ClockMonotone(ev) && i < k < |ev|
    requires At(c, ev, i).phase != Open && At(c, ev, i + 1).phase == Open
    requires ev[k].Ask?
    ensures ev[i].Failure?
    ensures ev[k].now < ev[i].now + c.settings.resetTimeout ==> !Admits(At(c, ev, k), ev[k].now)
  {
    OpeningIsFailure(c, ev, i);
    if ev[k].now < ev[i].now + c.settings.resetTimeout {
      OpenUntilDeadline(c, ev, i, k);
    }
  }

  // ---------- Detection: what a closed breaker guarantees about its window ----------

  /** Every failure recorded on a full window was checked and left the window below the threshold. */
  ghost predicate Checked(log: seq<bool>, s: Settings) {
    forall n: nat | s.window <= n <= |log| && n > 0 && log[n - 1] :: Rate(Last(log[..n], s.window)) < s.threshold
  }

  lemma CheckedExtends(log: seq<bool>, failed: bool, s: Settings)
    requires Checked(log, s) && !(failed && ShouldOpen(log + [failed], s))
    ensures Checked(log + [failed], s)
  {
    var log' := log + [failed];
    forall n: nat | s.window <= n <= |log'| && n > 0 && log'[n - 1]
      ensures Rate(Last(log'[..n], s.window)) < s.threshold
    {
      if n == |log'| {
        assert log'[..n] == log';
      } else {
        assert log'[..n] == log[..n] && log'[n - 1] == log[n - 1];
      }
    }
  }

  lemma {:induction false} ClosedLogIsChecked(s: Settings, ev: seq<Event>)
    requires FixedThreshold(ev)
    ensures var c := Run(Fresh(s), ev); c.settings == s && (c.phase == Closed ==> Checked(c.log, s))
  {
    if ev != [] {
      var e, c := ev[|ev| - 1], Run(Fresh(s), ev[..|ev| - 1]);
      ClosedLogIsChecked(s, ev[..|ev| - 1]);
      if c.phase == Closed && e.Success? {
        CheckedExtends(c.log, false, s);
      } else if c.phase == Closed && e.Failure? && !ShouldOpen(c.log + [true], s) {
        CheckedExtends(c.log, true, s);
      }
    }
  }

  /** A success never raises the failure ratio of a full window. */
  lemma SuccessNeverRaises(log: seq<bool>, n: nat, w: nat)
    requires w > 0 && w < n <= |log| && !log[n - 1]
    ensures Rate(Last(log[..n], w)) <= Rate(Last(log[..n - 1], w))
  {
    assert log[..n] == log[..n - 1] + [false];
    FailuresSlide(log[..n - 1], w, false);
    DivMonotone(Failures(Last(log[..n], w)) as real, Failures(Last(log[..n - 1], w)) as real, w as real);
  }

  /** If the window was at or above the threshold after `n` outcomes, it already was when it first filled,
      and everything since the outcome that filled it has been a success. */
  lemma {:induction false} HighSinceFilled(log: seq<bool>, s: Settings, n: nat)
    requires s.window > 0 && Checked(log, s) && s.window <= n <= |log|
    requires Rate(Last(log[..n], s.window)) >= s.threshold
    ensures Rate(log[..s.window]) >= s.threshold
    ensures forall i | s.window - 1 <= i < n :: !log[i]
  {
    assert !log[n - 1];
    if n > s.window {
      SuccessNeverRaises(log, n, s.window);
      HighSinceFilled(log, s, n - 1);
    }
  }

  /** At some moment of the period that `log` records, the window was full and at or above the threshold. */
  ghost predicate EverHigh(log: seq<bool>, s: Settings) {
    exists n: nat :: s.window <= n <= |log| && Rate(Last(log[..n], s.window)) >= s.threshold
  }

  /** Within one closed period, with a fixed threshold, a full window is ever at or above the threshold
      exactly when the first outcomes that filled it already were. The prefixes of the log are the logs at
      the earlier moments of the period. */
  lemma HighExactlyWhenFirstWindowWas(s: Settings, ev: seq<Event>)
    requires s.window > 0 && FixedThreshold(ev)
    requires Run(Fresh(s), ev).phase == Closed && |Run(Fresh(s), ev).log| >= s.window
    ensures EverHigh(Run(Fresh(s), ev).log, s) <==> Rate(Run(Fresh(s), ev).log[..s.window]) >= s.threshold
  {
    var log := Run(Fresh(s), ev).log;
    ClosedLogIsChecked(s, ev);
    if Rate(log[..s.window]) >= s.threshold {
      assert Last(log[..s.window], s.window) == log[..s.window];
    }
    forall n: nat | s.window <= n <= |log| && Rate(Last(log[..n], s.window)) >= s.threshold
      ensures Rate(log[..s.window]) >= s.threshold
    {
      HighSinceFilled(log, s, n);
    }
  }

  /** Any failure since the window filled, not just the newest outcome, keeps a closed breaker strictly
      below its threshold. */
  lemma ClosedAfterFailureIsBelowThreshold(s: Settings, ev: seq<Event>, i: nat)
    requires FixedThreshold(ev)
    requires var c := Run(Fresh(s), ev);
             c.phase == Closed && |c.log| >= s.window && s.window <= i + 1 <= |c.log| && c.log[i]
    ensures Rate(Last(Run(Fresh(s), ev).log, s.window)) < s.threshold
  {
    var log := Run(Fresh(s), ev).log;
    ClosedLogIsChecked(s, ev);
    assert log[..|log|] == log;
    if s.window == 0 {
      assert Rate(Last(log[..i + 1], 0)) < s.threshold;
    } else if Rate(Last(log, s.window)) >= s.threshold {
      HighSinceFilled(log, s, |log|);
    }
  }

  /** Only a failure re-checks the window, so the theorem above is not vacuous: a success that fills it
      leaves the breaker closed above its threshold, here 1/2 >= 0.5 on a window of two. */
  lemma SuccessDoesNotRecheck()
    ensures var c := Run(Fresh(Settings(2, 0.5, 30, 2)), [Failure(0), Success]);
            c.phase == Closed && |c.log| == c.settings.window && Rate(Last(c.log, 2)) >= c.settings.threshold
  {
    var ev := [Failure(0), Success];
    var c0 := Fresh(Settings(2, 0.5, 30, 2));
    AtStep(c0, ev, 0);
    AtStep(c0, ev, 1);
    assert ev[..2] == ev;
    assert At(c0, ev, 1) == c0.(log := [true]);
    HalfFailed();
  }

  lemma HalfFailed()
    ensures Rate([true, false]) == 0.5
  {
    FailuresAppend([], true);
    FailuresAppend([true], false);
    assert [] + [true] == [true] && [true] + [false] == [true, false];
    assert 1.0 / 2.0 == 0.5;
  }

  // ---------- Detection: exactly when a closed breaker trips ----------

  lemma QuotientAtLeast(x: real, d: real, t: real)
    requires d > 0.0
    ensures x / d >= t <==> x >= t * d
  {
    var q := x / d;
    assert q * d == x;
    if q >= t {
      ScaleUp(t, q, d);
    } else {
      ScaleUpStrict(q, t, d);
    }
  }

  lemma ScaleUp(a: real, b: real, d: real)
    requires a <= b && d > 0.0
    ensures a * d <= b * d
  {
  }

  lemma ScaleUpStrict(a: real, b: real, d: real)
    requires a < b && d > 0.0
    ensures a * d < b * d
  {
  }

  /** The newest outcomes fill the window, and the failures among them number at least the threshold's share
      of its size. */
  predicate ReachesThreshold(log: seq<bool>, p: Settings) {
    |log| >= p.window && Failures(Last(log, p.window)) as real >= p.threshold * p.window as real
  }

  /** The trip law, in counts: a failure opens a closed breaker exactly when the window is then full and
      its failures reach the threshold. Nothing else opens it. */
  lemma TripsExactlyWhen(c: Core, e: Event)
    requires c.phase == Closed && c.settings.window > 0
    ensures Apply(c, e).phase == Open <==> e.Failure? && ReachesThreshold(c.log + [true], c.settings)
    ensures Apply(c, e).phase != Open ==> Apply(c, e).phase == Closed
  {
    if e.Failure? && |c.log| + 1 >= c.settings.window {
      var w := Last(c.log + [true], c.settings.window);
      QuotientAtLeast(Failures(w) as real, c.settings.window as real, c.settings.threshold);
    }
  }

  /** Over runs: a breaker closed before event `i` opens on it exactly when the event is a failure and the
      outcomes recorded since the window was last cleared, with this one, fill the window and reach the
      threshold then in force. */
  lemma TripsOverRuns(s: Settings, ev: seq<Event>, i: nat)
    requires i < |ev| && At(Fresh(s), ev, i).phase == Closed && At(Fresh(s), ev, i).settings.window > 0
    ensures var log := Recorded(Fresh(s), ev, ClearedAt(Fresh(s), ev, i), i);
            At(Fresh(s), ev, i + 1).phase == Open <==>
              ev[i].Failure? && ReachesThreshold(log + [true], At(Fresh(s), ev, i).settings)
  {
    AtStep(Fresh(s), ev, i);
    WindowHoldsNewestOutcomes(s, ev, i);
    TripsExactlyWhen(At(Fresh(s), ev, i), ev[i]);
  }

  /** As many consecutive failures as the window holds trip any closed breaker. */
  lemma FullWindowOfFailuresOpens(c: Core, ev: seq<Event>)
    requires c.phase == Closed && c.settings.window > 0 && c.settings.threshold <= 1.0
    requires |ev| == c.settings.window
    requires forall i | 0 <= i < |ev| :: ev[i].Failure?
    ensures Run(c, ev).phase == Open
  {
    FailureStreak(c, ev, |ev|);
    assert ev[..|ev|] == ev;
  }

  lemma {:induction false} FailureStreak(c: Core, ev: seq<Event>, k: nat)
    requires c.phase == Closed && c.settings.window > 0 && c.settings.threshold <= 1.0
    requires k <= |ev| <= c.settings.window
    requires forall i | 0 <= i < |ev| :: ev[i].Failure?
    ensures At(c, ev, k).phase == Open
         || (k < c.settings.window && GrownByFailures(c, At(c, ev, k), k))
  {
    if k > 0 {
      FailureStreak(c, ev, k - 1);
      AtStep(c, ev, k - 1);
      var d := At(c, ev, k - 1);
      if d.phase == Closed && k == c.settings.window {
        AllFailuresOpen(d.log + [true], d.settings);
      }
    }
  }

  /** `d` is `c` with `k` failures appended to its log. */
  predicate GrownByFailures(c: Core, d: Core, k: nat) {
    && d.phase == Closed && d.settings == c.settings
    && |d.log| == |c.log| + k
    && forall i | |c.log| <= i < |d.log| :: d.log[i]
  }

  lemma AllFailuresOpen(log: seq<bool>, s: Settings)
    requires |log| >= s.window > 0 && s.threshold <= 1.0
    requires forall i | |log| - s.window <= i < |log| :: log[i]
    ensures ShouldOpen(log, s)
  {
    var w := Last(log, s.window);
    FailuresBounded(w);
    assert Rate(w) == |w| as real / |w| as real == 1.0;
  }

  // ---------- Comparison of two runs ----------

  /** Event `a` is at least as alarming as event `b`. */
  predicate Sterner(a: Event, b: Event) {
    match b
    case Failure(_) => a.Failure?
    case Success => a.Success? || a.Failure?
    case SetThreshold(t) => a.SetThreshold? && a.t <= t
    case Reset => a.Reset?
    case Reconfig(s) => a.Reconfig? && a.s.window == s.window > 0 && a.s.threshold <= s.threshold
    case _ => a.Ask? || a.Skip?
  }

  /** While both are closed, the sterner run has the same amount of history, with failures wherever
      the milder run has them, and a threshold no higher. */
  predicate Ahead(a: Core, b: Core) {
    && a.phase == Closed && b.phase == Closed
    && a.settings.window == b.settings.window > 0
    && a.settings.threshold <= b.settings.threshold
    && |a.log| == |b.log|
    && forall i | 0 <= i < |b.log| :: b.log[i] ==> a.log[i]
  }

  lemma RateMonotone(w: seq<bool>, v: seq<bool>)
    requires |w| == |v|
    requires forall i | 0 <= i < |w| :: v[i] ==> w[i]
    ensures Rate(v) <= Rate(w)
  {
    FailuresMonotone(v, w);
    if w != [] {
      DivMonotone(Failures(v) as real, Failures(w) as real, |w| as real);
    }
  }

  lemma DivMonotone(x: real, y: real, d: real)
    requires x <= y && d > 0.0
    ensures x / d <= y / d
  {
  }

  lemma AheadStep(a: Core, b: Core, ea: Event, eb: Event)
    requires Ahead(a, b) && Sterner(ea, eb)
    ensures Apply(a, ea).phase == Open || Ahead(Apply(a, ea), Apply(b, eb))
  {
    if ea.Failure? {
      var la, lb := a.log + [true], b.log + [eb.Failure?];
      RateMonotone(Last(la, a.settings.window), Last(lb, a.settings.window));
    }
  }

  /** Two runs over matching events: if the milder one is open after `k` events, the sterner one
      has opened at some point no later. */
  lemma {:induction false} SternerOpensNoLater(a: Core, b: Core, ea: seq<Event>, eb: seq<Event>, k: nat)
    requires Ahead(a, b)
    requires |ea| == |eb| && k <= |ea|
    requires forall i | 0 <= i < |ea| :: Sterner(ea[i], eb[i])
    ensures (exists j: nat :: j <= k && At(a, ea, j).phase == Open) || Ahead(At(a, ea, k), At(b, eb, k))
  {
    if k > 0 {
      SternerOpensNoLater(a, b, ea, eb, k - 1);
      AtStep(a, ea, k - 1);
      AtStep(b, eb, k - 1);
      if Ahead(At(a, ea, k - 1), At(b, eb, k - 1)) {
        AheadStep(At(a, ea, k - 1), At(b, eb, k - 1), ea[k - 1], eb[k - 1]);
        assert At(a, ea, k).phase == Open ==> exists j: nat :: j <= k && At(a, ea, j).phase == Open;
      }
    }
  }
}
