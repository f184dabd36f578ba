/** The composed stack: failure rate, adaptive threshold, slow-response relabelling and bulkhead. */
module Composite {
  import opened FailureRate
  import opened BreakerRuns
  import opened Adaptive

  datatype Config = Config(
    core: Settings,
    slowThreshold: int,   // timeout layer present when positive
    maxConcurrent: int,   // bulkhead present when positive
    adaptive: bool, latencyCeiling: int, minThreshold: real)

  /** What configuration validation accepts. */
  predicate ValidConfig(cfg: Config) {
    && cfg.core.window >= 1
    && 0.0 < cfg.core.threshold <= 1.0
    && cfg.core.resetTimeout > 0
    && cfg.core.halfOpenMax >= 1
    && cfg.slowThreshold >= 0
    && cfg.maxConcurrent >= 0
    && (cfg.adaptive ==> 0.0 < cfg.minThreshold < cfg.core.threshold && cfg.latencyCeiling > 0)
  }

  const ALPHA: real := 0.3

  function TuningOf(cfg: Config): Tuning {
    Tuning(ALPHA, cfg.core.threshold, cfg.minThreshold, cfg.latencyCeiling)
  }

  datatype Stack = Stack(config: Config, core: Core, ewma: real, inFlight: nat)

  datatype Call =
    | Request(now: int)
    | Succeeded(latency: int, now: int)
    | Failed(latency: int, now: int)
    | ResetAll
    | Done

  function NewStack(cfg: Config): Stack {
    Stack(cfg, Fresh(cfg.core), 0.0, 0)
  }

  predicate AtCapacity(s: Stack) {
    s.config.maxConcurrent > 0 && s.inFlight >= s.config.maxConcurrent
  }

  /** Is a request at `now` let through by every layer? */
  predicate Allows(s: Stack, now: int) {
    !AtCapacity(s) && Admits(s.core, now)
  }

  function EffectivePhase(s: Stack): Phase {
    if AtCapacity(s) then Open else s.core.phase
  }

  /** The event a call turns into by the time it reaches the failure-rate breaker. */
  function Feed(s: Stack, call: Call): Event {
    match call
    case Request(now) => if AtCapacity(s) then Skip else Ask(now)
    case Succeeded(latency, now) =>
      if s.config.slowThreshold > 0 && latency > s.config.slowThreshold then Failure(now) else Success
    case Failed(_, now) => Failure(now)
    case ResetAll => Reset
    case Done => Skip
  }

  function Step(s: Stack, call: Call): Stack
    requires ValidConfig(s.config)
  {
    var core := Apply(s.core, Feed(s, call));
    match call
    case Request(now) =>
      s.(core := core,
         inFlight := if s.config.maxConcurrent > 0 && Allows(s, now) then s.inFlight + 1 else s.inFlight)
    case Done => s.(inFlight := if s.config.maxConcurrent > 0 && s.inFlight > 0 then s.inFlight - 1 else s.inFlight)
    case ResetAll =>
      if s.config.adaptive then
        s.(ewma := 0.0, core := Apply(core, SetThreshold(s.config.core.threshold)))
      else s.(core := core)
    case _ =>
      if s.config.adaptive then
        var ewma := Smooth(ALPHA, s.ewma, call.latency);
        s.(ewma := ewma, core := Apply(core, SetThreshold(ThresholdFor(TuningOf(s.config), ewma))))
      else s.(core := core)
  }

  function RunStack(s: Stack, calls: seq<Call>): (r: Stack)
    requires ValidConfig(s.config)
    ensures r.config == s.config
  {
    if calls == [] then s else Step(RunStack(s, calls[..|calls| - 1]), calls[|calls| - 1])
  }

  // ---------- The stack is a bare breaker on relabelled events ----------

  /** Latencies recorded since the last reset, oldest first. */
  function Latencies(calls: seq<Call>): seq<int> {
    if calls == [] then [] else NextLatencies(Latencies(calls[..|calls| - 1]), calls[|calls| - 1])
  }

  function NextLatencies(ls: seq<int>, call: Call): seq<int> {
    match call
    case Succeeded(l, _) => ls + [l]
    case Failed(l, _) => ls + [l]
    case ResetAll => []
    case _ => ls
  }

  /** The threshold in force after the given latencies, computed from the latencies alone. */
  function Scheduled(cfg: Config, ls: seq<int>): real
    requires ValidConfig(cfg)
  {
    if !cfg.adaptive || ls == [] then cfg.core.threshold
    else ThresholdFor(TuningOf(cfg), Ewma(ALPHA, 0.0, ls))
  }

  /** What a bare failure-rate breaker is fed: before each call the scheduled threshold, which
      depends on strictly earlier latencies only, then the relabelled call. */
  function BareEvents(cfg: Config, calls: seq<Call>): (ev: seq<Event>)
    requires ValidConfig(cfg)
    ensures |ev| == 2 * |calls|
  {
    if calls == [] then [] else
    var before := calls[..|calls| - 1];
    BareEvents(cfg, before)
    + [SetThreshold(Scheduled(cfg, Latencies(before))),
       Feed(RunStack(NewStack(cfg), before), calls[|calls| - 1])]
  }

  lemma ScheduledStep(cfg: Config, ls: seq<int>, l: int)
    requires ValidConfig(cfg) && cfg.adaptive
    ensures Scheduled(cfg, ls + [l]) == ThresholdFor(TuningOf(cfg), Smooth(ALPHA, Ewma(ALPHA, 0.0, ls), l))
  {
    assert (ls + [l])[..|ls|] == ls;
  }

  lemma RunTwo(c: Core, ev: seq<Event>, x: Event, y: Event)
    ensures Run(c, ev + [x, y]) == Apply(Apply(Run(c, ev), x), y)
  {
    assert (ev + [x, y])[..|ev| + 1] == ev + [x];
    assert (ev + [x])[..|ev|] == ev;
  }

  /** The stack's breaker is `bare` under the threshold scheduled by the latencies `ls`. */
  predicate Accounts(cfg: Config, s: Stack, bare: Core, ls: seq<int>)
    requires ValidConfig(cfg)
  {
    && s.core == Apply(bare, SetThreshold(Scheduled(cfg, ls)))
    && (cfg.adaptive ==> s.ewma == Ewma(ALPHA, 0.0, ls))
  }

  lemma StepIsBareStep(cfg: Config, s: Stack, bare: Core, ls: seq<int>, call: Call)
    requires ValidConfig(cfg) && s.config == cfg && Accounts(cfg, s, bare, ls)
    ensures Accounts(cfg, Step(s, call), Apply(s.core, Feed(s, call)), NextLatencies(ls, call))
  {
    if cfg.adaptive && (call.Succeeded? || call.Failed?) {
      ScheduledStep(cfg, ls, call.latency);
      assert (ls + [call.latency])[..|ls|] == ls;
    }
  }

  /** Every stack, after every sequence of calls, holds exactly the state of the bare breaker fed the
      relabelled calls under the latency-driven threshold schedule. */
  lemma {:induction false} StackIsBareBreaker(cfg: Config, calls: seq<Call>)
    requires ValidConfig(cfg)
    ensures Accounts(cfg, RunStack(NewStack(cfg), calls), Run(Fresh(cfg.core), BareEvents(cfg, calls)), Latencies(calls))
  {
    if calls != [] {
      var before, call := calls[..|calls| - 1], calls[|calls| - 1];
      StackIsBareBreaker(cfg, before);
      var s, bare := RunStack(NewStack(cfg), before), Run(Fresh(cfg.core), BareEvents(cfg, before));
      RunTwo(Fresh(cfg.core), BareEvents(cfg, before), SetThreshold(Scheduled(cfg, Latencies(before))), Feed(s, call));
      StepIsBareStep(cfg, s, bare, Latencies(before), call);
    }
  }

  /** The stack before call `k`. */
  function StackAt(cfg: Config, calls: seq<Call>, k: nat): Stack
    requires ValidConfig(cfg) && k <= |calls|
  {
    RunStack(NewStack(cfg), calls[..k])
  }

  /** The bare breaker before its event `m`. */
  function BareAt(cfg: Config, calls: seq<Call>, m: nat): Core
    requires ValidConfig(cfg) && m <= 2 * |calls|
  {
    At(Fresh(cfg.core), BareEvents(cfg, calls), m)
  }

  /** The two events fed for call `k`. */
  lemma FedFor(cfg: Config, calls: seq<Call>, k: nat)
    requires ValidConfig(cfg) && k < |calls|
    ensures BareEvents(cfg, calls)[2 * k] == SetThreshold(Scheduled(cfg, Latencies(calls[..k])))
    ensures BareEvents(cfg, calls)[2 * k + 1] == Feed(StackAt(cfg, calls, k), calls[k])
  {
    var ev, upTo := BareEvents(cfg, calls), calls[..k + 1];
    BareEventsPrefix(cfg, calls, k + 1);
    assert upTo[..k] == calls[..k];
    assert ev[2 * k] == ev[..2 * (k + 1)][2 * k] && ev[2 * k + 1] == ev[..2 * (k + 1)][2 * k + 1];
  }

  /** The state the second of them meets. */
  lemma FedTo(cfg: Config, calls: seq<Call>, k: nat)
    requires ValidConfig(cfg) && k < |calls|
    ensures BareAt(cfg, calls, 2 * k + 1) == StackAt(cfg, calls, k).core
  {
    FedFor(cfg, calls, k);
    BareEventsPrefix(cfg, calls, k);
    AtStep(Fresh(cfg.core), BareEvents(cfg, calls), 2 * k);
    StackIsBareBreaker(cfg, calls[..k]);
  }

  lemma FedEvent(cfg: Config, calls: seq<Call>, i: nat)
    requires ValidConfig(cfg) && i < 2 * |calls|
    ensures var e := BareEvents(cfg, calls)[i];
            && (e.Reset? ==> calls[i / 2] == ResetAll)
            && (e.Ask? ==> calls[i / 2] == Request(e.now))
            && !e.Reconfig?
  {
    FedFor(cfg, calls, i / 2);
    assert i == 2 * (i / 2) || i == 2 * (i / 2) + 1;
  }

  predicate NeverReset(calls: seq<Call>) {
    forall m | 0 <= m < |calls| :: calls[m] != ResetAll
  }

  predicate RequestsInOrder(calls: seq<Call>) {
    forall m, n | 0 <= m < n < |calls| && calls[m].Request? && calls[n].Request? :: calls[m].now <= calls[n].now
  }

  lemma FedUnforced(cfg: Config, calls: seq<Call>)
    requires ValidConfig(cfg) && NeverReset(calls)
    ensures Unforced(BareEvents(cfg, calls))
  {
    forall m | 0 <= m < |BareEvents(cfg, calls)|
      ensures !BareEvents(cfg, calls)[m].Reset? && !BareEvents(cfg, calls)[m].Reconfig?
    {
      FedEvent(cfg, calls, m);
    }
  }

  lemma FedInOrder(cfg: Config, calls: seq<Call>)
    requires ValidConfig(cfg) && NeverReset(calls) && RequestsInOrder(calls)
    ensures Unforced(BareEvents(cfg, calls)) && ClockMonotone(BareEvents(cfg, calls))
  {
    var ev := BareEvents(cfg, calls);
    FedUnforced(cfg, calls);
    forall m, n | 0 <= m < n < |ev| && ev[m].Ask? && ev[n].Ask? ensures ev[m].now <= ev[n].now {
      FedEvent(cfg, calls, m);
      FedEvent(cfg, calls, n);
      FedFor(cfg, calls, n / 2);
      assert m / 2 < n / 2 || m / 2 == n / 2;
    }
  }

  /** Whatever layers it has, a stack that opens on a call at time t turns away every request before
      t + resetTimeout, unless it is reset, however other calls interleave. */
  lemma StackRefusesWithinTimeout(cfg: Config, calls: seq<Call>, i: nat, k: nat)
    requires ValidConfig(cfg) && i < k < |calls| && calls[k].Request?
    requires NeverReset(calls) && RequestsInOrder(calls)
    requires StackAt(cfg, calls, i).core.phase != Open
    requires StackAt(cfg, calls, i + 1).core.phase == Open
    ensures calls[i].Succeeded? || calls[i].Failed?
    ensures calls[k].now < calls[i].now + cfg.core.resetTimeout ==>
      !Allows(StackAt(cfg, calls, k), calls[k].now)
  {
    OpensOnOutcome(cfg, calls, i);
    if !AtCapacity(StackAt(cfg, calls, k)) && calls[k].now < calls[i].now + cfg.core.resetTimeout {
      BareRefuses(cfg, calls, i, k);
      FedTo(cfg, calls, k);
    }
  }

  lemma BareRefuses(cfg: Config, calls: seq<Call>, i: nat, k: nat)
    requires ValidConfig(cfg) && i < k < |calls| && calls[k].Request? && !AtCapacity(StackAt(cfg, calls, k))
    requires NeverReset(calls) && RequestsInOrder(calls)
    requires (calls[i].Succeeded? || calls[i].Failed?) && BareEvents(cfg, calls)[2 * i + 1] == Failure(calls[i].now)
    requires BareAt(cfg, calls, 2 * i + 1).phase != Open && BareAt(cfg, calls, 2 * i + 2).phase == Open
    requires calls[k].now < calls[i].now + cfg.core.resetTimeout
    ensures !Admits(BareAt(cfg, calls, 2 * k + 1), calls[k].now)
  {
    FedInOrder(cfg, calls);
    FedFor(cfg, calls, k);
    assert BareEvents(cfg, calls)[2 * k + 1] == Ask(calls[k].now);
    RefusedWithinTimeout(Fresh(cfg.core), BareEvents(cfg, calls), 2 * i + 1, 2 * k + 1);
  }

  lemma OpensOnOutcome(cfg: Config, calls: seq<Call>, i: nat)
    requires ValidConfig(cfg) && i < |calls|
    requires StackAt(cfg, calls, i).core.phase != Open
    requires StackAt(cfg, calls, i + 1).core.phase == Open
    ensures BareAt(cfg, calls, 2 * i + 1).phase != Open
    ensures BareAt(cfg, calls, 2 * i + 2).phase == Open
    ensures (calls[i].Succeeded? || calls[i].Failed?) && BareEvents(cfg, calls)[2 * i + 1] == Failure(calls[i].now)
  {
    FedTo(cfg, calls, i);
    PhaseFromBare(cfg, calls, i + 1);
    assert 2 * (i + 1) == 2 * i + 2;
    OpeningIsFailure(Fresh(cfg.core), BareEvents(cfg, calls), 2 * i + 1);
    FedFor(cfg, calls, i);
    FailureComesFromOutcome(StackAt(cfg, calls, i), calls[i]);
  }

  lemma FailureComesFromOutcome(s: Stack, call: Call)
    requires Feed(s, call).Failure?
    ensures (call.Succeeded? || call.Failed?) && Feed(s, call) == Failure(call.now)
  {
  }

  // ---------- Recovery and detection, whatever the layers ----------

  predicate Slow(cfg: Config, call: Call) {
    call.Succeeded? && cfg.slowThreshold > 0 && call.latency > cfg.slowThreshold
  }

  /** A call that the breaker counts as a failure, and one that it counts as a success. */
  predicate Harms(cfg: Config, call: Call) {
    call.Failed? || Slow(cfg, call)
  }

  predicate Helps(cfg: Config, call: Call) {
    call.Succeeded? && !Slow(cfg, call)
  }

  function Helpful(cfg: Config, calls: seq<Call>): nat {
    if calls == [] then 0 else Helpful(cfg, calls[..|calls| - 1]) + if Helps(cfg, calls[|calls| - 1]) then 1 else 0
  }

  function Harmful(cfg: Config, calls: seq<Call>): nat {
    if calls == [] then 0 else Harmful(cfg, calls[..|calls| - 1]) + if Harms(cfg, calls[|calls| - 1]) then 1 else 0
  }

  lemma FeedKind(s: Stack, call: Call)
    ensures Feed(s, call).Failure? <==> Harms(s.config, call)
    ensures Feed(s, call).Success? <==> Helps(s.config, call)
  {
  }

  /** Fast successes among calls lo..hi-1. */
  function HelpfulIn(cfg: Config, calls: seq<Call>, lo: nat, hi: nat): nat
    requires lo <= hi <= |calls|
  {
    Helpful(cfg, calls[lo..hi])
  }

  lemma HelpfulStep(cfg: Config, calls: seq<Call>, lo: nat, i: nat)
    requires lo <= i < |calls|
    ensures HelpfulIn(cfg, calls, lo, lo) == 0
    ensures HelpfulIn(cfg, calls, lo, i + 1) == HelpfulIn(cfg, calls, lo, i) + if Helps(cfg, calls[i]) then 1 else 0
  {
    assert calls[lo..i + 1][..i - lo] == calls[lo..i];
  }

  /** Successes among the events fed for them. */
  function SuccessesIn(cfg: Config, calls: seq<Call>, lo: nat, hi: nat): nat
    requires ValidConfig(cfg) && lo <= hi <= |calls|
  {
    Successes(BareEvents(cfg, calls)[2 * lo..2 * hi])
  }

  lemma SuccessesInStep(cfg: Config, calls: seq<Call>, lo: nat, i: nat)
    requires ValidConfig(cfg) && lo <= i < |calls|
    ensures SuccessesIn(cfg, calls, lo, lo) == 0
    ensures SuccessesIn(cfg, calls, lo, i + 1) == SuccessesIn(cfg, calls, lo, i) + if Helps(cfg, calls[i]) then 1 else 0
  {
    var ev, l, m := BareEvents(cfg, calls), 2 * lo, 2 * i;
    FedFor(cfg, calls, i);
    FeedKind(StackAt(cfg, calls, i), calls[i]);
    SuccessesStep(ev, l, m);
    SuccessesStep(ev, l, m + 1);
    assert 2 * (i + 1) == m + 2;
  }

  lemma {:induction false} HelpfulIsSuccesses(cfg: Config, calls: seq<Call>, lo: nat, hi: nat)
    requires ValidConfig(cfg) && lo <= hi <= |calls|
    ensures HelpfulIn(cfg, calls, lo, hi) == SuccessesIn(cfg, calls, lo, hi)
  {
    if lo < hi {
      HelpfulIsSuccesses(cfg, calls, lo, hi - 1);
      HelpfulStep(cfg, calls, lo, hi - 1);
      SuccessesInStep(cfg, calls, lo, hi - 1);
    }
  }

  /** From the request at `j`, which found the stack open, up to call `i` the stack stayed half-open and saw no
      failed or slow call. */
  ghost predicate StackProbing(cfg: Config, calls: seq<Call>, j: nat, i: nat)
    requires ValidConfig(cfg)
  {
    && j < i < |calls|
    && calls[j].Request? && StackAt(cfg, calls, j).core.phase == Open
    && (forall m: nat | j < m <= i :: StackAt(cfg, calls, m).core.phase == HalfOpen)
    && (forall m | j < m < i :: !Harms(cfg, calls[m]))
  }

  lemma ProbingOfBare(cfg: Config, calls: seq<Call>, i: nat, b: nat)
    requires ValidConfig(cfg) && i < |calls|
    requires ProbingSince(Fresh(cfg.core), BareEvents(cfg, calls), b, 2 * i + 1)
    ensures b == 2 * (b / 2) + 1 && StackProbing(cfg, calls, b / 2, i)
  {
    var c, ev, j := Fresh(cfg.core), BareEvents(cfg, calls), b / 2;
    FedFor(cfg, calls, j);
    AtStep(c, ev, b);
    assert b == 2 * j || b == 2 * j + 1;
    FedTo(cfg, calls, j);
    forall m: nat | j < m <= i ensures StackAt(cfg, calls, m).core.phase == HalfOpen {
      PhaseFromBare(cfg, calls, m);
    }
    forall m: nat | j < m < i ensures !Harms(cfg, calls[m]) {
      FedFor(cfg, calls, m);
      FeedKind(StackAt(cfg, calls, m), calls[m]);
    }
  }

  /** Whatever its layers, a stack closes only on a fast success, and since the request that made it half-open
      there have been exactly `halfOpenMax` of them and no failed or slow call. */
  lemma StackClosingNeedsAllProbes(cfg: Config, calls: seq<Call>, i: nat)
    requires ValidConfig(cfg) && NeverReset(calls) && i < |calls|
    requires StackAt(cfg, calls, i).core.phase != Closed && StackAt(cfg, calls, i + 1).core.phase == Closed
    ensures Helps(cfg, calls[i])
    ensures exists j: nat :: StackProbing(cfg, calls, j, i) && HelpfulIn(cfg, calls, j + 1, i + 1) == cfg.core.halfOpenMax
  {
    var b := BareClosing(cfg, calls, i);
    ProbingOfBare(cfg, calls, i, b);
    HelpfulIsSuccesses(cfg, calls, b / 2 + 1, i + 1);
  }

  lemma BareClosing(cfg: Config, calls: seq<Call>, i: nat) returns (b: nat)
    requires ValidConfig(cfg) && NeverReset(calls) && i < |calls|
    requires StackAt(cfg, calls, i).core.phase != Closed && StackAt(cfg, calls, i + 1).core.phase == Closed
    ensures Helps(cfg, calls[i])
    ensures ProbingSince(Fresh(cfg.core), BareEvents(cfg, calls), b, 2 * i + 1)
    ensures b == 2 * (b / 2) + 1 ==> SuccessesIn(cfg, calls, b / 2 + 1, i + 1) == cfg.core.halfOpenMax
  {
    var c, ev, n := Fresh(cfg.core), BareEvents(cfg, calls), 2 * i + 1;
    FedUnforced(cfg, calls);
    FedTo(cfg, calls, i);
    PhaseFromBare(cfg, calls, i + 1);
    assert 2 * (i + 1) == n + 1;
    ClosingNeedsAllProbes(c, ev, n);
    b :| ProbingSince(c, ev, b, n) && Successes(ev[b + 1..n + 1]) == cfg.core.halfOpenMax;
    FedFor(cfg, calls, i);
    FeedKind(StackAt(cfg, calls, i), calls[i]);
  }

  /** At some point of the calls the stack is open. */
  ghost predicate Opens(s: Stack, calls: seq<Call>)
    requires ValidConfig(s.config)
  {
    exists j: nat :: j <= |calls| && RunStack(s, calls[..j]).core.phase == Open
  }

  /** Neither a reset nor a success that counts as one. */
  predicate OnlyHarm(cfg: Config, calls: seq<Call>) {
    forall i | 0 <= i < |calls| :: calls[i] != ResetAll && !Helps(cfg, calls[i])
  }

  /** `d` is `c` with `n` failures appended to its log, and perhaps another threshold. */
  predicate GrownByHarm(c: Core, d: Core, n: nat) {
    && d.phase == Closed && d.settings.window == c.settings.window && d.settings.threshold <= 1.0
    && |d.log| == |c.log| + n
    && forall i | |c.log| <= i < |d.log| :: d.log[i]
  }

  lemma HarmStep(s: Stack, c: Core, call: Call, n: nat)
    requires ValidConfig(s.config) && c.settings.window > n && GrownByHarm(c, s.core, n)
    requires call != ResetAll && !Helps(s.config, call)
    ensures var m := if Harms(s.config, call) then n + 1 else n;
            Step(s, call).core.phase == Open || (m < c.settings.window && GrownByHarm(c, Step(s, call).core, m))
  {
    FeedKind(s, call);
    if s.config.adaptive && Harms(s.config, call) {
      var e := Smooth(ALPHA, s.ewma, call.latency);
      ThresholdAntitone(TuningOf(s.config), e, e);
    }
    if Harms(s.config, call) && n + 1 == c.settings.window {
      AllFailuresOpen(s.core.log + [true], s.core.settings);
    }
  }

  lemma {:induction false} HarmStreak(s: Stack, calls: seq<Call>)
    requires ValidConfig(s.config) && OnlyHarm(s.config, calls)
    requires s.core.phase == Closed && s.core.settings.window > 0 && s.core.settings.threshold <= 1.0
    ensures var n := Harmful(s.config, calls);
            Opens(s, calls) || (n < s.core.settings.window && GrownByHarm(s.core, RunStack(s, calls).core, n))
  {
    assert calls[..|calls|] == calls;
    if calls != [] {
      var before := calls[..|calls| - 1];
      HarmStreak(s, before);
      if Opens(s, before) {
        var j: nat :| j <= |before| && RunStack(s, before[..j]).core.phase == Open;
        assert before[..j] == calls[..j];
      } else {
        HarmStep(RunStack(s, before), s.core, calls[|calls| - 1], Harmful(s.config, before));
        assert RunStack(s, calls).core.phase == Open ==> RunStack(s, calls[..|calls|]).core.phase == Open;
      }
    }
  }

  /** Whatever its layers, and also after a reload, as many failed or slow calls as the window holds open a
      closed stack, however requests and releases interleave, if no fast success and no reset comes between. */
  lemma FullWindowOfHarmOpens(s: Stack, calls: seq<Call>)
    requires ValidConfig(s.config) && OnlyHarm(s.config, calls)
    requires s.core.phase == Closed && s.core.settings.window > 0 && s.core.settings.threshold <= 1.0
    requires Harmful(s.config, calls) >= s.core.settings.window
    ensures Opens(s, calls)
  {
    HarmStreak(s, calls);
  }

  /** The trip law for stacks: exactly a failed or slow call that fills the window to its threshold opens a
      closed stack. */
  lemma StackTripsExactlyWhen(s: Stack, call: Call)
    requires ValidConfig(s.config) && s.core.phase == Closed && s.core.settings.window > 0
    ensures Step(s, call).core.phase == Open <==>
      Harms(s.config, call) && ReachesThreshold(s.core.log + [true], s.core.settings)
  {
    FeedKind(s, call);
    TripsExactlyWhen(s.core, Feed(s, call));
  }

  lemma {:induction false} StackProbes(s: Stack, now: int, calls: seq<Call>)
    requires ValidConfig(s.config) && s.core.phase == Open && Allows(s, now)
    requires |calls| < s.core.settings.halfOpenMax && forall i | 0 <= i < |calls| :: Helps(s.config, calls[i])
    ensures var t := RunStack(s, [Request(now)] + calls);
            && t.core.phase == HalfOpen && t.core.probes == |calls|
            && t.core.settings.halfOpenMax == s.core.settings.halfOpenMax
  {
    var all := [Request(now)] + calls;
    if calls == [] {
      assert all[..0] == [];
    } else {
      var before := calls[..|calls| - 1];
      assert all[..|all| - 1] == [Request(now)] + before;
      StackProbes(s, now, before);
      FeedKind(RunStack(s, [Request(now)] + before), calls[|calls| - 1]);
    }
  }

  /** Recovery, whatever the layers: below capacity an open stack lets a request at or after its deadline pass,
      and as many fast successes as the quota then close it with an empty window. */
  lemma StackRecovers(s: Stack, now: int, calls: seq<Call>)
    requires ValidConfig(s.config) && s.core.phase == Open && !AtCapacity(s)
    requires now >= s.core.openedAt + s.core.settings.resetTimeout
    requires 1 <= |calls| == s.core.settings.halfOpenMax && forall i | 0 <= i < |calls| :: Helps(s.config, calls[i])
    ensures Allows(s, now)
    ensures var t := RunStack(s, [Request(now)] + calls); t.core.phase == Closed && t.core.log == []
  {
    var before, all := calls[..|calls| - 1], [Request(now)] + calls;
    assert all[..|all| - 1] == [Request(now)] + before;
    StackProbes(s, now, before);
    FeedKind(RunStack(s, [Request(now)] + before), calls[|calls| - 1]);
  }

  /** A reset closes every stack, forgets the latencies and restores the threshold; slots stay taken. */
  lemma ResetRestores(s: Stack)
    requires ValidConfig(s.config)
    ensures var t := Step(s, ResetAll);
            && t.core.phase == Closed && t.inFlight == s.inFlight
            && t.core.log == (if s.core.phase == Closed then s.core.log else [])
            && (s.config.adaptive ==> t.ewma == 0.0 && t.core.settings.threshold == s.config.core.threshold)
            && forall now: int :: Allows(t, now) <==> !AtCapacity(s)
  {
  }

  // ---------- Slots ----------

  /** Requests among the calls that the stack let through. */
  function Admissions(cfg: Config, calls: seq<Call>): nat
    requires ValidConfig(cfg)
  {
    if calls == [] then 0 else
    var before, last := calls[..|calls| - 1], calls[|calls| - 1];
    Admissions(cfg, before) + if last.Request? && Allows(RunStack(NewStack(cfg), before), last.now) then 1 else 0
  }

  function Dones(calls: seq<Call>): nat {
    if calls == [] then 0 else Dones(calls[..|calls| - 1]) + if calls[|calls| - 1].Done? then 1 else 0
  }

  /** Every release follows an admission of its own. */
  predicate Balanced(cfg: Config, calls: seq<Call>)
    requires ValidConfig(cfg)
  {
    forall k | 0 <= k <= |calls| :: Dones(calls[..k]) <= Admissions(cfg, calls[..k])
  }

  lemma BalancedBefore(cfg: Config, calls: seq<Call>)
    requires ValidConfig(cfg) && Balanced(cfg, calls)
    ensures Dones(calls) <= Admissions(cfg, calls)
    ensures calls != [] ==> Balanced(cfg, calls[..|calls| - 1])
  {
    assert calls[..|calls|] == calls;
    if calls != [] {
      var before := calls[..|calls| - 1];
      assert forall k | 0 <= k <= |before| :: before[..k] == calls[..k];
    }
  }

  /** The slots taken are the admissions not yet released, never more than the limit; without a bulkhead
      there are none. */
  lemma {:induction false} SlotsAreOutstanding(cfg: Config, calls: seq<Call>)
    requires ValidConfig(cfg) && Balanced(cfg, calls)
    ensures RunStack(NewStack(cfg), calls).inFlight ==
      if cfg.maxConcurrent > 0 then Admissions(cfg, calls) - Dones(calls) else 0
    ensures RunStack(NewStack(cfg), calls).inFlight <= cfg.maxConcurrent
  {
    BalancedBefore(cfg, calls);
    if calls != [] {
      SlotsAreOutstanding(cfg, calls[..|calls| - 1]);
    }
  }

  /** A request passes exactly when fewer admissions than the limit are outstanding and the breaker admits it. */
  lemma AllowsExactlyWhen(cfg: Config, calls: seq<Call>, now: int)
    requires ValidConfig(cfg) && cfg.maxConcurrent > 0 && Balanced(cfg, calls)
    ensures var s := RunStack(NewStack(cfg), calls);
            Allows(s, now) <==>
              && Admissions(cfg, calls) - Dones(calls) < cfg.maxConcurrent
              && (s.core.phase != Open || now >= s.core.openedAt + s.core.settings.resetTimeout)
  {
    SlotsAreOutstanding(cfg, calls);
  }

  /** A request refused for want of a slot changes nothing; in particular it does not start probing. */
  lemma FullStackIsUntouched(s: Stack, now: int)
    requires ValidConfig(s.config) && s.config.maxConcurrent > 0 && s.inFlight >= s.config.maxConcurrent
    ensures !Allows(s, now) && Step(s, Request(now)) == s
  {
  }

  /** What the effective state tells a caller: Open, that there are times at which a request is refused; Closed,
      that none is and fast successes are logged; HalfOpen, that none is and the next failed or slow call opens. */
  lemma EffectivePhaseMeans(s: Stack)
    requires ValidConfig(s.config)
    ensures EffectivePhase(s) == Open <==> exists now: int :: !Allows(s, now)
    ensures EffectivePhase(s) == Closed ==>
      forall call | Helps(s.config, call) :: Step(s, call).core.phase == Closed && Step(s, call).core.log == s.core.log + [false]
    ensures EffectivePhase(s) == HalfOpen ==>
      forall call | Harms(s.config, call) :: Step(s, call).core.phase == Open && Step(s, call).core.openedAt == call.now
  {
    if s.core.phase == Open {
      assert !Allows(s, s.core.openedAt + s.core.settings.resetTimeout - 1);
    }
    if AtCapacity(s) {
      assert !Allows(s, 0);
    }
    forall call | Harms(s.config, call) || Helps(s.config, call)
      ensures (s.core.phase == Closed && Helps(s.config, call) ==>
                 Step(s, call).core.phase == Closed && Step(s, call).core.log == s.core.log + [false])
      ensures (s.core.phase == HalfOpen && Harms(s.config, call) ==>
                 Step(s, call).core.phase == Open && Step(s, call).core.openedAt == call.now)
    {
      FeedKind(s, call);
    }
  }

  // ---------- Extra layers never delay the first trip ----------

  /** Stack `a` is stack `b` with lower thresholds (fixed, base or minimum), a lower latency ceiling, an extra
      timeout layer or an extra adaptive layer. */
  predicate AtLeastAsStrict(a: Config, b: Config) {
    && a.core.window == b.core.window
    && a.core.threshold <= b.core.threshold
    && (b.adaptive ==> a.adaptive && NoLaxer(TuningOf(a), TuningOf(b)))
    && (b.slowThreshold > 0 ==> 0 < a.slowThreshold <= b.slowThreshold)
  }

  lemma {:induction false} BareEventsPrefix(cfg: Config, calls: seq<Call>, k: nat)
    requires ValidConfig(cfg) && k <= |calls|
    ensures BareEvents(cfg, calls)[..2 * k] == BareEvents(cfg, calls[..k])
  {
    if k == |calls| {
      assert calls[..k] == calls;
    } else {
      var before := calls[..|calls| - 1];
      BareEventsPrefix(cfg, before, k);
      assert before[..k] == calls[..k];
      assert BareEvents(cfg, calls)[..2 * |before|] == BareEvents(cfg, before);
      assert BareEvents(cfg, calls)[..2 * |before|][..2 * k] == BareEvents(cfg, calls)[..2 * k];
    }
  }

  lemma StricterSchedule(a: Config, b: Config, ls: seq<int>)
    requires ValidConfig(a) && ValidConfig(b) && AtLeastAsStrict(a, b)
    ensures Scheduled(a, ls) <= Scheduled(b, ls)
  {
    var e := Ewma(ALPHA, 0.0, ls);
    if b.adaptive {
      ThresholdMonotone(TuningOf(a), TuningOf(b), e);
    } else if a.adaptive {
      ThresholdAntitone(TuningOf(a), e, e);
    }
  }

  lemma {:induction false} StricterFeedsSterner(a: Config, b: Config, calls: seq<Call>, i: nat)
    requires ValidConfig(a) && ValidConfig(b) && AtLeastAsStrict(a, b)
    requires i < 2 * |calls|
    ensures Sterner(BareEvents(a, calls)[i], BareEvents(b, calls)[i])
  {
    var before := calls[..|calls| - 1];
    if i < 2 * |before| {
      StricterFeedsSterner(a, b, before, i);
    } else {
      StricterSchedule(a, b, Latencies(before));
    }
  }

  predicate EverOpen(cfg: Config, calls: seq<Call>, k: nat)
    requires ValidConfig(cfg) && k <= |calls|
  {
    exists j: nat | j <= k :: StackAt(cfg, calls, j).core.phase == Open
  }

  /** On the same calls, adding the adaptive or the timeout layer, or lowering any threshold or ceiling, never makes
      the first trip come later. */
  lemma LayersNeverDelayFirstTrip(a: Config, b: Config, calls: seq<Call>, k: nat)
    requires ValidConfig(a) && ValidConfig(b) && AtLeastAsStrict(a, b)
    requires k <= |calls|
    ensures EverOpen(b, calls, k) ==> EverOpen(a, calls, k)
  {
    if EverOpen(b, calls, k) {
      var j: nat :| j <= k && StackAt(b, calls, j).core.phase == Open;
      var ea, eb := BareEvents(a, calls), BareEvents(b, calls);
      forall i | 0 <= i < |ea| ensures Sterner(ea[i], eb[i]) {
        StricterFeedsSterner(a, b, calls, i);
      }
      SternerOpensNoLater(Fresh(a.core), Fresh(b.core), ea, eb, 2 * j);
      PhaseFromBare(b, calls, j);
      var m: nat :| m <= 2 * j && At(Fresh(a.core), ea, m).phase == Open;
      BareOpenIsStackOpen(a, calls, m);
    }
  }

  lemma BareOpenIsStackOpen(cfg: Config, calls: seq<Call>, m: nat)
    requires ValidConfig(cfg) && m <= 2 * |calls|
    requires BareAt(cfg, calls, m).phase == Open
    ensures StackAt(cfg, calls, m / 2).core.phase == Open
  {
    var h := m / 2;
    if m == 2 * h {
      PhaseFromBare(cfg, calls, h);
    } else {
      AtStep(Fresh(cfg.core), BareEvents(cfg, calls), 2 * h);
      FedFor(cfg, calls, h);
      PhaseFromBare(cfg, calls, h);
    }
  }

  lemma PhaseFromBare(cfg: Config, calls: seq<Call>, k: nat)
    requires ValidConfig(cfg) && k <= |calls|
    ensures BareAt(cfg, calls, 2 * k).phase
         == StackAt(cfg, calls, k).core.phase
  {
    BareEventsPrefix(cfg, calls, k);
    StackIsBareBreaker(cfg, calls[..k]);
  }

  // ---------- Hot reload and the adaptive layer ----------

  function Reloaded(s: Stack, cfg: Config): Stack {
    s.(core := Apply(s.core, Reconfig(cfg.core)))
  }

  /** A reload interrupts nothing: layers, slots, average, phase, opening time and probes stay. */
  lemma ReloadKeepsStack(s: Stack, cfg: Config)
    ensures var t := Reloaded(s, cfg);
            && t.config == s.config && t.inFlight == s.inFlight && t.ewma == s.ewma
            && t.core.phase == s.core.phase && t.core.openedAt == s.core.openedAt && t.core.probes == s.core.probes
            && t.core.settings == cfg.core
            && forall now: int :: Allows(t, now) <==>
                 !AtCapacity(s) && (s.core.phase != Open || now >= s.core.openedAt + cfg.core.resetTimeout)
  {
    ReloadKeepsProgress(s.core, cfg.core);
  }

  /** Traffic leaves window size, reset timeout and probe quota alone, and in a stack without the adaptive
      layer the threshold too. */
  lemma {:induction false} TrafficKeepsParameters(s: Stack, calls: seq<Call>)
    requires ValidConfig(s.config)
    ensures var t := RunStack(s, calls);
            && t.config == s.config
            && t.core.settings == s.core.settings.(threshold := t.core.settings.threshold)
            && (!s.config.adaptive ==> t.core.settings == s.core.settings)
  {
    if calls != [] {
      TrafficKeepsParameters(s, calls[..|calls| - 1]);
    }
  }

  predicate MovesThreshold(call: Call) {
    call.Succeeded? || call.Failed? || call.ResetAll?
  }

  predicate NoOutcomes(calls: seq<Call>) {
    forall i | 0 <= i < |calls| :: !MovesThreshold(calls[i])
  }

  predicate HasReset(calls: seq<Call>) {
    exists i :: 0 <= i < |calls| && calls[i] == ResetAll
  }

  /** The average that the calls leave in the stack: over the latencies since the last reset, starting from
      the stack's own average if there was none. */
  function AverageAfter(s: Stack, calls: seq<Call>): real {
    Ewma(ALPHA, if HasReset(calls) then 0.0 else s.ewma, Latencies(calls))
  }

  lemma {:induction false} AverageFollows(s: Stack, calls: seq<Call>)
    requires ValidConfig(s.config) && s.config.adaptive
    ensures RunStack(s, calls).ewma == AverageAfter(s, calls)
  {
    if calls != [] {
      var before, call := calls[..|calls| - 1], calls[|calls| - 1];
      AverageFollows(s, before);
      LastCallMatters(before, call);
      assert calls == before + [call];
      var ls := Latencies(before);
      if call.Succeeded? || call.Failed? {
        assert (ls + [call.latency])[..|ls|] == ls;
      }
    }
  }

  lemma LastCallMatters(before: seq<Call>, call: Call)
    ensures HasReset(before + [call]) <==> HasReset(before) || call == ResetAll
    ensures NoOutcomes(before + [call]) <==> NoOutcomes(before) && !MovesThreshold(call)
  {
    var calls := before + [call];
    assert calls[|before|] == call;
    assert forall i | 0 <= i < |before| :: calls[i] == before[i];
  }

  /** The threshold over any calls: that of the stack until an outcome or a reset, then the one the adaptive
      layer computes from the latencies since the last reset. */
  lemma {:induction false} ThresholdOverRuns(s: Stack, calls: seq<Call>)
    requires ValidConfig(s.config)
    ensures RunStack(s, calls).core.settings.threshold ==
      if !s.config.adaptive || NoOutcomes(calls) then s.core.settings.threshold
      else ThresholdFor(TuningOf(s.config), AverageAfter(s, calls))
  {
    if !s.config.adaptive {
      TrafficKeepsParameters(s, calls);
    } else if calls != [] {
      var before, call := calls[..|calls| - 1], calls[|calls| - 1];
      ThresholdOverRuns(s, before);
      AverageFollows(s, before);
      AverageFollows(s, calls);
      LastCallMatters(before, call);
      assert calls == before + [call];
      ThresholdStep(RunStack(s, before), call);
    }
  }

  /** Over any traffic after a reload: a stack without the adaptive layer keeps the reloaded threshold for good;
      an adaptive one keeps it until the next outcome or reset, and from then on has the one computed from the
      latencies, base and minimum as they were at construction. So the reloaded threshold is in force exactly
      when there is no adaptive layer, nothing has been recorded yet, or the two happen to coincide. */
  lemma ReloadedThresholdOverRuns(s: Stack, cfg: Config, calls: seq<Call>)
    requires ValidConfig(s.config) && ValidConfig(cfg)
    ensures var reloaded, computed :=
              RunStack(Reloaded(s, cfg), calls).core.settings.threshold,
              if s.config.adaptive then ThresholdFor(TuningOf(s.config), AverageAfter(s, calls)) else cfg.core.threshold;
            && reloaded == (if !s.config.adaptive || NoOutcomes(calls) then cfg.core.threshold else computed)
            && (reloaded == cfg.core.threshold <==>
                  !s.config.adaptive || NoOutcomes(calls) || computed == cfg.core.threshold)
  {
    ThresholdOverRuns(Reloaded(s, cfg), calls);
  }

  /** For instance: 100 ns and then 400 ns average to 190 ns. */
  lemma AverageOfTwo()
    ensures Ewma(ALPHA, 0.0, [100, 400]) == 190.0
  {
    assert [100, 400][..1] == [100] && [100][..0] == [];
    assert Ewma(ALPHA, 0.0, [100]) == 100.0;
  }

  /** For instance: an adaptive stack with base 0.5, reloaded to 0.9, is back at 0.5 after one fast success. */
  lemma ReloadedThresholdIsLost(s: Stack, cfg: Config)
    requires ValidConfig(s.config) && s.config.adaptive && s.config.core.threshold == 0.5 && s.ewma == 0.0
    requires ValidConfig(cfg) && cfg.core.threshold == 0.9
    ensures Reloaded(s, cfg).core.settings.threshold == 0.9
    ensures RunStack(Reloaded(s, cfg), [Succeeded(0, 0)]).core.settings.threshold == 0.5
  {
    var calls := [Succeeded(0, 0)];
    assert calls[..0] == [] && Latencies(calls) == [0];
    ThresholdStep(Reloaded(s, cfg), calls[0]);
  }

  lemma ThresholdStep(s: Stack, call: Call)
    requires ValidConfig(s.config) && s.config.adaptive
    ensures Step(s, call).core.settings.threshold ==
      if call.ResetAll? then s.config.core.threshold
      else if MovesThreshold(call) then ThresholdFor(TuningOf(s.config), Smooth(ALPHA, s.ewma, call.latency))
      else s.core.settings.threshold
  {
  }

  /** `bulkhead.go`: a counting semaphore. */
  class BulkheadBreaker {
    var used: nat
    const capacity: nat

    constructor (capacity: nat)
      ensures used == 0 && this.capacity == capacity
    {
      used, this.capacity := 0, capacity;
    }

    method TryAcquire() returns (ok: bool)
      modifies this
      ensures ok == (old(used) < capacity)
      ensures used == if ok then old(used) + 1 else old(used)
    {
      if used < capacity {
        used := used + 1;
        return true;
      }
      return false;
    }

    /** Blocks on an empty semaphore, so it may only follow an acquisition. */
    method Release()
      requires used > 0
      modifies this
      ensures used == old(used) - 1
    {
      used := used - 1;
    }
  }

  /** `composite.go`: the layers an outside caller talks to. The timeout layer has no state of its own
      beyond `slowThreshold`; absent layers are null (or a non-positive slow threshold). */
  class CompositeBreaker {
    const failureRate: FailureRateBreaker
    const adaptive: AdaptiveBreaker?
    const slowThreshold: int
    const bulkhead: BulkheadBreaker?
    ghost const config: Config

    ghost predicate Valid()
      reads this, failureRate, failureRate.window, bulkhead, adaptive
    {
      && ValidConfig(config)
      && failureRate.Valid()
      && (adaptive != null <==> config.adaptive)
      && (adaptive != null ==> adaptive.inner == failureRate && adaptive.tuning == TuningOf(config))
      && slowThreshold == config.slowThreshold
      && (bulkhead != null <==> config.maxConcurrent > 0)
      && (bulkhead != null ==> bulkhead.capacity == config.maxConcurrent && bulkhead.used <= bulkhead.capacity)
    }

    ghost function Model(): Stack
      reads this, failureRate, bulkhead, adaptive
    {
      Stack(config, failureRate.Model(),
            if adaptive == null then 0.0 else adaptive.ewmaLatency,
            if bulkhead == null then 0 else bulkhead.used)
    }

    constructor (cfg: Config)
      requires ValidConfig(cfg)
      ensures Valid() && Model() == NewStack(cfg)
      ensures fresh(failureRate) && fresh(failureRate.window)
      ensures adaptive != null ==> fresh(adaptive)
      ensures bulkhead != null ==> fresh(bulkhead)
    {
      var fr := new FailureRateBreaker(cfg.core);
      var ad: AdaptiveBreaker? := null;
      if cfg.adaptive {
        ad := new AdaptiveBreaker(fr, TuningOf(cfg));
      }
      var bh: BulkheadBreaker? := null;
      if cfg.maxConcurrent > 0 {
        bh := new BulkheadBreaker(cfg.maxConcurrent);
      }
      failureRate, adaptive, slowThreshold, bulkhead := fr, ad, cfg.slowThreshold, bh;
      config := cfg;
    }

    method Allow(now: int) returns (ok: bool)
      requires Valid()
      modifies failureRate, bulkhead
      ensures Valid() && failureRate.window == old(failureRate.window)
      ensures ok == Allows(old(Model()), now)
      ensures Model() == Step(old(Model()), Request(now))
    {
      if bulkhead != null {
        var got := bulkhead.TryAcquire();
        if !got {
          return false;
        }
        ok := failureRate.Allow(now);
        if !ok {
          bulkhead.Release();
        }
      } else {
        ok := failureRate.Allow(now);
      }
    }

    method RecordSuccess(latency: int, now: int)
      requires Valid()
      modifies failureRate, failureRate.window, adaptive
      ensures Valid() && failureRate.window == old(failureRate.window)
      ensures Model() == Step(old(Model()), Succeeded(latency, now))
    {
      Record(slowThreshold > 0 && latency > slowThreshold, latency, now);
    }

    method RecordFailure(latency: int, now: int)
      requires Valid()
      modifies failureRate, failureRate.window, adaptive
      ensures Valid() && failureRate.window == old(failureRate.window)
      ensures Model() == Step(old(Model()), Failed(latency, now))
    {
      Record(true, latency, now);
    }

    method Record(failed: bool, latency: int, now: int)
      requires Valid()
      modifies failureRate, failureRate.window, adaptive
      ensures Valid() && failureRate.window == old(failureRate.window)
      ensures failed ==> Model() == Step(old(Model()), Failed(latency, now))
      ensures !failed && !(slowThreshold > 0 && latency > slowThreshold) ==>
        Model() == Step(old(Model()), Succeeded(latency, now))
    {
      if adaptive != null {
        adaptive.Record(failed, latency, now);
      } else if failed {
        failureRate.RecordFailure(now);
      } else {
        failureRate.RecordSuccess();
      }
    }

    method ResetBreaker()
      requires Valid()
      modifies failureRate, adaptive
      ensures Valid() && failureRate.window == old(failureRate.window)
      ensures Model() == Step(old(Model()), ResetAll)
    {
      if adaptive != null {
        adaptive.ResetBreaker();
      } else {
        failureRate.ResetBreaker();
      }
    }

    method Release()
      requires Valid()
      requires bulkhead != null ==> bulkhead.used > 0
      modifies bulkhead
      ensures Valid()
      ensures Model() == Step(old(Model()), Done)
    {
      if bulkhead != null {
        bulkhead.Release();
      }
    }

    method EffectiveState() returns (p: Phase)
      requires Valid()
      ensures p == EffectivePhase(Model())
      ensures p != Open ==> forall now :: Allows(Model(), now)
    {
      if bulkhead != null && bulkhead.used >= bulkhead.capacity {
        return Open;
      }
      return failureRate.state;
    }

    /** Hot reload reaches the failure-rate parameters only; the layers keep their construction-time settings. */
    method UpdateConfig(cfg: Config)
      requires Valid() && ValidConfig(cfg)
      modifies failureRate
      ensures Valid() && (failureRate.window == old(failureRate.window) || fresh(failureRate.window))
      ensures Model() == Reloaded(old(Model()), cfg)
    {
      failureRate.UpdateConfig(cfg.core);
    }
  }
}
