/** Hot reload with rollback, and the gateway as one of its observers. Reloads do not overlap. */
module Reload {
  import opened Options
  import FailureRate
  import Adaptive
  import Composite
  import RateLimiter
  import Routing

  datatype Config = Config(rate: real, burst: int, routes: seq<Routing.Route>, breaker: Composite.Config)

  /** What the loader lets through. */
  predicate Validated(c: Config) {
    Routing.ValidRoutes(c.routes) && Composite.ValidConfig(c.breaker)
  }

  // ---------- The gateway ----------

  /** What `OnReload` writes (limiter settings, every breaker, the route table of the log-level scan) and the
      router's table, which it does not. */
  datatype Gateway = Gateway(rate: real, burst: int, limiterRoutes: seq<Routing.Route>,
                             breakers: map<string, Composite.Stack>, routesRef: seq<Routing.Route>,
                             router: seq<Routing.Route>)

  ghost predicate ValidGateway(g: Gateway) {
    forall k | k in g.breakers :: Composite.ValidConfig(g.breakers[k].config)
  }

  /** As `NewGateway` leaves it: the router has its own, length-sorted copy of the routes. */
  ghost predicate StartedWith(g: Gateway, c: Config) {
    ValidGateway(g) && Adopted(g, c) && Routing.SortedFrom(g.router, c.routes)
  }

  /** The same breakers, layered alike, behind the same router. */
  ghost predicate SameBuild(g: Gateway, h: Gateway) {
    && g.router == h.router
    && g.breakers.Keys == h.breakers.Keys
    && forall k | k in g.breakers :: g.breakers[k].config == h.breakers[k].config
  }

  function OnReload(g: Gateway, c: Config): (h: Gateway)
    ensures SameBuild(g, h)
  {
    Gateway(c.rate, c.burst, c.routes,
            map k | k in g.breakers :: Composite.Reloaded(g.breakers[k], c.breaker),
            c.routes, g.router)
  }

  /** A call to one of the breakers. */
  function Pass(g: Gateway, backend: string, call: Composite.Call): (h: Gateway)
    requires ValidGateway(g)
    ensures ValidGateway(h) && SameBuild(g, h)
  {
    if backend in g.breakers
    then g.(breakers := g.breakers[backend := Composite.Step(g.breakers[backend], call)])
    else g
  }

  /** The breaker has the parameters `p`, except that the adaptive layer owns the threshold. */
  predicate Follows(s: Composite.Stack, p: FailureRate.Settings) {
    && s.core.settings == p.(threshold := s.core.settings.threshold)
    && (s.config.adaptive || s.core.settings.threshold == p.threshold)
  }

  /** Limiter rates, route tables and breaker parameters are those of `c`. */
  ghost predicate InSync(g: Gateway, c: Config) {
    && g.rate == c.rate && g.burst == c.burst && g.limiterRoutes == g.routesRef == c.routes
    && forall k | k in g.breakers :: Follows(g.breakers[k], c.breaker.core)
  }

  /** ... and so are the thresholds of adaptive breakers, until traffic moves them. */
  ghost predicate Adopted(g: Gateway, c: Config) {
    InSync(g, c) && forall k | k in g.breakers :: g.breakers[k].core.settings == c.breaker.core
  }

  /** Two configurations that gateway `g` cannot tell apart: breaker parameters matter if there is a breaker,
      the threshold if one of them is not adaptive. */
  ghost predicate SameFor(g: Gateway, c: Config, d: Config) {
    && c.rate == d.rate && c.burst == d.burst && c.routes == d.routes
    && forall k | k in g.breakers ::
         && c.breaker.core == d.breaker.core.(threshold := c.breaker.core.threshold)
         && (g.breakers[k].config.adaptive || c.breaker.core.threshold == d.breaker.core.threshold)
  }

  lemma InSyncDetermines(g: Gateway, c: Config, d: Config)
    requires InSync(g, c)
    ensures InSync(g, d) <==> SameFor(g, c, d)
  {
  }

  lemma CallKeepsParameters(s: Composite.Stack, call: Composite.Call, p: FailureRate.Settings)
    requires Composite.ValidConfig(s.config)
    ensures Follows(s, p) ==> Follows(Composite.Step(s, call), p)
  {
  }

  lemma PassKeepsSync(g: Gateway, backend: string, call: Composite.Call, c: Config)
    requires ValidGateway(g)
    ensures InSync(g, c) ==> InSync(Pass(g, backend, call), c)
  {
    if backend in g.breakers {
      CallKeepsParameters(g.breakers[backend], call, c.breaker.core);
    }
  }

  /** As the source promises of `OnReload`: doing it again changes nothing. */
  lemma OnReloadIdempotent(g: Gateway, c: Config)
    ensures OnReload(OnReload(g, c), c) == OnReload(g, c)
  {
    var once := OnReload(g, c);
    assert forall k | k in once.breakers :: Composite.Reloaded(once.breakers[k], c.breaker) == once.breakers[k];
    assert OnReload(once, c).breakers == once.breakers;
  }

  // ---------- Reloads ----------

  datatype Verdict = Accept | ReturnError | Panic

  /** One observer: the gateway, which always accepts, or an external one. */
  datatype Observer = TheGateway | External

  /** What a reload attempt meets: the loaded configuration, if it loads and validates, and what each
      external observer would answer. */
  datatype Attempt = Attempt(loaded: Option<Config>, verdicts: seq<Verdict>)

  /** `invoked` and `legacy` log the observer and callback invocations. */
  datatype State = State(current: Config, gateway: Gateway, invoked: seq<(nat, Config)>,
                         legacy: seq<(nat, Config)>, rollbacks: seq<Verdict>)

  function VerdictOf(obs: seq<Observer>, a: Attempt, i: nat): Verdict
    requires i < |obs|
  {
    if obs[i] == TheGateway || i >= |a.verdicts| then Accept else a.verdicts[i]
  }

  /** Position of the first observer, from `i` on, that rejects; their number if all accept. */
  function FirstRejection(obs: seq<Observer>, a: Attempt, i: nat): (r: nat)
    requires i <= |obs|
    ensures i <= r <= |obs|
    ensures forall j | i <= j < r :: VerdictOf(obs, a, j) == Accept
    ensures r < |obs| ==> VerdictOf(obs, a, r) != Accept
    decreases |obs| - i
  {
    if i == |obs| || VerdictOf(obs, a, i) != Accept then i else FirstRejection(obs, a, i + 1)
  }

  predicate Accepted(obs: seq<Observer>, a: Attempt) {
    a.loaded.Some? && FirstRejection(obs, a, 0) == |obs|
  }

  /** Is the gateway's `OnReload` called in this attempt? */
  predicate ReachesGateway(obs: seq<Observer>, a: Attempt) {
    && a.loaded.Some?
    && exists i: nat :: i < |obs| && i <= FirstRejection(obs, a, 0) && obs[i] == TheGateway
  }

  /** Invocations of participants lo..hi-1 with one configuration. */
  function Calls(lo: nat, hi: nat, c: Config): seq<(nat, Config)>
    requires lo <= hi
    decreases hi - lo
  {
    if lo == hi then [] else [(lo, c)] + Calls(lo + 1, hi, c)
  }

  lemma {:induction false} CallsSnoc(lo: nat, hi: nat, c: Config)
    requires lo <= hi
    ensures Calls(lo, hi + 1, c) == Calls(lo, hi, c) + [(hi, c)]
    decreases hi - lo
  {
    if lo < hi {
      CallsSnoc(lo + 1, hi, c);
    }
  }

  /** One reload attempt. */
  function Reloading(obs: seq<Observer>, callbacks: nat, s: State, a: Attempt): State {
    if a.loaded.None? then s else
    var c, r := a.loaded.value, FirstRejection(obs, a, 0);
    var seen := s.(
      invoked := s.invoked + Calls(0, if r < |obs| then r + 1 else r, c),
      gateway := if ReachesGateway(obs, a) then OnReload(s.gateway, c) else s.gateway);
    if r < |obs| then seen.(rollbacks := seen.rollbacks + [VerdictOf(obs, a, r)])
    else seen.(current := c, legacy := seen.legacy + Calls(0, callbacks, c))
  }

  /** Effect of the first `n` observers on the gateway (it may be registered more than once). */
  function Settle(obs: seq<Observer>, g: Gateway, c: Config, n: nat): Gateway
    requires n <= |obs|
  {
    if n == 0 then g
    else if obs[n - 1] == TheGateway then OnReload(Settle(obs, g, c, n - 1), c)
    else Settle(obs, g, c, n - 1)
  }

  lemma {:induction false} SettlesOnce(obs: seq<Observer>, g: Gateway, c: Config, n: nat)
    requires n <= |obs|
    ensures Settle(obs, g, c, n) == if exists i: nat :: i < n && obs[i] == TheGateway then OnReload(g, c) else g
  {
    if n > 0 {
      SettlesOnce(obs, g, c, n - 1);
      OnReloadIdempotent(g, c);
      assert obs[n - 1] == TheGateway ==> exists i: nat :: i < n && obs[i] == TheGateway;
    }
  }

  lemma {:induction false} CallsAt(lo: nat, hi: nat, c: Config, j: nat)
    requires lo <= hi && j < hi - lo
    ensures |Calls(lo, hi, c)| == hi - lo && Calls(lo, hi, c)[j] == (lo + j, c)
    decreases hi - lo
  {
    if lo + 1 < hi {
      CallsAt(lo + 1, hi, c, if j > 0 then j - 1 else 0);
    }
  }

  lemma {:induction false} CallsLength(lo: nat, hi: nat, c: Config)
    requires lo <= hi
    ensures |Calls(lo, hi, c)| == hi - lo
    decreases hi - lo
  {
    if lo < hi {
      CallsLength(lo + 1, hi, c);
    }
  }

  /** A loaded configuration is shown to the observers one after the other, up to and including the first that
      rejects it; its rejection is counted. A file that does not load is shown to nobody. */
  lemma AttemptInvokes(obs: seq<Observer>, callbacks: nat, s: State, a: Attempt, j: nat)
    ensures var t, first := Reloading(obs, callbacks, s, a), FirstRejection(obs, a, 0);
            if a.loaded.None? then t == s else
            var shown := if first < |obs| then first + 1 else |obs|;
            && |t.invoked| == |s.invoked| + shown && t.invoked[..|s.invoked|] == s.invoked
            && (j < shown ==> t.invoked[|s.invoked| + j] == (j, a.loaded.value))
            && t.rollbacks == s.rollbacks + (if first < |obs| then [VerdictOf(obs, a, first)] else [])
  {
    if a.loaded.Some? {
      var first := FirstRejection(obs, a, 0);
      var shown := if first < |obs| then first + 1 else |obs|;
      CallsLength(0, shown, a.loaded.value);
      if j < shown {
        CallsAt(0, shown, a.loaded.value, j);
      }
    }
  }

  // ---------- Runs: reload attempts among traffic ----------

  /** Traffic during an attempt can be listed before or after it: each breaker is reloaded in one step, and
      nothing else a call touches is written by a reload. */
  datatype Event = Try(attempt: Attempt) | Traffic(backend: string, call: Composite.Call)

  function Step(obs: seq<Observer>, callbacks: nat, s: State, e: Event): (t: State)
    requires ValidGateway(s.gateway)
    ensures ValidGateway(t.gateway) && SameBuild(s.gateway, t.gateway)
  {
    match e
    case Try(a) => Reloading(obs, callbacks, s, a)
    case Traffic(backend, call) => s.(gateway := Pass(s.gateway, backend, call))
  }

  function Run(obs: seq<Observer>, callbacks: nat, s: State, ev: seq<Event>): (t: State)
    requires ValidGateway(s.gateway)
    ensures ValidGateway(t.gateway) && SameBuild(s.gateway, t.gateway)
  {
    if ev == [] then s else Step(obs, callbacks, Run(obs, callbacks, s, ev[..|ev| - 1]), ev[|ev| - 1])
  }

  /** The configurations accepted during a run. */
  function AcceptedConfigs(obs: seq<Observer>, ev: seq<Event>): seq<Config> {
    if ev == [] then [] else
    var before, e := AcceptedConfigs(obs, ev[..|ev| - 1]), ev[|ev| - 1];
    if e.Try? && Accepted(obs, e.attempt) then before + [e.attempt.loaded.value] else before
  }

  /** The configurations offered to the gateway, accepted in the end or not. */
  function OfferedConfigs(obs: seq<Observer>, ev: seq<Event>): seq<Config> {
    if ev == [] then [] else
    var before, e := OfferedConfigs(obs, ev[..|ev| - 1]), ev[|ev| - 1];
    if e.Try? && ReachesGateway(obs, e.attempt) then before + [e.attempt.loaded.value] else before
  }

  function LastOr(cs: seq<Config>, c: Config): Config {
    if cs == [] then c else cs[|cs| - 1]
  }

  function EachTo(callbacks: nat, cs: seq<Config>): seq<(nat, Config)> {
    if cs == [] then [] else EachTo(callbacks, cs[..|cs| - 1]) + Calls(0, callbacks, cs[|cs| - 1])
  }

  lemma EachToNext(callbacks: nat, cs: seq<Config>, c: Config)
    ensures EachTo(callbacks, cs + [c]) == EachTo(callbacks, cs) + Calls(0, callbacks, c)
  {
    assert (cs + [c])[..|cs|] == cs;
  }

  lemma StepCurrent(obs: seq<Observer>, callbacks: nat, s: State, e: Event)
    requires ValidGateway(s.gateway)
    ensures var t := Step(obs, callbacks, s, e);
            if e.Try? && Accepted(obs, e.attempt)
            then t.current == e.attempt.loaded.value && t.legacy == s.legacy + Calls(0, callbacks, t.current)
            else t.current == s.current && t.legacy == s.legacy
  {
  }

  /** From `s` to `t` exactly the configurations `cs` were adopted and announced, in order. */
  predicate Tracks(callbacks: nat, s: State, t: State, cs: seq<Config>) {
    t.current == LastOr(cs, s.current) && t.legacy == s.legacy + EachTo(callbacks, cs)
  }

  lemma TracksNext(obs: seq<Observer>, callbacks: nat, s: State, t: State, cs: seq<Config>, e: Event)
    requires ValidGateway(t.gateway) && Tracks(callbacks, s, t, cs)
    ensures Tracks(callbacks, s, Step(obs, callbacks, t, e),
                   if e.Try? && Accepted(obs, e.attempt) then cs + [e.attempt.loaded.value] else cs)
  {
    StepCurrent(obs, callbacks, t, e);
    if e.Try? && Accepted(obs, e.attempt) {
      EachToNext(callbacks, cs, e.attempt.loaded.value);
    }
  }

  /** Whatever was rejected on the way, `Current` is the last accepted configuration, and the legacy callbacks
      have been given exactly the accepted ones, in order. */
  lemma {:induction false} CurrentIsLastAccepted(obs: seq<Observer>, callbacks: nat, s: State, ev: seq<Event>)
    requires ValidGateway(s.gateway)
    ensures Tracks(callbacks, s, Run(obs, callbacks, s, ev), AcceptedConfigs(obs, ev))
  {
    if ev != [] {
      var init := ev[..|ev| - 1];
      CurrentIsLastAccepted(obs, callbacks, s, init);
      TracksNext(obs, callbacks, s, Run(obs, callbacks, s, init), AcceptedConfigs(obs, init), ev[|ev| - 1]);
    }
  }

  /** Whatever traffic and reloads interleave, the gateway follows the configuration last offered to it. */
  lemma {:induction false} GatewayFollowsOffers(obs: seq<Observer>, callbacks: nat, s: State, ev: seq<Event>)
    requires ValidGateway(s.gateway) && InSync(s.gateway, s.current)
    ensures InSync(Run(obs, callbacks, s, ev).gateway, LastOr(OfferedConfigs(obs, ev), s.current))
  {
    if ev != [] {
      var init, e := ev[..|ev| - 1], ev[|ev| - 1];
      GatewayFollowsOffers(obs, callbacks, s, init);
      if e.Traffic? {
        PassKeepsSync(Run(obs, callbacks, s, init).gateway, e.backend, e.call, LastOr(OfferedConfigs(obs, init), s.current));
      }
    }
  }

  /** Right after an accepted reload that includes the gateway, it matches the new configuration in everything,
      whatever state it was in. */
  lemma AcceptedReloadSyncsGateway(obs: seq<Observer>, callbacks: nat, s: State, ev: seq<Event>, a: Attempt)
    requires ValidGateway(s.gateway) && TheGateway in obs && Accepted(obs, a)
    ensures var t := Run(obs, callbacks, s, ev + [Try(a)]);
            t.current == a.loaded.value && Adopted(t.gateway, t.current)
  {
    var all := ev + [Try(a)];
    assert all[..|all| - 1] == ev;
    var i: nat :| i < |obs| && obs[i] == TheGateway;
    assert ReachesGateway(obs, a);
  }

  /** Rollback restores only the pointer. The gateway agrees with `Current` exactly when the configuration last
      offered to it and the last accepted one are the same for it. */
  lemma InSyncExactlyWhen(obs: seq<Observer>, callbacks: nat, s: State, ev: seq<Event>)
    requires ValidGateway(s.gateway) && InSync(s.gateway, s.current)
    ensures var t := Run(obs, callbacks, s, ev);
            InSync(t.gateway, t.current) <==>
              SameFor(s.gateway, LastOr(OfferedConfigs(obs, ev), s.current), LastOr(AcceptedConfigs(obs, ev), s.current))
  {
    GatewayFollowsOffers(obs, callbacks, s, ev);
    CurrentIsLastAccepted(obs, callbacks, s, ev);
    var t := Run(obs, callbacks, s, ev);
    InSyncDetermines(t.gateway, LastOr(OfferedConfigs(obs, ev), s.current), t.current);
  }

  /** So one observer rejecting after the gateway has accepted leaves it on the rejected configuration, and no
      traffic brings it back. */
  lemma LateRejectionDrifts(s: State, c: Config, v: Verdict, traffic: seq<Event>)
    requires ValidGateway(s.gateway) && InSync(s.gateway, s.current)
    requires v != Accept && !SameFor(s.gateway, c, s.current)
    requires forall i | 0 <= i < |traffic| :: traffic[i].Traffic?
    ensures var t := Run([TheGateway, External], 0, s, [Try(Attempt(Some(c), [Accept, v]))] + traffic);
            t.current == s.current && InSync(t.gateway, c) && !InSync(t.gateway, t.current)
  {
    var obs, a := [TheGateway, External], Attempt(Some(c), [Accept, v]);
    var ev := [Try(a)] + traffic;
    assert FirstRejection(obs, a, 0) == FirstRejection(obs, a, 1) == 1;
    assert obs[0] == TheGateway && ReachesGateway(obs, a);
    OnlyTraffic(obs, [Try(a)], traffic);
    assert [Try(a)][..0] == [];
    assert OfferedConfigs(obs, [Try(a)]) == [c] && AcceptedConfigs(obs, [Try(a)]) == [];
    GatewayFollowsOffers(obs, 0, s, ev);
    InSyncExactlyWhen(obs, 0, s, ev);
    CurrentIsLastAccepted(obs, 0, s, ev);
  }

  lemma {:induction false} OnlyTraffic(obs: seq<Observer>, ev: seq<Event>, traffic: seq<Event>)
    requires forall i | 0 <= i < |traffic| :: traffic[i].Traffic?
    ensures OfferedConfigs(obs, ev + traffic) == OfferedConfigs(obs, ev)
    ensures AcceptedConfigs(obs, ev + traffic) == AcceptedConfigs(obs, ev)
  {
    if traffic == [] {
      assert ev + traffic == ev;
    } else {
      OnlyTraffic(obs, ev, traffic[..|traffic| - 1]);
      assert (ev + traffic)[..|ev + traffic| - 1] == ev + traffic[..|traffic| - 1];
    }
  }

  // ---------- Which registrations keep the gateway in step ----------

  /** The gateway is registered, and nothing but the gateway after it. */
  predicate GatewayLast(obs: seq<Observer>) {
    TheGateway in obs && forall i, j | 0 <= i < j < |obs| && obs[i] == TheGateway :: obs[j] == TheGateway
  }

  ghost predicate NeverDrifts(obs: seq<Observer>, callbacks: nat, s: State)
    requires ValidGateway(s.gateway)
  {
    forall ev :: InSync(Run(obs, callbacks, s, ev).gateway, Run(obs, callbacks, s, ev).current)
  }

  lemma OfferedIsAccepted(obs: seq<Observer>, a: Attempt)
    requires GatewayLast(obs)
    ensures ReachesGateway(obs, a) <==> Accepted(obs, a)
  {
    if a.loaded.Some? && FirstRejection(obs, a, 0) == |obs| {
      var i: nat :| i < |obs| && obs[i] == TheGateway;
      assert ReachesGateway(obs, a);
    }
  }

  lemma {:induction false} OffersAreAccepted(obs: seq<Observer>, ev: seq<Event>)
    requires GatewayLast(obs)
    ensures OfferedConfigs(obs, ev) == AcceptedConfigs(obs, ev)
  {
    if ev != [] {
      OffersAreAccepted(obs, ev[..|ev| - 1]);
      if ev[|ev| - 1].Try? {
        OfferedIsAccepted(obs, ev[|ev| - 1].attempt);
      }
    }
  }

  /** The same configuration with another global rate, offered once; `rejecting` is the observer that rejects it. */
  function Faster(c: Config, n: nat, rejecting: nat): Attempt {
    Attempt(Some(c.(rate := c.rate + 1.0)), seq(n, k => if k == rejecting then ReturnError else Accept))
  }

  lemma {:induction false} RejectedAt(obs: seq<Observer>, c: Config, rejecting: nat, i: nat)
    requires i <= rejecting <= |obs| && (rejecting < |obs| ==> obs[rejecting] == External)
    ensures FirstRejection(obs, Faster(c, |obs|, rejecting), i) == rejecting
    decreases rejecting - i
  {
    if i < rejecting {
      RejectedAt(obs, c, rejecting, i + 1);
    }
  }

  lemma OneAttempt(obs: seq<Observer>, callbacks: nat, s: State, a: Attempt)
    requires ValidGateway(s.gateway)
    ensures Run(obs, callbacks, s, [Try(a)]) == Reloading(obs, callbacks, s, a)
  {
    assert [Try(a)][..0] == [];
  }

  /** The gateway agrees with `Current` after every run if and only if it is registered and no other observer
      comes after it. `NewGateway` registers the gateway alone, so it takes another observer to make it drift. */
  lemma NeverDriftsExactlyWhenLast(obs: seq<Observer>, callbacks: nat, s: State)
    requires ValidGateway(s.gateway) && InSync(s.gateway, s.current)
    ensures NeverDrifts(obs, callbacks, s) <==> GatewayLast(obs)
  {
    if GatewayLast(obs) {
      forall ev ensures InSync(Run(obs, callbacks, s, ev).gateway, Run(obs, callbacks, s, ev).current) {
        OffersAreAccepted(obs, ev);
        GatewayFollowsOffers(obs, callbacks, s, ev);
        CurrentIsLastAccepted(obs, callbacks, s, ev);
      }
    } else if TheGateway !in obs {
      var a := Faster(s.current, |obs|, |obs|);
      RejectedAt(obs, s.current, |obs|, 0);
      OneAttempt(obs, callbacks, s, a);
      assert Run(obs, callbacks, s, [Try(a)]).current.rate != s.gateway.rate;
      assert !InSync(Run(obs, callbacks, s, [Try(a)]).gateway, Run(obs, callbacks, s, [Try(a)]).current);
    } else {
      var i, j :| 0 <= i < j < |obs| && obs[i] == TheGateway && obs[j] != TheGateway;
      var a := Faster(s.current, |obs|, j);
      RejectedAt(obs, s.current, j, 0);
      assert ReachesGateway(obs, a);
      OneAttempt(obs, callbacks, s, a);
      assert Run(obs, callbacks, s, [Try(a)]).gateway.rate != s.current.rate;
      assert !InSync(Run(obs, callbacks, s, [Try(a)]).gateway, Run(obs, callbacks, s, [Try(a)]).current);
    }
  }

  // ---------- Thresholds between reloads ----------

  /** The calls that reach the breaker of `backend`. */
  function CallsTo(backend: string, ev: seq<Event>): seq<Composite.Call> {
    if ev == [] then [] else
    var before, e := CallsTo(backend, ev[..|ev| - 1]), ev[|ev| - 1];
    if e.Traffic? && e.backend == backend then before + [e.call] else before
  }

  /** Between offers each breaker runs on its own calls alone. */
  lemma {:induction false} BreakersRunAlone(obs: seq<Observer>, callbacks: nat, s: State, ev: seq<Event>, backend: string)
    requires ValidGateway(s.gateway) && OfferedConfigs(obs, ev) == [] && backend in s.gateway.breakers
    ensures Run(obs, callbacks, s, ev).gateway.breakers[backend]
         == Composite.RunStack(s.gateway.breakers[backend], CallsTo(backend, ev))
  {
    if ev != [] {
      BreakersRunAlone(obs, callbacks, s, ev[..|ev| - 1], backend);
      var before, e := CallsTo(backend, ev[..|ev| - 1]), ev[|ev| - 1];
      if e.Traffic? && e.backend == backend {
        assert (before + [e.call])[..|before|] == before;
      }
    }
  }

  /** From an offer until the next one, a breaker works with the offered threshold exactly when it is not
      adaptive, has recorded nothing since, or computes that very threshold from its latencies. */
  lemma OfferedThresholdInForce(obs: seq<Observer>, callbacks: nat, s: State, a: Attempt, ev: seq<Event>, backend: string)
    requires ValidGateway(s.gateway) && backend in s.gateway.breakers
    requires ReachesGateway(obs, a) && Composite.ValidConfig(a.loaded.value.breaker) && OfferedConfigs(obs, ev) == []
    ensures var b, calls, p := s.gateway.breakers[backend], CallsTo(backend, ev), a.loaded.value.breaker.core;
            var t := Run(obs, callbacks, Reloading(obs, callbacks, s, a), ev).gateway.breakers[backend];
            t.core.settings.threshold == p.threshold <==>
              || !b.config.adaptive
              || Composite.NoOutcomes(calls)
              || Adaptive.ThresholdFor(Composite.TuningOf(b.config), Composite.AverageAfter(b, calls)) == p.threshold
  {
    BreakersRunAlone(obs, callbacks, Reloading(obs, callbacks, s, a), ev, backend);
    Composite.ReloadedThresholdOverRuns(s.gateway.breakers[backend], a.loaded.value.breaker, CallsTo(backend, ev));
  }

  // ---------- The router's table is never reloaded ----------

  lemma {:induction false} OffersWereValidated(obs: seq<Observer>, ev: seq<Event>)
    requires forall i | 0 <= i < |ev| && ev[i].Try? && ev[i].attempt.loaded.Some? :: Validated(ev[i].attempt.loaded.value)
    ensures forall c | c in OfferedConfigs(obs, ev) :: Validated(c)
  {
    if ev != [] {
      OffersWereValidated(obs, ev[..|ev| - 1]);
    }
  }

  /** After any run, router, limiter and log-level scan choose the same prefix for every path exactly when the
      configuration last offered lists the prefixes the gateway was started with. */
  lemma ScansAgreeAfterReloads(obs: seq<Observer>, callbacks: nat, s: State, ev: seq<Event>)
    requires StartedWith(s.gateway, s.current) && Validated(s.current)
    requires forall i | 0 <= i < |ev| && ev[i].Try? && ev[i].attempt.loaded.Some? :: Validated(ev[i].attempt.loaded.value)
    ensures var g := Run(obs, callbacks, s, ev).gateway;
            && (Routing.AgreeEverywhere(g.router, g.limiterRoutes) <==>
                  Routing.Prefixes(s.current.routes) == Routing.Prefixes(LastOr(OfferedConfigs(obs, ev), s.current).routes))
            && g.routesRef == g.limiterRoutes
  {
    GatewayFollowsOffers(obs, callbacks, s, ev);
    OffersWereValidated(obs, ev);
    var offered := OfferedConfigs(obs, ev);
    assert offered != [] ==> offered[|offered| - 1] in offered;
    assert Validated(LastOr(offered, s.current));
    Routing.AgreeExactlyWhenSamePrefixes(s.current.routes, s.gateway.router, Run(obs, callbacks, s, ev).gateway.limiterRoutes);
  }

  /** So a prefix that a reload adds is known to the limiter and the log-level scan and not to the router. */
  lemma AddedPrefixIsNotRouted(obs: seq<Observer>, callbacks: nat, s: State, a: Attempt, p: string)
    requires StartedWith(s.gateway, s.current) && Validated(s.current)
    requires ReachesGateway(obs, a) && Validated(a.loaded.value)
    requires p in Routing.Prefixes(a.loaded.value.routes) && p !in Routing.Prefixes(s.current.routes)
    ensures var g := Reloading(obs, callbacks, s, a).gateway;
            Routing.ScanAll(g.limiterRoutes, p).prefix == p && Routing.RouterPrefix(g.router, p) != p
  {
    Routing.ScanFindsPrefix(a.loaded.value.routes, p);
    Routing.RouterFindsPrefix(s.current.routes, s.gateway.router, p);
  }

  /** The part of `gateway.go` that a reload touches. Breakers are held by value. */
  class GatewayObject {
    const limiter: RateLimiter.Limiter
    var breakers: map<string, Composite.Stack>
    var routesRef: seq<Routing.Route>
    const router: seq<Routing.Route>

    ghost function Model(): Gateway
      reads this, limiter
    {
      Gateway(limiter.rate, limiter.burst, limiter.routes, breakers, routesRef, router)
    }

    constructor (limiter: RateLimiter.Limiter, breakers: map<string, Composite.Stack>, routes: seq<Routing.Route>,
                 router: seq<Routing.Route>)
      ensures this.limiter == limiter && this.breakers == breakers && routesRef == routes && this.router == router
    {
      this.limiter, this.breakers, routesRef, this.router := limiter, breakers, routes, router;
    }

    /** Overwrites everything unconditionally. */
    method Adopt(c: Config)
      modifies this, limiter
      ensures Model() == OnReload(old(Model()), c)
      ensures Adopted(Model(), c)
      ensures limiter.clients == map[]
    {
      limiter.UpdateConfig(c.rate, c.burst, c.routes);
      var left := breakers.Keys;
      while left != {}
        invariant left <= breakers.Keys == old(breakers).Keys
        invariant forall k | k in breakers ::
          breakers[k] == if k in left then old(breakers)[k] else Composite.Reloaded(old(breakers)[k], c.breaker)
        invariant limiter.rate == c.rate && limiter.burst == c.burst && limiter.routes == c.routes
        invariant limiter.clients == map[]
        decreases left
      {
        var k :| k in left;
        breakers := breakers[k := Composite.Reloaded(breakers[k], c.breaker)];
        left := left - {k};
      }
      routesRef := c.routes;
    }
  }

  /** `reload.go`. */
  class Reloader {
    var current: Config
    const gateway: GatewayObject
    const observers: seq<Observer>
    const callbacks: nat
    var invoked: seq<(nat, Config)>
    var legacy: seq<(nat, Config)>
    var rollbacks: seq<Verdict>

    ghost function Model(): State
      reads this, gateway, gateway.limiter
    {
      State(current, gateway.Model(), invoked, legacy, rollbacks)
    }

    constructor (initial: Config, g: GatewayObject, obs: seq<Observer>, callbacks: nat)
      ensures Model() == State(initial, g.Model(), [], [], [])
      ensures gateway == g && observers == obs && this.callbacks == callbacks
    {
      current, gateway, observers, this.callbacks := initial, g, obs, callbacks;
      invoked, legacy, rollbacks := [], [], [];
    }

    method InvokeObserver(i: nat, a: Attempt, c: Config) returns (v: Verdict)
      requires i < |observers|
      modifies this`invoked, gateway, gateway.limiter
      ensures v == VerdictOf(observers, a, i)
      ensures invoked == old(invoked) + [(i, c)]
      ensures gateway.Model() == if observers[i] == TheGateway then OnReload(old(gateway.Model()), c) else old(gateway.Model())
    {
      invoked := invoked + [(i, c)];
      if observers[i] == TheGateway {
        gateway.Adopt(c);
        return Accept;
      }
      v := if i < |a.verdicts| then a.verdicts[i] else Accept;
    }

    method Reload(a: Attempt) returns (ok: bool)
      modifies this, gateway, gateway.limiter
      ensures ok == Accepted(observers, a)
      ensures Model() == Reloading(observers, callbacks, old(Model()), a)
    {
      if a.loaded.None? {
        return false;
      }
      var c, old' := a.loaded.value, current;
      current := c;
      for i := 0 to |observers|
        invariant FirstRejection(observers, a, 0) == FirstRejection(observers, a, i)
        invariant current == c && legacy == old(legacy) && rollbacks == old(rollbacks)
        invariant invoked == old(invoked) + Calls(0, i, c)
        invariant gateway.Model() == Settle(observers, old(gateway.Model()), c, i)
      {
        CallsSnoc(0, i, c);
        var v := InvokeObserver(i, a, c);
        if v != Accept {
          current := old';
          rollbacks := rollbacks + [v];
          Settled(observers, callbacks, old(Model()), a, i);
          return false;
        }
      }
      Settled(observers, callbacks, old(Model()), a, |observers|);
      InvokeLegacy(c);
      return true;
    }

    /** The tail of `Reload`: every legacy callback, in order. */
    method InvokeLegacy(c: Config)
      modifies this`legacy
      ensures legacy == old(legacy) + Calls(0, callbacks, c)
    {
      for i := 0 to callbacks
        invariant legacy == old(legacy) + Calls(0, i, c)
      {
        CallsSnoc(0, i, c);
        legacy := legacy + [(i, c)];
      }
    }

    static lemma SettledByReload(obs: seq<Observer>, g: Gateway, c: Config, a: Attempt, r: nat)
      requires r <= |obs| && a.loaded.Some? && r == FirstRejection(obs, a, 0)
      ensures Settle(obs, g, c, r) == if ReachesGateway(obs, a) then OnReload(g, c) else g
    {
      SettlesOnce(obs, g, c, r);
      if exists i: nat :: i < r && obs[i] == TheGateway {
        var i: nat :| i < r && obs[i] == TheGateway;
        assert i < |obs| && i <= FirstRejection(obs, a, 0) && obs[i] == TheGateway;
      }
    }

    /** What an attempt amounts to once its first rejection is at `r`. */
    static lemma Settled(obs: seq<Observer>, callbacks: nat, s: State, a: Attempt, r: nat)
      requires r <= |obs| && a.loaded.Some? && r == FirstRejection(obs, a, 0)
      ensures var c := a.loaded.value;
              var g := Settle(obs, s.gateway, c, r);
              Reloading(obs, callbacks, s, a) ==
                if r < |obs| then State(s.current, g, s.invoked + Calls(0, r + 1, c), s.legacy, s.rollbacks + [VerdictOf(obs, a, r)])
                else State(c, g, s.invoked + Calls(0, r, c), s.legacy + Calls(0, callbacks, c), s.rollbacks)
    {
      SettledByReload(obs, s.gateway, a.loaded.value, a, r);
    }
  }
}
