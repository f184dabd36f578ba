/** The agent pipeline: one planner, ordered reviewers, an error budget with self-disable. */
module Pipeline {
  import opened Options

  const PLANNER: nat := 0

  datatype Budget = Budget(maxErrors: int, cooldown: int)

  /** `enabledFrom` is None for the zero time. */
  datatype State = State(enabled: bool, errors: int, enabledFrom: Option<int>)

  datatype Plan = PlanError | NoPlan | Proposed

  datatype Verdict = Approve | Veto | ReviewError

  /** One reviewer's turn: whether the context was done before it, its verdict, and the clock then. */
  datatype Review = Review(cancelled: bool, verdict: Verdict, at: int)

  /** Everything outside the pipeline's control during one `Run`. */
  datatype Cycle = Cycle(now: int, cancelled: bool, plan: Plan, reviews: seq<Review>)

  datatype Outcome = Emitted | Declined | Vetoed(reviewer: nat) | Failed(at: int) | Disabled

  /** The sentinel `time.Unix(1<<62, 0)` in nanoseconds. */
  const FAR_FUTURE: int := 0x4000_0000_0000_0000 * 1_000_000_000

  predicate IsEnabled(s: State, now: int) {
    s.enabled && (s.enabledFrom.None? || now >= s.enabledFrom.value)
  }

  /** Do any agents run in this cycle? */
  predicate AgentsRun(s: State, c: Cycle) {
    !c.cancelled && IsEnabled(s, c.now)
  }

  /** The reviewers from position `i` on: the first veto, error or cancellation ends the cycle. */
  function ReviewFrom(reviews: seq<Review>, i: nat): Outcome
    requires i <= |reviews|
    decreases |reviews| - i
  {
    if i == |reviews| then Emitted
    else if reviews[i].cancelled || reviews[i].verdict == ReviewError then Failed(reviews[i].at)
    else if reviews[i].verdict == Veto then Vetoed(i)
    else ReviewFrom(reviews, i + 1)
  }

  function OutcomeOf(s: State, c: Cycle): Outcome {
    if c.cancelled then Failed(c.now)
    else if !IsEnabled(s, c.now) then Disabled
    else match c.plan
      case PlanError => Failed(c.now)
      case NoPlan => Declined
      case Proposed => ReviewFrom(c.reviews, 0)
  }

  function Deadline(b: Budget, at: int): int {
    if b.cooldown > 0 then at + b.cooldown else FAR_FUTURE
  }

  predicate Exhausted(b: Budget, errors: int) {
    b.maxErrors > 0 && errors >= b.maxErrors
  }

  function AfterError(s: State, b: Budget, at: int): State {
    s.(errors := s.errors + 1,
       enabledFrom := if Exhausted(b, s.errors + 1) then Some(Deadline(b, at)) else s.enabledFrom)
  }

  datatype Event = Go(c: Cycle) | Enable | Disable

  function Apply(s: State, b: Budget, e: Event): State {
    match e
    case Enable => State(true, 0, None)
    case Disable => s.(enabled := false)
    case Go(c) =>
      match OutcomeOf(s, c)
      case Failed(at) => AfterError(s, b, at)
      case Disabled => s
      case _ => s.(errors := 0)
  }

  const START: State := State(true, 0, None)

  /** The state after the first `k` events. */
  function Run(b: Budget, ev: seq<Event>, k: nat): State
    requires k <= |ev|
  {
    if k == 0 then START else Apply(Run(b, ev, k - 1), b, ev[k - 1])
  }

  // ---------- The counter ----------

  /** The outcome of event `k`, if it is a cycle. */
  function OutcomeAt(b: Budget, ev: seq<Event>, k: nat): Outcome
    requires k < |ev| && ev[k].Go?
  {
    OutcomeOf(Run(b, ev, k), ev[k].c)
  }

  /** Event `k` ends a streak of errors: an emit, a veto, a declined proposal, or `Enable`. */
  predicate EndsStreak(b: Budget, ev: seq<Event>, k: nat)
    requires k < |ev|
  {
    ev[k].Enable? || (ev[k].Go? && !OutcomeAt(b, ev, k).Failed? && !OutcomeAt(b, ev, k).Disabled?)
  }

  predicate IsError(b: Budget, ev: seq<Event>, k: nat)
    requires k < |ev|
  {
    ev[k].Go? && OutcomeAt(b, ev, k).Failed?
  }

  /** Errors among the events at positions lo..hi. */
  function ErrorsBetween(b: Budget, ev: seq<Event>, lo: nat, hi: nat): nat
    requires lo <= hi <= |ev|
    decreases hi
  {
    if lo == hi then 0 else (ErrorsBetween(b, ev, lo, hi - 1) + (if IsError(b, ev, hi - 1) then 1 else 0))
  }

  /** Start of the streak that is current after `k` events. */
  function StreakStart(b: Budget, ev: seq<Event>, k: nat): (m: nat)
    requires k <= |ev|
    ensures m <= k
    ensures forall i | m <= i < k :: !EndsStreak(b, ev, i)
    ensures m > 0 ==> EndsStreak(b, ev, m - 1)
  {
    if k == 0 || EndsStreak(b, ev, k - 1) then k else StreakStart(b, ev, k - 1)
  }

  lemma CounterStep(b: Budget, ev: seq<Event>, k: nat)
    requires k < |ev|
    ensures Run(b, ev, k + 1).errors ==
      if EndsStreak(b, ev, k) then 0 else Run(b, ev, k).errors + if IsError(b, ev, k) then 1 else 0
  {
  }

  /** The counter is exactly the number of errors since the last emit, veto, declined proposal or `Enable`. */
  lemma {:induction false} CounterIsCurrentStreak(b: Budget, ev: seq<Event>, k: nat)
    requires k <= |ev|
    ensures Run(b, ev, k).errors == ErrorsBetween(b, ev, StreakStart(b, ev, k), k)
  {
    if k > 0 {
      CounterStep(b, ev, k - 1);
      CounterIsCurrentStreak(b, ev, k - 1);
      if EndsStreak(b, ev, k - 1) {
        assert StreakStart(b, ev, k) == k;
      } else {
        assert StreakStart(b, ev, k) == StreakStart(b, ev, k - 1) <= k - 1;
      }
    }
  }

  // ---------- Self-disable ----------

  /** Clock readings never go backwards, within a cycle or from one cycle to the next. */
  ghost predicate Clocked(b: Budget, ev: seq<Event>) {
    && (forall i {:trigger IsError(b, ev, i)} | 0 <= i < |ev| && IsError(b, ev, i) :: ev[i].c.now <= OutcomeAt(b, ev, i).at)
    && (forall i, j {:trigger IsError(b, ev, i), ev[j]} | 0 <= i < j < |ev| && IsError(b, ev, i) && ev[j].Go? ::
          OutcomeAt(b, ev, i).at <= ev[j].c.now)
  }

  /** The error at `i` used up the budget. */
  predicate Trips(b: Budget, ev: seq<Event>, i: nat)
    requires i < |ev|
  {
    IsError(b, ev, i) && Exhausted(b, Run(b, ev, i).errors + 1)
  }

  lemma GateStep(b: Budget, ev: seq<Event>, k: nat)
    requires k < |ev| && !ev[k].Enable?
    ensures Run(b, ev, k + 1).enabledFrom ==
      if Trips(b, ev, k) then Some(Deadline(b, OutcomeAt(b, ev, k).at)) else Run(b, ev, k).enabledFrom
  {
  }

  /** The gate is set, no earlier than `d`; it is still exactly `d` as long as nothing has failed since. */
  predicate GatedFrom(s: State, d: int, quiet: bool) {
    s.enabledFrom.Some? && s.enabledFrom.value >= d && (quiet ==> s.enabledFrom.value == d)
  }

  /** A trip at a later clock reading has a later deadline. */
  lemma LaterTripLaterDeadline(b: Budget, ev: seq<Event>, i: nat, k: nat)
    requires i < k < |ev| && Clocked(b, ev) && Trips(b, ev, i) && Trips(b, ev, k)
    ensures Deadline(b, OutcomeAt(b, ev, i).at) <= Deadline(b, OutcomeAt(b, ev, k).at)
  {
    assert OutcomeAt(b, ev, i).at <= ev[k].c.now <= OutcomeAt(b, ev, k).at;
  }

  lemma TripSetsGate(b: Budget, ev: seq<Event>, i: nat)
    requires i < |ev| && Trips(b, ev, i)
    ensures GatedFrom(Run(b, ev, i + 1), Deadline(b, OutcomeAt(b, ev, i).at), true)
  {
    GateStep(b, ev, i);
  }

  lemma GateStays(b: Budget, ev: seq<Event>, i: nat, k: nat, quiet: bool)
    requires i < k < |ev| && Clocked(b, ev) && Trips(b, ev, i) && !ev[k].Enable?
    requires GatedFrom(Run(b, ev, k), Deadline(b, OutcomeAt(b, ev, i).at), quiet)
    ensures GatedFrom(Run(b, ev, k + 1), Deadline(b, OutcomeAt(b, ev, i).at), quiet && !IsError(b, ev, k))
  {
    GateStep(b, ev, k);
    if Trips(b, ev, k) {
      LaterTripLaterDeadline(b, ev, i, k);
    }
  }

  /** From the trip on, until `Enable`, the pipeline is gated no earlier than the trip's deadline: later
      errors, from cancelled runs for instance, only push the gate further out. */
  lemma {:induction false} GateOnlyMovesLater(b: Budget, ev: seq<Event>, i: nat, j: nat)
    requires i < j <= |ev| && Clocked(b, ev) && Trips(b, ev, i)
    requires forall m | i < m < j :: !ev[m].Enable?
    ensures GatedFrom(Run(b, ev, j), Deadline(b, OutcomeAt(b, ev, i).at), ErrorsBetween(b, ev, i + 1, j) == 0)
  {
    if j == i + 1 {
      TripSetsGate(b, ev, i);
    } else {
      GateOnlyMovesLater(b, ev, i, j - 1);
      GateStays(b, ev, i, j - 1, ErrorsBetween(b, ev, i + 1, j - 1) == 0);
    }
  }

  /** Once the budget is used up by an error at time t, no planner or reviewer runs before t + cooldown
      (for a zero cooldown, before the far-future sentinel) unless the operator enables the pipeline; and if
      nothing else fails and the operator has not disabled it, agents run again exactly from then on. */
  lemma TrippedPipelineStaysSilent(b: Budget, ev: seq<Event>, i: nat, j: nat)
    requires i < j < |ev| && Clocked(b, ev) && Trips(b, ev, i) && ev[j].Go?
    requires forall m | i < m < j :: !ev[m].Enable?
    ensures ev[j].c.now < Deadline(b, OutcomeAt(b, ev, i).at) ==> !AgentsRun(Run(b, ev, j), ev[j].c)
    ensures ErrorsBetween(b, ev, i + 1, j) == 0 && Run(b, ev, j).enabled && !ev[j].c.cancelled ==>
      (AgentsRun(Run(b, ev, j), ev[j].c) <==> ev[j].c.now >= Deadline(b, OutcomeAt(b, ev, i).at))
  {
    GateOnlyMovesLater(b, ev, i, j);
  }

  /** After the operator's `Disable` no agent runs until `Enable`, whatever the clock says. */
  lemma {:induction false} DisabledStaysSilent(b: Budget, ev: seq<Event>, i: nat, j: nat)
    requires i < j <= |ev| && ev[i].Disable? && forall m | i < m < j :: !ev[m].Enable?
    ensures forall c :: !AgentsRun(Run(b, ev, j), c)
    ensures !Run(b, ev, j).enabled
  {
    if j > i + 1 {
      DisabledStaysSilent(b, ev, i, j - 1);
    }
  }

  /** Event `i` is the operator's `Disable`, or an error that completes the budget, at most a cooldown before. */
  predicate Silences(b: Budget, ev: seq<Event>, i: nat, c: Cycle)
    requires i < |ev|
  {
    || ev[i].Disable?
    || (&& b.maxErrors > 0 && IsError(b, ev, i)
        && ErrorsBetween(b, ev, StreakStart(b, ev, i), i) + 1 >= b.maxErrors
        && (b.cooldown > 0 ==> c.now < OutcomeAt(b, ev, i).at + b.cooldown))
  }

  /** The operator's switch, the budget's gate and the request's context are all that can silence the agents. */
  lemma {:induction false} SilenceHasCause(b: Budget, ev: seq<Event>, j: nat, c: Cycle)
    requires j <= |ev| && !c.cancelled && !AgentsRun(Run(b, ev, j), c)
    ensures exists i: nat :: i < j && Silences(b, ev, i, c) && forall m | i < m < j :: !ev[m].Enable?
  {
    if j > 0 && !ev[j - 1].Enable? {
      CounterIsCurrentStreak(b, ev, j - 1);
      GateStep(b, ev, j - 1);
      if !Silences(b, ev, j - 1, c) {
        SilenceHasCause(b, ev, j - 1, c);
        var i: nat :| i < j - 1 && Silences(b, ev, i, c) && forall m | i < m < j - 1 :: !ev[m].Enable?;
        assert forall m | i < m < j :: !ev[m].Enable?;
      }
    }
  }

  /** In the budget's own terms: when errors at least as many as the budget allows have followed each other up to
      one at time t, no agent runs before t + cooldown (without a cooldown, before 2^62 seconds) unless the
      operator enables the pipeline. */
  lemma ExhaustedBudgetSilences(b: Budget, ev: seq<Event>, i: nat, j: nat)
    requires i < j < |ev| && Clocked(b, ev) && ev[j].Go? && forall m | i < m < j :: !ev[m].Enable?
    requires b.maxErrors > 0
    requires IsError(b, ev, i) && ErrorsBetween(b, ev, StreakStart(b, ev, i), i) + 1 >= b.maxErrors
    ensures var until := if b.cooldown > 0 then OutcomeAt(b, ev, i).at + b.cooldown
                         else 4_611_686_018_427_387_904 * 1_000_000_000;
            && (ev[j].c.now < until ==> !AgentsRun(Run(b, ev, j), ev[j].c))
            && (ErrorsBetween(b, ev, i + 1, j) == 0 && Run(b, ev, j).enabled && !ev[j].c.cancelled ==>
                  (AgentsRun(Run(b, ev, j), ev[j].c) <==> ev[j].c.now >= until))
  {
    CounterIsCurrentStreak(b, ev, i);
    TrippedPipelineStaysSilent(b, ev, i, j);
  }

  predicate Approves(r: Review) {
    !r.cancelled && r.verdict == Approve
  }

  /** From position `i` on, reviewer `r` is the first that does not approve. */
  predicate FirstToDecide(reviews: seq<Review>, i: nat, r: nat) {
    i <= r < |reviews| && !Approves(reviews[r]) && forall m | i <= m < r :: Approves(reviews[m])
  }

  lemma {:induction false} AllApprove(reviews: seq<Review>, i: nat)
    requires i <= |reviews|
    ensures ReviewFrom(reviews, i) == Emitted <==> forall m | i <= m < |reviews| :: Approves(reviews[m])
    decreases |reviews| - i
  {
    if i < |reviews| && Approves(reviews[i]) {
      AllApprove(reviews, i + 1);
    }
  }

  /** The first reviewer that does not approve decides. */
  lemma {:induction false} FirstDecides(reviews: seq<Review>, i: nat, r: nat)
    requires FirstToDecide(reviews, i, r)
    ensures ReviewFrom(reviews, i) ==
      if !reviews[r].cancelled && reviews[r].verdict == Veto then Vetoed(r) else Failed(reviews[r].at)
    decreases r - i
  {
    if i < r {
      FirstDecides(reviews, i + 1, r);
    }
  }

  /** Every outcome of a cycle, exactly when it occurs: in particular a proposal is emitted exactly when nothing is
      cancelled, the operator has the pipeline enabled, the gate is not in the future, the planner proposes and
      every reviewer approves. */
  lemma OutcomesExactlyWhen(s: State, c: Cycle, r: nat)
    ensures var running := !c.cancelled && s.enabled && (s.enabledFrom.Some? ==> c.now >= s.enabledFrom.value);
            var o := OutcomeOf(s, c);
            && (o == Emitted <==> running && c.plan == Proposed && forall m | 0 <= m < |c.reviews| :: Approves(c.reviews[m]))
            && (o == Declined <==> running && c.plan == NoPlan)
            && (o == Disabled <==> !c.cancelled && !running)
            && (c.cancelled || (running && c.plan == PlanError) ==> o == Failed(c.now))
            && (running && c.plan == Proposed && FirstToDecide(c.reviews, 0, r) ==>
                  o == if !c.reviews[r].cancelled && c.reviews[r].verdict == Veto then Vetoed(r) else Failed(c.reviews[r].at))
  {
    AllApprove(c.reviews, 0);
    ReviewsEndTheCycle(c.reviews, 0);
    if FirstToDecide(c.reviews, 0, r) {
      FirstDecides(c.reviews, 0, r);
    }
  }

  lemma {:induction false} ReviewsEndTheCycle(reviews: seq<Review>, i: nat)
    requires i <= |reviews|
    ensures ReviewFrom(reviews, i) != Declined && ReviewFrom(reviews, i) != Disabled
    decreases |reviews| - i
  {
    if i < |reviews| {
      ReviewsEndTheCycle(reviews, i + 1);
    }
  }

  /** Without a positive budget nothing but the operator silences the agents. */
  lemma {:induction false} NoBudgetNoGate(b: Budget, ev: seq<Event>, k: nat)
    requires b.maxErrors <= 0 && k <= |ev|
    ensures Run(b, ev, k).enabledFrom.None?
  {
    if k > 0 {
      NoBudgetNoGate(b, ev, k - 1);
    }
  }

  // ---------- The object ----------

  /** `agent.go`. Agents are represented by their roles; their answers come with each cycle. */
  class AgentPipeline {
    const reviewerRoles: seq<nat>
    const budget: Budget
    var enabled: bool
    var consecutiveErrors: int
    var enabledFrom: Option<int>

    ghost function Model(): State
      reads this
    {
      State(enabled, consecutiveErrors, enabledFrom)
    }

    /** `NewPipeline`'s checks: a planner first, then reviewers in non-decreasing role order. */
    static method ValidRoles(plannerRole: nat, roles: seq<nat>) returns (ok: bool)
      ensures ok <==>
        && plannerRole == PLANNER
        && (forall i | 0 <= i < |roles| :: roles[i] != PLANNER)
        && (forall i, j | 0 <= i < j < |roles| :: roles[i] <= roles[j])
    {
      if plannerRole != PLANNER {
        return false;
      }
      var prev := PLANNER;
      for i := 0 to |roles|
        invariant forall m | 0 <= m < i :: roles[m] != PLANNER && roles[m] <= prev
        invariant forall m, n | 0 <= m < n < i :: roles[m] <= roles[n]
        invariant i > 0 ==> prev == roles[i - 1]
        invariant i == 0 ==> prev == PLANNER
      {
        if roles[i] == PLANNER {
          return false;
        }
        if roles[i] < prev {
          return false;
        }
        prev := roles[i];
      }
      return true;
    }

    constructor (roles: seq<nat>, b: Budget)
      ensures Model() == START && budget == b && reviewerRoles == roles
    {
      reviewerRoles, budget := roles, b;
      enabled, consecutiveErrors, enabledFrom := true, 0, None;
    }

    method DisableOp()
      modifies this`enabled
      ensures Model() == Apply(old(Model()), budget, Disable)
    {
      enabled := false;
    }

    method EnableOp()
      modifies this
      ensures Model() == Apply(old(Model()), budget, Enable)
    {
      enabled, consecutiveErrors, enabledFrom := true, 0, None;
    }

    method RecordError(at: int)
      modifies this`consecutiveErrors, this`enabledFrom
      ensures Model() == AfterError(old(Model()), budget, at)
    {
      consecutiveErrors := consecutiveErrors + 1;
      if budget.maxErrors > 0 && consecutiveErrors >= budget.maxErrors {
        if budget.cooldown > 0 {
          enabledFrom := Some(at + budget.cooldown);
        } else {
          enabledFrom := Some(FAR_FUTURE);
        }
      }
    }

    /** One cycle. `consulted` counts the reviewers that were asked. */
    method RunOnce(c: Cycle) returns (o: Outcome, consulted: nat)
      requires |c.reviews| == |reviewerRoles|
      modifies this`consecutiveErrors, this`enabledFrom
      ensures o == OutcomeOf(old(Model()), c)
      ensures Model() == Apply(old(Model()), budget, Go(c))
      ensures consulted > 0 ==> AgentsRun(old(Model()), c) && c.plan == Proposed
      ensures consulted <= |c.reviews|
      ensures forall i | 0 <= i < consulted - 1 :: c.reviews[i].verdict == Approve
      ensures o.Vetoed? ==> consulted == o.reviewer + 1 && c.reviews[o.reviewer].verdict == Veto
      ensures o == Emitted ==>
        consulted == |c.reviews| && forall i | 0 <= i < |c.reviews| :: c.reviews[i].verdict == Approve
    {
      consulted := 0;
      if c.cancelled {
        RecordError(c.now);
        return Failed(c.now), consulted;
      }
      if !IsEnabled(State(enabled, consecutiveErrors, enabledFrom), c.now) {
        return Disabled, consulted;
      }
      if c.plan == PlanError {
        RecordError(c.now);
        return Failed(c.now), consulted;
      }
      if c.plan == NoPlan {
        consecutiveErrors := 0;
        return Declined, consulted;
      }
      for i := 0 to |c.reviews|
        invariant consulted == i
        invariant ReviewFrom(c.reviews, 0) == ReviewFrom(c.reviews, i)
        invariant forall m | 0 <= m < i :: c.reviews[m].verdict == Approve
        invariant Model() == old(Model())
      {
        if c.reviews[i].cancelled {
          RecordError(c.reviews[i].at);
          return Failed(c.reviews[i].at), consulted;
        }
        consulted := consulted + 1;
        match c.reviews[i].verdict
        case ReviewError =>
          RecordError(c.reviews[i].at);
          return Failed(c.reviews[i].at), consulted;
        case Veto =>
          consecutiveErrors := 0;
          return Vetoed(i), consulted;
        case Approve =>
      }
      consecutiveErrors := 0;
      return Emitted, consulted;
    }
  }
}
