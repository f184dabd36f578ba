/** Many requests going through the bulkhead at once. `Allow` is three separate steps on shared state
    (take a slot, ask the inner breaker, give the slot back if refused), so every interleaving counts. */
module BulkheadProtocol {
  import opened FailureRate
  import opened Composite

  datatype Pc = Asking | GivingBack | Serving | Refused | Served

  /** `used` is the length of the semaphore channel. */
  datatype State = State(pcs: map<nat, Pc>, used: int, config: Config, core: Core)

  datatype Step =
    | Acquire(r: nat)             // try to push into the channel
    | Consult(r: nat, now: int)   // inner.Allow()
    | GiveBack(r: nat)            // inner refused: pop
    | Finish(r: nat)              // deferred Release: pop
    | Inner(e: Event)             // outcomes, resets and threshold changes reaching the inner breaker

  predicate IsAt(s: State, r: nat, pc: Pc) {
    r in s.pcs && s.pcs[r] == pc
  }

  /** A pop from an empty channel blocks. */
  predicate Enabled(s: State, step: Step) {
    match step
    case Acquire(r) => r !in s.pcs
    case Consult(r, _) => IsAt(s, r, Asking)
    case GiveBack(r) => IsAt(s, r, GivingBack) && s.used > 0
    case Finish(r) => IsAt(s, r, Serving) && s.used > 0
    case Inner(_) => true
  }

  function Next(s: State, step: Step): State
    requires Enabled(s, step)
  {
    match step
    case Acquire(r) =>
      if s.used < s.config.maxConcurrent
      then s.(pcs := s.pcs[r := Asking], used := s.used + 1)
      else s.(pcs := s.pcs[r := Refused])
    case Consult(r, now) =>
      s.(pcs := s.pcs[r := if Admits(s.core, now) then Serving else GivingBack], core := Apply(s.core, Ask(now)))
    case GiveBack(r) => s.(pcs := s.pcs[r := Refused], used := s.used - 1)
    case Finish(r) => s.(pcs := s.pcs[r := Served], used := s.used - 1)
    case Inner(e) => s.(core := Apply(s.core, e))
  }

  function Start(cfg: Config): State {
    State(map[], 0, cfg, Fresh(cfg.core))
  }

  /** The state after the scheduler has tried `steps` in order; a step that is not enabled waits. */
  function Run(cfg: Config, steps: seq<Step>): State {
    if steps == [] then Start(cfg) else
    var s := Run(cfg, steps[..|steps| - 1]);
    if Enabled(s, steps[|steps| - 1]) then Next(s, steps[|steps| - 1]) else s
  }

  predicate Holds(pc: Pc) {
    pc.Asking? || pc.GivingBack? || pc.Serving?
  }

  function Holders(pcs: map<nat, Pc>): set<nat> {
    set r | r in pcs && Holds(pcs[r])
  }

  lemma HoldersUpdate(pcs: map<nat, Pc>, r: nat, pc: Pc)
    ensures var before := r in pcs && Holds(pcs[r]);
            |Holders(pcs[r := pc])| == |Holders(pcs)| + (if Holds(pc) then 1 else 0) - (if before then 1 else 0)
  {
    var rest := Holders(pcs) - {r};
    if r in pcs && Holds(pcs[r]) {
      assert Holders(pcs) == rest + {r};
    } else {
      assert Holders(pcs) == rest;
    }
    if Holds(pc) {
      assert Holders(pcs[r := pc]) == rest + {r};
    } else {
      assert Holders(pcs[r := pc]) == rest;
    }
  }

  ghost predicate Inv(s: State) {
    s.used == |Holders(s.pcs)| && s.used <= s.config.maxConcurrent
  }

  lemma StepKeepsInv(s: State, step: Step)
    requires Inv(s) && Enabled(s, step)
    ensures Inv(Next(s, step))
  {
    if !step.Inner? {
      HoldersUpdate(s.pcs, step.r, Next(s, step).pcs[step.r]);
    }
  }

  /** In every reachable state the channel length is the number of requests holding a slot, never
      above the limit. */
  lemma {:induction false} SlotsAreConserved(cfg: Config, steps: seq<Step>)
    requires ValidConfig(cfg)
    ensures Run(cfg, steps).config == cfg && Inv(Run(cfg, steps))
  {
    if steps == [] {
      assert Holders(map[]) == {};
    } else {
      SlotsAreConserved(cfg, steps[..|steps| - 1]);
      var s := Run(cfg, steps[..|steps| - 1]);
      if Enabled(s, steps[|steps| - 1]) {
        StepKeepsInv(s, steps[|steps| - 1]);
      }
    }
  }

  /** Releasing never blocks: whoever is due to pop finds an element in the channel. */
  lemma ReleaseNeverBlocks(cfg: Config, steps: seq<Step>, s: State, r: nat)
    requires ValidConfig(cfg) && s == Run(cfg, steps)
    ensures IsAt(s, r, GivingBack) ==> Enabled(s, GiveBack(r))
    ensures IsAt(s, r, Serving) ==> Enabled(s, Finish(r))
  {
    SlotsAreConserved(cfg, steps);
    if IsAt(s, r, GivingBack) || IsAt(s, r, Serving) {
      assert r in Holders(s.pcs);
    }
  }

  /** Once every request has been refused or served, all slots are free again. */
  lemma DrainsToZero(cfg: Config, steps: seq<Step>, s: State)
    requires ValidConfig(cfg) && s == Run(cfg, steps)
    requires forall r | r in s.pcs :: s.pcs[r] == Refused || s.pcs[r] == Served
    ensures s.used == 0
  {
    SlotsAreConserved(cfg, steps);
    assert Holders(s.pcs) == {};
  }

  /** What the composite breaker sees of a state. */
  function View(s: State): Stack
    requires s.used >= 0
  {
    Stack(s.config, s.core, 0.0, s.used)
  }

  /** At the very step that decides a refusal, under any interleaving, the effective state is Open. */
  lemma RefusalMeansEffectivelyOpen(cfg: Config, steps: seq<Step>, s: State, step: Step)
    requires ValidConfig(cfg) && cfg.maxConcurrent > 0 && s == Run(cfg, steps) && Enabled(s, step)
    requires step.Acquire? || step.Consult?
    requires Next(s, step).pcs[step.r] == Refused || Next(s, step).pcs[step.r] == GivingBack
    ensures s.used >= 0 && EffectivePhase(View(s)) == Open
  {
    SlotsAreConserved(cfg, steps);
  }

  /** The release at the end of a request is the composed stack's `Done`, and frees exactly its slot. */
  lemma FinishIsDone(cfg: Config, steps: seq<Step>, s: State, r: nat)
    requires ValidConfig(cfg) && cfg.maxConcurrent > 0 && s == Run(cfg, steps) && IsAt(s, r, Serving)
    ensures Enabled(s, Finish(r)) && s.used >= 1 && s.config == cfg
    ensures View(Next(s, Finish(r))) == Composite.Step(View(s), Done)
    ensures |Holders(Next(s, Finish(r)).pcs)| == |Holders(s.pcs)| - 1
  {
    SlotsAreConserved(cfg, steps);
    ReleaseNeverBlocks(cfg, steps, s, r);
    StepKeepsInv(s, Finish(r));
  }

  /** Outcomes and resets reach the stack's breaker from any state of the others. */
  lemma InnerIsStep(s: State, call: Call)
    requires ValidConfig(s.config) && !s.config.adaptive && s.used >= 0 && !call.Request? && !call.Done?
    ensures View(Next(s, Inner(Feed(View(s), call)))) == Composite.Step(View(s), call)
  {
  }

  /** All slots held belong to requests being served. */
  ghost predicate Settled(s: State) {
    forall r | r in s.pcs :: s.pcs[r] != Asking && s.pcs[r] != GivingBack
  }

  /** The steps of one request through `Allow`, run without interference. */
  function AllowAlone(s: State, r: nat, now: int): State
    requires s.used >= 0 && r !in s.pcs
  {
    var a := Next(s, Acquire(r));
    if a.pcs[r] == Refused then a else
    var b := Next(a, Consult(r, now));
    if b.pcs[r] == Serving then b else Next(b, GiveBack(r))
  }

  /** Run alone, the three steps amount to one atomic `Allow` of the composed stack, and from a settled
      state every refusal is visible as an effectively open breaker before and after. */
  lemma AllowAloneIsAtomic(cfg: Config, steps: seq<Step>, s: State, r: nat, now: int)
    requires ValidConfig(cfg) && cfg.maxConcurrent > 0
    requires s == Run(cfg, steps) && Settled(s) && r !in s.pcs
    ensures s.config == cfg && s.used >= 0
    ensures var t := AllowAlone(s, r, now);
            && Settled(t) && t.used >= 0
            && View(t) == Composite.Step(View(s), Request(now))
            && (t.pcs[r] == Serving <==> Allows(View(s), now))
            && (t.pcs[r] == Refused ==> EffectivePhase(View(s)) == EffectivePhase(View(t)) == Open)
  {
    SlotsAreConserved(cfg, steps);
  }
}
