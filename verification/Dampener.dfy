/** Value constraints and the dampener: cooldown and hysteresis per (kind, target). */
module Dampener {
  import opened Options
  import Int64

  // ---------- Proposal values ----------

  /** The dynamic Go types a value may arrive as. */
  datatype Value =
    | GoInt(i: int) | GoInt32(i: int) | GoInt64(i: int)
    | GoUint(n: nat) | GoUint32(n: nat) | GoUint64(n: nat)
    | GoFloat64(x: real) | GoFloat32(x: real)
    | GoDuration(i: int)
    | Other

  const TWO32: nat := 0x1_0000_0000
  const TWO62: nat := 0x4000_0000_0000_0000
  const TWO64: nat := 0x1_0000_0000_0000_0000

  predicate InRange(v: Value) {
    match v
    case GoInt(i) => Int64.Fits(i)
    case GoInt64(i) => Int64.Fits(i)
    case GoDuration(i) => Int64.Fits(i)
    case GoInt32(i) => -0x8000_0000 <= i < 0x8000_0000
    case GoUint(n) => n < TWO64
    case GoUint64(n) => n < TWO64
    case GoUint32(n) => n < TWO32
    case _ => true
  }

  /** Conversion to int64: plain `uint` wraps, `uint64` above 2^62 and non-integral floats are refused. */
  function AsInt64(v: Value): Option<int> {
    match v
    case GoInt(i) => Some(i)
    case GoInt32(i) => Some(i)
    case GoInt64(i) => Some(i)
    case GoUint(n) => Some(Int64.Wrap(n))
    case GoUint32(n) => Some(n)
    case GoUint64(n) => if n > TWO62 then None else Some(n)
    case GoFloat64(x) => if x == x.Floor as real && Int64.Fits(x.Floor) then Some(x.Floor) else None
    case _ => None
  }

  function AsFloat64(v: Value): Option<real> {
    match v
    case GoFloat64(x) => Some(x)
    case GoFloat32(x) => Some(x)
    case GoInt(i) => Some(i as real)
    case GoInt32(i) => Some(i as real)
    case GoInt64(i) => Some(i as real)
    case _ => None
  }

  function AsDuration(v: Value): Option<int> {
    match v
    case GoDuration(i) => Some(i)
    case GoInt64(i) => Some(i)
    case GoInt(i) => Some(i)
    case _ => None
  }

  /** The number a value stands for. */
  function Number(v: Value): real {
    match v
    case GoInt(i) => i as real
    case GoInt32(i) => i as real
    case GoInt64(i) => i as real
    case GoUint(n) => n as real
    case GoUint32(n) => n as real
    case GoUint64(n) => n as real
    case GoFloat64(x) => x
    case GoFloat32(x) => x
    case GoDuration(i) => i as real
    case Other => 0.0
  }

  /** No conversion changes the number, except that a plain `uint` beyond int64 wraps to a negative one; of the
      numeric values int64 refuses exactly a `uint64` above 2^62, a float64 that is not a whole number in
      range, float32 and durations. */
  lemma ConversionsKeepNumbers(v: Value)
    requires InRange(v)
    ensures AsInt64(v).Some? ==>
      && Int64.Fits(AsInt64(v).value)
      && (AsInt64(v).value as real == Number(v) <==> !(v.GoUint? && v.n > Int64.MAX))
      && (v.GoUint? && v.n > Int64.MAX ==> AsInt64(v).value < 0)
    ensures v.GoUint64? ==> (AsInt64(v).Some? <==> v.n <= 4_611_686_018_427_387_904)
    ensures v.GoFloat64? ==> (AsInt64(v).Some? <==> exists n: int :: Int64.Fits(n) && v.x == n as real)
    ensures v.GoFloat32? || v.GoDuration? || v.Other? ==> AsInt64(v).None?
    ensures !v.GoUint64? && !v.GoFloat64? && !v.GoFloat32? && !v.GoDuration? && !v.Other? ==> AsInt64(v).Some?
    ensures AsFloat64(v).Some? ==> AsFloat64(v).value == Number(v)
    ensures AsDuration(v).Some? ==> AsDuration(v).value as real == Number(v)
  {
    if v.GoUint? && v.n > Int64.MAX {
      assert Int64.Wrap(v.n) == v.n - TWO64;
    }
  }

  datatype Kind = RateLimit | CircuitBreaker | RouteWeight | CacheTtl | Unknown

  datatype Proposal = Proposal(kind: Kind, target: string, hasAgent: bool, value: Value)

  /** The baseline constraints, all of which must pass. */
  predicate Constrained(p: Proposal) {
    && p.kind != Unknown
    && p.hasAgent
    && (p.kind == RateLimit ==> AsInt64(p.value).Some? && AsInt64(p.value).value > 0)
    && (p.kind == RouteWeight ==> AsFloat64(p.value).Some? && 0.0 <= AsFloat64(p.value).value <= 1.0)
    && (p.kind == CacheTtl ==> AsDuration(p.value).Some? && AsDuration(p.value).value >= 0)
  }

  // ---------- Differences in int64 ----------

  function Abs(n: int): nat {
    if n < 0 then -n else n
  }

  /** `diff := a - b; if diff < 0 { diff = -diff }` as the machine computes it. */
  function MachineDistance(a: int, b: int): int {
    var diff := Int64.Wrap(a - b);
    if diff < 0 then Int64.Wrap(-diff) else diff
  }

  /** The machine's distance is the real one exactly when the real one fits int64. */
  lemma DistanceIsExact(a: int, b: int)
    requires Int64.Fits(a) && Int64.Fits(b)
    ensures MachineDistance(a, b) == Abs(a - b) <==> Abs(a - b) <= Int64.MAX
  {
  }

  /** Values that passed the constraints never overflow, in the subtraction or in the negation, whatever
      Go type they arrived as. */
  lemma ConstrainedDistanceIsExact(p: Proposal, q: Proposal)
    requires Constrained(p) && Constrained(q) && p.kind == q.kind && InRange(p.value) && InRange(q.value)
    ensures p.kind == RateLimit ==>
      var a, b := AsInt64(p.value).value, AsInt64(q.value).value;
      Int64.Fits(a - b) && Int64.Fits(b - a) && MachineDistance(a, b) == Abs(a - b)
    ensures p.kind == CacheTtl ==>
      var a, b := AsDuration(p.value).value, AsDuration(q.value).value;
      Int64.Fits(a - b) && Int64.Fits(b - a) && MachineDistance(a, b) == Abs(a - b)
  {
    if p.kind == RateLimit {
      DistanceIsExact(AsInt64(p.value).value, AsInt64(q.value).value);
    } else if p.kind == CacheTtl {
      DistanceIsExact(AsDuration(p.value).value, AsDuration(q.value).value);
    }
  }

  /** A value recorded without passing the constraints can make two extremes look adjacent. */
  lemma UnconstrainedDistanceCanWrap()
    ensures MachineDistance(Int64.MIN, Int64.MAX) == 1
  {
  }

  // ---------- Policy and evaluation ----------

  datatype IntPolicy = IntPolicy(cooldown: int, hysteresis: int)
  datatype FloatPolicy = FloatPolicy(cooldown: int, hysteresis: real)

  datatype Policies = Policies(rateLimit: Option<IntPolicy>, routeWeight: Option<FloatPolicy>, cacheTtl: Option<IntPolicy>)

  datatype Key = Key(kind: Kind, target: string)

  datatype Applied = Applied(value: Value, at: int)

  type State = map<Key, Applied>

  datatype Outcome = Pass | CooldownActive(retryAfter: int) | BelowHysteresis

  function KeyOf(p: Proposal): Key {
    Key(p.kind, p.target)
  }

  function CooldownFor(ps: Policies, kind: Kind): Option<int> {
    match kind
    case RateLimit => if ps.rateLimit.Some? then Some(ps.rateLimit.value.cooldown) else None
    case RouteWeight => if ps.routeWeight.Some? then Some(ps.routeWeight.value.cooldown) else None
    case CacheTtl => if ps.cacheTtl.Some? then Some(ps.cacheTtl.value.cooldown) else None
    case _ => None
  }

  /** A configured cooldown is a Go duration. */
  predicate CooldownFits(ps: Policies, kind: Kind) {
    CooldownFor(ps, kind).Some? ==> Int64.Fits(CooldownFor(ps, kind).value)
  }

  /** `time.Time.Sub` saturates at the ends of the int64 range. */
  function Elapsed(now: int, then': int): int {
    var d := now - then';
    if d > Int64.MAX then Int64.MAX else if d < Int64.MIN then Int64.MIN else d
  }

  /** `checkHysteresis` finds the step too small. */
  predicate TooClose(ps: Policies, kind: Kind, prev: Value, next: Value) {
    match kind
    case RateLimit =>
      && ps.rateLimit.Some? && ps.rateLimit.value.hysteresis > 0
      && AsInt64(prev).Some? && AsInt64(next).Some?
      && MachineDistance(AsInt64(prev).value, AsInt64(next).value) < ps.rateLimit.value.hysteresis
    case RouteWeight =>
      && ps.routeWeight.Some? && ps.routeWeight.value.hysteresis > 0.0
      && AsFloat64(prev).Some? && AsFloat64(next).Some?
      && RealDistance(AsFloat64(prev).value, AsFloat64(next).value) < ps.routeWeight.value.hysteresis
    case CacheTtl =>
      && ps.cacheTtl.Some? && ps.cacheTtl.value.hysteresis > 0
      && AsDuration(prev).Some? && AsDuration(next).Some?
      && MachineDistance(AsDuration(prev).value, AsDuration(next).value) < ps.cacheTtl.value.hysteresis
    case _ => false
  }

  function RealDistance(a: real, b: real): real {
    if a - b < 0.0 then b - a else a - b
  }

  function Evaluate(ps: Policies, st: State, p: Proposal, now: int): Outcome {
    var cooldown := CooldownFor(ps, p.kind);
    if cooldown.None? || KeyOf(p) !in st then Pass else
    var prev := st[KeyOf(p)];
    var elapsed := Elapsed(now, prev.at);
    if cooldown.value > 0 && elapsed < cooldown.value then CooldownActive(Int64.Wrap(cooldown.value - elapsed))
    else if TooClose(ps, p.kind, prev.value, p.value) then BelowHysteresis
    else Pass
  }

  /** `RetryAfter` is the exact first delay at which the cooldown no longer applies. */
  lemma RetryAfterIsExact(ps: Policies, st: State, p: Proposal, now: int, d: nat)
    requires Evaluate(ps, st, p, now).CooldownActive? && st[KeyOf(p)].at <= now
    requires CooldownFits(ps, p.kind)
    ensures var r := Evaluate(ps, st, p, now).retryAfter;
            r > 0 && (Evaluate(ps, st, p, now + d).CooldownActive? <==> d < r)
  {
  }

  /** The distance of two values of one kind, as their kind measures it. */
  function DistanceOf(kind: Kind, a: Value, b: Value): real {
    match kind
    case RateLimit => if AsInt64(a).Some? && AsInt64(b).Some? then Abs(AsInt64(a).value - AsInt64(b).value) as real else 0.0
    case RouteWeight => if AsFloat64(a).Some? && AsFloat64(b).Some? then RealDistance(AsFloat64(a).value, AsFloat64(b).value) else 0.0
    case CacheTtl => if AsDuration(a).Some? && AsDuration(b).Some? then Abs(AsDuration(a).value - AsDuration(b).value) as real else 0.0
    case _ => 0.0
  }

  /** Cooldown and hysteresis band registered for a kind, if any. */
  function Limits(ps: Policies, kind: Kind): Option<(int, real)> {
    match kind
    case RateLimit => if ps.rateLimit.Some? then Some((ps.rateLimit.value.cooldown, ps.rateLimit.value.hysteresis as real)) else None
    case RouteWeight => if ps.routeWeight.Some? then Some((ps.routeWeight.value.cooldown, ps.routeWeight.value.hysteresis)) else None
    case CacheTtl => if ps.cacheTtl.Some? then Some((ps.cacheTtl.value.cooldown, ps.cacheTtl.value.hysteresis as real)) else None
    case _ => None
  }

  /** A constrained change of a constrained value passes exactly when no policy is registered for its kind, its
      key has not changed before, or the cooldown is over and the step is at least the band; otherwise the
      cooldown is reported first. */
  lemma PassesExactlyWhen(ps: Policies, st: State, p: Proposal, q: Proposal, now: int)
    requires Constrained(p) && InRange(p.value) && CooldownFits(ps, p.kind)
    requires KeyOf(p) in st ==> Constrained(q) && InRange(q.value) && q.kind == p.kind && st[KeyOf(p)].value == q.value
    ensures var limits, known := Limits(ps, p.kind), KeyOf(p) in st;
            var cooling := limits.Some? && known && limits.value.0 > 0 && now < st[KeyOf(p)].at + limits.value.0;
            var small := limits.Some? && known && limits.value.1 > 0.0 && DistanceOf(p.kind, q.value, p.value) < limits.value.1;
            && (Evaluate(ps, st, p, now) == Pass <==> !cooling && !small)
            && (Evaluate(ps, st, p, now) == BelowHysteresis <==> !cooling && small)
            && (Evaluate(ps, st, p, now).CooldownActive? <==> cooling)
  {
    if KeyOf(p) in st {
      ConstrainedDistanceIsExact(q, p);
    }
  }

  // ---------- Runs ----------

  datatype Attempt = Attempt(p: Proposal, now: int)

  /** Proposals are handled one at a time: evaluated, and recorded at that time if they passed. */
  function Run(ps: Policies, steps: seq<Attempt>): State {
    if steps == [] then map[] else
    var st, a := Run(ps, steps[..|steps| - 1]), steps[|steps| - 1];
    if Evaluate(ps, st, a.p, a.now) == Pass then st[KeyOf(a.p) := Applied(a.p.value, a.now)] else st
  }

  /** The attempts for `key` that were applied, in order. */
  function AppliedTo(ps: Policies, key: Key, steps: seq<Attempt>): seq<Attempt> {
    if steps == [] then [] else
    var init, a := steps[..|steps| - 1], steps[|steps| - 1];
    AppliedTo(ps, key, init)
    + if KeyOf(a.p) == key && Evaluate(ps, Run(ps, init), a.p, a.now) == Pass then [a] else []
  }

  lemma {:induction false} StateIsLastApplied(ps: Policies, key: Key, steps: seq<Attempt>)
    ensures var log, st := AppliedTo(ps, key, steps), Run(ps, steps);
            && (key in st <==> log != [])
            && (log != [] ==> st[key] == Applied(log[|log| - 1].p.value, log[|log| - 1].now))
            && (forall i | 0 <= i < |log| :: log[i] in steps && KeyOf(log[i].p) == key)
  {
    if steps != [] {
      var init := steps[..|steps| - 1];
      StateIsLastApplied(ps, key, init);
      assert forall a | a in init :: a in steps;
    }
  }

  /** What consecutive applied changes keep apart, in machine terms. */
  ghost predicate Spaced(ps: Policies, key: Key, a: Attempt, b: Attempt) {
    && (CooldownFor(ps, key.kind).Some? && CooldownFor(ps, key.kind).value > 0 ==>
          b.now - a.now >= CooldownFor(ps, key.kind).value)
    && !TooClose(ps, key.kind, a.p.value, b.p.value)
  }

  lemma {:induction false} AppliedAreSpaced(ps: Policies, key: Key, steps: seq<Attempt>, i: nat)
    requires CooldownFits(ps, key.kind)
    requires i + 1 < |AppliedTo(ps, key, steps)|
    ensures var log := AppliedTo(ps, key, steps); Spaced(ps, key, log[i], log[i + 1])
  {
    var init := steps[..|steps| - 1];
    if i + 1 < |AppliedTo(ps, key, init)| {
      AppliedAreSpaced(ps, key, init, i);
    } else {
      StateIsLastApplied(ps, key, init);
    }
  }

  /** When every value satisfied the constraints, consecutive applied changes of one key are at least the
      cooldown apart in time and at least the hysteresis band apart in value. */
  lemma ConstrainedChangesAreSpaced(ps: Policies, key: Key, steps: seq<Attempt>, i: nat)
    requires CooldownFits(ps, key.kind) && i + 1 < |AppliedTo(ps, key, steps)|
    requires forall a | a in steps :: Constrained(a.p) && InRange(a.p.value)
    ensures var log := AppliedTo(ps, key, steps);
            var a, b := log[i], log[i + 1];
            && Constrained(a.p) && Constrained(b.p) && a.p.kind == b.p.kind == key.kind
            && (CooldownFor(ps, key.kind).Some? && CooldownFor(ps, key.kind).value > 0 ==>
                  b.now - a.now >= CooldownFor(ps, key.kind).value)
            && (key.kind == RateLimit && ps.rateLimit.Some? ==>
                  Abs(AsInt64(b.p.value).value - AsInt64(a.p.value).value) >= ps.rateLimit.value.hysteresis)
            && (key.kind == RouteWeight && ps.routeWeight.Some? ==>
                  RealDistance(AsFloat64(b.p.value).value, AsFloat64(a.p.value).value) >= ps.routeWeight.value.hysteresis)
            && (key.kind == CacheTtl && ps.cacheTtl.Some? ==>
                  Abs(AsDuration(b.p.value).value - AsDuration(a.p.value).value) >= ps.cacheTtl.value.hysteresis)
  {
    StateIsLastApplied(ps, key, steps);
    AppliedAreSpaced(ps, key, steps, i);
    var log := AppliedTo(ps, key, steps);
    ConstrainedDistanceIsExact(log[i].p, log[i + 1].p);
  }

  /** Kinds and targets are dampened separately: handling one proposal changes nothing for another kind or target. */
  lemma OthersAreUntouched(ps: Policies, steps: seq<Attempt>, a: Attempt, q: Proposal, now: int)
    requires q.kind != a.p.kind || q.target != a.p.target
    ensures Evaluate(ps, Run(ps, steps + [a]), q, now) == Evaluate(ps, Run(ps, steps), q, now)
  {
    assert (steps + [a])[..|steps|] == steps;
  }

  // ---------- Rate of change ----------

  /** Entries of `log` timed within [from, to]. */
  function CountWithin(log: seq<Attempt>, from: int, to: int): nat {
    if log == [] then 0 else
    CountWithin(log[..|log| - 1], from, to) + if from <= log[|log| - 1].now <= to then 1 else 0
  }

  ghost predicate Gapped(log: seq<Attempt>, gap: int) {
    forall i, j | 0 <= i < j < |log| :: log[j].now - log[i].now >= gap
  }

  lemma {:induction false} CountShrinksTo(log: seq<Attempt>, from: int, to: int, cut: int)
    requires forall i | 0 <= i < |log| :: log[i].now <= cut
    ensures cut <= to ==> CountWithin(log, from, to) == CountWithin(log, from, cut)
    ensures cut < from ==> CountWithin(log, from, to) == 0
  {
    if log != [] {
      CountShrinksTo(log[..|log| - 1], from, to, cut);
    }
  }

  lemma {:induction false} GappedCount(log: seq<Attempt>, gap: int, from: int, to: int)
    requires gap > 0 && from <= to && Gapped(log, gap)
    ensures CountWithin(log, from, to) > 0 ==> (CountWithin(log, from, to) - 1) * gap <= to - from
  {
    if log != [] {
      var init, t := log[..|log| - 1], log[|log| - 1].now;
      if t > to || t < from {
        GappedCount(init, gap, from, to);
      } else {
        CountShrinksTo(init, from, to, t - gap);
        if from <= t - gap {
          GappedCount(init, gap, from, t - gap);
          AddGap(CountWithin(init, from, to), gap, t - from);
        }
      }
    }
  }

  lemma AddGap(n: nat, gap: int, span: int)
    requires n > 0 ==> (n - 1) * gap <= span - gap
    ensures n > 0 ==> n * gap <= span
  {
    assert (n - 1) * gap == n * gap - gap;
  }

  lemma Quotient(n: nat, gap: int, span: int)
    requires gap > 0 && n * gap <= span
    ensures n <= span / gap
  {
    if n > span / gap {
      MulAtLeast(n, span / gap + 1, gap);
    }
  }

  lemma MulAtLeast(x: int, y: int, d: int)
    requires d > 0 && x >= y
    ensures x * d >= y * d
  {
  }

  lemma {:induction false} AppliedAreGapped(ps: Policies, key: Key, steps: seq<Attempt>, i: nat, j: nat)
    requires CooldownFits(ps, key.kind) && CooldownFor(ps, key.kind).Some? && CooldownFor(ps, key.kind).value > 0
    requires i < j < |AppliedTo(ps, key, steps)|
    ensures var log := AppliedTo(ps, key, steps); log[j].now - log[i].now >= CooldownFor(ps, key.kind).value
    decreases j
  {
    AppliedAreSpaced(ps, key, steps, j - 1);
    if i < j - 1 {
      AppliedAreGapped(ps, key, steps, i, j - 1);
    }
  }

  /** At most floor(T / cooldown) + 1 changes of one key are applied in any window of length T. */
  lemma ChangeRateIsBounded(ps: Policies, key: Key, steps: seq<Attempt>, from: int, to: int)
    requires CooldownFits(ps, key.kind) && CooldownFor(ps, key.kind).Some? && CooldownFor(ps, key.kind).value > 0
    requires from <= to
    ensures CountWithin(AppliedTo(ps, key, steps), from, to) <= (to - from) / CooldownFor(ps, key.kind).value + 1
  {
    var log := AppliedTo(ps, key, steps);
    forall i, j | 0 <= i < j < |log| ensures log[j].now - log[i].now >= CooldownFor(ps, key.kind).value {
      AppliedAreGapped(ps, key, steps, i, j);
    }
    var gap, n := CooldownFor(ps, key.kind).value, CountWithin(log, from, to);
    GappedCount(log, gap, from, to);
    if n > 0 {
      Quotient(n - 1, gap, to - from);
    }
  }

  // ---------- The registry ----------

  /** `dampener.go`. */
  class DampenerRegistry {
    var policies: Policies
    var state: State

    constructor ()
      ensures policies == Policies(None, None, None) && state == map[]
    {
      policies, state := Policies(None, None, None), map[];
    }

    method SetRateLimit(d: IntPolicy)
      modifies this`policies
      ensures policies == old(policies).(rateLimit := Some(d))
    {
      policies := policies.(rateLimit := Some(d));
    }

    method SetRouteWeight(d: FloatPolicy)
      modifies this`policies
      ensures policies == old(policies).(routeWeight := Some(d))
    {
      policies := policies.(routeWeight := Some(d));
    }

    method SetCacheTtl(d: IntPolicy)
      modifies this`policies
      ensures policies == old(policies).(cacheTtl := Some(d))
    {
      policies := policies.(cacheTtl := Some(d));
    }

    method Check(p: Proposal, now: int) returns (o: Outcome)
      ensures o == Evaluate(policies, state, p, now)
    {
      var cooldown := CooldownFor(policies, p.kind);
      if cooldown.None? {
        return Pass;
      }
      var key := KeyOf(p);
      if key !in state {
        return Pass;
      }
      var prev := state[key];
      if cooldown.value > 0 {
        var elapsed := Elapsed(now, prev.at);
        if elapsed < cooldown.value {
          return CooldownActive(Int64.Wrap(cooldown.value - elapsed));
        }
      }
      if TooClose(policies, p.kind, prev.value, p.value) {
        return BelowHysteresis;
      }
      return Pass;
    }

    /** Recorded whether or not a policy is registered. */
    method RecordApplied(p: Proposal, at: int)
      modifies this`state
      ensures state == old(state)[KeyOf(p) := Applied(p.value, at)]
    {
      state := state[KeyOf(p) := Applied(p.value, at)];
    }

    /** One proposal handled to the end: the state moves as in the runs above. */
    method Handle(p: Proposal, now: int, ghost steps: seq<Attempt>) returns (o: Outcome)
      requires state == Run(policies, steps)
      modifies this`state
      ensures o == Evaluate(policies, old(state), p, now)
      ensures state == Run(policies, steps + [Attempt(p, now)])
    {
      o := Check(p, now);
      if o == Pass {
        RecordApplied(p, now);
      }
      assert (steps + [Attempt(p, now)])[..|steps|] == steps;
    }
  }
}
