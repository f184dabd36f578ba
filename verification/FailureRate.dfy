/** The failure-rate breaker: a value-level state machine over the whole outcome log,
    and the ring-buffer class that implements it in constant space. */
module FailureRate {
  import opened SlidingWindow

  datatype Phase = Closed | Open | HalfOpen

  datatype Settings = Settings(window: nat, threshold: real, resetTimeout: int, halfOpenMax: int)

  /** What the breaker is, abstractly. `log` is every outcome recorded since the window was
      last cleared; the decision only ever looks at its newest `settings.window` entries. */
  datatype Core = Core(phase: Phase, log: seq<bool>, probes: int, openedAt: int, settings: Settings)

  /** `SetThreshold` comes from the adaptive layer, `Reconfig` from a hot reload; `Skip` is a call that
      never reaches this layer. */
  datatype Event =
    | Ask(now: int) | Success | Failure(now: int) | Reset
    | SetThreshold(t: real) | Reconfig(s: Settings) | Skip

  function Fresh(s: Settings): Core {
    Core(Closed, [], 0, 0, s)
  }

  /** Failure ratio of a window; an empty window has ratio zero. */
  function Rate(w: seq<bool>): real {
    if w == [] then 0.0 else Failures(w) as real / |w| as real
  }

  predicate ShouldOpen(log: seq<bool>, s: Settings) {
    |log| >= s.window && Rate(Last(log, s.window)) >= s.threshold
  }

  function Enter(c: Core, p: Phase, now: int): Core {
    if c.phase == p then c else
    match p
    case Closed => c.(phase := Closed, log := [], probes := 0)
    case Open => c.(phase := Open, openedAt := now, probes := 0)
    case HalfOpen => c.(phase := HalfOpen, probes := 0)
  }

  /** Would `Allow` let a request through at time `now`? */
  predicate Admits(c: Core, now: int) {
    c.phase == Open ==> now - c.openedAt >= c.settings.resetTimeout
  }

  function Apply(c: Core, e: Event): Core {
    match e
    case Ask(now) => if c.phase == Open && Admits(c, now) then Enter(c, HalfOpen, now) else c
    case Success =>
      (match c.phase
       case Closed => c.(log := c.log + [false])
       case HalfOpen =>
         var d := c.(probes := c.probes + 1);
         if d.probes >= d.settings.halfOpenMax then Enter(d, Closed, 0) else d
       case Open => c)
    case Failure(now) =>
      (match c.phase
       case Closed =>
         var d := c.(log := c.log + [true]);
         if ShouldOpen(d.log, d.settings) then Enter(d, Open, now) else d
       case HalfOpen => Enter(c, Open, now)
       case Open => c)
    case Reset => Enter(c, Closed, 0)
    case SetThreshold(t) => c.(settings := c.settings.(threshold := t))
    case Reconfig(s) => Reconfigure(c, s)
    case Skip => c
  }

  /** Hot reload: a different window size starts a new window, everything else is kept. */
  function Reconfigure(c: Core, s: Settings): Core {
    c.(settings := s, log := if s.window == c.settings.window then c.log else [])
  }

  /** `failure_rate.go`: the ring buffer with running counters. */
  class FailureRateBreaker {
    var state: Phase
    var window: array<bool>
    var head: nat
    var count: nat
    var failures: int
    var windowSize: nat
    var failureThreshold: real
    var resetTimeout: int
    var halfOpenMax: int
    var halfOpenSuccess: int
    var openedAt: int
    ghost var log: seq<bool>

    ghost predicate Valid()
      reads this, window
    {
      && window.Length == windowSize > 0
      && Represents(window[..], head, count, failures, log)
    }

    ghost function Model(): Core
      reads this
    {
      Core(state, log, halfOpenSuccess, openedAt,
           Settings(windowSize, failureThreshold, resetTimeout, halfOpenMax))
    }

    constructor (s: Settings)
      requires s.window > 0
      ensures Valid() && fresh(window)
      ensures Model() == Fresh(s)
    {
      state := Closed;
      window := new bool[s.window](_ => false);
      head, count, failures := 0, 0, 0;
      windowSize, failureThreshold := s.window, s.threshold;
      resetTimeout, halfOpenMax := s.resetTimeout, s.halfOpenMax;
      halfOpenSuccess, openedAt := 0, 0;
      log := [];
    }

    /** `recordOutcome`: one slot written, counters moved by one. */
    method RecordOutcome(failed: bool)
      requires Valid()
      modifies this`head, this`count, this`failures, this`log, window
      ensures Valid()
      ensures log == old(log) + [failed]
    {
      RecordKeepsRepresentation(window[..], head, count, failures, log, failed);
      Wraps(head, windowSize);
      if count == windowSize {
        if window[head] {
          failures := failures - 1;
        }
      } else {
        count := count + 1;
      }
      window[head] := failed;
      assert window[..] == old(window[..])[head := failed];
      if failed {
        failures := failures + 1;
      }
      head := (head + 1) % windowSize;
      log := log + [failed];
    }

    static lemma Wraps(at: nat, n: nat)
      requires at < n
      ensures (at + 1) % n == NextSlot(at, n)
    {
      if at + 1 < n {
        assert (at + 1) % n == at + 1;
      }
    }

    method FailureRatio() returns (r: real)
      requires Valid()
      ensures r == Rate(Last(log, windowSize))
    {
      if count == 0 {
        return 0.0;
      }
      r := failures as real / count as real;
    }

    method TransitionTo(p: Phase, now: int)
      requires Valid()
      modifies this
      ensures Valid() && window == old(window)
      ensures Model() == Enter(old(Model()), p, now)
    {
      if state == p {
        return;
      }
      state := p;
      match p
      case Closed =>
        head, count, failures, halfOpenSuccess := 0, 0, 0, 0;
        log := [];
      case Open =>
        openedAt := now;
        halfOpenSuccess := 0;
      case HalfOpen =>
        halfOpenSuccess := 0;
    }

    method Allow(now: int) returns (ok: bool)
      requires Valid()
      modifies this
      ensures Valid() && window == old(window)
      ensures ok == Admits(old(Model()), now)
      ensures Model() == Apply(old(Model()), Ask(now))
    {
      if state == Open {
        if now - openedAt >= resetTimeout {
          TransitionTo(HalfOpen, now);
          return true;
        }
        return false;
      }
      return true;
    }

    method RecordSuccess()
      requires Valid()
      modifies this, window
      ensures Valid() && window == old(window)
      ensures Model() == Apply(old(Model()), Success)
    {
      match state
      case Closed => RecordOutcome(false);
      case HalfOpen =>
        halfOpenSuccess := halfOpenSuccess + 1;
        if halfOpenSuccess >= halfOpenMax {
          TransitionTo(Closed, 0);
        }
      case Open =>
    }

    method RecordFailure(now: int)
      requires Valid()
      modifies this, window
      ensures Valid() && window == old(window)
      ensures Model() == Apply(old(Model()), Failure(now))
    {
      match state
      case Closed =>
        RecordOutcome(true);
        if count >= windowSize {
          var ratio := FailureRatio();
          if ratio >= failureThreshold {
            TransitionTo(Open, now);
          }
        }
      case HalfOpen => TransitionTo(Open, now);
      case Open =>
    }

    method ResetBreaker()
      requires Valid()
      modifies this
      ensures Valid() && window == old(window)
      ensures Model() == Apply(old(Model()), Reset)
    {
      TransitionTo(Closed, 0);
    }

    method SetFailureThreshold(t: real)
      requires Valid()
      modifies this`failureThreshold
      ensures Valid()
      ensures Model() == Apply(old(Model()), SetThreshold(t))
    {
      failureThreshold := t;
    }

    /** The failure-rate part of `CompositeBreaker.UpdateConfig`. */
    method UpdateConfig(s: Settings)
      requires Valid() && s.window > 0
      modifies this
      ensures Valid() && (window == old(window) || fresh(window))
      ensures Model() == Apply(old(Model()), Reconfig(s))
    {
      failureThreshold, resetTimeout, halfOpenMax := s.threshold, s.resetTimeout, s.halfOpenMax;
      if s.window != windowSize {
        window := new bool[s.window](_ => false);
        windowSize := s.window;
        head, count, failures := 0, 0, 0;
        log := [];
      }
    }
  }
}
