/** The circuit breaker of `webhook-sdk/src/circuit_breaker.rs` as a transition system:
    permits are granted under the lock and resolved later, in any order. */
module CircuitBreakerModel {
  import opened Prelude

  datatype CircuitState = Closed | Open | HalfOpen

  datatype Config = Config(failureThreshold: nat, cooldown: nat)

  /** The fields behind the mutex. */
  datatype Breaker = Breaker(state: CircuitState, consecutiveFailures: nat, openedAt: Option<int>)

  const NEW_BREAKER := Breaker(Closed, 0, None)

  /** Whether a permit granted now exists, and if so whether it is a probe. */
  datatype Grant = Refused | Granted(isProbe: bool)

  function TryAcquire(cfg: Config, b: Breaker, now: int): (Breaker, Grant) {
    match b.state
    case Closed => (b, Granted(false))
    case Open =>
      if b.openedAt.Some? && now - b.openedAt.value >= cfg.cooldown
      then (b.(state := HalfOpen), Granted(true))
      else (b, Refused)
    case HalfOpen => (b, Refused)
  }

  /** A success closes the circuit whoever reports it. */
  function RecordSuccess(b: Breaker): Breaker {
    NEW_BREAKER
  }

  function RecordFailure(cfg: Config, b: Breaker, isProbe: bool, now: int): Breaker {
    if isProbe then b.(state := Open, openedAt := Some(now))
    else
      var counted := b.(consecutiveFailures := b.consecutiveFailures + 1);
      if counted.consecutiveFailures >= cfg.failureThreshold
      then counted.(state := Open, openedAt := Some(now))
      else counted
  }

  // --- Interleavings --------------------------------------------------------

  /** A breaker with its unresolved permits (number -> is it a probe) and the latest time. */
  datatype System = System(breaker: Breaker, outstanding: map<nat, bool>, issued: nat, clock: int)

  function Start(now: int): System {
    System(NEW_BREAKER, map[], 0, now)
  }

  /** A dropped permit fails. */
  datatype Step =
    | Acquire(now: int)
    | Succeed(permit: nat, now: int)
    | Fail(permit: nat, now: int)

  predicate Enabled(s: System, step: Step) {
    s.clock <= step.now && (step.Acquire? || step.permit in s.outstanding)
  }

  function Apply(cfg: Config, s: System, step: Step): System
    requires Enabled(s, step)
  {
    match step
    case Acquire(now) =>
      var (b, grant) := TryAcquire(cfg, s.breaker, now);
      if grant.Granted?
      then System(b, s.outstanding[s.issued := grant.isProbe], s.issued + 1, now)
      else System(b, s.outstanding, s.issued, now)
    case Succeed(permit, now) =>
      System(RecordSuccess(s.breaker), s.outstanding - {permit}, s.issued, now)
    case Fail(permit, now) =>
      System(RecordFailure(cfg, s.breaker, s.outstanding[permit], now), s.outstanding - {permit}, s.issued, now)
  }

  /** Every step is possible where it comes. */
  predicate Legal(cfg: Config, s: System, steps: seq<Step>)
    decreases |steps|, 0
  {
    steps == [] ||
    (Legal(cfg, s, steps[..|steps| - 1]) && Enabled(Run(cfg, s, steps[..|steps| - 1]), steps[|steps| - 1]))
  }

  function Run(cfg: Config, s: System, steps: seq<Step>): System
    requires Legal(cfg, s, steps)
    decreases |steps|, 1
  {
    if steps == [] then s
    else Apply(cfg, Run(cfg, s, steps[..|steps| - 1]), steps[|steps| - 1])
  }

  /** Grants of a run, in order: each its time and whether it is a probe. */
  function Grants(cfg: Config, s: System, steps: seq<Step>): seq<(int, bool)>
    requires Legal(cfg, s, steps)
  {
    if steps == [] then []
    else
      var before, last := Run(cfg, s, steps[..|steps| - 1]), steps[|steps| - 1];
      Grants(cfg, s, steps[..|steps| - 1])
      + if last.Acquire? && TryAcquire(cfg, before.breaker, last.now).1.Granted?
        then [(last.now, TryAcquire(cfg, before.breaker, last.now).1.isProbe)] else []
  }

  /** Failures of ordinary permits reported since the last success. */
  function OrdinaryFailures(cfg: Config, s: System, steps: seq<Step>): nat
    requires Legal(cfg, s, steps)
  {
    if steps == [] then 0
    else
      var before, last := Run(cfg, s, steps[..|steps| - 1]), steps[|steps| - 1];
      var earlier := OrdinaryFailures(cfg, s, steps[..|steps| - 1]);
      match last
      case Acquire(_) => earlier
      case Succeed(_, _) => 0
      case Fail(permit, _) => if before.outstanding[permit] then earlier else earlier + 1
  }

  function Probes(s: System): set<nat> {
    set p | p in s.outstanding && s.outstanding[p]
  }

  function Ordinary(s: System): set<nat> {
    set p | p in s.outstanding && !s.outstanding[p]
  }
}
