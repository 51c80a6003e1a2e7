/** What every interleaving of the breaker keeps, and exactly when a second probe can be
    let through while the first is still out. */
module CircuitBreakerProofs {
  import opened Prelude
  import opened CircuitBreakerModel

  // --- Load bound -----------------------------------------------------------

  ghost predicate NoSuccess(steps: seq<Step>) {
    forall i :: 0 <= i < |steps| ==> !steps[i].Succeed?
  }

  /** After g grants since t0, the next cooldown to wait out starts no earlier than t0 + g cooldowns. */
  ghost predicate Throttled(cfg: Config, s: System, t0: int, g: nat) {
    match s.breaker.state
    case Closed => false
    case Open => s.breaker.openedAt.Some? && t0 + g * cfg.cooldown <= s.breaker.openedAt.value <= s.clock
    case HalfOpen => t0 + g * cfg.cooldown <= s.clock
  }

  lemma ThrottledStep(cfg: Config, s: System, step: Step, t0: int, g: nat)
    requires Throttled(cfg, s, t0, g) && Enabled(s, step) && !step.Succeed?
    ensures
      var grant := if step.Acquire? then TryAcquire(cfg, s.breaker, step.now).1 else Refused;
      && Throttled(cfg, Apply(cfg, s, step), t0, if grant.Granted? then g + 1 else g)
      && (grant.Granted? ==> t0 + (g + 1) * cfg.cooldown <= step.now && grant.isProbe)
  {
    assert (g + 1) * cfg.cooldown == g * cfg.cooldown + cfg.cooldown;
  }

  lemma {:induction false} ThrottledRun(cfg: Config, s: System, t0: int, steps: seq<Step>)
    requires Throttled(cfg, s, t0, 0) && Legal(cfg, s, steps) && NoSuccess(steps)
    ensures
      var grants := Grants(cfg, s, steps);
      && Throttled(cfg, Run(cfg, s, steps), t0, |grants|)
      && forall k :: 0 <= k < |grants| ==> t0 + (k + 1) * cfg.cooldown <= grants[k].0 && grants[k].1
  {
    if steps == [] {
    } else {
      ThrottledRun(cfg, s, t0, steps[..|steps| - 1]);
      ThrottledStep(cfg, Run(cfg, s, steps[..|steps| - 1]), steps[|steps| - 1], t0,
                    |Grants(cfg, s, steps[..|steps| - 1])|);
    }
  }

  /** Load bound, whatever stale permits resolve in between: once the circuit opened at t0
      and while no success is recorded, the k-th permit is granted no earlier than
      t0 + k * cooldown, and every one is a probe; so a stretch of length d sees at most
      d / cooldown of them. */
  lemma LoadBound(cfg: Config, s: System, t0: int, steps: seq<Step>)
    requires s.breaker.state == Open && s.breaker.openedAt == Some(t0) && t0 <= s.clock
    requires Legal(cfg, s, steps) && NoSuccess(steps)
    ensures
      var grants := Grants(cfg, s, steps);
      && (forall k :: 1 <= k <= |grants| ==> t0 + k * cfg.cooldown <= grants[k - 1].0 && grants[k - 1].1)
      && |grants| * cfg.cooldown <= Run(cfg, s, steps).clock - t0
      && Run(cfg, s, steps).breaker.state != Closed
  {
    ThrottledRun(cfg, s, t0, steps);
    var grants := Grants(cfg, s, steps);
    forall k | 1 <= k <= |grants|
      ensures t0 + k * cfg.cooldown <= grants[k - 1].0 && grants[k - 1].1
    {
      assert t0 + ((k - 1) + 1) * cfg.cooldown <= grants[k - 1].0;
    }
  }

  // --- Every interleaving ---------------------------------------------------

  ghost predicate Inv(cfg: Config, s: System) {
    && (forall p :: p in s.outstanding ==> p < s.issued)
    && (s.breaker.state == HalfOpen ==> exists p :: p in s.outstanding && s.outstanding[p])
    && (s.breaker.state != Closed ==> s.breaker.openedAt.Some? && s.breaker.openedAt.value <= s.clock)
    && (s.breaker.state == Closed ==> s.breaker.openedAt.None?)
  }

  lemma InvStep(cfg: Config, s: System, step: Step)
    requires Inv(cfg, s) && Enabled(s, step)
    ensures Inv(cfg, Apply(cfg, s, step))
  {
    var s' := Apply(cfg, s, step);
    if s'.breaker.state == HalfOpen {
      if s.breaker.state != HalfOpen {
        assert s'.outstanding[s.issued];
      } else {
        var p :| p in s.outstanding && s.outstanding[p];
        assert p in s'.outstanding && s'.outstanding[p];
      }
    }
  }

  lemma {:induction false} InvRun(cfg: Config, s: System, steps: seq<Step>)
    requires Inv(cfg, s) && Legal(cfg, s, steps)
    ensures Inv(cfg, Run(cfg, s, steps))
  {
    if steps == [] {
    } else {
      InvRun(cfg, s, steps[..|steps| - 1]);
      InvStep(cfg, Run(cfg, s, steps[..|steps| - 1]), steps[|steps| - 1]);
    }
  }

  lemma {:induction false} FailuresCounted(cfg: Config, t0: int, steps: seq<Step>)
    requires Legal(cfg, Start(t0), steps)
    ensures Run(cfg, Start(t0), steps).breaker.consecutiveFailures == OrdinaryFailures(cfg, Start(t0), steps)
  {
    if steps == [] {
    } else {
      FailuresCounted(cfg, t0, steps[..|steps| - 1]);
    }
  }

  /** In every interleaving: half-open means a probe is still out, so it ends once permits
      resolve or drop; and the failure count is exactly the ordinary failures since the last
      success. */
  lemma EveryInterleaving(cfg: Config, t0: int, steps: seq<Step>)
    requires Legal(cfg, Start(t0), steps)
    ensures
      var s := Run(cfg, Start(t0), steps);
      && (s.breaker.state == HalfOpen ==> Probes(s) != {})
      && s.breaker.consecutiveFailures == OrdinaryFailures(cfg, Start(t0), steps)
  {
    InvRun(cfg, Start(t0), steps);
    FailuresCounted(cfg, t0, steps);
    var s := Run(cfg, Start(t0), steps);
    if s.breaker.state == HalfOpen {
      var p :| p in s.outstanding && s.outstanding[p];
      assert p in Probes(s);
    }
  }

  /** An open circuit is never stuck: at any time from the end of its cooldown a call is let
      through, as a probe; before that none is. */
  lemma OpenEndsWithCooldown(cfg: Config, t0: int, steps: seq<Step>, now: int)
    requires Legal(cfg, Start(t0), steps)
    requires Run(cfg, Start(t0), steps).breaker.state == Open
    ensures
      var b := Run(cfg, Start(t0), steps).breaker;
      && b.openedAt.Some?
      && (TryAcquire(cfg, b, now).1 == Granted(true) <==> now >= b.openedAt.value + cfg.cooldown)
      && (TryAcquire(cfg, b, now).1 == Refused <==> now < b.openedAt.value + cfg.cooldown)
  {
    InvRun(cfg, Start(t0), steps);
  }

  // --- The breaker from its history -------------------------------------------

  /** The time of the last failure since the last success that was a probe's, or that brought
      the ordinary failures since that success to the threshold. */
  function LastTrip(cfg: Config, s: System, steps: seq<Step>): Option<int>
    requires Legal(cfg, s, steps)
  {
    if steps == [] then None
    else
      var before, last := Run(cfg, s, steps[..|steps| - 1]), steps[|steps| - 1];
      var earlier := LastTrip(cfg, s, steps[..|steps| - 1]);
      match last
      case Acquire(_) => earlier
      case Succeed(_, _) => None
      case Fail(permit, now) =>
        if before.outstanding[permit] || OrdinaryFailures(cfg, s, steps) >= cfg.failureThreshold then Some(now)
        else earlier
  }

  /** A call has come since the last trip, and no earlier than a cooldown after it. */
  predicate ProbedSince(cfg: Config, s: System, steps: seq<Step>)
    requires Legal(cfg, s, steps)
  {
    if steps == [] then false
    else
      var last, rest := steps[|steps| - 1], steps[..|steps| - 1];
      var trip, earlier := LastTrip(cfg, s, rest), ProbedSince(cfg, s, rest);
      match last
      case Acquire(now) => earlier || (trip.Some? && now - trip.value >= cfg.cooldown)
      case Succeed(_, _) => false
      case Fail(permit, now) =>
        earlier && !Run(cfg, s, rest).outstanding[permit] && OrdinaryFailures(cfg, s, steps) < cfg.failureThreshold
  }

  /** What a call at `now` is told, going by the history alone. */
  function Answer(cfg: Config, trip: Option<int>, probed: bool, now: int): Grant {
    if trip.None? then Granted(false)
    else if !probed && now - trip.value >= cfg.cooldown then Granted(true)
    else Refused
  }

  /** In every interleaving the breaker is what its history says: open since the last trip,
      half-open once a probe has been let through after it, closed if there was none since the
      last success; and so is its answer to the next call. Every failure that finds the
      threshold reached, a late one included, is a trip. */
  lemma {:induction false} FollowsHistory(cfg: Config, t0: int, steps: seq<Step>, now: int)
    requires Legal(cfg, Start(t0), steps)
    ensures
      var b := Run(cfg, Start(t0), steps).breaker;
      var trip, probed := LastTrip(cfg, Start(t0), steps), ProbedSince(cfg, Start(t0), steps);
      && b.openedAt == trip
      && b.state == (if trip.None? then Closed else if probed then HalfOpen else Open)
      && (probed ==> trip.Some?)
      && TryAcquire(cfg, b, now).1 == Answer(cfg, trip, probed, now)
  {
    if steps == [] {
    } else {
      FollowsHistory(cfg, t0, steps[..|steps| - 1], steps[|steps| - 1].now);
      FailuresCounted(cfg, t0, steps);
      FailuresCounted(cfg, t0, steps[..|steps| - 1]);
    }
  }

  // --- Probe discipline -----------------------------------------------------

  /** No ordinary permit is out whenever a probe is granted. */
  predicate Disciplined(cfg: Config, s: System, steps: seq<Step>)
    requires Legal(cfg, s, steps)
  {
    steps == [] ||
    var before, last := Run(cfg, s, steps[..|steps| - 1]), steps[|steps| - 1];
    && Disciplined(cfg, s, steps[..|steps| - 1])
    && (last.Acquire? && TryAcquire(cfg, before.breaker, last.now).1 == Granted(true) ==> Ordinary(before) == {})
  }

  /** In half-open the one permit out is the probe; otherwise no probe is out. A circuit
      that is not closed has reached its threshold. */
  ghost predicate SingleProbe(cfg: Config, s: System) {
    && (if s.breaker.state == HalfOpen then
          exists p :: s.outstanding.Keys == {p} && s.outstanding[p]
        else
          forall p :: p in s.outstanding ==> !s.outstanding[p])
    && (s.breaker.state != Closed ==> s.breaker.consecutiveFailures >= cfg.failureThreshold)
  }

  lemma SingleProbeStep(cfg: Config, s: System, step: Step)
    requires SingleProbe(cfg, s) && Enabled(s, step)
    requires step.Acquire? && TryAcquire(cfg, s.breaker, step.now).1 == Granted(true) ==> Ordinary(s) == {}
    ensures SingleProbe(cfg, Apply(cfg, s, step))
  {
    var s' := Apply(cfg, s, step);
    if s.breaker.state != HalfOpen && s'.breaker.state == HalfOpen {
      assert s.outstanding.Keys == Ordinary(s);
      assert s'.outstanding.Keys == {s.issued};
    }
  }

  lemma {:induction false} SingleProbeRun(cfg: Config, t0: int, steps: seq<Step>)
    requires Legal(cfg, Start(t0), steps) && Disciplined(cfg, Start(t0), steps)
    ensures SingleProbe(cfg, Run(cfg, Start(t0), steps))
  {
    if steps == [] {
    } else {
      SingleProbeRun(cfg, t0, steps[..|steps| - 1]);
      SingleProbeStep(cfg, Run(cfg, Start(t0), steps[..|steps| - 1]), steps[|steps| - 1]);
    }
  }

  /** Probe discipline: when no ordinary permit is out at the moment a probe is granted, the
      probes out number exactly one in half-open and zero otherwise, and the circuit is only
      ever open with its threshold reached. */
  lemma ExactlyOneProbe(cfg: Config, t0: int, steps: seq<Step>)
    requires Legal(cfg, Start(t0), steps) && Disciplined(cfg, Start(t0), steps)
    ensures
      var s := Run(cfg, Start(t0), steps);
      && |Probes(s)| == (if s.breaker.state == HalfOpen then 1 else 0)
      && (s.breaker.state != Closed ==> s.breaker.consecutiveFailures >= cfg.failureThreshold)
  {
    SingleProbeRun(cfg, t0, steps);
    var s := Run(cfg, Start(t0), steps);
    if s.breaker.state == HalfOpen {
      var p :| s.outstanding.Keys == {p} && s.outstanding[p];
      assert Probes(s) == {p};
    } else {
      assert Probes(s) == {};
    }
  }

  // --- Exactly when a second probe can join the first ------------------------

  /** These steps let another probe through while `probe` stays unresolved. */
  ghost predicate SecondProbe(cfg: Config, s: System, probe: nat, steps: seq<Step>) {
    && Legal(cfg, s, steps)
    && (exists k :: 0 <= k < |Grants(cfg, s, steps)| && Grants(cfg, s, steps)[k].1)
    && forall i :: 0 <= i < |steps| ==> steps[i].Acquire? || steps[i].permit != probe
  }

  /** With the probe alone out, half-open admits nobody until the probe resolves. */
  lemma {:induction false} AloneHolds(cfg: Config, s: System, probe: nat, steps: seq<Step>)
    requires s.breaker.state == HalfOpen && s.outstanding.Keys == {probe}
    requires Legal(cfg, s, steps)
    requires forall i :: 0 <= i < |steps| ==> steps[i].Acquire? || steps[i].permit != probe
    ensures Grants(cfg, s, steps) == []
    ensures Run(cfg, s, steps).breaker.state == HalfOpen && Run(cfg, s, steps).outstanding == s.outstanding
  {
    if steps == [] {
    } else {
      AloneHolds(cfg, s, probe, steps[..|steps| - 1]);
    }
  }

  /** One more step at the end of a run. */
  lemma Snoc(cfg: Config, s: System, steps: seq<Step>, step: Step)
    requires Legal(cfg, s, steps) && Enabled(Run(cfg, s, steps), step)
    ensures
      var before := Run(cfg, s, steps);
      && Legal(cfg, s, steps + [step])
      && Run(cfg, s, steps + [step]) == Apply(cfg, before, step)
      && Grants(cfg, s, steps + [step]) == Grants(cfg, s, steps)
         + if step.Acquire? && TryAcquire(cfg, before.breaker, step.now).1.Granted?
           then [(step.now, TryAcquire(cfg, before.breaker, step.now).1.isProbe)] else []
  {
    assert (steps + [step])[..|steps|] == steps;
  }

  /** A stale success closes the circuit; then n calls at the same instant, each failing. */
  function CloseAndFail(s: System, stale: nat, n: nat): seq<Step> {
    if n == 0 then [Succeed(stale, s.clock)]
    else CloseAndFail(s, stale, n - 1) + [Acquire(s.clock)] + [Fail(s.issued + n - 1, s.clock)]
  }

  lemma {:induction false} CloseAndFailRuns(cfg: Config, s: System, stale: nat, n: nat)
    requires stale in s.outstanding && forall p :: p in s.outstanding ==> p < s.issued
    requires n == 0 || n <= cfg.failureThreshold || n == 1
    ensures
      var steps := CloseAndFail(s, stale, n);
      && Legal(cfg, s, steps)
      && Run(cfg, s, steps)
         == System(if n > 0 && n >= cfg.failureThreshold then Breaker(Open, n, Some(s.clock))
                   else Breaker(Closed, n, None),
                   s.outstanding - {stale}, s.issued + n, s.clock)
    decreases n
  {
    if n == 0 {
      assert Legal(cfg, s, []);
      Snoc(cfg, s, [], Succeed(stale, s.clock));
      assert [] + [Succeed(stale, s.clock)] == [Succeed(stale, s.clock)];
    } else {
      CloseAndFailRuns(cfg, s, stale, n - 1);
      var steps := CloseAndFail(s, stale, n - 1);
      Snoc(cfg, s, steps, Acquire(s.clock));
      var held := Run(cfg, s, steps + [Acquire(s.clock)]);
      assert held.outstanding - {s.issued + n - 1} == s.outstanding - {stale};
      Snoc(cfg, s, steps + [Acquire(s.clock)], Fail(s.issued + n - 1, s.clock));
    }
  }

  lemma {:induction false} SparesProbe(s: System, stale: nat, probe: nat, n: nat)
    requires probe != stale && probe < s.issued
    ensures forall i :: 0 <= i < |CloseAndFail(s, stale, n)| ==>
      CloseAndFail(s, stale, n)[i].Acquire? || CloseAndFail(s, stale, n)[i].permit != probe
    decreases n
  {
    if n == 0 {
    } else {
      SparesProbe(s, stale, probe, n - 1);
    }
  }

  lemma StaleAdmitsSecond(cfg: Config, s: System, stale: nat, probe: nat)
    requires Inv(cfg, s) && stale in s.outstanding && probe in s.outstanding && stale != probe
    ensures exists steps :: SecondProbe(cfg, s, probe, steps)
  {
    var n := if cfg.failureThreshold == 0 then 1 else cfg.failureThreshold;
    var steps := CloseAndFail(s, stale, n);
    CloseAndFailRuns(cfg, s, stale, n);
    SparesProbe(s, stale, probe, n);
    var last := Acquire(s.clock + cfg.cooldown);
    Snoc(cfg, s, steps, last);
    var k := |Grants(cfg, s, steps)|;
    assert Grants(cfg, s, steps + [last])[k] == (s.clock + cfg.cooldown, true);
    assert SecondProbe(cfg, s, probe, steps + [last]);
  }

  /** In any reachable half-open state, for any probe that is out, another probe can be let
      through before that one resolves exactly when any other permit is still out. */
  lemma SecondProbeIff(cfg: Config, t0: int, before: seq<Step>, probe: nat)
    requires Legal(cfg, Start(t0), before)
    requires Run(cfg, Start(t0), before).breaker.state == HalfOpen
    requires probe in Probes(Run(cfg, Start(t0), before))
    ensures
      var s := Run(cfg, Start(t0), before);
      (exists steps :: SecondProbe(cfg, s, probe, steps)) <==> s.outstanding.Keys != {probe}
  {
    var s := Run(cfg, Start(t0), before);
    InvRun(cfg, Start(t0), before);
    if s.outstanding.Keys == {probe} {
      forall steps: seq<Step> ensures !SecondProbe(cfg, s, probe, steps) {
        if Legal(cfg, s, steps) && (forall i :: 0 <= i < |steps| ==> steps[i].Acquire? || steps[i].permit != probe) {
          AloneHolds(cfg, s, probe, steps);
        }
      }
    } else {
      var stale :| stale in s.outstanding && stale != probe;
      StaleAdmitsSecond(cfg, s, stale, probe);
    }
  }

  // --- That this can happen ----------------------------------------------------

  /** One permit taken and kept, then n calls at the same instant, each failing. */
  function KeepAndFail(t0: int, n: nat): seq<Step> {
    if n == 0 then [Acquire(t0)] else KeepAndFail(t0, n - 1) + [Acquire(t0)] + [Fail(n, t0)]
  }

  lemma {:induction false} KeepAndFailRuns(cfg: Config, t0: int, n: nat)
    requires n <= cfg.failureThreshold || n == 1
    ensures
      var steps := KeepAndFail(t0, n);
      && Legal(cfg, Start(t0), steps)
      && Run(cfg, Start(t0), steps)
         == System(if n > 0 && n >= cfg.failureThreshold then Breaker(Open, n, Some(t0)) else Breaker(Closed, n, None),
                   map[0 := false], n + 1, t0)
    decreases n
  {
    var s := Start(t0);
    if n == 0 {
      Snoc(cfg, s, [], Acquire(t0));
      assert [] + [Acquire(t0)] == [Acquire(t0)];
    } else {
      KeepAndFailRuns(cfg, t0, n - 1);
      var steps := KeepAndFail(t0, n - 1);
      Snoc(cfg, s, steps, Acquire(t0));
      var held := Run(cfg, s, steps + [Acquire(t0)]);
      assert held.outstanding - {n} == map[0 := false];
      Snoc(cfg, s, steps + [Acquire(t0)], Fail(n, t0));
    }
  }

  lemma BothOut(s: System, probe: nat)
    requires s.outstanding == map[0 := false, probe := true] && probe != 0
    ensures Ordinary(s) == {0} && Probes(s) == {probe} && s.outstanding.Keys != {probe}
  {
    assert 0 in s.outstanding.Keys;
  }

  /** Whatever the configuration, the circuit can open with an ordinary permit still out,
      whose success then closes it, and can go on to half-open with that permit beside the
      probe; so a second probe can join the first. */
  lemma OrdinaryBesideProbe(cfg: Config, t0: int) returns (tripped: seq<Step>, probing: seq<Step>, probe: nat)
    ensures
      && Legal(cfg, Start(t0), tripped)
      && var s := Run(cfg, Start(t0), tripped);
         && s.breaker.state == Open && Enabled(s, Succeed(0, t0)) && !s.outstanding[0]
         && Apply(cfg, s, Succeed(0, t0)).breaker == NEW_BREAKER
    ensures
      && Legal(cfg, Start(t0), probing)
      && var s := Run(cfg, Start(t0), probing);
         && s.breaker.state == HalfOpen && Ordinary(s) == {0} && Probes(s) == {probe}
         && exists steps :: SecondProbe(cfg, s, probe, steps)
  {
    var n := Most(1, cfg.failureThreshold);
    tripped := KeepAndFail(t0, n);
    KeepAndFailRuns(cfg, t0, n);
    var last := Acquire(t0 + cfg.cooldown);
    Snoc(cfg, Start(t0), tripped, last);
    probing, probe := tripped + [last], n + 1;
    var s := Run(cfg, Start(t0), probing);
    assert s.outstanding == map[0 := false, probe := true];
    BothOut(s, probe);
    SecondProbeIff(cfg, t0, probing, probe);
  }
}
