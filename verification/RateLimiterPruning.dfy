/** Pruning against the full log: a limiter never admits less than the log would, and it
    answers exactly as the log would as long as what it forgets cannot show. */
module RateLimiterPruning {
  import opened Prelude
  import opened SlidingWindow
  import opened RequestLog
  import opened RateLimiterModel
  import opened RateLimiterRefinement
  import opened RateLimiterRetention

  /** Whatever the retention, a request that the full log would admit is admitted. */
  lemma AdmitsAtLeast(cfg: Config, st: State, log: seq<Entry>, t: int, id: string, now: int)
    requires ValidConfig(cfg) && Knows(cfg, st, log, t) && t <= now
    requires LogDecide(cfg, log, id, now).allowed
    ensures Step(cfg, st, Call(id, now)).1.Some? && Step(cfg, st, Call(id, now)).1.value.allowed
  {
    CallKnows(cfg, st, log, t, id, now);
    EstimateBelow(Consulted(cfg, st, id, now), Exact(log, Attestor(id), now, cfg.windowMs), now, cfg.windowMs);
  }

  lemma BothFit(cfg: Config, log: seq<Entry>, id: string, now: int)
    requires ValidConfig(cfg)
    requires
      var w := cfg.windowMs;
      && Fits(EstimateCount(Exact(log, Attestor(id), now, w), now, w), cfg.perAttestorLimit)
      && Fits(EstimateCount(Exact(log, Everyone, now, w), now, w), cfg.globalLimit)
    ensures LogDecide(cfg, log, id, now).allowed
  {
  }

  /** The most that a forgotten previous window can still weigh, times windowMs, is within
      what the limit has beyond a whole number. In particular two windows always suffice, and
      anything does if the limit is below one. */
  predicate PrunesHarmlessly(cfg: Config) {
    var n := cfg.perAttestorLimit.Floor;
    (n * (2 * cfg.windowMs - cfg.idleRetentionMs)) as real <= (cfg.perAttestorLimit - n as real) * cfg.windowMs as real
  }

  lemma TwoWindowsHarmless(cfg: Config)
    requires ValidConfig(cfg) && KeepsTwoWindows(cfg)
    ensures PrunesHarmlessly(cfg)
  {
    var n := cfg.perAttestorLimit.Floor;
    NonNegativeProduct(n, cfg.idleRetentionMs - 2 * cfg.windowMs);
    assert n * (2 * cfg.windowMs - cfg.idleRetentionMs) == -(n * (cfg.idleRetentionMs - 2 * cfg.windowMs));
    MulMonotone(cfg.windowMs as real, 0.0, cfg.perAttestorLimit - n as real);
  }

  /** A harmless retention covers a window, unless nothing is ever admitted. */
  lemma HarmlessKeepsWindow(cfg: Config)
    requires ValidConfig(cfg) && PrunesHarmlessly(cfg) && cfg.perAttestorLimit >= 1.0
    ensures KeepsWindow(cfg)
  {
    var n, w, R := cfg.perAttestorLimit.Floor, cfg.windowMs, cfg.idleRetentionMs;
    assert n >= 1;
    var frac := cfg.perAttestorLimit - n as real;
    assert 0.0 <= frac < 1.0;
    MulMonotone(w as real, frac, 1.0);
    assert frac * w as real <= w as real;
    assert n * (2 * w - R) <= w;
    if 2 * w - R >= 0 {
      ProductGrows(n, 2 * w - R);
    }
  }

  lemma ProductGrows(n: int, x: int)
    requires n >= 1 && x >= 0
    ensures n * x >= x
  {
    NonNegativeProduct(n - 1, x);
  }

  /** A counted window holds a request. */
  lemma {:induction false} CountSome(log: seq<Entry>, scope: Scope, lo: int, hi: int) returns (i: nat)
    requires Count(log, scope, lo, hi) > 0
    ensures i < |log| && Covers(scope, log[i]) && lo <= log[i].time < hi
  {
    var last := log[|log| - 1];
    if Covers(scope, last) && lo <= last.time < hi {
      i := |log| - 1;
    } else {
      i := CountSome(log[..|log| - 1], scope, lo, hi);
    }
  }

  /** Room and fit do not change when a whole count c is read as c + d, with d within the
      fraction of the limit. */
  lemma FractionHides(limit: real, c: nat, d: real)
    requires limit > 0.0 && 0.0 <= d <= limit - limit.Floor as real
    ensures Room(limit, c as real + d) == Room(limit, c as real)
    ensures Fits(c as real + d, limit) <==> Fits(c as real, limit)
  {
    var n := limit.Floor;
    FloorIs(limit - c as real, n - c);
    FloorIs(limit - (c as real + d), n - c);
  }

  lemma FloorIs(x: real, n: int)
    requires n as real <= x < n as real + 1.0
    ensures x.Floor == n
  {
  }

  lemma DecideHides(cfg: Config, c: nat, d: real, eg: real, now: int)
    requires ValidConfig(cfg) && 0.0 <= d <= cfg.perAttestorLimit - cfg.perAttestorLimit.Floor as real
    ensures DecideOn(cfg, c as real + d, eg, now) == DecideOn(cfg, c as real, eg, now)
  {
    FractionHides(cfg.perAttestorLimit, c, d);
    FractionHides(cfg.perAttestorLimit, c + 1, d);
    assert (c + 1) as real == c as real + 1.0;
    assert c as real + d + 1.0 == (c + 1) as real + d;
    assert c as real + d + 0.0 == c as real + d && c as real + 0.0 == c as real;
  }

  /** What the forgotten requests would still weigh. */
  lemma ForgottenWeight(p: nat, n: nat, e: int, w: int, retention: int, frac: real)
    requires p <= n && 0 <= e < w && retention - w <= e
    requires (n * (2 * w - retention)) as real <= frac * w as real
    ensures 0.0 <= p as real * (1.0 - e as real / w as real) <= frac
  {
    var x := 1.0 - e as real / w as real;
    ScaledWeight(p, e, w);
    NonNegativeProduct(p, w - e);
    MoreWeight(p, n, w - e, 2 * w - retention);
    CancelWindow(p as real * x, frac, w as real);
    CancelWindow(0.0, p as real * x, w as real);
  }

  lemma MoreWeight(p: nat, n: nat, x: int, y: int)
    requires p <= n && 0 <= x <= y
    ensures p * x <= n * y
  {
    NonNegativeProduct(p, y - x);
    NonNegativeProduct(n - p, y);
    assert n * y == p * x + p * (y - x) + (n - p) * y;
  }

  lemma ScaledWeight(p: nat, e: int, w: int)
    requires w > 0
    ensures (p as real * (1.0 - e as real / w as real)) * w as real == (p * (w - e)) as real
  {
    WholeAsReal(p, w - e);
    assert (e as real / w as real) * w as real == e as real;
    assert (1.0 - e as real / w as real) * w as real == (w - e) as real;
  }

  lemma CancelWindow(a: real, b: real, w: real)
    requires w > 0.0 && a * w <= b * w
    ensures a <= b
  {
    assert (b - a) * w >= 0.0;
  }

  /** How old the previous window is when it may have been forgotten. */
  lemma ForgottenLate(log: seq<Entry>, scope: Scope, now: int, w: int, retention: int)
    requires w > 0 && InWindow(log, scope, Index(now, w) - 1, w) > 0
    requires DoneBy(log, scope, Index(now, w) - 1, now - retention, w)
    ensures retention - w <= now - Index(now, w) * w
  {
    var k := Index(now, w);
    var i := CountSome(log, scope, (k - 1) * w, k * w);
    IndexUnique(log[i].time, w, k - 1);
  }

  /** What is forgotten is within the fraction of the limit. */
  lemma ForgottenWithin(cfg: Config, x: Window, log: seq<Entry>, id: string, now: int)
    requires ValidConfig(cfg) && PrunesHarmlessly(cfg) && x == Exact(log, Attestor(id), now, cfg.windowMs)
    requires 0 < x.previous <= cfg.perAttestorLimit.Floor
    requires DoneBy(log, Attestor(id), Index(now, cfg.windowMs) - 1, now - cfg.idleRetentionMs, cfg.windowMs)
    ensures
      var d := EstimateCount(x, now, cfg.windowMs) - x.current as real;
      0.0 <= d <= cfg.perAttestorLimit - cfg.perAttestorLimit.Floor as real
  {
    var w, n, R := cfg.windowMs, cfg.perAttestorLimit.Floor, cfg.idleRetentionMs;
    ForgottenLate(log, Attestor(id), now, w, R);
    EstimateInWindow(x, now, w);
    ForgottenWeight(x.previous, n, now - x.start, w, R, cfg.perAttestorLimit - n as real);
  }

  /** What a counter with the retention in question and the exact one decide. */
  lemma RecalledDecides(cfg: Config, a: Window, log: seq<Entry>, id: string, g: Window, now: int)
    requires ValidConfig(cfg) && PrunesHarmlessly(cfg) && a.lastSeen == now
    requires Recalls(a, log, Attestor(id), cfg.windowMs, cfg.idleRetentionMs)
    requires InWindow(log, Attestor(id), Index(now, cfg.windowMs) - 1, cfg.windowMs) <= cfg.perAttestorLimit.Floor
    ensures Decide(cfg, a, g, now) == Decide(cfg, Exact(log, Attestor(id), now, cfg.windowMs), g, now)
  {
    var w, x := cfg.windowMs, Exact(log, Attestor(id), now, cfg.windowMs);
    if a != x {
      ForgottenWithin(cfg, x, log, id, now);
      EstimateWithout(a, now, w);
      DecideHides(cfg, x.current, EstimateCount(x, now, w) - x.current as real, EstimateCount(g, now, w), now);
    }
  }

  lemma AtMostFloor(n: int, limit: real)
    requires n as real <= limit
    ensures n <= limit.Floor
  {
  }

  lemma HeldDecides(cfg: Config, a: Window, log: seq<Entry>, id: string, g: Window, now: int)
    requires ValidConfig(cfg) && PrunesHarmlessly(cfg) && KeepsWindow(cfg) && a.lastSeen == now
    requires Recalls(a, log, Attestor(id), cfg.windowMs, cfg.idleRetentionMs)
    requires Vetted(cfg.perAttestorLimit, log, Attestor(id), cfg.windowMs)
    ensures Decide(cfg, a, g, now) == Decide(cfg, Exact(log, Attestor(id), now, cfg.windowMs), g, now)
  {
    var w := cfg.windowMs;
    WindowCap(cfg.perAttestorLimit, log, Attestor(id), Index(now, w) - 1, w);
    AtMostFloor(InWindow(log, Attestor(id), Index(now, w) - 1, w), cfg.perAttestorLimit);
    RecalledDecides(cfg, a, log, id, g, now);
  }

  lemma OwnVetted(cfg: Config, log: seq<Entry>, id: string)
    requires ValidConfig(cfg) && PrunesHarmlessly(cfg) && Lawful(cfg, log) && log != []
    ensures KeepsWindow(cfg) && Vetted(cfg.perAttestorLimit, log, Attestor(id), cfg.windowMs)
  {
    HarmlessKeepsWindow(cfg);
    assert Enforced(cfg, Attestor(id)) && Limit(cfg, Attestor(id)) == cfg.perAttestorLimit;
  }

  /** One call answers as the full log would. */
  lemma CallAnswersAsLog(cfg: Config, st: State, log: seq<Entry>, t: int, id: string, now: int)
    requires ValidConfig(cfg) && PrunesHarmlessly(cfg) && Sound(cfg, st, log, t) && t <= now
    ensures Step(cfg, st, Call(id, now)).1 == Some(LogDecide(cfg, log, id, now))
  {
    CallKnows(cfg, st, log, t, id, now);
    var a, g := Consulted(cfg, st, id, now), Exact(log, Everyone, now, cfg.windowMs);
    assert Decide(cfg, a, g, now) == LogDecide(cfg, log, id, now) by {
      if log == [] {
        NothingYet(cfg, a, id, now);
      } else {
        OwnVetted(cfg, log, id);
        HeldDecides(cfg, a, log, id, g, now);
      }
    }
  }

  lemma NothingYet(cfg: Config, a: Window, id: string, now: int)
    requires ValidConfig(cfg) && a.lastSeen == now && Holds(a, [], id, now, cfg.windowMs, cfg.idleRetentionMs)
    ensures a == Exact([], Attestor(id), now, cfg.windowMs)
  {
  }

  lemma {:induction false} AnswersAsLogFrom(cfg: Config, st: State, log: seq<Entry>, t: int, ops: seq<Op>)
    requires ValidConfig(cfg) && PrunesHarmlessly(cfg) && Sound(cfg, st, log, t) && Ordered(t, ops)
    ensures Statuses(cfg, st, ops) == LogStatuses(cfg, log, ops)
    decreases |ops|
  {
    if ops == [] {
    } else {
      StepSound(cfg, st, log, t, ops[0]);
      if ops[0].Call? {
        CallAnswersAsLog(cfg, st, log, t, ops[0].id, ops[0].now);
      }
      AnswersAsLogFrom(cfg, Step(cfg, st, ops[0]).0, LogStep(cfg, log, ops[0]).0, ops[0].now, ops[1..]);
    }
  }

  /** Every run reports what the full log would report, whenever pruning is harmless. */
  lemma AnswersAsLog(cfg: Config, t0: int, ops: seq<Op>)
    requires ValidConfig(cfg) && PrunesHarmlessly(cfg) && Ordered(t0, ops)
    ensures Statuses(cfg, InitialState(cfg, t0), ops) == LogStatuses(cfg, [], ops)
    ensures AcceptedInRun(cfg, t0, ops) == LogRun(cfg, [], ops)
  {
    AnswersAsLogFrom(cfg, InitialState(cfg, t0), [], t0, ops);
    LogRunIsAccepted(cfg, [], ops);
  }

  lemma LogStatusesHead(cfg: Config, log: seq<Entry>, ops: seq<Op>)
    requires ValidConfig(cfg) && ops != []
    ensures
      var (log', status) := LogStep(cfg, log, ops[0]);
      && log' == Grown(log, ops[0], status)
      && LogStatuses(cfg, log, ops)[0] == status && LogStatuses(cfg, log, ops)[1..] == LogStatuses(cfg, log', ops[1..])
  {
  }

  lemma {:induction false} LogRunIsAccepted(cfg: Config, log: seq<Entry>, ops: seq<Op>)
    requires ValidConfig(cfg)
    ensures LogRun(cfg, log, ops) == log + Accepted(ops, LogStatuses(cfg, log, ops))
    decreases |ops|
  {
    if ops == [] {
    } else {
      var (log', status) := LogStep(cfg, log, ops[0]);
      LogRunIsAccepted(cfg, log', ops[1..]);
      LogStatusesHead(cfg, log, ops);
      GrownFrom(log, ops[0], status, Accepted(ops[1..], LogStatuses(cfg, log', ops[1..])));
    }
  }

  // --- Invisibility -------------------------------------------------------------

  /** The operations (or their results) that `keep` retains. */
  function Kept<T>(xs: seq<T>, keep: seq<bool>): seq<T>
    requires |xs| == |keep|
  {
    if xs == [] then []
    else (if keep[0] then [xs[0]] else []) + Kept(xs[1..], keep[1..])
  }

  /** `keep` drops only sweeps and calls that were denied. */
  ghost predicate DropsOnlyInvisible(ops: seq<Op>, statuses: seq<Option<Status>>, keep: seq<bool>) {
    && |ops| == |statuses| == |keep|
    && forall i :: 0 <= i < |ops| && !keep[i] ==>
         ops[i].Sweep? || (statuses[i].Some? && !statuses[i].value.allowed)
  }

  lemma {:induction false} KeptOrdered(t: int, t': int, ops: seq<Op>, keep: seq<bool>)
    requires |ops| == |keep| && t' <= t && Ordered(t, ops)
    ensures Ordered(t', Kept(ops, keep))
    decreases |ops|
  {
    if ops == [] {
    } else {
      if keep[0] {
        KeptOrdered(ops[0].now, ops[0].now, ops[1..], keep[1..]);
        assert Kept(ops, keep)[1..] == Kept(ops[1..], keep[1..]);
      } else {
        KeptOrdered(ops[0].now, t', ops[1..], keep[1..]);
        assert Kept(ops, keep) == Kept(ops[1..], keep[1..]);
      }
    }
  }

  lemma {:induction false} LogInvisible(cfg: Config, log: seq<Entry>, ops: seq<Op>, keep: seq<bool>)
    requires ValidConfig(cfg)
    requires DropsOnlyInvisible(ops, LogStatuses(cfg, log, ops), keep)
    ensures LogStatuses(cfg, log, Kept(ops, keep)) == Kept(LogStatuses(cfg, log, ops), keep)
    ensures LogRun(cfg, log, Kept(ops, keep)) == LogRun(cfg, log, ops)
    decreases |ops|
  {
    if ops == [] {
    } else {
      var (log', status) := LogStep(cfg, log, ops[0]);
      var all := LogStatuses(cfg, log, ops);
      assert all[0] == status && all[1..] == LogStatuses(cfg, log', ops[1..]);
      forall i | 0 <= i < |ops| - 1 && !keep[1..][i]
        ensures ops[1..][i].Sweep? || (all[1..][i].Some? && !all[1..][i].value.allowed)
      {
        assert !keep[i + 1];
      }
      LogInvisible(cfg, log', ops[1..], keep[1..]);
      var rest := Kept(ops[1..], keep[1..]);
      if keep[0] {
        assert Kept(ops, keep)[1..] == rest;
      } else {
        assert log' == log;
        assert Kept(ops, keep) == rest;
      }
    }
  }

  /** Same limits and window; how and when pruning happens may differ. */
  predicate SameLimits(a: Config, b: Config) {
    a.perAttestorLimit == b.perAttestorLimit && a.globalLimit == b.globalLimit && a.windowMs == b.windowMs
  }

  lemma SameLimitsSameStep(a: Config, b: Config, log: seq<Entry>, op: Op)
    requires ValidConfig(a) && ValidConfig(b) && SameLimits(a, b)
    ensures LogStep(a, log, op) == LogStep(b, log, op)
  {
  }

  lemma {:induction false} SameLimitsSameLog(a: Config, b: Config, log: seq<Entry>, ops: seq<Op>)
    requires ValidConfig(a) && ValidConfig(b) && SameLimits(a, b)
    ensures LogStatuses(a, log, ops) == LogStatuses(b, log, ops)
    ensures LogRun(a, log, ops) == LogRun(b, log, ops)
    decreases |ops|
  {
    if ops == [] {
    } else {
      SameLimitsSameStep(a, b, log, ops[0]);
      SameLimitsSameLog(a, b, LogStep(a, log, ops[0]).0, ops[1..]);
    }
  }

  /** Invisibility: dropping any denied calls and any sweeps from a run (read backwards:
      adding sweeps anywhere), and even changing when the limiter prunes by itself, leaves
      the full status of every remaining call unchanged. */
  lemma Invisible(cfg: Config, other: Config, t0: int, ops: seq<Op>, keep: seq<bool>)
    requires ValidConfig(cfg) && PrunesHarmlessly(cfg)
    requires ValidConfig(other) && PrunesHarmlessly(other) && SameLimits(cfg, other)
    requires Ordered(t0, ops)
    requires DropsOnlyInvisible(ops, Statuses(cfg, InitialState(cfg, t0), ops), keep)
    ensures Statuses(other, InitialState(other, t0), Kept(ops, keep))
         == Kept(Statuses(cfg, InitialState(cfg, t0), ops), keep)
  {
    AnswersAsLog(cfg, t0, ops);
    LogInvisible(cfg, [], ops, keep);
    KeptOrdered(t0, t0, ops, keep);
    AnswersAsLog(other, t0, Kept(ops, keep));
    SameLimitsSameLog(cfg, other, [], Kept(ops, keep));
  }
}
