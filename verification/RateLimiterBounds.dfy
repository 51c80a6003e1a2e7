/** How much the limiter admits: the burst any stretch of one window can see, how the
    reported quota is spent, and when a caller is admitted again. */
module RateLimiterBounds {
  import opened Prelude
  import opened SlidingWindow
  import opened RequestLog
  import opened RateLimiterModel
  import opened RateLimiterRefinement
  import opened RateLimiterRetention
  import opened RateLimiterPruning

  // --- The burst bound ------------------------------------------------------

  /** The stretch of one window that ends at t splits at the boundary inside it. */
  lemma TrailingSplit(log: seq<Entry>, scope: Scope, t: int, w: int)
    requires w > 0
    ensures
      var k := Index(t, w);
      && Count(log, scope, t - w + 1, t + 1)
         == Count(log, scope, t - w + 1, k * w) + Count(log, scope, k * w, t + 1)
      && Count(log, scope, t - w + 1, k * w) <= InWindow(log, scope, k - 1, w)
  {
    var k := Index(t, w);
    CountSplit(log, scope, t - w + 1, k * w, t + 1);
    CountSplit(log, scope, (k - 1) * w, t - w + 1, k * w);
  }

  /** n requests in a stretch that ends at offset e, after a window of p, under this limit. */
  ghost predicate WithinBurst(n: nat, p: nat, e: int, w: int, limit: real)
    requires w > 0
  {
    n as real <= limit + (p * e) as real / w as real && n as real < 2.0 * limit
  }

  /** The counting step behind the bound, on plain numbers: b of the p requests of the
      previous window and a of the current one, at offset e. */
  lemma BurstArithmetic(a: nat, b: nat, p: nat, e: int, w: int, limit: real)
    requires 0 <= e < w && limit > 0.0
    requires b <= p && p as real <= limit && a as real <= limit
    requires a > 0 && b > 0 ==> p * (w - e) + a * w <= Cap(limit, w)
    ensures WithinBurst(a + b, p, e, w, limit)
  {
    var n := a + b;
    assert p * (w - e) == p * w - p * e;
    Scaled(b, p, w);
    NonNegativeProduct(p, e);
    if a > 0 && b > 0 {
      assert (a + b) * w <= Cap(limit, w) + p * e;
      OverWindow(n, p * e, w, limit);
    } else {
      DivMonotone(0.0, (p * e) as real, w as real);
    }
    Shrinks(p, e, w);
  }

  lemma OverWindow(n: int, extra: int, w: int, limit: real)
    requires w > 0 && n * w <= Cap(limit, w) + extra
    ensures n as real <= limit + extra as real / w as real
  {
    WholeAsReal(n, w);
    var x := extra as real / w as real;
    assert x * w as real == extra as real;
    CancelWindow(n as real, limit + x, w as real);
  }

  lemma CancelStrictly(a: real, b: real, w: real)
    requires w > 0.0 && a * w < b * w
    ensures a < b
  {
    assert (b - a) * w > 0.0;
  }

  /** p * e / w is less than p, unless both are zero. */
  lemma Shrinks(p: nat, e: int, w: int)
    requires 0 <= e < w
    ensures (p * e) as real / w as real <= p as real
    ensures p > 0 ==> (p * e) as real / w as real < p as real
  {
    var x := (p * e) as real / w as real;
    assert x * w as real == (p * e) as real;
    WholeAsReal(p, w);
    if p > 0 {
      assert p * e < p * w;
      CancelStrictly(x, p as real, w as real);
    }
  }

  /** The stretch of one window that ends at t, in parts: b requests before the boundary
      inside it and a after. */
  ghost predicate InParts(limit: real, log: seq<Entry>, scope: Scope, t: int, w: int)
    requires w > 0
  {
    var k := Index(t, w);
    var a, b, p := Count(log, scope, k * w, t + 1), Count(log, scope, t - w + 1, k * w), InWindow(log, scope, k - 1, w);
    && Count(log, scope, t - w + 1, t + 1) == a + b
    && b <= p && p as real <= limit && a as real <= limit
    && (a > 0 && b > 0 ==> p * (w - (t - k * w)) + a * w <= Cap(limit, w))
    && (b > 0 ==> t - k * w <= w - 2)
  }

  /** Whatever is less than a window old keeps its window from being done. */
  lemma RecentNotDone(log: seq<Entry>, scope: Scope, t: int, w: int)
    requires w > 0 && DoneBy(log, scope, Index(t, w) - 1, t - w, w)
    ensures Count(log, scope, t - w + 1, Index(t, w) * w) == 0
  {
    var k := Index(t, w);
    forall i | 0 <= i < |log| && Covers(scope, log[i])
      ensures !(t - w + 1 <= log[i].time < k * w)
    {
      if t - w + 1 <= log[i].time < k * w {
        IndexUnique(log[i].time, w, k - 1);
      }
    }
    CountNone(log, scope, t - w + 1, k * w);
  }

  lemma TrailingParts(limit: real, log: seq<Entry>, scope: Scope, t: int, w: int)
    requires w > 0 && limit > 0.0 && Vetted(limit, log, scope, w)
    ensures InParts(limit, log, scope, t, w)
  {
    var k := Index(t, w);
    WindowCap(limit, log, scope, k - 1, w);
    WeighedCap(limit, log, scope, k, t - k * w, w);
    CappedParts(limit, log, scope, t, w);
  }

  lemma CappedParts(limit: real, log: seq<Entry>, scope: Scope, t: int, w: int)
    requires w > 0 && limit > 0.0 && InWindow(log, scope, Index(t, w) - 1, w) as real <= limit
    requires Capped(limit, log, scope, Index(t, w), t - Index(t, w) * w, w)
    ensures InParts(limit, log, scope, t, w)
  {
    var k := Index(t, w);
    TrailingSplit(log, scope, t, w);
    if DoneBy(log, scope, k - 1, t - w, w) {
      RecentNotDone(log, scope, t, w);
    }
    if t - k * w == w - 1 {
      CountNone(log, scope, t - w + 1, k * w);
    }
  }

  lemma PartsWithinBurst(limit: real, log: seq<Entry>, scope: Scope, t: int, w: int)
    requires w > 0 && limit > 0.0 && InParts(limit, log, scope, t, w)
    ensures
      var k := Index(t, w);
      WithinBurst(Count(log, scope, t - w + 1, t + 1), InWindow(log, scope, k - 1, w), t - k * w, w, limit)
  {
    var k := Index(t, w);
    BurstArithmetic(Count(log, scope, k * w, t + 1), Count(log, scope, t - w + 1, k * w),
                    InWindow(log, scope, k - 1, w), t - k * w, w, limit);
  }

  lemma VettedInRun(cfg: Config, t0: int, ops: seq<Op>, scope: Scope)
    requires ValidConfig(cfg) && Enforced(cfg, scope) && Ordered(t0, ops)
    ensures Vetted(Limit(cfg, scope), AcceptedInRun(cfg, t0, ops), scope, cfg.windowMs)
  {
    RunSound(cfg, t0, ops);
  }

  /** At most the limit in the fixed window of t, and a bounded burst in the stretch that
      ends at t. */
  ghost predicate Bursts(limit: real, log: seq<Entry>, scope: Scope, t: int, w: int)
    requires w > 0
  {
    var k := Index(t, w);
    && InWindow(log, scope, k, w) as real <= limit
    && WithinBurst(Count(log, scope, t - w + 1, t + 1), InWindow(log, scope, k - 1, w), t - k * w, w, limit)
  }

  lemma VettedBursts(limit: real, log: seq<Entry>, scope: Scope, t: int, w: int)
    requires w > 0 && limit > 0.0 && Vetted(limit, log, scope, w)
    ensures Bursts(limit, log, scope, t, w)
  {
    WindowCap(limit, log, scope, Index(t, w), w);
    TrailingParts(limit, log, scope, t, w);
    PartsWithinBurst(limit, log, scope, t, w);
  }

  /** The burst bound over every run, globally whatever the retention and per attestor with a
      retention of at least a window: at most the limit in each fixed window, at most
      L + p * e / windowMs and fewer than 2 L in any stretch as long. */
  lemma BurstBound(cfg: Config, t0: int, ops: seq<Op>, scope: Scope, t: int)
    requires ValidConfig(cfg) && Enforced(cfg, scope) && Ordered(t0, ops)
    ensures Bursts(Limit(cfg, scope), AcceptedInRun(cfg, t0, ops), scope, t, cfg.windowMs)
  {
    VettedInRun(cfg, t0, ops, scope);
    VettedBursts(Limit(cfg, scope), AcceptedInRun(cfg, t0, ops), scope, t, cfg.windowMs);
  }

  // --- Calls in a row ---------------------------------------------------------

  function Repeat(id: string, now: int, n: nat): seq<Op> {
    if n == 0 then [] else [Call(id, now)] + Repeat(id, now, n - 1)
  }

  lemma RoomSteps(limit: real, estimate: real)
    ensures Room(limit, estimate) > 0 <==> estimate + 1.0 <= limit
    ensures Room(limit, estimate) > 0 ==> Room(limit, estimate + 1.0) == Room(limit, estimate) - 1
  {
    var x := limit - estimate;
    assert x.Floor as real <= x < x.Floor as real + 1.0;
    var y := limit - (estimate + 1.0);
    assert y.Floor as real <= y < y.Floor as real + 1.0;
  }

  lemma DecideSpends(cfg: Config, ea: real, eg: real, now: int)
    requires ValidConfig(cfg)
    ensures
      var q := Least(Room(cfg.perAttestorLimit, ea), Room(cfg.globalLimit, eg));
      var status := DecideOn(cfg, ea, eg, now);
      && (status.allowed <==> q > 0)
      && Least(status.remaining, status.remainingGlobal) == (if q > 0 then q - 1 else q)
      && (status.allowed ==>
            Least(Room(cfg.perAttestorLimit, ea + 1.0), Room(cfg.globalLimit, eg + 1.0)) == q - 1)
  {
    RoomSteps(cfg.perAttestorLimit, ea);
    RoomSteps(cfg.globalLimit, eg);
  }

  /** Status of the last operation of a run. */
  function LastStatus(cfg: Config, t0: int, ops: seq<Op>, op: Op): Option<Status>
    requires ValidConfig(cfg)
  {
    Statuses(cfg, InitialState(cfg, t0), ops + [op])[|ops|]
  }

  lemma LastStatusIsStep(cfg: Config, t0: int, ops: seq<Op>, op: Op)
    requires ValidConfig(cfg)
    ensures LastStatus(cfg, t0, ops, op) == Step(cfg, Run(cfg, InitialState(cfg, t0), ops), op).1
  {
    StatusesSnoc(cfg, InitialState(cfg, t0), ops, op);
  }

  lemma TwoLast(cfg: Config, t0: int, ops: seq<Op>, a: Op, b: Op)
    requires ValidConfig(cfg)
    ensures
      var st := Run(cfg, InitialState(cfg, t0), ops);
      LastStatus(cfg, t0, ops + [a], b) == Step(cfg, Step(cfg, st, a).0, b).1
  {
    RunSnoc(cfg, InitialState(cfg, t0), ops, a);
    LastStatusIsStep(cfg, t0, ops + [a], b);
  }

  // --- Readmission -----------------------------------------------------------

  /** With limits of at least one request, two full idle windows always readmit, whatever the
      retention. */
  lemma IdleReadmits(cfg: Config, t0: int, ops: seq<Op>, id: string, now: int)
    requires ValidConfig(cfg) && cfg.perAttestorLimit >= 1.0
    requires Ordered(t0, ops + [Call(id, now)])
    requires forall i :: 0 <= i < |AcceptedInRun(cfg, t0, ops)| ==>
               AcceptedInRun(cfg, t0, ops)[i].time + 2 * cfg.windowMs <= now
    ensures LastStatus(cfg, t0, ops, Call(id, now)).Some?
    ensures LastStatus(cfg, t0, ops, Call(id, now)).value.allowed
  {
    var log := AcceptedInRun(cfg, t0, ops);
    OrderedSnoc(t0, ops, Call(id, now));
    RunSound(cfg, t0, ops);
    IdleFits(cfg, log, id, now);
    AdmitsAtLeast(cfg, Run(cfg, InitialState(cfg, t0), ops), log, Latest(t0, ops), id, now);
    LastStatusIsStep(cfg, t0, ops, Call(id, now));
  }

  lemma IdleFits(cfg: Config, log: seq<Entry>, id: string, now: int)
    requires ValidConfig(cfg) && cfg.perAttestorLimit >= 1.0
    requires forall i :: 0 <= i < |log| ==> log[i].time + 2 * cfg.windowMs <= now
    ensures LogDecide(cfg, log, id, now).allowed
  {
    var w := cfg.windowMs;
    forall i | 0 <= i < |log| ensures Index(log[i].time, w) + 2 <= Index(now, w) {
      IndexAfterTwoWindows(log[i].time, now, w);
    }
    ForgottenIsFresh(log, Attestor(id), now, w);
    ForgottenIsFresh(log, Everyone, now, w);
    FreshIsEmpty(now, w);
    BothFit(cfg, log, id, now);
  }

  lemma FreshIsEmpty(now: int, w: int)
    requires w > 0
    ensures EstimateCount(CreateState(now, w), now, w) == 0.0
  {
    EstimateInWindow(CreateState(now, w), now, w);
  }

  // --- What a status says -----------------------------------------------------

  /** `left` is the largest number of whole requests that fit under `limit` on top of `estimate`. */
  ghost predicate CountsRoom(left: int, limit: real, estimate: real) {
    && left >= 0
    && (left > 0 ==> estimate + left as real <= limit)
    && estimate + (left + 1) as real > limit
  }

  lemma RoomCounts(limit: real, estimate: real)
    ensures CountsRoom(Room(limit, estimate), limit, estimate)
  {
    var x := limit - estimate;
    assert x.Floor as real <= x < x.Floor as real + 1.0;
  }

  /** Every field of a status: allowed iff both caps have room; `remaining` and
      `remainingGlobal` the exact room left under each cap; the attestor's own cap blamed
      first; and a retry time that is the start of the next window. */
  lemma StatusReports(cfg: Config, ea: real, eg: real, now: int)
    requires ValidConfig(cfg)
    ensures
      var s := DecideOn(cfg, ea, eg, now);
      var charge := if s.allowed then 1.0 else 0.0;
      && (s.allowed <==> ea + 1.0 <= cfg.perAttestorLimit && eg + 1.0 <= cfg.globalLimit)
      && CountsRoom(s.remaining, cfg.perAttestorLimit, ea + charge)
      && CountsRoom(s.remainingGlobal, cfg.globalLimit, eg + charge)
      && (s.limitedBy == Some(ByAttestor) <==> ea + 1.0 > cfg.perAttestorLimit)
      && (s.limitedBy == Some(ByGlobal) <==> ea + 1.0 <= cfg.perAttestorLimit && eg + 1.0 > cfg.globalLimit)
      && (s.allowed <==> s.retryAfterMs == 0)
      && (!s.allowed ==> now + s.retryAfterMs == (Index(now, cfg.windowMs) + 1) * cfg.windowMs)
  {
    var s := DecideOn(cfg, ea, eg, now);
    var charge := if s.allowed then 1.0 else 0.0;
    RoomCounts(cfg.perAttestorLimit, ea + charge);
    RoomCounts(cfg.globalLimit, eg + charge);
  }

  /** After a denied call, waiting out its `retryAfterMs` is enough if the window that just
      ended leaves room by itself under both limits: at that instant it still weighs in full.
      With a retention above a window, so that the counter is still there, it is enough only
      then. */
  lemma RetryHint(cfg: Config, t0: int, ops: seq<Op>, id: string, now: int)
    requires ValidConfig(cfg) && Ordered(t0, ops + [Call(id, now)])
    requires LastStatus(cfg, t0, ops, Call(id, now)).Some? && !LastStatus(cfg, t0, ops, Call(id, now)).value.allowed
    ensures
      var denied := LastStatus(cfg, t0, ops, Call(id, now)).value;
      var again := LastStatus(cfg, t0, ops + [Call(id, now)], Call(id, now + denied.retryAfterMs));
      var fits := EndedWindowFits(cfg, AcceptedInRun(cfg, t0, ops), id, now);
      && again.Some? && (fits ==> again.value.allowed)
      && (cfg.idleRetentionMs > cfg.windowMs ==> (again.value.allowed <==> fits))
  {
    var st := Run(cfg, InitialState(cfg, t0), ops);
    LastStatusIsStep(cfg, t0, ops, Call(id, now));
    var next := now + Step(cfg, st, Call(id, now)).1.value.retryAfterMs;
    OrderedSnoc(t0, ops, Call(id, now));
    RunSound(cfg, t0, ops);
    TwoLast(cfg, t0, ops, Call(id, now), Call(id, next));
    DeniedThenNext(cfg, st, AcceptedInRun(cfg, t0, ops), Latest(t0, ops), id, now);
  }

  /** One more request fits on top of all that the window of `now` admitted. */
  predicate EndedWindowFits(cfg: Config, log: seq<Entry>, id: string, now: int)
    requires ValidConfig(cfg)
  {
    var w, k := cfg.windowMs, Index(now, cfg.windowMs);
    && InWindow(log, Attestor(id), k, w) as real + 1.0 <= cfg.perAttestorLimit
    && InWindow(log, Everyone, k, w) as real + 1.0 <= cfg.globalLimit
  }

  lemma DeniedThenNext(cfg: Config, st: State, log: seq<Entry>, t: int, id: string, now: int)
    requires ValidConfig(cfg) && Knows(cfg, st, log, t) && t <= now
    requires Step(cfg, st, Call(id, now)).1.Some? && !Step(cfg, st, Call(id, now)).1.value.allowed
    ensures
      var (st', denied) := Step(cfg, st, Call(id, now));
      var again := Step(cfg, st', Call(id, now + denied.value.retryAfterMs)).1;
      && again.Some? && (EndedWindowFits(cfg, log, id, now) ==> again.value.allowed)
      && (cfg.idleRetentionMs > cfg.windowMs ==> (again.value.allowed <==> EndedWindowFits(cfg, log, id, now)))
  {
    var st', next := Step(cfg, st, Call(id, now)).0, (Index(now, cfg.windowMs) + 1) * cfg.windowMs;
    DeniedTouches(cfg, st, log, t, id, now);
    CallDecides(cfg, st', log, now, id, next);
    if EndedWindowFits(cfg, log, id, now) {
      NextFits(cfg, log, id, now);
      AdmitsAtLeast(cfg, st', log, now, id, next);
    }
    if cfg.idleRetentionMs > cfg.windowMs {
      NextDecides(cfg, st', log, id, now);
    }
  }

  /** The full log admits at the start of the next window what fits on top of this one. */
  lemma NextFits(cfg: Config, log: seq<Entry>, id: string, now: int)
    requires ValidConfig(cfg) && AllBy(log, Everyone, now) && EndedWindowFits(cfg, log, id, now)
    ensures LogDecide(cfg, log, id, (Index(now, cfg.windowMs) + 1) * cfg.windowMs).allowed
  {
    var w, next := cfg.windowMs, (Index(now, cfg.windowMs) + 1) * cfg.windowMs;
    NextExact(log, Attestor(id), now, w);
    NextExact(log, Everyone, now, w);
    FullDecides(cfg, Exact(log, Attestor(id), next, w), Exact(log, Everyone, next, w), next);
  }

  /** The denied call leaves the counter seen, and the retry time is the next window's start. */
  lemma DeniedTouches(cfg: Config, st: State, log: seq<Entry>, t: int, id: string, now: int)
    requires ValidConfig(cfg) && Knows(cfg, st, log, t) && t <= now
    requires Step(cfg, st, Call(id, now)).1.Some? && !Step(cfg, st, Call(id, now)).1.value.allowed
    ensures
      var (st', denied) := Step(cfg, st, Call(id, now));
      && now + denied.value.retryAfterMs == (Index(now, cfg.windowMs) + 1) * cfg.windowMs
      && Knows(cfg, st', log, now) && id in st'.perAttestor && st'.perAttestor[id].lastSeen == now
  {
    CallKnows(cfg, st, log, t, id, now);
  }

  /** A call at the start of the next window, by an attestor last seen at `now`. */
  lemma NextDecides(cfg: Config, st: State, log: seq<Entry>, id: string, now: int)
    requires ValidConfig(cfg) && cfg.idleRetentionMs > cfg.windowMs && Knows(cfg, st, log, now)
    requires id in st.perAttestor && st.perAttestor[id].lastSeen == now
    ensures
      var w, k := cfg.windowMs, Index(now, cfg.windowMs);
      var again := Step(cfg, st, Call(id, (k + 1) * w)).1;
      again.Some? && (again.value.allowed <==> EndedWindowFits(cfg, log, id, now))
  {
    var w, k := cfg.windowMs, Index(now, cfg.windowMs);
    var next := (k + 1) * w;
    CallDecides(cfg, st, log, now, id, next);
    NextConsulted(cfg, st, log, id, now);
    NextExact(log, Everyone, now, w);
    FullDecides(cfg, Consulted(cfg, st, id, next), Exact(log, Everyone, next, w), next);
  }

  lemma FullDecides(cfg: Config, a: Window, g: Window, now: int)
    requires ValidConfig(cfg) && a.start == g.start == now && a.current == g.current == 0
    ensures Decide(cfg, a, g, now).allowed <==>
      a.previous as real + 1.0 <= cfg.perAttestorLimit && g.previous as real + 1.0 <= cfg.globalLimit
  {
    WeighsInFull(a, now, cfg.windowMs);
    WeighsInFull(g, now, cfg.windowMs);
  }

  lemma NextExact(log: seq<Entry>, scope: Scope, now: int, w: int)
    requires w > 0 && AllBy(log, Everyone, now)
    ensures
      var k := Index(now, w);
      var x := Exact(log, scope, (k + 1) * w, w);
      x.start == (k + 1) * w && x.current == 0 && x.previous == InWindow(log, scope, k, w)
  {
    var k := Index(now, w);
    IndexUnique((k + 1) * w, w, k + 1);
    EmptyAfter(log, scope, now, k + 1, w);
  }

  /** A counter seen at `now` is still there at the start of the next window. */
  lemma NextConsulted(cfg: Config, st: State, log: seq<Entry>, id: string, now: int)
    requires ValidConfig(cfg) && cfg.idleRetentionMs > cfg.windowMs && Knows(cfg, st, log, now)
    requires id in st.perAttestor && st.perAttestor[id].lastSeen == now
    ensures
      var w, k := cfg.windowMs, Index(now, cfg.windowMs);
      var a := Consulted(cfg, st, id, (k + 1) * w);
      a.start == (k + 1) * w && a.current == 0 && a.previous == InWindow(log, Attestor(id), k, w)
  {
    var w, k, s := cfg.windowMs, Index(now, cfg.windowMs), st.perAttestor[id];
    IndexUnique((k + 1) * w, w, k + 1);
    assert Recalls(s, log, Attestor(id), w, cfg.idleRetentionMs);
    RollIsRolled(s, (k + 1) * w, w);
    RollByIndex(s, (k + 1) * w, w);
  }

  lemma WeighsInFull(s: Window, now: int, w: int)
    requires w > 0 && s.start == now && s.current == 0
    ensures EstimateCount(s, now, w) == s.previous as real
  {
    EstimateInWindow(s, now, w);
    assert (now - s.start) as real / w as real == 0.0;
  }
}
