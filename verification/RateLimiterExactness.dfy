/** Two promises of the limiter that do not hold for every configuration, each with the
    exact configurations under which it does. */
module RateLimiterExactness {
  import opened Prelude
  import opened SlidingWindow
  import opened RequestLog
  import opened RateLimiterModel
  import opened RateLimiterRefinement
  import opened RateLimiterRetention
  import opened RateLimiterPruning
  import opened RateLimiterBounds

  // --- "Never more than the limit in any windowMs" --------------------------

  ghost predicate TrailingWithin(cfg: Config, t0: int, ops: seq<Op>, scope: Scope, t: int)
    requires ValidConfig(cfg)
  {
    Count(AcceptedInRun(cfg, t0, ops), scope, t - cfg.windowMs + 1, t + 1) as real <= Limit(cfg, scope)
  }

  /** No attestor ever gets more than its limit into a stretch of length windowMs. */
  ghost predicate CapsAttestors(cfg: Config)
    requires ValidConfig(cfg)
  {
    forall t0: int, ops: seq<Op>, id: string, t: int ::
      Ordered(t0, ops) ==> TrailingWithin(cfg, t0, ops, Attestor(id), t)
  }

  /** All attestors together never get more than the global limit into one. */
  ghost predicate CapsGlobally(cfg: Config)
    requires ValidConfig(cfg)
  {
    forall t0: int, ops: seq<Op>, t: int :: Ordered(t0, ops) ==> TrailingWithin(cfg, t0, ops, Everyone, t)
  }

  /** n requests in the last instant of a window leave no room under `limit` for one more in
      the last instant less than windowMs later. */
  predicate LeavesNoRoom(n: int, limit: real, w: int) {
    n * Least(2, w) + w > Cap(limit, w)
  }

  // Capping ..................................................................

  lemma CapSum(a: nat, p: nat, n: nat, w: int)
    requires w >= 2 && p <= n && p * 2 + a * w < n * 2 + w
    ensures a + p <= n
  {
    NonNegativeProduct(n - p, w - 2);
    assert (n - p) * (w - 2) == (n - p) * w - (n - p) * 2;
    assert (n + 1 - p) * w == (n - p) * w + w;
    Scaled(n + 1 - p, a, w);
  }

  /** On plain numbers: b of p earlier requests and a later ones cannot exceed n when the
      earlier ones lie after offset e. */
  lemma CapArithmetic(a: nat, b: nat, p: nat, e: int, n: nat, w: int, cap: int)
    requires 0 <= e < w && b <= p <= n && a <= n
    requires a > 0 && b > 0 ==> p * (w - e) + a * w <= cap
    requires b > 0 ==> e <= w - 2
    requires n * Least(2, w) + w > cap
    ensures a + b <= n
  {
    if a > 0 && b > 0 {
      assert Least(2, w) == 2;
      NonNegativeProduct(p, w - e - 2);
      assert p * (w - e) == p * 2 + p * (w - e - 2);
      CapSum(a, p, n, w);
    }
  }

  lemma PartsWithin(limit: real, log: seq<Entry>, scope: Scope, t: int, w: int)
    requires w > 0 && limit > 0.0 && InParts(limit, log, scope, t, w) && LeavesNoRoom(limit.Floor, limit, w)
    ensures Count(log, scope, t - w + 1, t + 1) <= limit.Floor
  {
    var k := Index(t, w);
    CapArithmetic(Count(log, scope, k * w, t + 1), Count(log, scope, t - w + 1, k * w),
                  InWindow(log, scope, k - 1, w), t - k * w, limit.Floor, w, Cap(limit, w));
  }

  lemma VettedWithin(limit: real, log: seq<Entry>, scope: Scope, t: int, w: int)
    requires w > 0 && limit > 0.0 && Vetted(limit, log, scope, w) && LeavesNoRoom(limit.Floor, limit, w)
    ensures Count(log, scope, t - w + 1, t + 1) <= limit.Floor
  {
    TrailingParts(limit, log, scope, t, w);
    PartsWithin(limit, log, scope, t, w);
  }

  lemma CapsEnforced(cfg: Config, t0: int, ops: seq<Op>, scope: Scope, t: int)
    requires ValidConfig(cfg) && Ordered(t0, ops) && Enforced(cfg, scope)
    requires LeavesNoRoom(Limit(cfg, scope).Floor, Limit(cfg, scope), cfg.windowMs)
    ensures Count(AcceptedInRun(cfg, t0, ops), scope, t - cfg.windowMs + 1, t + 1) <= Limit(cfg, scope).Floor
  {
    var log, limit := AcceptedInRun(cfg, t0, ops), Limit(cfg, scope);
    assert Vetted(limit, log, scope, cfg.windowMs) by { VettedInRun(cfg, t0, ops, scope); }
    VettedWithin(limit, log, scope, t, cfg.windowMs);
  }

  lemma {:induction false} CountOfEveryone(log: seq<Entry>, id: string, lo: int, hi: int)
    ensures Count(log, Attestor(id), lo, hi) <= Count(log, Everyone, lo, hi)
  {
    if log == [] {
    } else {
      CountOfEveryone(log[..|log| - 1], id, lo, hi);
    }
  }

  /** If a full attestor leaves the whole limiter no room, both limits allow as many. */
  lemma SameFloor(cfg: Config)
    requires ValidConfig(cfg) && LeavesNoRoom(cfg.perAttestorLimit.Floor, cfg.globalLimit, cfg.windowMs)
    ensures cfg.globalLimit.Floor == cfg.perAttestorLimit.Floor
  {
    CapOfWhole(cfg.globalLimit.Floor, cfg.globalLimit, cfg.windowMs);
    NoneBetween(cfg.perAttestorLimit.Floor, cfg.globalLimit.Floor, cfg.windowMs, Cap(cfg.globalLimit, cfg.windowMs));
  }

  lemma NoneBetween(n: nat, m: nat, w: int, cap: int)
    requires w > 0 && n <= m && m * w <= cap < n * Least(2, w) + w
    ensures m == n
  {
    NonNegativeProduct(n, w - Least(2, w));
    assert n * Least(2, w) == n * w - n * (w - Least(2, w));
    OneMoreWindow(n, w);
    Scaled(n + 1, m, w);
  }

  lemma CapOfWhole(n: int, limit: real, w: int)
    requires w > 0 && n as real <= limit
    ensures n * w <= Cap(limit, w)
  {
    WholeAsReal(n, w);
    MulMonotone(w as real, n as real, limit);
  }

  /** The limit that holds an attestor back: its own, or, with a retention so short that its
      counter can be dropped within a window, only the global one. */
  function EffectiveLimit(cfg: Config): real {
    if KeepsWindow(cfg) then cfg.perAttestorLimit else cfg.globalLimit
  }

  lemma NothingAdmitted(cfg: Config, t0: int, ops: seq<Op>)
    requires ValidConfig(cfg) && cfg.perAttestorLimit < 1.0 && Ordered(t0, ops)
    ensures AcceptedInRun(cfg, t0, ops) == []
  {
    RunSound(cfg, t0, ops);
  }

  lemma AttestorCapped(cfg: Config, t0: int, ops: seq<Op>, id: string, t: int)
    requires ValidConfig(cfg) && Ordered(t0, ops)
    requires cfg.perAttestorLimit < 1.0 || LeavesNoRoom(cfg.perAttestorLimit.Floor, EffectiveLimit(cfg), cfg.windowMs)
    ensures TrailingWithin(cfg, t0, ops, Attestor(id), t)
  {
    if cfg.perAttestorLimit < 1.0 {
      NothingAdmitted(cfg, t0, ops);
    } else if KeepsWindow(cfg) {
      CapsEnforced(cfg, t0, ops, Attestor(id), t);
    } else {
      SameFloor(cfg);
      CapsEnforced(cfg, t0, ops, Everyone, t);
      CountOfEveryone(AcceptedInRun(cfg, t0, ops), id, t - cfg.windowMs + 1, t + 1);
    }
  }

  lemma EveryoneCapped(cfg: Config, t0: int, ops: seq<Op>, t: int)
    requires ValidConfig(cfg) && Ordered(t0, ops)
    requires cfg.perAttestorLimit < 1.0 || LeavesNoRoom(cfg.globalLimit.Floor, cfg.globalLimit, cfg.windowMs)
    ensures TrailingWithin(cfg, t0, ops, Everyone, t)
  {
    if cfg.perAttestorLimit < 1.0 {
      NothingAdmitted(cfg, t0, ops);
    } else {
      CapsEnforced(cfg, t0, ops, Everyone, t);
    }
  }

  // Breaking .................................................................

  /** The attestors of a burst: one name, or a new name each time. */
  function Name(i: nat): (s: string)
    ensures |s| == i
  {
    if i == 0 then "" else Name(i - 1) + "a"
  }

  function Caller(distinct: bool, i: nat): string {
    if distinct then Name(i) else Name(0)
  }

  function Burst(distinct: bool, n: nat, t: int): seq<Op> {
    if n == 0 then [] else Burst(distinct, n - 1, t) + [Call(Caller(distinct, n - 1), t)]
  }

  function BurstLog(distinct: bool, n: nat, t: int): (log: seq<Entry>)
    ensures |log| == n
    ensures forall i :: 0 <= i < n ==> log[i] == Entry(Caller(distinct, i), t)
  {
    if n == 0 then [] else BurstLog(distinct, n - 1, t) + [Entry(Caller(distinct, n - 1), t)]
  }

  /** The scope whose limit a burst runs into. */
  function BurstScope(distinct: bool): Scope {
    if distinct then Everyone else Attestor(Name(0))
  }

  function BurstLimit(cfg: Config, distinct: bool): real {
    Limit(cfg, BurstScope(distinct))
  }

  lemma {:induction false} CountAll(log: seq<Entry>, scope: Scope, t: int, lo: int, hi: int)
    requires forall i :: 0 <= i < |log| ==> log[i].time == t && Covers(scope, log[i])
    ensures Count(log, scope, lo, hi) == if lo <= t < hi then |log| else 0
  {
    if log == [] {
    } else {
      CountAll(log[..|log| - 1], scope, t, lo, hi);
    }
  }

  /** A call that the full log would admit, at the end of a run. */
  lemma ExtendAdmitted(cfg: Config, t0: int, ops: seq<Op>, id: string, now: int)
    requires ValidConfig(cfg) && Ordered(t0, ops) && Latest(t0, ops) <= now
    requires LogDecide(cfg, AcceptedInRun(cfg, t0, ops), id, now).allowed
    ensures Ordered(t0, ops + [Call(id, now)]) && Latest(t0, ops + [Call(id, now)]) == now
    ensures AcceptedInRun(cfg, t0, ops + [Call(id, now)]) == AcceptedInRun(cfg, t0, ops) + [Entry(id, now)]
  {
    OrderedAdd(t0, ops, Call(id, now));
    RunSound(cfg, t0, ops);
    AdmitsAtLeast(cfg, Run(cfg, InitialState(cfg, t0), ops), AcceptedInRun(cfg, t0, ops), Latest(t0, ops), id, now);
    Extend(cfg, t0, ops, Call(id, now));
  }

  /** How much a burst at the end of window 0 weighs at `now`. */
  lemma BurstLoad(log: seq<Entry>, scope: Scope, now: int, w: int)
    requires w > 0 && (now == w - 1 || now == 2 * w - 2)
    requires forall i :: 0 <= i < |log| ==> log[i].time == w - 1 && Covers(scope, log[i])
    ensures Load(Exact(log, scope, now, w), now, w) == |log| * if now == w - 1 then w else Least(2, w)
  {
    var k := if now < w then 0 else 1;
    IndexUnique(now, w, k);
    CountAll(log, scope, w - 1, k * w, (k + 1) * w);
    CountAll(log, scope, w - 1, (k - 1) * w, k * w);
  }

  lemma BurstFits(log: seq<Entry>, scope: Scope, now: int, w: int, limit: real)
    requires w > 0 && (now == w - 1 || now == 2 * w - 2)
    requires forall i :: 0 <= i < |log| ==> log[i].time == w - 1 && Covers(scope, log[i])
    requires |log| * (if now == w - 1 then w else Least(2, w)) + w <= Cap(limit, w)
    ensures Fits(EstimateCount(Exact(log, scope, now, w), now, w), limit)
  {
    BurstLoad(log, scope, now, w);
    FitsScaled(Exact(log, scope, now, w), limit, now, w);
  }

  /** An attestor not in the log fits any limit of at least one. */
  lemma StrangerFits(log: seq<Entry>, id: string, now: int, w: int, limit: real)
    requires w > 0 && limit >= 1.0 && forall i :: 0 <= i < |log| ==> log[i].id != id
    ensures Fits(EstimateCount(Exact(log, Attestor(id), now, w), now, w), limit)
  {
    ForgottenIsFresh(log, Attestor(id), now, w);
    FreshIsEmpty(now, w);
  }

  lemma CapMonotone(a: real, b: real, w: int)
    requires w > 0 && a <= b
    ensures Cap(a, w) <= Cap(b, w)
  {
    MulMonotone(w as real, a, b);
  }

  /** The next caller of a burst is admitted by the full log. */
  lemma BurstGoesOn(cfg: Config, distinct: bool, n: nat, now: int)
    requires ValidConfig(cfg) && cfg.perAttestorLimit >= 1.0
    requires now == cfg.windowMs - 1 || now == 2 * cfg.windowMs - 2
    requires
      var w := cfg.windowMs;
      n * (if now == w - 1 then w else Least(2, w)) + w <= Cap(BurstLimit(cfg, distinct), w)
    ensures LogDecide(cfg, BurstLog(distinct, n, cfg.windowMs - 1), Caller(distinct, n), now).allowed
  {
    var w, log, id := cfg.windowMs, BurstLog(distinct, n, cfg.windowMs - 1), Caller(distinct, n);
    CapMonotone(cfg.perAttestorLimit, cfg.globalLimit, w);
    BurstFits(log, Everyone, now, w, cfg.globalLimit);
    if distinct {
      StrangerFits(log, id, now, w, cfg.perAttestorLimit);
    } else {
      BurstFits(log, Attestor(id), now, w, cfg.perAttestorLimit);
    }
    BothFit(cfg, log, id, now);
  }

  lemma StillRoom(n: nat, limit: real, w: int)
    requires w > 0 && n < limit.Floor
    ensures n * w + w <= Cap(limit, w)
  {
    CapOfWhole(n + 1, limit, w);
    assert (n + 1) * w == n * w + w;
  }

  lemma BurstStep(cfg: Config, distinct: bool, ops: seq<Op>, n: nat)
    requires ValidConfig(cfg) && cfg.perAttestorLimit >= 1.0 && n < BurstLimit(cfg, distinct).Floor
    requires
      var t := cfg.windowMs - 1;
      Ordered(t, ops) && Latest(t, ops) == t && AcceptedInRun(cfg, t, ops) == BurstLog(distinct, n, t)
    ensures
      var t, ops' := cfg.windowMs - 1, ops + [Call(Caller(distinct, n), cfg.windowMs - 1)];
      Ordered(t, ops') && Latest(t, ops') == t && AcceptedInRun(cfg, t, ops') == BurstLog(distinct, n + 1, t)
  {
    StillRoom(n, BurstLimit(cfg, distinct), cfg.windowMs);
    BurstGoesOn(cfg, distinct, n, cfg.windowMs - 1);
    ExtendAdmitted(cfg, cfg.windowMs - 1, ops, Caller(distinct, n), cfg.windowMs - 1);
  }

  /** A limiter admits bursts up to the limit, whatever its retention. */
  lemma {:induction false} BurstFills(cfg: Config, distinct: bool, n: nat)
    requires ValidConfig(cfg) && cfg.perAttestorLimit >= 1.0 && n <= BurstLimit(cfg, distinct).Floor
    ensures
      var t := cfg.windowMs - 1;
      var ops := Burst(distinct, n, t);
      Ordered(t, ops) && Latest(t, ops) == t && AcceptedInRun(cfg, t, ops) == BurstLog(distinct, n, t)
    decreases n
  {
    if n == 0 {
    } else {
      BurstFills(cfg, distinct, n - 1);
      BurstStep(cfg, distinct, Burst(distinct, n - 1, cfg.windowMs - 1), n - 1);
    }
  }

  /** A burst and one more request, in one stretch of length windowMs. */
  lemma BurstCounts(log: seq<Entry>, e: Entry, scope: Scope, w: int)
    requires w > 0 && e.time == 2 * w - 2 && Covers(scope, e)
    requires forall i :: 0 <= i < |log| ==> log[i].time == w - 1 && Covers(scope, log[i])
    ensures Count(log + [e], scope, e.time - w + 1, e.time + 1) == |log| + 1
  {
    CountAll(log, scope, w - 1, e.time - w + 1, e.time + 1);
    CountAppend(log, e, scope, e.time - w + 1, e.time + 1);
  }

  /** This run puts more than its limit into the stretch that ends at 2 * windowMs - 2. */
  ghost predicate Overflows(cfg: Config, scope: Scope, ops: seq<Op>)
    requires ValidConfig(cfg)
  {
    Ordered(cfg.windowMs - 1, ops) && !TrailingWithin(cfg, cfg.windowMs - 1, ops, scope, 2 * cfg.windowMs - 2)
  }

  lemma BurstCovered(distinct: bool, n: nat, t: int)
    ensures forall i :: 0 <= i < n ==> Covers(BurstScope(distinct), BurstLog(distinct, n, t)[i])
    ensures Covers(BurstScope(distinct), Entry(Caller(distinct, n), t))
  {
  }

  /** In the log of such a run the stretch that ends with the late request is over the limit. */
  lemma OverTheLimit(log: seq<Entry>, burst: seq<Entry>, e: Entry, scope: Scope, w: int, limit: real)
    requires w > 0 && e.time == 2 * w - 2 && Covers(scope, e) && |burst| == limit.Floor && log == burst + [e]
    requires forall i :: 0 <= i < |burst| ==> burst[i].time == w - 1 && Covers(scope, burst[i])
    ensures Count(log, scope, e.time - w + 1, e.time + 1) as real > limit
  {
    BurstCounts(burst, e, scope, w);
  }

  lemma NotWithin(cfg: Config, t0: int, ops: seq<Op>, scope: Scope, t: int, log: seq<Entry>)
    requires ValidConfig(cfg) && AcceptedInRun(cfg, t0, ops) == log
    requires Count(log, scope, t - cfg.windowMs + 1, t + 1) as real > Limit(cfg, scope)
    ensures !TrailingWithin(cfg, t0, ops, scope, t)
  {
  }

  lemma LogOverflows(cfg: Config, scope: Scope, ops: seq<Op>, burst: seq<Entry>, e: Entry)
    requires ValidConfig(cfg) && e.time == 2 * cfg.windowMs - 2 && Covers(scope, e)
    requires |burst| == Limit(cfg, scope).Floor
    requires forall i :: 0 <= i < |burst| ==> burst[i].time == cfg.windowMs - 1 && Covers(scope, burst[i])
    requires Ordered(cfg.windowMs - 1, ops) && AcceptedInRun(cfg, cfg.windowMs - 1, ops) == burst + [e]
    ensures Overflows(cfg, scope, ops)
  {
    OverTheLimit(burst + [e], burst, e, scope, cfg.windowMs, Limit(cfg, scope));
    NotWithin(cfg, cfg.windowMs - 1, ops, scope, e.time, burst + [e]);
  }

  lemma BurstOverflows(cfg: Config, distinct: bool, ops: seq<Op>, n: nat)
    requires ValidConfig(cfg) && n == BurstLimit(cfg, distinct).Floor && Ordered(cfg.windowMs - 1, ops)
    requires AcceptedInRun(cfg, cfg.windowMs - 1, ops)
          == BurstLog(distinct, n, cfg.windowMs - 1) + [Entry(Caller(distinct, n), 2 * cfg.windowMs - 2)]
    ensures Overflows(cfg, BurstScope(distinct), ops)
  {
    BurstCovered(distinct, n, cfg.windowMs - 1);
    LogOverflows(cfg, BurstScope(distinct), ops, BurstLog(distinct, n, cfg.windowMs - 1),
                 Entry(Caller(distinct, n), 2 * cfg.windowMs - 2));
  }

  lemma OverflowBreaks(cfg: Config, distinct: bool, ops: seq<Op>)
    requires ValidConfig(cfg) && Overflows(cfg, BurstScope(distinct), ops)
    ensures distinct ==> !CapsGlobally(cfg)
    ensures !distinct ==> !CapsAttestors(cfg)
  {
  }

  /** A full burst and one more request late in the next window, admitted by the full log. */
  lemma LateRun(cfg: Config, distinct: bool, n: nat) returns (ops: seq<Op>)
    requires ValidConfig(cfg) && cfg.perAttestorLimit >= 1.0 && n == BurstLimit(cfg, distinct).Floor
    requires !LeavesNoRoom(n, BurstLimit(cfg, distinct), cfg.windowMs)
    ensures Ordered(cfg.windowMs - 1, ops)
    ensures AcceptedInRun(cfg, cfg.windowMs - 1, ops)
         == BurstLog(distinct, n, cfg.windowMs - 1) + [Entry(Caller(distinct, n), 2 * cfg.windowMs - 2)]
  {
    var burst := Burst(distinct, n, cfg.windowMs - 1);
    BurstFills(cfg, distinct, n);
    LateFits(cfg, distinct, n);
    ExtendAdmitted(cfg, cfg.windowMs - 1, burst, Caller(distinct, n), 2 * cfg.windowMs - 2);
    ops := burst + [Call(Caller(distinct, n), 2 * cfg.windowMs - 2)];
  }

  lemma LateOverflows(cfg: Config, distinct: bool) returns (ops: seq<Op>)
    requires ValidConfig(cfg) && cfg.perAttestorLimit >= 1.0
    requires !LeavesNoRoom(BurstLimit(cfg, distinct).Floor, BurstLimit(cfg, distinct), cfg.windowMs)
    ensures Overflows(cfg, BurstScope(distinct), ops)
  {
    var n := BurstLimit(cfg, distinct).Floor;
    ops := LateRun(cfg, distinct, n);
    BurstOverflows(cfg, distinct, ops, n);
  }

  lemma LateFits(cfg: Config, distinct: bool, n: nat)
    requires ValidConfig(cfg) && cfg.perAttestorLimit >= 1.0 && n <= BurstLimit(cfg, distinct).Floor
    requires n * Least(2, cfg.windowMs) + cfg.windowMs <= Cap(BurstLimit(cfg, distinct), cfg.windowMs)
    ensures LogDecide(cfg, BurstLog(distinct, n, cfg.windowMs - 1), Caller(distinct, n), 2 * cfg.windowMs - 2).allowed
  {
    if cfg.windowMs == 1 {
      assert Least(2, 1) == 1;
    }
    BurstGoesOn(cfg, distinct, n, 2 * cfg.windowMs - 2);
  }

  /** Whoever is not tracked is admitted if the limiter as a whole has room. */
  lemma ForgottenAdmitted(cfg: Config, st: State, log: seq<Entry>, t: int, id: string, now: int)
    requires ValidConfig(cfg) && cfg.perAttestorLimit >= 1.0 && Knows(cfg, st, log, t) && t <= now
    requires id !in st.perAttestor
    requires Fits(EstimateCount(Exact(log, Everyone, now, cfg.windowMs), now, cfg.windowMs), cfg.globalLimit)
    ensures Step(cfg, st, Call(id, now)).1.Some? && Step(cfg, st, Call(id, now)).1.value.allowed
  {
    var w := cfg.windowMs;
    CallKnows(cfg, st, log, t, id, now);
    assert id !in Tick(cfg, st, now).perAttestor;
    RollIsRolled(CreateState(now, w), now, w);
    RollByIndex(CreateState(now, w), now, w);
    FreshIsEmpty(now, w);
  }

  /** A sweep at the end of a run, after which nobody seen long enough before is tracked. */
  lemma ExtendSwept(cfg: Config, t0: int, ops: seq<Op>, now: int)
    requires ValidConfig(cfg) && Ordered(t0, ops) && Latest(t0, ops) + Most(0, cfg.idleRetentionMs) <= now
    ensures Ordered(t0, ops + [Sweep(now)]) && Latest(t0, ops + [Sweep(now)]) == now
    ensures AcceptedInRun(cfg, t0, ops + [Sweep(now)]) == AcceptedInRun(cfg, t0, ops)
    ensures Run(cfg, InitialState(cfg, t0), ops + [Sweep(now)]).perAttestor == map[]
  {
    OrderedAdd(t0, ops, Sweep(now));
    RunSound(cfg, t0, ops);
    Extend(cfg, t0, ops, Sweep(now));
  }

  /** A full burst, a sweep that forgets it, and one more request within a window. */
  lemma SweepRun(cfg: Config, n: nat) returns (ops: seq<Op>)
    requires ValidConfig(cfg) && cfg.perAttestorLimit >= 1.0 && !KeepsWindow(cfg) && n == cfg.perAttestorLimit.Floor
    requires !LeavesNoRoom(n, cfg.globalLimit, cfg.windowMs)
    ensures Ordered(cfg.windowMs - 1, ops)
    ensures AcceptedInRun(cfg, cfg.windowMs - 1, ops)
         == BurstLog(false, n, cfg.windowMs - 1) + [Entry(Name(0), 2 * cfg.windowMs - 2)]
  {
    var burst := Burst(false, n, cfg.windowMs - 1);
    BurstFills(cfg, false, n);
    LateBurstFits(BurstLog(false, n, cfg.windowMs - 1), cfg.windowMs, cfg.globalLimit);
    SweptCall(cfg, burst, BurstLog(false, n, cfg.windowMs - 1));
    ops := burst + [Sweep(2 * cfg.windowMs - 2)] + [Call(Name(0), 2 * cfg.windowMs - 2)];
  }

  lemma SweptCall(cfg: Config, ops: seq<Op>, log: seq<Entry>)
    requires ValidConfig(cfg) && cfg.perAttestorLimit >= 1.0 && !KeepsWindow(cfg)
    requires
      var t, now, w := cfg.windowMs - 1, 2 * cfg.windowMs - 2, cfg.windowMs;
      && Ordered(t, ops) && Latest(t, ops) == t && AcceptedInRun(cfg, t, ops) == log
      && Fits(EstimateCount(Exact(log, Everyone, now, w), now, w), cfg.globalLimit)
    ensures
      var t, now := cfg.windowMs - 1, 2 * cfg.windowMs - 2;
      var swept := ops + [Sweep(now)];
      && Ordered(t, swept + [Call(Name(0), now)])
      && AcceptedInRun(cfg, t, swept + [Call(Name(0), now)]) == log + [Entry(Name(0), now)]
  {
    var t, now := cfg.windowMs - 1, 2 * cfg.windowMs - 2;
    ExtendSwept(cfg, t, ops, now);
    ExtendForgotten(cfg, t, ops + [Sweep(now)], Name(0), now);
  }

  lemma SweepOverflows(cfg: Config) returns (ops: seq<Op>)
    requires ValidConfig(cfg) && cfg.perAttestorLimit >= 1.0 && !KeepsWindow(cfg)
    requires !LeavesNoRoom(cfg.perAttestorLimit.Floor, cfg.globalLimit, cfg.windowMs)
    ensures Overflows(cfg, BurstScope(false), ops)
  {
    var n := cfg.perAttestorLimit.Floor;
    ops := SweepRun(cfg, n);
    BurstOverflows(cfg, false, ops, n);
  }

  /** A call at the end of a run that has forgotten everybody. */
  lemma ExtendForgotten(cfg: Config, t0: int, ops: seq<Op>, id: string, now: int)
    requires ValidConfig(cfg) && cfg.perAttestorLimit >= 1.0 && Ordered(t0, ops) && Latest(t0, ops) <= now
    requires Run(cfg, InitialState(cfg, t0), ops).perAttestor == map[]
    requires
      var log, w := AcceptedInRun(cfg, t0, ops), cfg.windowMs;
      Fits(EstimateCount(Exact(log, Everyone, now, w), now, w), cfg.globalLimit)
    ensures Ordered(t0, ops + [Call(id, now)])
    ensures AcceptedInRun(cfg, t0, ops + [Call(id, now)]) == AcceptedInRun(cfg, t0, ops) + [Entry(id, now)]
  {
    OrderedAdd(t0, ops, Call(id, now));
    RunSound(cfg, t0, ops);
    ForgottenAdmitted(cfg, Run(cfg, InitialState(cfg, t0), ops), AcceptedInRun(cfg, t0, ops), Latest(t0, ops), id, now);
    Extend(cfg, t0, ops, Call(id, now));
  }

  lemma LateBurstFits(log: seq<Entry>, w: int, limit: real)
    requires w > 0 && |log| * Least(2, w) + w <= Cap(limit, w)
    requires forall i :: 0 <= i < |log| ==> log[i].time == w - 1
    ensures Fits(EstimateCount(Exact(log, Everyone, 2 * w - 2, w), 2 * w - 2, w), limit)
  {
    if w == 1 {
      assert Least(2, 1) == 1;
    }
    BurstFits(log, Everyone, 2 * w - 2, w, limit);
  }

  /** Exactly when no stretch of windowMs ever holds more than the limit, for every
      configuration the constructor accepts: a limiter that admits anything at all keeps a
      scope within its limit if and only if a full burst leaves no room within a window. An
      attestor is held back by its own limit if its counter is kept for a window, else by the
      global one. In general only the burst bound holds. */
  lemma CapsTrailingIff(cfg: Config)
    requires ValidConfig(cfg)
    ensures CapsAttestors(cfg) <==>
      cfg.perAttestorLimit < 1.0 || LeavesNoRoom(cfg.perAttestorLimit.Floor, EffectiveLimit(cfg), cfg.windowMs)
    ensures CapsGlobally(cfg) <==>
      cfg.perAttestorLimit < 1.0 || LeavesNoRoom(cfg.globalLimit.Floor, cfg.globalLimit, cfg.windowMs)
  {
    AttestorsIff(cfg);
    EveryoneIff(cfg);
  }

  lemma AttestorsIff(cfg: Config)
    requires ValidConfig(cfg)
    ensures CapsAttestors(cfg) <==>
      cfg.perAttestorLimit < 1.0 || LeavesNoRoom(cfg.perAttestorLimit.Floor, EffectiveLimit(cfg), cfg.windowMs)
  {
    if cfg.perAttestorLimit < 1.0 || LeavesNoRoom(cfg.perAttestorLimit.Floor, EffectiveLimit(cfg), cfg.windowMs) {
      forall t0: int, ops: seq<Op>, id: string, t: int | Ordered(t0, ops)
        ensures TrailingWithin(cfg, t0, ops, Attestor(id), t)
      {
        AttestorCapped(cfg, t0, ops, id, t);
      }
    } else if KeepsWindow(cfg) {
      var ops := LateOverflows(cfg, false);
      OverflowBreaks(cfg, false, ops);
    } else {
      var ops := SweepOverflows(cfg);
      OverflowBreaks(cfg, false, ops);
    }
  }

  lemma EveryoneIff(cfg: Config)
    requires ValidConfig(cfg)
    ensures CapsGlobally(cfg) <==>
      cfg.perAttestorLimit < 1.0 || LeavesNoRoom(cfg.globalLimit.Floor, cfg.globalLimit, cfg.windowMs)
  {
    if cfg.perAttestorLimit < 1.0 || LeavesNoRoom(cfg.globalLimit.Floor, cfg.globalLimit, cfg.windowMs) {
      forall t0: int, ops: seq<Op>, t: int | Ordered(t0, ops)
        ensures TrailingWithin(cfg, t0, ops, Everyone, t)
      {
        EveryoneCapped(cfg, t0, ops, t);
      }
    } else {
      var ops := LateOverflows(cfg, true);
      OverflowBreaks(cfg, true, ops);
    }
  }

  // --- "Pruning is safe" ----------------------------------------------------

  /** Dropping the marked sweeps and denied calls of this run changes no other status. */
  ghost predicate Agrees(cfg: Config, interval: int, t0: int, ops: seq<Op>, keep: seq<bool>)
    requires ValidConfig(cfg) && |ops| == |keep|
  {
    var c := cfg.(pruneIntervalCalls := interval);
    var all := Statuses(c, InitialState(c, t0), ops);
    DropsOnlyInvisible(ops, all, keep) ==> Statuses(c, InitialState(c, t0), Kept(ops, keep)) == Kept(all, keep)
  }

  /** However often the limiter prunes by itself, sweeps and denied calls cannot be seen. */
  ghost predicate PruningInvisible(cfg: Config)
    requires ValidConfig(cfg)
  {
    forall interval: int, t0: int, ops: seq<Op>, keep: seq<bool> ::
      |ops| == |keep| && Ordered(t0, ops) ==> Agrees(cfg, interval, t0, ops, keep)
  }

  /** State after i requests of attestor "a" at time 0. */
  function Filled(i: nat): State {
    State(if i == 0 then map[] else map["a" := Window(0, i, 0, 0)], Window(0, i, 0, 0), 0)
  }

  lemma FillStep(cfg: Config, n: nat, i: nat)
    requires ValidConfig(cfg) && cfg.pruneIntervalCalls == 0 && n == cfg.perAttestorLimit.Floor && i < n
    ensures Step(cfg, Filled(i), Call("a", 0)).0 == Filled(i + 1)
  {
    var w, s := cfg.windowMs, Window(0, i, 0, 0);
    IndexUnique(0, w, 0);
    RollByIndex(s, 0, w);
    EstimateInWindow(s, 0, w);
    assert CreateState(0, w) == Window(0, 0, 0, 0);
    RollByIndex(CreateState(0, w), 0, w);
  }

  lemma RepeatRuns(cfg: Config, st: State, id: string, now: int, n: nat)
    requires ValidConfig(cfg) && n > 0
    ensures Run(cfg, st, Repeat(id, now, n)) == Run(cfg, Step(cfg, st, Call(id, now)).0, Repeat(id, now, n - 1))
  {
    assert Repeat(id, now, n)[1..] == Repeat(id, now, n - 1);
  }

  lemma {:induction false} Fill(cfg: Config, n: nat, i: nat, j: nat)
    requires ValidConfig(cfg) && cfg.pruneIntervalCalls == 0 && n == cfg.perAttestorLimit.Floor && i + j <= n
    ensures Run(cfg, Filled(i), Repeat("a", 0, j)) == Filled(i + j)
    decreases j
  {
    if j == 0 {
    } else {
      FillStep(cfg, n, i);
      RepeatRuns(cfg, Filled(i), "a", 0, j);
      Fill(cfg, n, i + 1, j - 1);
    }
  }

  /** A status tells a forgotten counter from one that weighs more than the limit has beyond
      a whole number. */
  lemma StatusShowsLoad(cfg: Config, n: nat, ea: real, eg: real, now: int)
    requires ValidConfig(cfg) && n == cfg.perAttestorLimit.Floor && n >= 1 && ea > cfg.perAttestorLimit - n as real
    ensures DecideOn(cfg, ea, eg, now) != DecideOn(cfg, 0.0, eg, now)
  {
    var L := cfg.perAttestorLimit;
    FloorIs(L - 0.0, n);
    FloorIs(L - (0.0 + 1.0), n - 1);
    var x, y := L - ea, L - (ea + 1.0);
    assert x.Floor as real <= x && y.Floor as real <= y;
    assert L - (0.0 + 0.0) == L && L - (ea + 0.0) == x;
  }

  /** The first time after a burst at 0 at which the sweep can show. */
  function ShowTime(cfg: Config): int {
    Most(cfg.windowMs, cfg.idleRetentionMs)
  }

  /** A harmful retention forgets, within two windows, more than the limit has to spare. */
  lemma ForgetsMore(n: nat, w: int, retention: int, frac: real)
    requires w > 0 && 0.0 <= frac < 1.0 && (n * (2 * w - retention)) as real > frac * w as real
    ensures n >= 1 && retention < 2 * w && (n * (2 * w - Most(w, retention))) as real > frac * w as real
  {
    MulMonotone(w as real, 0.0, frac);
    assert n * (2 * w - retention) > 0;
    SignOfProduct(n, 2 * w - retention);
    if retention <= w {
      assert 2 * w - Most(w, retention) == w;
      ScaleStrictly(frac, 1.0, w as real);
      ProductGrows(n, w);
    } else {
      assert Most(w, retention) == retention;
    }
  }

  lemma StillWeighs(cfg: Config, n: nat)
    requires ValidConfig(cfg) && n == cfg.perAttestorLimit.Floor && !PrunesHarmlessly(cfg)
    ensures
      var w, t := cfg.windowMs, ShowTime(cfg);
      n >= 1 && w <= t < 2 * w
      && EstimateCount(Window(w, 0, n, t), t, w) > cfg.perAttestorLimit - n as real
  {
    ForgetsMore(n, cfg.windowMs, cfg.idleRetentionMs, cfg.perAttestorLimit - n as real);
    WeighsMore(n, ShowTime(cfg), cfg.windowMs, cfg.perAttestorLimit - n as real);
  }

  lemma WeighsMore(n: nat, t: int, w: int, frac: real)
    requires w > 0 && w <= t < 2 * w && (n * (2 * w - t)) as real > frac * w as real
    ensures EstimateCount(Window(w, 0, n, t), t, w) > frac
  {
    EstimateInWindow(Window(w, 0, n, t), t, w);
    ScaledWeight(n, t - w, w);
    assert w - (t - w) == 2 * w - t;
    CancelStrictly(frac, n as real * (1.0 - (t - w) as real / w as real), w as real);
  }

  lemma SignOfProduct(n: nat, x: int)
    ensures x <= 0 ==> n * x <= 0
  {
  }

  lemma ScaleStrictly(a: real, b: real, w: real)
    requires w > 0.0 && a < b
    ensures a * w < b * w
  {
  }

  /** The last status of the two runs that differ only in one sweep. */
  lemma SweptOrNot(cfg: Config, n: nat)
    requires ValidConfig(cfg) && cfg.pruneIntervalCalls == 0 && n == cfg.perAttestorLimit.Floor
    requires !PrunesHarmlessly(cfg)
    ensures
      var t := ShowTime(cfg);
      var swept := Step(cfg, Filled(n), Sweep(t)).0;
      Step(cfg, swept, Call("a", t)).1 != Step(cfg, Filled(n), Call("a", t)).1
  {
    var w, t, s := cfg.windowMs, ShowTime(cfg), Window(0, n, 0, 0);
    var created := CreateState(t, w);
    StillWeighs(cfg, n);
    IndexUnique(t, w, 1);
    IndexUnique(0, w, 0);
    IndexUnique(w, w, 1);
    RollByIndex(s, t, w);
    RollByIndex(created, t, w);
    assert Step(cfg, Filled(n), Sweep(t)).0 == State(map[], s, 0);
    var a := Window(w, 0, n, t);
    assert RollWindow(s, t, w) == a && RollWindow(created, t, w) == created;
    FreshIsEmpty(t, w);
    StatusShowsLoad(cfg, n, EstimateCount(a, t, w), EstimateCount(a, t, w), t);
  }

  lemma {:induction false} KeptConcat<T>(a: seq<T>, ka: seq<bool>, b: seq<T>, kb: seq<bool>)
    requires |a| == |ka| && |b| == |kb|
    ensures Kept(a + b, ka + kb) == Kept(a, ka) + Kept(b, kb)
    decreases |a|
  {
    if a == [] {
      assert a + b == b && ka + kb == kb;
    } else {
      KeptConcat(a[1..], ka[1..], b, kb);
      var head := if ka[0] then [a[0]] else [];
      assert (a + b)[0] == a[0] && (ka + kb)[0] == ka[0];
      assert (a + b)[1..] == a[1..] + b && (ka + kb)[1..] == ka[1..] + kb;
      assert Kept(a + b, ka + kb) == head + (Kept(a[1..], ka[1..]) + Kept(b, kb));
      assert Kept(a, ka) == head + Kept(a[1..], ka[1..]);
    }
  }

  lemma {:induction false} KeptAll<T>(a: seq<T>, ka: seq<bool>)
    requires |a| == |ka| && forall i :: 0 <= i < |ka| ==> ka[i]
    ensures Kept(a, ka) == a
    decreases |a|
  {
    if a == [] {
    } else {
      KeptAll(a[1..], ka[1..]);
    }
  }

  lemma KeptDropFirst<T>(x: T, y: T)
    ensures Kept([x, y], [false, true]) == [y]
  {
    assert [x, y][1..] == [y] && [false, true][1..] == [true];
    KeptAll([y], [true]);
  }

  /** Dropping the one sweep from the operations, and from their results. */
  lemma SweepDropped<T>(base: seq<T>, x: T, y: T, yes: seq<bool>)
    requires |yes| == |base| && forall i :: 0 <= i < |yes| ==> yes[i]
    ensures Kept(base + [x, y], yes + [false, true]) == base + [y]
  {
    KeptConcat(base, yes, [x, y], [false, true]);
    KeptAll(base, yes);
    KeptDropFirst(x, y);
  }

  /** The statuses of the two runs of `SweptOrNot`, from the start. */
  lemma SweptRuns(c: Config, n: nat, t: int)
    requires ValidConfig(c) && c.pruneIntervalCalls == 0 && n == c.perAttestorLimit.Floor
    ensures
      var base := Repeat("a", 0, n);
      var first := Statuses(c, Filled(0), base);
      && Statuses(c, Filled(0), base + [Sweep(t), Call("a", t)])
         == first + [None, Step(c, Step(c, Filled(n), Sweep(t)).0, Call("a", t)).1]
      && Statuses(c, Filled(0), base + [Call("a", t)]) == first + [Step(c, Filled(n), Call("a", t)).1]
  {
    Fill(c, n, 0, n);
    assert 0 + n == n;
    LateStatuses(c, Repeat("a", 0, n), Filled(0), Filled(n), t);
  }

  /** A sweep and a call, or the call alone, at the end of a run. */
  lemma LateStatuses(c: Config, base: seq<Op>, from: State, st: State, t: int)
    requires ValidConfig(c) && Run(c, from, base) == st
    ensures Statuses(c, from, base + [Sweep(t), Call("a", t)])
         == Statuses(c, from, base) + [None, Step(c, Step(c, st, Sweep(t)).0, Call("a", t)).1]
    ensures Statuses(c, from, base + [Call("a", t)]) == Statuses(c, from, base) + [Step(c, st, Call("a", t)).1]
  {
    RunConcat(c, from, base, [Sweep(t), Call("a", t)]);
    RunConcat(c, from, base, [Call("a", t)]);
    SweepThenCall(c, st, t, "a");
  }

  lemma SweepShows(cfg: Config, n: nat)
    requires ValidConfig(cfg) && n == cfg.perAttestorLimit.Floor && !PrunesHarmlessly(cfg)
    ensures !PruningInvisible(cfg)
  {
    var c := cfg.(pruneIntervalCalls := 0);
    var t := ShowTime(cfg);
    var base := Repeat("a", 0, n);
    var ops := base + [Sweep(t), Call("a", t)];
    var yes := seq(|base|, _ => true);
    RepeatThenTwo(n, t);
    SweepSeen(c, n, yes);
    StartsEmpty(c);
    assert !Agrees(cfg, 0, 0, ops, yes + [false, true]);
  }

  lemma StartsEmpty(c: Config)
    requires ValidConfig(c)
    ensures InitialState(c, 0) == Filled(0)
  {
    IndexUnique(0, c.windowMs, 0);
  }

  lemma LastDiffers(first: seq<Option<Status>>, a: Option<Status>, b: Option<Status>)
    requires a != b
    ensures first + [a] != first + [b]
  {
    assert (first + [a])[|first|] != (first + [b])[|first|];
  }

  lemma SweepSeen(c: Config, n: nat, yes: seq<bool>)
    requires ValidConfig(c) && c.pruneIntervalCalls == 0 && n == c.perAttestorLimit.Floor && !PrunesHarmlessly(c)
    requires |yes| == |Repeat("a", 0, n)| && forall i :: 0 <= i < |yes| ==> yes[i]
    ensures
      var t := ShowTime(c);
      var ops, keep := Repeat("a", 0, n) + [Sweep(t), Call("a", t)], yes + [false, true];
      var all := Statuses(c, Filled(0), ops);
      && DropsOnlyInvisible(ops, all, keep)
      && Statuses(c, Filled(0), Kept(ops, keep)) != Kept(all, keep)
  {
    var t, base := ShowTime(c), Repeat("a", 0, n);
    var first := Statuses(c, Filled(0), base);
    var late := Step(c, Step(c, Filled(n), Sweep(t)).0, Call("a", t)).1;
    SweptRuns(c, n, t);
    SweptOrNot(c, n);
    SweepDropped(base, Sweep(t), Call("a", t), yes);
    SweepDropped(first, None, late, yes);
    LastDiffers(first, late, Step(c, Filled(n), Call("a", t)).1);
  }

  lemma SweepThenCall(cfg: Config, st: State, t: int, id: string)
    requires ValidConfig(cfg)
    ensures Statuses(cfg, st, [Sweep(t), Call(id, t)])
         == [None, Step(cfg, Step(cfg, st, Sweep(t)).0, Call(id, t)).1]
    ensures Statuses(cfg, st, [Call(id, t)]) == [Step(cfg, st, Call(id, t)).1]
  {
    assert [Sweep(t), Call(id, t)][1..] == [Call(id, t)];
  }

  lemma {:induction false} RepeatThenTwo(n: nat, t: int)
    requires t >= 0
    ensures Ordered(0, Repeat("a", 0, n) + [Sweep(t), Call("a", t)])
    decreases n
  {
    var extra := [Sweep(t), Call("a", t)];
    if n == 0 {
      assert Repeat("a", 0, n) + extra == extra && extra[1..] == [Call("a", t)];
    } else {
      RepeatThenTwo(n - 1, t);
      assert (Repeat("a", 0, n) + extra)[1..] == Repeat("a", 0, n - 1) + extra;
    }
  }

  lemma HarmlessAgrees(cfg: Config, interval: int, t0: int, ops: seq<Op>, keep: seq<bool>)
    requires ValidConfig(cfg) && PrunesHarmlessly(cfg) && |ops| == |keep| && Ordered(t0, ops)
    ensures Agrees(cfg, interval, t0, ops, keep)
  {
    var c := cfg.(pruneIntervalCalls := interval);
    if DropsOnlyInvisible(ops, Statuses(c, InitialState(c, t0), ops), keep) {
      Invisible(c, c, t0, ops, keep);
    }
  }

  /** For every configuration: pruning is invisible exactly when the most that a forgotten
      window can still weigh, floor(L) * (2 * windowMs - idleRetentionMs) / windowMs, is within
      what the limit L has beyond a whole number. For a whole limit that is a retention of two
      windows; the constructor accepts any. */
  lemma PruningInvisibleIff(cfg: Config)
    requires ValidConfig(cfg)
    ensures PruningInvisible(cfg) <==> PrunesHarmlessly(cfg)
  {
    if PrunesHarmlessly(cfg) {
      forall interval: int, t0: int, ops: seq<Op>, keep: seq<bool> | |ops| == |keep| && Ordered(t0, ops)
        ensures Agrees(cfg, interval, t0, ops, keep)
      {
        HarmlessAgrees(cfg, interval, t0, ops, keep);
      }
    } else {
      SweepShows(cfg, cfg.perAttestorLimit.Floor);
    }
  }
}
