/** The reported quota: of further calls by the same attestor at the same instant exactly the
    first min(remaining, remainingGlobal) succeed, and exactly for which configurations that is
    so. */
module RateLimiterQuota {
  import opened Prelude
  import opened SlidingWindow
  import opened RequestLog
  import opened RateLimiterModel
  import opened RateLimiterRefinement
  import opened RateLimiterRetention
  import opened RateLimiterPruning
  import opened RateLimiterBounds
  import opened RateLimiterExactness

  // --- What a quota promises ---------------------------------------------------

  /** Number i of n further calls succeeds exactly if the quota reported by the last one says
      so. */
  ghost predicate QuotaTrue(cfg: Config, t0: int, ops: seq<Op>, id: string, now: int, n: nat, i: nat)
    requires ValidConfig(cfg) && i < n
  {
    var last := LastStatus(cfg, t0, ops, Call(id, now));
    var st := Run(cfg, InitialState(cfg, t0), ops + [Call(id, now)]);
    var later := Statuses(cfg, st, Repeat(id, now, n));
    && last.Some? && |later| == n && later[i].Some?
    && (later[i].value.allowed <==> i < Least(last.value.remaining, last.value.remainingGlobal))
  }

  lemma {:induction false} RepeatLength(id: string, now: int, n: nat)
    ensures |Repeat(id, now, n)| == n
  {
    if n == 0 {
    } else {
      RepeatLength(id, now, n - 1);
    }
  }

  // --- Counters that stay ------------------------------------------------------

  /** No sweep of a call at the instant of the last one drops its attestor. */
  predicate KeepsInstant(cfg: Config) {
    cfg.idleRetentionMs > 0 || cfg.pruneIntervalCalls <= 0
  }

  /** Both counters of `id` are rolled to `now`. */
  ghost predicate Settled(st: State, id: string, now: int, w: int)
    requires w > 0
  {
    && id in st.perAttestor && st.perAttestor[id].lastSeen == now && Rolled(st.perAttestor[id], w)
    && st.global.lastSeen == now && Rolled(st.global, w)
  }

  /** Requests a settled state leaves room for. */
  function Left(cfg: Config, st: State, id: string, now: int): int
    requires ValidConfig(cfg) && id in st.perAttestor
  {
    Least(Room(cfg.perAttestorLimit, EstimateCount(st.perAttestor[id], now, cfg.windowMs)),
          Room(cfg.globalLimit, EstimateCount(st.global, now, cfg.windowMs)))
  }

  /** A settled state decides on its own counters. */
  lemma SettledDecides(cfg: Config, st: State, id: string, now: int)
    requires ValidConfig(cfg) && KeepsInstant(cfg) && Settled(st, id, now, cfg.windowMs)
    ensures
      var (st', status) := Step(cfg, st, Call(id, now));
      && status == Some(Decide(cfg, st.perAttestor[id], st.global, now))
      && id in st'.perAttestor && st'.perAttestor[id] == Charge(st.perAttestor[id], status.value.allowed)
      && st'.global == Charge(st.global, status.value.allowed)
  {
    RollNow(st.perAttestor[id], cfg.windowMs);
    RollNow(st.global, cfg.windowMs);
  }

  /** A call on a settled state spends one unit of what is left, if there is any. */
  lemma SettledSpends(cfg: Config, st: State, id: string, now: int)
    requires ValidConfig(cfg) && KeepsInstant(cfg) && Settled(st, id, now, cfg.windowMs)
    ensures
      var (st', status) := Step(cfg, st, Call(id, now));
      var q := Left(cfg, st, id, now);
      && Settled(st', id, now, cfg.windowMs) && status.Some?
      && (status.value.allowed <==> q > 0)
      && Left(cfg, st', id, now) == (if q > 0 then q - 1 else q)
  {
    var w, a, g := cfg.windowMs, st.perAttestor[id], st.global;
    SettledDecides(cfg, st, id, now);
    DecideSpends(cfg, EstimateCount(a, now, w), EstimateCount(g, now, w), now);
    EstimateCharged(a, now, w);
    EstimateCharged(g, now, w);
  }

  lemma {:induction false} RepeatSpends(cfg: Config, st: State, id: string, now: int, n: nat, i: nat)
    requires ValidConfig(cfg) && KeepsInstant(cfg) && Settled(st, id, now, cfg.windowMs) && i < n
    ensures
      var r := Statuses(cfg, st, Repeat(id, now, n));
      |r| == n && r[i].Some? && (r[i].value.allowed <==> i < Left(cfg, st, id, now))
    decreases n
  {
    var st' := Step(cfg, st, Call(id, now)).0;
    RepeatLength(id, now, n);
    RepeatHead(cfg, st, id, now, n);
    SettledSpends(cfg, st, id, now);
    if i > 0 {
      RepeatSpends(cfg, st', id, now, n - 1, i - 1);
    }
  }

  lemma RepeatHead(cfg: Config, st: State, id: string, now: int, n: nat)
    requires ValidConfig(cfg) && n > 0
    ensures
      var (st', status) := Step(cfg, st, Call(id, now));
      Statuses(cfg, st, Repeat(id, now, n)) == [status] + Statuses(cfg, st', Repeat(id, now, n - 1))
  {
    assert Repeat(id, now, n)[1..] == Repeat(id, now, n - 1);
  }

  /** A status reports what the two counters have left once it is charged to them. */
  lemma DecideLeaves(cfg: Config, a: Window, g: Window, now: int)
    requires ValidConfig(cfg)
    ensures
      var status := Decide(cfg, a, g, now);
      && Room(cfg.perAttestorLimit, EstimateCount(Charge(a, status.allowed), now, cfg.windowMs)) == status.remaining
      && Room(cfg.globalLimit, EstimateCount(Charge(g, status.allowed), now, cfg.windowMs)) == status.remainingGlobal
  {
    EstimateCharged(a, now, cfg.windowMs);
    EstimateCharged(g, now, cfg.windowMs);
  }

  /** After any call the state is settled, with exactly what the status reports left. */
  lemma CallSettles(cfg: Config, st: State, log: seq<Entry>, t: int, id: string, now: int)
    requires ValidConfig(cfg) && Knows(cfg, st, log, t) && t <= now
    ensures
      var (st', status) := Step(cfg, st, Call(id, now));
      && Settled(st', id, now, cfg.windowMs) && status.Some?
      && Left(cfg, st', id, now) == Least(status.value.remaining, status.value.remainingGlobal)
  {
    CallKnows(cfg, st, log, t, id, now);
    CallCharges(cfg, st, log, t, id, now);
    DecideLeaves(cfg, Consulted(cfg, st, id, now), Exact(log, Everyone, now, cfg.windowMs), now);
  }

  lemma CallCharges(cfg: Config, st: State, log: seq<Entry>, t: int, id: string, now: int)
    requires ValidConfig(cfg) && Knows(cfg, st, log, t) && t <= now
    ensures
      var (st', status) := Step(cfg, st, Call(id, now));
      && status.Some? && id in st'.perAttestor
      && st'.perAttestor[id] == Charge(Consulted(cfg, st, id, now), status.value.allowed)
      && st'.global == Charge(Exact(log, Everyone, now, cfg.windowMs), status.value.allowed)
  {
    TickKnows(cfg, st, log, t, now);
    RollExact(log, Everyone, st.global.lastSeen, now, cfg.windowMs);
  }

  lemma QuotaKept(cfg: Config, t0: int, ops: seq<Op>, id: string, now: int, n: nat, i: nat)
    requires ValidConfig(cfg) && KeepsInstant(cfg) && Ordered(t0, ops + [Call(id, now)]) && i < n
    ensures QuotaTrue(cfg, t0, ops, id, now, n, i)
  {
    var st := Run(cfg, InitialState(cfg, t0), ops);
    OrderedSnoc(t0, ops, Call(id, now));
    RunSound(cfg, t0, ops);
    LastStatusIsStep(cfg, t0, ops, Call(id, now));
    RunSnoc(cfg, InitialState(cfg, t0), ops, Call(id, now));
    CallSettles(cfg, st, AcceptedInRun(cfg, t0, ops), Latest(t0, ops), id, now);
    RepeatSpends(cfg, Step(cfg, st, Call(id, now)).0, id, now, n, i);
  }

  // --- Quotas that only the global limit sets --------------------------------------

  /** The attestor's limit is never the tighter one, although counters are dropped at once:
      with a sweep at every call its counter is always new, else it never weighs more than the
      global one. */
  predicate GlobalTighter(cfg: Config) {
    if cfg.pruneIntervalCalls == 1 then cfg.perAttestorLimit.Floor == cfg.globalLimit.Floor
    else Cap(cfg.perAttestorLimit, cfg.windowMs) == Cap(cfg.globalLimit, cfg.windowMs)
  }

  /** m more requests fit exactly if they fit on whole numbers. */
  lemma RoomScaled(s: Window, limit: real, now: int, w: int, m: nat)
    requires w > 0 && s.start <= now < s.start + w && m > 0
    ensures Room(limit, EstimateCount(s, now, w)) >= m <==> Load(s, now, w) + m * w <= Cap(limit, w)
  {
    var s' := s.(current := s.current + (m - 1));
    FitsScaled(s', limit, now, w);
    EstimateMore(s, now, w, m - 1);
    assert (s.current + (m - 1)) * w + w == s.current * w + m * w;
    RoomAtLeast(limit, EstimateCount(s, now, w), m);
  }

  lemma EstimateMore(s: Window, now: int, w: int, m: nat)
    requires w > 0
    ensures EstimateCount(s.(current := s.current + m), now, w) == EstimateCount(s, now, w) + m as real
  {
  }

  lemma RoomAtLeast(limit: real, estimate: real, m: nat)
    requires m > 0
    ensures Room(limit, estimate) >= m <==> estimate + m as real <= limit
  {
    var x := limit - estimate;
    assert x.Floor as real <= x < x.Floor as real + 1.0;
  }

  lemma LoadBelow(s: Window, g: Window, now: int, w: int)
    requires w > 0 && s.start == g.start <= now < s.start + w && s.current <= g.current && s.previous <= g.previous
    ensures Load(s, now, w) <= Load(g, now, w)
  {
    NonNegativeProduct(g.previous - s.previous, w - (now - s.start));
    NonNegativeProduct(g.current - s.current, w);
    assert Load(g, now, w) - Load(s, now, w)
        == (g.previous - s.previous) * (w - (now - s.start)) + (g.current - s.current) * w;
  }

  lemma RoomBelow(s: Window, g: Window, now: int, w: int, own: real, global: real)
    requires w > 0 && s.start == g.start <= now < s.start + w && s.current <= g.current && s.previous <= g.previous
    requires Cap(own, w) == Cap(global, w)
    ensures Room(own, EstimateCount(s, now, w)) >= Room(global, EstimateCount(g, now, w))
  {
    var m := Room(global, EstimateCount(g, now, w));
    if m > 0 {
      LoadBelow(s, g, now, w);
      RoomScaled(g, global, now, w, m);
      RoomScaled(s, own, now, w, m);
    }
  }

  /** A counter of one attestor is within the exact global one. */
  lemma UnderEveryone(s: Window, log: seq<Entry>, id: string, now: int, w: int)
    requires w > 0 && s.lastSeen == now && Undercounts(s, log, Attestor(id), w)
    ensures
      var g := Exact(log, Everyone, now, w);
      s.start == g.start <= now < s.start + w && s.current <= g.current && s.previous <= g.previous
  {
    var k := Index(now, w);
    CountOfEveryone(log, id, k * w, (k + 1) * w);
    CountOfEveryone(log, id, (k - 1) * w, k * w);
  }

  /** With a sweep at every call and nothing retained, a call always finds a new counter. */
  lemma AlwaysNew(cfg: Config, st: State, log: seq<Entry>, t: int, id: string, now: int)
    requires ValidConfig(cfg) && Knows(cfg, st, log, t) && t <= now && cfg.idleRetentionMs <= 0
    requires cfg.pruneIntervalCalls > 0 && st.callsSincePrune + 1 >= cfg.pruneIntervalCalls
    ensures Consulted(cfg, st, id, now) == CreateState(now, cfg.windowMs)
  {
    assert Tick(cfg, st, now).perAttestor == map[];
    RollNow(CreateState(now, cfg.windowMs), cfg.windowMs);
  }

  lemma GlobalDecides(cfg: Config, st: State, log: seq<Entry>, t: int, id: string, now: int)
    requires ValidConfig(cfg) && Knows(cfg, st, log, t) && t <= now && cfg.perAttestorLimit >= 1.0
    requires cfg.idleRetentionMs <= 0 && cfg.pruneIntervalCalls > 0 && st.callsSincePrune >= 0 && GlobalTighter(cfg)
    ensures
      var a, g := Consulted(cfg, st, id, now), Exact(log, Everyone, now, cfg.windowMs);
      Room(cfg.perAttestorLimit, EstimateCount(a, now, cfg.windowMs))
      >= Room(cfg.globalLimit, EstimateCount(g, now, cfg.windowMs))
  {
    var w, a, g := cfg.windowMs, Consulted(cfg, st, id, now), Exact(log, Everyone, now, cfg.windowMs);
    if cfg.pruneIntervalCalls == 1 {
      AlwaysNew(cfg, st, log, t, id, now);
      FreshIsEmpty(now, w);
      EstimateNonNegative(g, now, w);
    } else {
      CallKnows(cfg, st, log, t, id, now);
      UnderEveryone(a, log, id, now, w);
      RoomBelow(a, g, now, w, cfg.perAttestorLimit, cfg.globalLimit);
    }
  }

  /** What the global limit leaves. */
  function GlobalLeft(cfg: Config, log: seq<Entry>, now: int): int
    requires ValidConfig(cfg)
  {
    Room(cfg.globalLimit, EstimateCount(Exact(log, Everyone, now, cfg.windowMs), now, cfg.windowMs))
  }

  /** On plain numbers: a decision in which the global limit is the tighter one. */
  lemma GlobalSpends(cfg: Config, ea: real, eg: real, now: int)
    requires ValidConfig(cfg) && Room(cfg.perAttestorLimit, ea) >= Room(cfg.globalLimit, eg)
    ensures
      var q, status := Room(cfg.globalLimit, eg), DecideOn(cfg, ea, eg, now);
      && (status.allowed <==> q > 0)
      && Least(status.remaining, status.remainingGlobal) == (if q > 0 then q - 1 else q)
      && (q > 0 ==> Room(cfg.globalLimit, eg + 1.0) == q - 1)
  {
    RoomSteps(cfg.perAttestorLimit, ea);
    RoomSteps(cfg.globalLimit, eg);
  }

  ghost predicate GlobalKnown(cfg: Config, st: State, log: seq<Entry>, t: int)
    requires ValidConfig(cfg)
  {
    Knows(cfg, st, log, t) && st.callsSincePrune >= 0
  }

  lemma GlobalCall(cfg: Config, st: State, log: seq<Entry>, t: int, id: string, now: int)
    requires ValidConfig(cfg) && GlobalKnown(cfg, st, log, t) && t <= now && cfg.perAttestorLimit >= 1.0
    requires cfg.idleRetentionMs <= 0 && cfg.pruneIntervalCalls > 0 && GlobalTighter(cfg)
    ensures
      var (st', status) := Step(cfg, st, Call(id, now));
      var q, log' := GlobalLeft(cfg, log, now), Grown(log, Call(id, now), status);
      && GlobalKnown(cfg, st', log', now) && status.Some?
      && (status.value.allowed <==> q > 0)
      && GlobalLeft(cfg, log', now) == (if q > 0 then q - 1 else q)
      && Least(status.value.remaining, status.value.remainingGlobal) == GlobalLeft(cfg, log', now)
  {
    var w, a, g := cfg.windowMs, Consulted(cfg, st, id, now), Exact(log, Everyone, now, cfg.windowMs);
    CallKnows(cfg, st, log, t, id, now);
    GlobalDecides(cfg, st, log, t, id, now);
    GlobalSpends(cfg, EstimateCount(a, now, w), EstimateCount(g, now, w), now);
    EstimateCharged(g, now, w);
    ExactAppend(log, id, now, Everyone, w);
  }

  /** Number i of n such calls. */
  ghost predicate SpendsGlobal(cfg: Config, st: State, log: seq<Entry>, id: string, now: int, n: nat, i: nat)
    requires ValidConfig(cfg) && i < n
  {
    var r := Statuses(cfg, st, Repeat(id, now, n));
    |r| == n && r[i].Some? && (r[i].value.allowed <==> i < GlobalLeft(cfg, log, now))
  }

  lemma GlobalHead(cfg: Config, st: State, log: seq<Entry>, t: int, id: string, now: int, n: nat, i: nat)
    requires ValidConfig(cfg) && GlobalKnown(cfg, st, log, t) && t <= now && cfg.perAttestorLimit >= 1.0
    requires cfg.idleRetentionMs <= 0 && cfg.pruneIntervalCalls > 0 && GlobalTighter(cfg) && i < n
    requires
      var (st', status) := Step(cfg, st, Call(id, now));
      i > 0 ==> SpendsGlobal(cfg, st', Grown(log, Call(id, now), status), id, now, n - 1, i - 1)
    ensures SpendsGlobal(cfg, st, log, id, now, n, i)
  {
    RepeatLength(id, now, n);
    RepeatHead(cfg, st, id, now, n);
    GlobalCall(cfg, st, log, t, id, now);
  }

  lemma {:induction false} RepeatGlobal(cfg: Config, st: State, log: seq<Entry>, t: int, id: string, now: int,
                                        n: nat, i: nat)
    requires ValidConfig(cfg) && GlobalKnown(cfg, st, log, t) && t <= now && cfg.perAttestorLimit >= 1.0
    requires cfg.idleRetentionMs <= 0 && cfg.pruneIntervalCalls > 0 && GlobalTighter(cfg) && i < n
    ensures SpendsGlobal(cfg, st, log, id, now, n, i)
    decreases n
  {
    var (st', status) := Step(cfg, st, Call(id, now));
    if i > 0 {
      GlobalCall(cfg, st, log, t, id, now);
      RepeatGlobal(cfg, st', Grown(log, Call(id, now), status), now, id, now, n - 1, i - 1);
    }
    GlobalHead(cfg, st, log, t, id, now, n, i);
  }

  lemma QuotaGlobal(cfg: Config, t0: int, ops: seq<Op>, id: string, now: int, n: nat, i: nat)
    requires ValidConfig(cfg) && Ordered(t0, ops + [Call(id, now)]) && i < n && cfg.perAttestorLimit >= 1.0
    requires cfg.idleRetentionMs <= 0 && cfg.pruneIntervalCalls > 0 && GlobalTighter(cfg)
    ensures QuotaTrue(cfg, t0, ops, id, now, n, i)
  {
    var st, log := Run(cfg, InitialState(cfg, t0), ops), AcceptedInRun(cfg, t0, ops);
    OrderedSnoc(t0, ops, Call(id, now));
    RunSound(cfg, t0, ops);
    CallsCounted(cfg, t0, ops);
    LastStatusIsStep(cfg, t0, ops, Call(id, now));
    RunSnoc(cfg, InitialState(cfg, t0), ops, Call(id, now));
    GlobalCall(cfg, st, log, Latest(t0, ops), id, now);
    var (st', status) := Step(cfg, st, Call(id, now));
    RepeatGlobal(cfg, st', Grown(log, Call(id, now), status), now, id, now, n, i);
  }

  // --- Limits below one --------------------------------------------------------------

  lemma {:induction false} RepeatDenied(cfg: Config, st: State, id: string, now: int, n: nat, i: nat)
    requires ValidConfig(cfg) && cfg.perAttestorLimit < 1.0 && i < n
    ensures
      var r := Statuses(cfg, st, Repeat(id, now, n));
      |r| == n && r[i].Some? && !r[i].value.allowed
    decreases n
  {
    RepeatLength(id, now, n);
    RepeatHead(cfg, st, id, now, n);
    CallDenied(cfg, st, id, now);
    if i > 0 {
      RepeatDenied(cfg, Step(cfg, st, Call(id, now)).0, id, now, n - 1, i - 1);
    }
  }

  lemma CallDenied(cfg: Config, st: State, id: string, now: int)
    requires ValidConfig(cfg) && cfg.perAttestorLimit < 1.0
    ensures
      var status := Step(cfg, st, Call(id, now)).1;
      status.Some? && !status.value.allowed && Least(status.value.remaining, status.value.remainingGlobal) == 0
  {
    var a := Consulted(cfg, st, id, now);
    EstimateNonNegative(a, now, cfg.windowMs);
    RoomAtLeast(cfg.perAttestorLimit, EstimateCount(a, now, cfg.windowMs), 1);
  }

  lemma QuotaDenied(cfg: Config, t0: int, ops: seq<Op>, id: string, now: int, n: nat, i: nat)
    requires ValidConfig(cfg) && cfg.perAttestorLimit < 1.0 && i < n
    ensures QuotaTrue(cfg, t0, ops, id, now, n, i)
  {
    var st := Run(cfg, InitialState(cfg, t0), ops);
    LastStatusIsStep(cfg, t0, ops, Call(id, now));
    RunSnoc(cfg, InitialState(cfg, t0), ops, Call(id, now));
    CallDenied(cfg, st, id, now);
    RepeatDenied(cfg, Step(cfg, st, Call(id, now)).0, id, now, n, i);
  }

  // --- Quotas that say too little ------------------------------------------------------

  /** The next call by `id` finds at most j requests on its counter. */
  ghost predicate Light(cfg: Config, st: State, id: string, now: int, j: nat)
    requires ValidConfig(cfg)
  {
    Consulted(cfg, st, id, now).previous == 0 && Consulted(cfg, st, id, now).current <= j
  }

  lemma LightCall(cfg: Config, st: State, log: seq<Entry>, t: int, id: string, now: int, j: nat)
    requires ValidConfig(cfg) && Knows(cfg, st, log, t) && t <= now && Light(cfg, st, id, now, j)
    requires (j + 1) as real <= cfg.perAttestorLimit && GlobalLeft(cfg, log, now) > 0
    ensures
      var (st', status) := Step(cfg, st, Call(id, now));
      var log' := log + [Entry(id, now)];
      && status.Some? && status.value.allowed && Knows(cfg, st', log', now)
      && GlobalLeft(cfg, log', now) == GlobalLeft(cfg, log, now) - 1
  {
    var w, a, g := cfg.windowMs, Consulted(cfg, st, id, now), Exact(log, Everyone, now, cfg.windowMs);
    CallKnows(cfg, st, log, t, id, now);
    EstimateWithout(a, now, w);
    RoomSteps(cfg.globalLimit, EstimateCount(g, now, w));
    EstimateCharged(g, now, w);
    ExactAppend(log, id, now, Everyone, w);
  }

  /** The call after it finds at most one request more. */
  lemma LightAfter(cfg: Config, st: State, log: seq<Entry>, t: int, id: string, now: int, j: nat)
    requires ValidConfig(cfg) && Knows(cfg, st, log, t) && t <= now && Light(cfg, st, id, now, j)
    ensures Light(cfg, Step(cfg, st, Call(id, now)).0, id, now, j + 1)
  {
    var w, st' := cfg.windowMs, Step(cfg, st, Call(id, now)).0;
    CallSettles(cfg, st, log, t, id, now);
    CallCharges(cfg, st, log, t, id, now);
    RollNow(st'.perAttestor[id], w);
    RollNow(CreateState(now, w), w);
  }

  /** With few requests on its counter, and room under the global limit, all m calls succeed. */
  lemma {:induction false} LightRepeat(cfg: Config, st: State, log: seq<Entry>, t: int, id: string, now: int,
                                       j: nat, m: nat)
    requires ValidConfig(cfg) && Knows(cfg, st, log, t) && t <= now && Light(cfg, st, id, now, j)
    requires m > 0 && (j + m) as real <= cfg.perAttestorLimit && GlobalLeft(cfg, log, now) >= m
    ensures
      var r := Statuses(cfg, st, Repeat(id, now, m));
      |r| == m && r[m - 1].Some? && r[m - 1].value.allowed
    decreases m
  {
    RepeatLength(id, now, m);
    RepeatHead(cfg, st, id, now, m);
    LightCall(cfg, st, log, t, id, now, j);
    if m > 1 {
      LightAfter(cfg, st, log, t, id, now, j);
      LightRepeat(cfg, Step(cfg, st, Call(id, now)).0, log + [Entry(id, now)], now, id, now, j + 1, m - 1);
    }
  }

  /** A quota of m - 1 that is not the last word: the next call sweeps, and m calls succeed. */
  lemma QuotaTooSmall(cfg: Config, t0: int, ops: seq<Op>, id: string, now: int, m: nat)
    requires ValidConfig(cfg) && Ordered(t0, ops + [Call(id, now)])
    requires cfg.idleRetentionMs <= 0 && cfg.pruneIntervalCalls > 0 && 0 < m <= cfg.perAttestorLimit.Floor
    requires
      var head := ops + [Call(id, now)];
      var last := LastStatus(cfg, t0, ops, Call(id, now));
      && Run(cfg, InitialState(cfg, t0), head).callsSincePrune + 1 >= cfg.pruneIntervalCalls
      && last.Some? && Least(last.value.remaining, last.value.remainingGlobal) == m - 1
      && GlobalLeft(cfg, AcceptedInRun(cfg, t0, head), now) >= m
    ensures !QuotaTrue(cfg, t0, ops, id, now, m, m - 1)
  {
    var head := ops + [Call(id, now)];
    var st, log := Run(cfg, InitialState(cfg, t0), head), AcceptedInRun(cfg, t0, head);
    RunSound(cfg, t0, head);
    OrderedSnoc(t0, ops, Call(id, now));
    AlwaysNew(cfg, st, log, now, id, now);
    LightRepeat(cfg, st, log, now, id, now, 0, m);
  }

  /** The status of a call whose two estimates are known, at the end of a run. */
  lemma LastDecides(cfg: Config, t0: int, ops: seq<Op>, id: string, now: int, a: Window)
    requires ValidConfig(cfg) && Ordered(t0, ops + [Call(id, now)])
    requires Consulted(cfg, Run(cfg, InitialState(cfg, t0), ops), id, now) == a
    ensures
      var log := AcceptedInRun(cfg, t0, ops);
      var last := LastStatus(cfg, t0, ops, Call(id, now));
      && last == Some(Decide(cfg, a, Exact(log, Everyone, now, cfg.windowMs), now))
      && AcceptedInRun(cfg, t0, ops + [Call(id, now)]) == Grown(log, Call(id, now), last)
  {
    OrderedSnoc(t0, ops, Call(id, now));
    RunSound(cfg, t0, ops);
    CallDecides(cfg, Run(cfg, InitialState(cfg, t0), ops), AcceptedInRun(cfg, t0, ops), Latest(t0, ops), id, now);
    LastStatusIsStep(cfg, t0, ops, Call(id, now));
    Extend(cfg, t0, ops, Call(id, now));
  }

  /** A sweep at every call: the first call's quota counts its own limit, but only the global
      one is ever used up. */
  lemma SweepAlwaysUnderstates(cfg: Config)
    requires ValidConfig(cfg) && cfg.idleRetentionMs <= 0 && cfg.pruneIntervalCalls == 1
    requires cfg.perAttestorLimit >= 1.0 && cfg.perAttestorLimit.Floor < cfg.globalLimit.Floor
    ensures !QuotaTrue(cfg, 0, [], Name(0), 0, cfg.perAttestorLimit.Floor, cfg.perAttestorLimit.Floor - 1)
  {
    var w, id := cfg.windowMs, Name(0);
    assert [] + [Call(id, 0)] == [Call(id, 0)] && Ordered(0, [Call(id, 0)]);
    assert AcceptedInRun(cfg, 0, []) == [] && Run(cfg, InitialState(cfg, 0), []) == InitialState(cfg, 0);
    RunSound(cfg, 0, []);
    AlwaysNew(cfg, InitialState(cfg, 0), [], 0, id, 0);
    LastDecides(cfg, 0, [], id, 0, CreateState(0, w));
    FirstCallLeaves(cfg, id, 0);
    CallsCounted(cfg, 0, [Call(id, 0)]);
    QuotaTooSmall(cfg, 0, [], id, 0, cfg.perAttestorLimit.Floor);
  }

  lemma FirstCallLeaves(cfg: Config, id: string, now: int)
    requires ValidConfig(cfg) && cfg.perAttestorLimit >= 1.0
    ensures
      var created, n, m := CreateState(now, cfg.windowMs), cfg.perAttestorLimit.Floor, cfg.globalLimit.Floor;
      var status := Decide(cfg, created, Exact([], Everyone, now, cfg.windowMs), now);
      && status.allowed && status.remaining == n - 1 && status.remainingGlobal == m - 1
      && GlobalLeft(cfg, [Entry(id, now)], now) == m - 1
  {
    NothingCounted(now, cfg.windowMs);
    FirstDecision(cfg, now);
    OneCounted(id, now, cfg.windowMs);
    RoomIs(cfg.globalLimit, 1.0, cfg.globalLimit.Floor - 1);
  }

  lemma NothingCounted(now: int, w: int)
    requires w > 0
    ensures Exact([], Everyone, now, w) == CreateState(now, w)
    ensures EstimateCount(CreateState(now, w), now, w) == 0.0
  {
    ForgottenIsFresh([], Everyone, now, w);
    FreshIsEmpty(now, w);
  }

  lemma OneCounted(id: string, now: int, w: int)
    requires w > 0
    ensures EstimateCount(Exact([Entry(id, now)], Everyone, now, w), now, w) == 1.0
  {
    NothingCounted(now, w);
    ExactAppend([], id, now, Everyone, w);
    assert [] + [Entry(id, now)] == [Entry(id, now)];
    EstimateCharged(CreateState(now, w), now, w);
  }

  lemma FirstDecision(cfg: Config, now: int)
    requires ValidConfig(cfg) && cfg.perAttestorLimit >= 1.0
    ensures
      var status := DecideOn(cfg, 0.0, 0.0, now);
      && status.allowed
      && status.remaining == cfg.perAttestorLimit.Floor - 1 && status.remainingGlobal == cfg.globalLimit.Floor - 1
  {
    RoomIs(cfg.perAttestorLimit, 0.0 + 1.0, cfg.perAttestorLimit.Floor - 1);
    RoomIs(cfg.globalLimit, 0.0 + 1.0, cfg.globalLimit.Floor - 1);
  }

  lemma RoomIs(limit: real, estimate: real, n: nat)
    requires estimate + n as real <= limit < estimate + (n + 1) as real
    ensures Room(limit, estimate) == n
  {
    FloorIs(limit - estimate, n);
  }

  lemma ModIs(x: int, k: int, q: int, r: int)
    requires x == q * k + r && 0 <= r < k
    ensures x % k == r
  {
    DivMod(x, k);
    assert (q + 1) * k == q * k + k;
    IndexUnique(x, k, q);
  }

  lemma {:induction false} BurstRuns(n: nat, t: int)
    ensures Ordered(t, Burst(false, n, t)) && Latest(t, Burst(false, n, t)) == t && Calls(Burst(false, n, t)) == n
    decreases n
  {
    if n == 0 {
    } else {
      BurstRuns(n - 1, t);
      OrderedAdd(t, Burst(false, n - 1, t), Call(Name(0), t));
      CallsSnoc(Burst(false, n - 1, t), Call(Name(0), t));
    }
  }

  lemma CallsSnoc(ops: seq<Op>, op: Op)
    ensures Calls(ops + [op]) == Calls(ops) + if op.Call? then 1 else 0
  {
    assert (ops + [op])[..|ops|] == ops;
  }

  /** Earlier calls, long decayed, that bring the sweep to two calls from now; and a sweep
      that drops their counter. */
  function LeadIn(k: int, w: int): seq<Op>
    requires k >= 2
  {
    Burst(false, 2 * k - 3, 0) + [Sweep(2 * w)]
  }

  lemma LeadInRuns(cfg: Config)
    requires ValidConfig(cfg) && cfg.idleRetentionMs <= 0 && cfg.pruneIntervalCalls >= 2
    ensures
      var w, k := cfg.windowMs, cfg.pruneIntervalCalls;
      var ops := LeadIn(k, w);
      && Ordered(0, ops) && Latest(0, ops) == 2 * w && Calls(ops) == 2 * k - 3
      && Run(cfg, InitialState(cfg, 0), ops).perAttestor == map[]
      && AllBy(AcceptedInRun(cfg, 0, ops), Everyone, 0)
  {
    var w, burst := cfg.windowMs, Burst(false, 2 * cfg.pruneIntervalCalls - 3, 0);
    BurstRuns(2 * cfg.pruneIntervalCalls - 3, 0);
    RunSound(cfg, 0, burst);
    ExtendSwept(cfg, 0, burst, 2 * w);
    CallsSnoc(burst, Sweep(2 * w));
  }

  /** The requests of the lead-in weigh nothing from 2 * windowMs on. */
  lemma LeadInDecayed(log: seq<Entry>, w: int)
    requires w > 0 && AllBy(log, Everyone, 0)
    ensures EstimateCount(Exact(log, Everyone, 2 * w, w), 2 * w, w) == 0.0
    ensures InWindow(log, Everyone, 2, w) == 0 && InWindow(log, Everyone, 3, w) == 0
  {
    IndexUnique(0, w, 0);
    IndexUnique(2 * w, w, 2);
    forall i | 0 <= i < |log| ensures Index(log[i].time, w) + 2 <= Index(2 * w, w) {
      IndexMonotone(log[i].time, 0, w);
    }
    ForgottenIsFresh(log, Everyone, 2 * w, w);
    FreshIsEmpty(2 * w, w);
    EmptyAfter(log, Everyone, 0, 2, w);
    EmptyAfter(log, Everyone, 0, 3, w);
  }

  /** One request at 2 * windowMs after the lead-in. */
  lemma OneRequest(cfg: Config, ops: seq<Op>)
    requires ValidConfig(cfg) && cfg.idleRetentionMs <= 0 && cfg.pruneIntervalCalls >= 2 && cfg.perAttestorLimit >= 1.0
    requires ops == LeadIn(cfg.pruneIntervalCalls, cfg.windowMs) + [Call(Name(0), 2 * cfg.windowMs)]
    ensures
      var w, log := cfg.windowMs, AcceptedInRun(cfg, 0, LeadIn(cfg.pruneIntervalCalls, cfg.windowMs));
      var st := Run(cfg, InitialState(cfg, 0), ops);
      && Ordered(0, ops) && Latest(0, ops) == 2 * w && Calls(ops) == 2 * cfg.pruneIntervalCalls - 2
      && AllBy(log, Everyone, 0) && AcceptedInRun(cfg, 0, ops) == log + [Entry(Name(0), 2 * w)]
      && Name(0) in st.perAttestor && st.perAttestor[Name(0)] == Window(2 * w, 1, 0, 2 * w)
  {
    var w, lead := cfg.windowMs, LeadIn(cfg.pruneIntervalCalls, cfg.windowMs);
    LeadInRuns(cfg);
    LeadInDecayed(AcceptedInRun(cfg, 0, lead), w);
    OrderedAdd(0, lead, Call(Name(0), 2 * w));
    CallsSnoc(lead, Call(Name(0), 2 * w));
    ExtendForgotten(cfg, 0, lead, Name(0), 2 * w);
    ForgottenCharged(cfg, lead, Name(0));
  }

  lemma ForgottenCharged(cfg: Config, ops: seq<Op>, id: string)
    requires ValidConfig(cfg) && cfg.perAttestorLimit >= 1.0 && Ordered(0, ops) && Latest(0, ops) == 2 * cfg.windowMs
    requires Run(cfg, InitialState(cfg, 0), ops).perAttestor == map[]
    requires
      var log, w := AcceptedInRun(cfg, 0, ops), cfg.windowMs;
      Fits(EstimateCount(Exact(log, Everyone, 2 * w, w), 2 * w, w), cfg.globalLimit)
    ensures
      var w, st := cfg.windowMs, Run(cfg, InitialState(cfg, 0), ops + [Call(id, 2 * cfg.windowMs)]);
      id in st.perAttestor && st.perAttestor[id] == Window(2 * w, 1, 0, 2 * w)
  {
    var w, st, log := cfg.windowMs, Run(cfg, InitialState(cfg, 0), ops), AcceptedInRun(cfg, 0, ops);
    RunSound(cfg, 0, ops);
    RunSnoc(cfg, InitialState(cfg, 0), ops, Call(id, 2 * w));
    ForgottenAdmitted(cfg, st, log, 2 * w, id, 2 * w);
    CallCharges(cfg, st, log, 2 * w, id, 2 * w);
    RollNow(CreateState(2 * w, w), w);
    IndexUnique(2 * w, w, 2);
    assert Consulted(cfg, st, id, 2 * w) == CreateState(2 * w, w);
  }

  /** The counters as a call at 4 * windowMs - x finds them. */
  lemma LateConsulted(cfg: Config, ops: seq<Op>, x: int)
    requires ValidConfig(cfg) && cfg.idleRetentionMs <= 0 && cfg.pruneIntervalCalls >= 2 && cfg.perAttestorLimit >= 1.0
    requires ops == LeadIn(cfg.pruneIntervalCalls, cfg.windowMs) + [Call(Name(0), 2 * cfg.windowMs)]
    requires 1 <= x <= cfg.windowMs
    ensures
      var w, t := cfg.windowMs, 4 * cfg.windowMs - x;
      && Consulted(cfg, Run(cfg, InitialState(cfg, 0), ops), Name(0), t) == Window(3 * w, 0, 1, t)
      && Exact(AcceptedInRun(cfg, 0, ops), Everyone, t, w) == Window(3 * w, 0, 1, t)
  {
    var w, k, t := cfg.windowMs, cfg.pruneIntervalCalls, 4 * cfg.windowMs - x;
    var log := AcceptedInRun(cfg, 0, LeadIn(k, w));
    OneRequest(cfg, ops);
    CallsCounted(cfg, 0, ops);
    ModIs(2 * k - 2, k, 1, k - 2);
    RollsOn(w, t);
    LeadInDecayed(log, w);
    CountAppend(log, Entry(Name(0), 2 * w), Everyone, 2 * w, 3 * w);
    CountAppend(log, Entry(Name(0), 2 * w), Everyone, 3 * w, 4 * w);
  }

  lemma RollsOn(w: int, t: int)
    requires w > 0 && 3 * w <= t < 4 * w
    ensures RollWindow(Window(2 * w, 1, 0, 2 * w), t, w) == Window(3 * w, 0, 1, t) && Index(t, w) == 3
  {
    IndexUnique(2 * w, w, 2);
    IndexUnique(t, w, 3);
    RollByIndex(Window(2 * w, 1, 0, 2 * w), t, w);
  }

  /** A load that one limit has no room for on top of n - 1 requests, but the other has. */
  lemma BetweenCaps(own: real, global: real, w: int, x: int)
    requires w > 0 && own >= 1.0 && Cap(own, w) < Cap(global, w) && x == Cap(own, w) + 1 - own.Floor * w
    ensures 1 <= x <= w
    ensures
      var d := EstimateCount(Window(3 * w, 0, 1, 4 * w - x), 4 * w - x, w);
      Room(own, d) == own.Floor - 1 && Room(global, d) >= own.Floor
  {
    var n := own.Floor;
    CapOfWhole(n, own, w);
    CapBelow(n + 1, own, w);
    OneMoreWindow(n, w);
    OneMoreWindow(n - 1, w);
    var s, t := Window(3 * w, 0, 1, 4 * w - x), 4 * w - x;
    assert Load(s, t, w) == x;
    RoomScaled(s, global, t, w, n);
    RoomScaled(s, own, t, w, n);
    if n > 1 {
      RoomScaled(s, own, t, w, n - 1);
    }
  }

  lemma CapBelow(n: int, limit: real, w: int)
    requires w > 0 && limit < n as real
    ensures Cap(limit, w) < n * w
  {
    WholeAsReal(n, w);
    ScaleStrictly(limit, n as real, w as real);
  }

  /** The last call before the sweep, at 4 * windowMs - x. */
  lemma LateLast(cfg: Config, ops: seq<Op>, x: int)
    requires ValidConfig(cfg) && cfg.idleRetentionMs <= 0 && cfg.pruneIntervalCalls >= 2 && cfg.perAttestorLimit >= 1.0
    requires ops == LeadIn(cfg.pruneIntervalCalls, cfg.windowMs) + [Call(Name(0), 2 * cfg.windowMs)]
    requires 1 <= x <= cfg.windowMs
    ensures
      var w, t := cfg.windowMs, 4 * cfg.windowMs - x;
      var head, s := ops + [Call(Name(0), t)], Window(3 * w, 0, 1, t);
      && Ordered(0, head)
      && Run(cfg, InitialState(cfg, 0), head).callsSincePrune + 1 >= cfg.pruneIntervalCalls
      && Exact(AcceptedInRun(cfg, 0, ops), Everyone, t, w) == s
      && LastStatus(cfg, 0, ops, Call(Name(0), t)) == Some(Decide(cfg, s, s, t))
      && AcceptedInRun(cfg, 0, head) == Grown(AcceptedInRun(cfg, 0, ops), Call(Name(0), t), Some(Decide(cfg, s, s, t)))
  {
    var last := Call(Name(0), 4 * cfg.windowMs - x);
    OneRequest(cfg, ops);
    LateConsulted(cfg, ops, x);
    OrderedAdd(0, ops, last);
    SweepDue(cfg, ops, last);
    LastDecides(cfg, 0, ops, Name(0), last.now, Window(3 * cfg.windowMs, 0, 1, last.now));
  }

  lemma SweepDue(cfg: Config, ops: seq<Op>, last: Op)
    requires ValidConfig(cfg) && cfg.pruneIntervalCalls >= 2
    requires last.Call? && Calls(ops) == 2 * cfg.pruneIntervalCalls - 2
    ensures Run(cfg, InitialState(cfg, 0), ops + [last]).callsSincePrune == cfg.pruneIntervalCalls - 1
  {
    var k := cfg.pruneIntervalCalls;
    CallsSnoc(ops, last);
    CallsCounted(cfg, 0, ops + [last]);
    ModIs(2 * k - 1, k, 1, k - 1);
  }

  /** A sweep every k >= 2 calls: one request, then a call that its decayed weight limits more
      tightly under the attestor's limit than under the global one, and then the sweep. */
  lemma SweepLaterUnderstates(cfg: Config) returns (ops: seq<Op>, now: int, m: nat)
    requires ValidConfig(cfg) && cfg.idleRetentionMs <= 0 && cfg.pruneIntervalCalls >= 2
    requires cfg.perAttestorLimit >= 1.0 && Cap(cfg.perAttestorLimit, cfg.windowMs) < Cap(cfg.globalLimit, cfg.windowMs)
    ensures m > 0 && Ordered(0, ops + [Call(Name(0), now)]) && !QuotaTrue(cfg, 0, ops, Name(0), now, m, m - 1)
  {
    var w, n := cfg.windowMs, cfg.perAttestorLimit.Floor;
    var x := Cap(cfg.perAttestorLimit, w) + 1 - n * w;
    BetweenCaps(cfg.perAttestorLimit, cfg.globalLimit, w, x);
    ops, now := LeadIn(cfg.pruneIntervalCalls, w) + [Call(Name(0), 2 * w)], 4 * w - x;
    m := if n >= 2 then n - 1 else 1;
    LateLast(cfg, ops, x);
    TightLast(cfg, AcceptedInRun(cfg, 0, ops), Window(3 * w, 0, 1, now), Name(0), now);
    QuotaTooSmall(cfg, 0, ops, Name(0), now, m);
  }

  /** What such a call reports, and what the global limit leaves after it. */
  lemma TightLast(cfg: Config, log: seq<Entry>, s: Window, id: string, now: int)
    requires ValidConfig(cfg) && Exact(log, Everyone, now, cfg.windowMs) == s
    requires
      var d, n := EstimateCount(s, now, cfg.windowMs), cfg.perAttestorLimit.Floor;
      n >= 1 && Room(cfg.perAttestorLimit, d) == n - 1 && Room(cfg.globalLimit, d) >= n
    ensures
      var n, status := cfg.perAttestorLimit.Floor, Decide(cfg, s, s, now);
      var m := if n >= 2 then n - 1 else 1;
      && Least(status.remaining, status.remainingGlobal) == m - 1
      && GlobalLeft(cfg, Grown(log, Call(id, now), Some(status)), now) >= m
  {
    var d, w := EstimateCount(s, now, cfg.windowMs), cfg.windowMs;
    DecideSpends(cfg, d, d, now);
    RoomSteps(cfg.globalLimit, d);
    EstimateCharged(s, now, w);
    ExactAppend(log, id, now, Everyone, w);
  }

  // --- Exactly when ---------------------------------------------------------------------

  /** Whatever happened before, the quota reported by a call is the number of calls that
      succeed after it at the same instant. */
  ghost predicate QuotasTrue(cfg: Config)
    requires ValidConfig(cfg)
  {
    forall t0: int, ops: seq<Op>, id: string, now: int, n: nat, i: nat ::
      Ordered(t0, ops + [Call(id, now)]) && i < n ==> QuotaTrue(cfg, t0, ops, id, now, n, i)
  }

  /** Quota exactness, for every configuration: reported quotas are true if and only if no
      sweep can drop a counter at the instant it is used, or nothing is ever admitted, or the
      global limit is always the tighter one. The default retention is of the first kind. */
  lemma QuotaExactIff(cfg: Config)
    requires ValidConfig(cfg)
    ensures QuotasTrue(cfg) <==> KeepsInstant(cfg) || cfg.perAttestorLimit < 1.0 || GlobalTighter(cfg)
  {
    if KeepsInstant(cfg) || cfg.perAttestorLimit < 1.0 || GlobalTighter(cfg) {
      forall t0: int, ops: seq<Op>, id: string, now: int, n: nat, i: nat | Ordered(t0, ops + [Call(id, now)]) && i < n
        ensures QuotaTrue(cfg, t0, ops, id, now, n, i)
      {
        QuotaExact(cfg, t0, ops, id, now, n, i);
      }
    } else {
      SomeQuotaFalse(cfg);
    }
  }

  lemma QuotaExact(cfg: Config, t0: int, ops: seq<Op>, id: string, now: int, n: nat, i: nat)
    requires ValidConfig(cfg) && (KeepsInstant(cfg) || cfg.perAttestorLimit < 1.0 || GlobalTighter(cfg))
    requires Ordered(t0, ops + [Call(id, now)]) && i < n
    ensures QuotaTrue(cfg, t0, ops, id, now, n, i)
  {
    if KeepsInstant(cfg) {
      QuotaKept(cfg, t0, ops, id, now, n, i);
    } else if cfg.perAttestorLimit < 1.0 {
      QuotaDenied(cfg, t0, ops, id, now, n, i);
    } else {
      QuotaGlobal(cfg, t0, ops, id, now, n, i);
    }
  }

  lemma SomeQuotaFalse(cfg: Config)
    requires ValidConfig(cfg) && !KeepsInstant(cfg) && cfg.perAttestorLimit >= 1.0 && !GlobalTighter(cfg)
    ensures !QuotasTrue(cfg)
  {
    if cfg.pruneIntervalCalls == 1 {
      SweepAlwaysUnderstates(cfg);
      assert Ordered(0, [] + [Call(Name(0), 0)]);
    } else {
      CapMonotone(cfg.perAttestorLimit, cfg.globalLimit, cfg.windowMs);
      var ops, now, m := SweepLaterUnderstates(cfg);
    }
  }
}
