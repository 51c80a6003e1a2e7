/** Whether a request that would be admitted stays admissible while nothing else is admitted:
    exactly for which configurations it does, whatever the limiter's own pruning does to the
    counters in between. */
module RateLimiterAdmissibility {
  import opened Prelude
  import opened SlidingWindow
  import opened RequestLog
  import opened RateLimiterModel
  import opened RateLimiterRefinement
  import opened RateLimiterRetention
  import opened RateLimiterPruning
  import opened RateLimiterBounds
  import opened RateLimiterExactness
  import opened RateLimiterQuota

  // --- What idling does to a counter -----------------------------------------------

  /** What `id` is charged with in st' is what it is charged with in st, rolled on, or nothing. */
  ghost predicate NoHeavier(st: State, st': State, id: string, w: int)
    requires w > 0
  {
    id in st'.perAttestor ==>
      var s' := st'.perAttestor[id];
      && Rolled(s', w)
      && ((s'.current == 0 && s'.previous == 0)
          || (id in st.perAttestor && Rolled(st.perAttestor[id], w) && st.perAttestor[id].lastSeen <= s'.lastSeen
              && s' == RollWindow(st.perAttestor[id], s'.lastSeen, w)))
  }

  /** An operation that admits nothing makes nobody heavier. */
  lemma IdleStep(cfg: Config, st: State, st': State, op: Op, id: string)
    requires ValidConfig(cfg) && NoHeavier(st, st', id, cfg.windowMs)
    requires id in st'.perAttestor ==> st'.perAttestor[id].lastSeen <= op.now
    requires var status := Step(cfg, st', op).1; status.Some? ==> !status.value.allowed
    ensures NoHeavier(st, Step(cfg, st', op).0, id, cfg.windowMs)
  {
    var w := cfg.windowMs;
    if op.Call? && op.id == id {
      if id in st'.perAttestor {
        var s' := st'.perAttestor[id];
        RollIsRolled(s', op.now, w);
        if s'.current == 0 && s'.previous == 0 {
          RollEmpty(s', op.now, w);
        } else {
          RollCompose(st.perAttestor[id], s'.lastSeen, op.now, w);
        }
      } else {
        RollIsRolled(CreateState(op.now, w), op.now, w);
        RollEmpty(CreateState(op.now, w), op.now, w);
      }
    }
  }

  /** Nothing in `ops` is admitted. */
  ghost predicate AdmitsNothing(ops: seq<Op>, statuses: seq<Option<Status>>) {
    |ops| == |statuses| && forall i :: 0 <= i < |ops| && statuses[i].Some? ==> !statuses[i].value.allowed
  }

  lemma {:induction false} IdleRun(cfg: Config, st: State, st': State, log: seq<Entry>, t: int,
                                   ops: seq<Op>, id: string)
    requires ValidConfig(cfg) && NoHeavier(st, st', id, cfg.windowMs)
    requires Knows(cfg, st', log, t) && Ordered(t, ops) && AdmitsNothing(ops, Statuses(cfg, st', ops))
    ensures NoHeavier(st, Run(cfg, st', ops), id, cfg.windowMs)
    decreases |ops|
  {
    if ops == [] {
    } else {
      var (next, status) := Step(cfg, st', ops[0]);
      var all := Statuses(cfg, st', ops);
      assert all[0] == status && all[1..] == Statuses(cfg, next, ops[1..]);
      StepKnows(cfg, st', log, t, ops[0]);
      IdleStep(cfg, st, st', ops[0], id);
      IdleRun(cfg, st, next, Grown(log, ops[0], status), ops[0].now, ops[1..], id);
    }
  }

  lemma StartsNoHeavier(cfg: Config, st: State, log: seq<Entry>, t: int, id: string)
    requires ValidConfig(cfg) && Knows(cfg, st, log, t)
    ensures NoHeavier(st, st, id, cfg.windowMs)
  {
    if id in st.perAttestor {
      RollNow(st.perAttestor[id], cfg.windowMs);
    }
  }

  lemma {:induction false} OrderedRest(t: int, a: seq<Op>, b: seq<Op>)
    requires Ordered(t, a + b)
    ensures Ordered(t, a) && Ordered(Latest(t, a), b)
    decreases |a|
  {
    if a == [] {
      assert a + b == b;
    } else {
      assert (a + b)[1..] == a[1..] + b;
      OrderedRest(a[0].now, a[1..], b);
    }
  }

  /** If the accepted requests are the same with `idle` at the end, it admits nothing. */
  lemma IdleAdmitsNothing(cfg: Config, t0: int, ops: seq<Op>, idle: seq<Op>)
    requires ValidConfig(cfg) && AcceptedInRun(cfg, t0, ops + idle) == AcceptedInRun(cfg, t0, ops)
    ensures AdmitsNothing(idle, Statuses(cfg, Run(cfg, InitialState(cfg, t0), ops), idle))
  {
    var from := InitialState(cfg, t0);
    var late := Statuses(cfg, Run(cfg, from, ops), idle);
    RunConcat(cfg, from, ops, idle);
    AcceptedConcat(ops, Statuses(cfg, from, ops), idle, late);
    assert Accepted(idle, late) == [];
    OnlySweepsAreSilent(cfg, Run(cfg, from, ops), idle);
    NoneAccepted(idle, late);
  }

  lemma TailOfConcat<T>(a: seq<T>, b: seq<T>)
    requires a != []
    ensures (a + b)[0] == a[0] && (a + b)[1..] == a[1..] + b
  {
  }

  lemma {:induction false} AcceptedConcat(a: seq<Op>, ra: seq<Option<Status>>, b: seq<Op>, rb: seq<Option<Status>>)
    requires |a| == |ra| && |b| == |rb|
    ensures |Accepted(a + b, ra + rb)| == |Accepted(a, ra)| + |Accepted(b, rb)|
    decreases |a|
  {
    if a == [] {
      assert a + b == b && ra + rb == rb;
    } else {
      AcceptedConcat(a[1..], ra[1..], b, rb);
      TailOfConcat(a, b);
      TailOfConcat(ra, rb);
    }
  }

  lemma {:induction false} OnlySweepsAreSilent(cfg: Config, st: State, ops: seq<Op>)
    requires ValidConfig(cfg)
    ensures forall i :: 0 <= i < |ops| && Statuses(cfg, st, ops)[i].Some? ==> ops[i].Call?
    decreases |ops|
  {
    if ops == [] {
    } else {
      OnlySweepsAreSilent(cfg, Step(cfg, st, ops[0]).0, ops[1..]);
      var all := Statuses(cfg, st, ops);
      forall i | 0 <= i < |ops| && all[i].Some? ensures ops[i].Call? {
        if i > 0 {
          assert all[i] == all[1..][i - 1] && ops[i] == ops[1..][i - 1];
        }
      }
    }
  }

  lemma {:induction false} NoneAccepted(ops: seq<Op>, r: seq<Option<Status>>)
    requires |ops| == |r| && Accepted(ops, r) == []
    requires forall i :: 0 <= i < |ops| && r[i].Some? ==> ops[i].Call?
    ensures AdmitsNothing(ops, r)
    decreases |ops|
  {
    if ops == [] {
    } else {
      assert Accepted(ops[1..], r[1..]) == [];
      NoneAccepted(ops[1..], r[1..]);
      forall i | 0 <= i < |ops| && r[i].Some? ensures !r[i].value.allowed {
        if i > 0 {
          assert r[i] == r[1..][i - 1];
        }
      }
    }
  }

  lemma IdleNoHeavier(cfg: Config, t0: int, ops: seq<Op>, idle: seq<Op>, id: string)
    requires ValidConfig(cfg) && Ordered(t0, ops + idle)
    requires AcceptedInRun(cfg, t0, ops + idle) == AcceptedInRun(cfg, t0, ops)
    ensures
      var from := InitialState(cfg, t0);
      NoHeavier(Run(cfg, from, ops), Run(cfg, from, ops + idle), id, cfg.windowMs)
  {
    var from, log := InitialState(cfg, t0), AcceptedInRun(cfg, t0, ops);
    var st := Run(cfg, from, ops);
    OrderedRest(t0, ops, idle);
    RunSound(cfg, t0, ops);
    RunConcat(cfg, from, ops, idle);
    IdleAdmitsNothing(cfg, t0, ops, idle);
    StartsNoHeavier(cfg, st, log, Latest(t0, ops), id);
    IdleRun(cfg, st, st, log, Latest(t0, ops), idle, id);
  }

  /** The counter that a call by `id` at t2 consults: nothing, or the old one rolled on. */
  lemma ConsultedLater(cfg: Config, st: State, st': State, id: string, t2: int)
    requires ValidConfig(cfg) && NoHeavier(st, st', id, cfg.windowMs)
    requires id in st'.perAttestor ==> st'.perAttestor[id].lastSeen <= t2
    ensures
      var b := Consulted(cfg, st', id, t2);
      || (b.current == 0 && b.previous == 0)
      || (id in st.perAttestor && Rolled(st.perAttestor[id], cfg.windowMs) && st.perAttestor[id].lastSeen <= t2
          && b == RollWindow(st.perAttestor[id], t2, cfg.windowMs))
  {
    var w := cfg.windowMs;
    if id in Tick(cfg, st', t2).perAttestor {
      var s' := st'.perAttestor[id];
      if s'.current == 0 && s'.previous == 0 {
        RollEmpty(s', t2, w);
      } else {
        RollCompose(st.perAttestor[id], s'.lastSeen, t2, w);
      }
    } else {
      RollNow(CreateState(t2, w), w);
    }
  }

  // --- What a swept counter can weigh ------------------------------------------------

  /** A counter as its own limit leaves it: whatever the retention, it took no more than the
      limit in the last window, and at the last request in this one it was within it. */
  ghost predicate OwnFits(cfg: Config, s: Window)
    requires ValidConfig(cfg)
  {
    && Rolled(s, cfg.windowMs)
    && s.previous <= cfg.perAttestorLimit.Floor
    && (s.current > 0 ==> Load(s, s.lastSeen, cfg.windowMs) <= Cap(cfg.perAttestorLimit, cfg.windowMs))
  }

  lemma CountWithin(cfg: Config, s: Window)
    requires ValidConfig(cfg) && OwnFits(cfg, s)
    ensures s.current <= cfg.perAttestorLimit.Floor
  {
    var w := cfg.windowMs;
    if s.current > 0 {
      NonNegativeProduct(s.previous, w - (s.lastSeen - s.start));
      WholeAsReal(s.current, w);
      CancelWindow(s.current as real, cfg.perAttestorLimit, w as real);
    }
  }

  lemma LoadFalls(s: Window, now: int, w: int)
    requires w > 0 && s.lastSeen <= now
    ensures Load(s, now, w) <= Load(s, s.lastSeen, w)
  {
    NonNegativeProduct(s.previous, now - s.lastSeen);
    assert s.previous * (w - (s.lastSeen - s.start))
        == s.previous * (w - (now - s.start)) + s.previous * (now - s.lastSeen);
  }

  lemma RollOwn(cfg: Config, s: Window, now: int)
    requires ValidConfig(cfg) && OwnFits(cfg, s) && s.lastSeen <= now
    ensures OwnFits(cfg, RollWindow(s, now, cfg.windowMs))
  {
    var w := cfg.windowMs;
    RollIsRolled(s, now, w);
    RollByIndex(s, now, w);
    CountWithin(cfg, s);
    LoadFalls(s, now, w);
  }

  lemma ChargeOwn(cfg: Config, s: Window)
    requires ValidConfig(cfg) && OwnFits(cfg, s)
    requires Fits(EstimateCount(s, s.lastSeen, cfg.windowMs), cfg.perAttestorLimit)
    ensures OwnFits(cfg, Charge(s, true))
  {
    FitsScaled(s, cfg.perAttestorLimit, s.lastSeen, cfg.windowMs);
    OneMoreWindow(s.current, cfg.windowMs);
  }

  ghost predicate AllOwnFit(cfg: Config, st: State, t: int)
    requires ValidConfig(cfg)
  {
    forall id :: id in st.perAttestor ==> OwnFits(cfg, st.perAttestor[id]) && st.perAttestor[id].lastSeen <= t
  }

  lemma CreatedOwn(cfg: Config, now: int)
    requires ValidConfig(cfg)
    ensures OwnFits(cfg, CreateState(now, cfg.windowMs))
  {
  }

  lemma StepOwn(cfg: Config, st: State, t: int, op: Op)
    requires ValidConfig(cfg) && AllOwnFit(cfg, st, t) && t <= op.now
    ensures AllOwnFit(cfg, Step(cfg, st, op).0, op.now)
  {
    if op.Call? {
      var tracked, w := Tick(cfg, st, op.now).perAttestor, cfg.windowMs;
      var found := if op.id in tracked then tracked[op.id] else CreateState(op.now, w);
      CreatedOwn(cfg, op.now);
      RollOwn(cfg, found, op.now);
      RollIsRolled(found, op.now, w);
      RollByIndex(found, op.now, w);
      if Step(cfg, st, op).1.value.allowed {
        ChargeOwn(cfg, RollWindow(found, op.now, w));
      }
    }
  }

  lemma {:induction false} RunOwn(cfg: Config, st: State, t: int, ops: seq<Op>)
    requires ValidConfig(cfg) && AllOwnFit(cfg, st, t) && Ordered(t, ops)
    ensures AllOwnFit(cfg, Run(cfg, st, ops), Latest(t, ops))
    decreases |ops|
  {
    if ops == [] {
    } else {
      StepOwn(cfg, st, t, ops[0]);
      RunOwn(cfg, Step(cfg, st, ops[0]).0, ops[0].now, ops[1..]);
    }
  }

  // --- The condition -------------------------------------------------------------------

  /** p requests at the start of one window and c in the next, all at least the retention old
      when z milliseconds of that window are left, would block one more request under the
      attestor's limit, but not under the global one. */
  predicate Blocks(cfg: Config, p: nat, c: nat, z: nat)
    requires ValidConfig(cfg)
  {
    var L, G, w, R := cfg.perAttestorLimit, cfg.globalLimit, cfg.windowMs, cfg.idleRetentionMs;
    && p <= L.Floor && 1 <= z <= w
    && Cap(L, w) < p * z + c * w + w <= Cap(G, w)
    && (c == 0 ==> z <= 2 * w - R)
    && (c > 0 ==> z + R <= w && p * (z + R) + c * w <= Cap(L, w))
  }

  /** Some counter old enough to be swept would still block. */
  ghost predicate Blockable(cfg: Config)
    requires ValidConfig(cfg)
  {
    exists p: nat, c: nat, z: nat :: Blocks(cfg, p, c, z)
  }

  /** A counter that a sweep at t1 would drop does not block at t2 >= t1 either. */
  lemma SweptFits(cfg: Config, s: Window, g: Window, t2: int)
    requires ValidConfig(cfg) && cfg.perAttestorLimit >= 1.0 && cfg.idleRetentionMs > 0 && !Blockable(cfg)
    requires OwnFits(cfg, s) && s.lastSeen + cfg.idleRetentionMs <= t2
    requires
      var r := RollWindow(s, t2, cfg.windowMs);
      r.start == g.start <= t2 < r.start + cfg.windowMs && r.current <= g.current && r.previous <= g.previous
    requires Fits(EstimateCount(g, t2, cfg.windowMs), cfg.globalLimit)
    ensures Fits(EstimateCount(RollWindow(s, t2, cfg.windowMs), t2, cfg.windowMs), cfg.perAttestorLimit)
  {
    var w, r := cfg.windowMs, RollWindow(s, t2, cfg.windowMs);
    LoadBelow(r, g, t2, w);
    FitsScaled(g, cfg.globalLimit, t2, w);
    FitsScaled(r, cfg.perAttestorLimit, t2, w);
    if Load(r, t2, w) + w > Cap(cfg.perAttestorLimit, w) {
      StillBlocks(cfg, s, t2);
    }
  }

  /** A count that is still there tells how far the counter was rolled. */
  lemma RollStays(s: Window, t2: int, w: int)
    requires w > 0 && Rolled(s, w) && s.lastSeen <= t2
    ensures
      var r := RollWindow(s, t2, w);
      && r.start <= t2 < r.start + w && s.start <= s.lastSeen
      && (r.current > 0 ==> r == s.(lastSeen := t2))
      && (r.previous > 0 ==> r.start <= s.start + w)
  {
    RollIsRolled(s, t2, w);
    RollByIndex(s, t2, w);
  }

  lemma StillBlocks(cfg: Config, s: Window, t2: int)
    requires ValidConfig(cfg) && cfg.perAttestorLimit >= 1.0 && cfg.idleRetentionMs > 0
    requires OwnFits(cfg, s) && s.lastSeen + cfg.idleRetentionMs <= t2
    requires
      var w := cfg.windowMs;
      Cap(cfg.perAttestorLimit, w) < Load(RollWindow(s, t2, w), t2, w) + w <= Cap(cfg.globalLimit, w)
    ensures Blockable(cfg)
  {
    var w, r := cfg.windowMs, RollWindow(s, t2, cfg.windowMs);
    RollOwn(cfg, s, t2);
    RollStays(s, t2, w);
    OldBlocks(cfg, s, r, t2, w - (t2 - r.start));
  }

  lemma OldBlocks(cfg: Config, s: Window, r: Window, t2: int, z: int)
    requires ValidConfig(cfg) && cfg.perAttestorLimit >= 1.0
    requires s.start <= s.lastSeen && s.lastSeen + cfg.idleRetentionMs <= t2
    requires s.current > 0 ==> Load(s, s.lastSeen, cfg.windowMs) <= Cap(cfg.perAttestorLimit, cfg.windowMs)
    requires r.previous <= cfg.perAttestorLimit.Floor && z == cfg.windowMs - (t2 - r.start) && 1 <= z <= cfg.windowMs
    requires r.current > 0 ==> r == s.(lastSeen := t2)
    requires r.previous > 0 ==> r.start <= s.start + cfg.windowMs
    requires
      var w := cfg.windowMs;
      Cap(cfg.perAttestorLimit, w) < r.previous * z + r.current * w + w <= Cap(cfg.globalLimit, w)
    ensures Blockable(cfg)
  {
    var w, R := cfg.windowMs, cfg.idleRetentionMs;
    if r.current > 0 {
      var z' := w - (s.lastSeen - s.start);
      NonNegativeProduct(r.previous, z' - (z + R));
      assert r.previous * z' == r.previous * (z + R) + r.previous * (z' - (z + R));
    } else {
      CapOfWhole(1, cfg.perAttestorLimit, w);
    }
    assert Blocks(cfg, r.previous, r.current, z);
  }

  // --- When it persists -------------------------------------------------------------------

  /** The call at t1 does not drop id's counter: at t2 it weighs no more. */
  lemma KeptAdmitted(cfg: Config, st: State, st': State, id: string, t1: int, t2: int)
    requires ValidConfig(cfg) && NoHeavier(st, st', id, cfg.windowMs) && t1 <= t2
    requires id in st.perAttestor ==> st.perAttestor[id].lastSeen <= t1 && id in Tick(cfg, st, t1).perAttestor
    requires id in st'.perAttestor ==> st'.perAttestor[id].lastSeen <= t2
    ensures EstimateCount(Consulted(cfg, st', id, t2), t2, cfg.windowMs)
         <= EstimateCount(Consulted(cfg, st, id, t1), t1, cfg.windowMs)
  {
    var w := cfg.windowMs;
    var a, b := Consulted(cfg, st, id, t1), Consulted(cfg, st', id, t2);
    ConsultedLater(cfg, st, st', id, t2);
    EstimateNonNegative(a, t1, w);
    if b.current == 0 && b.previous == 0 {
      EstimateWithout(b, t2, w);
    } else {
      RollIsRolled(st.perAttestor[id], t1, w);
      RollCompose(st.perAttestor[id], t1, t2, w);
      EstimateDecays(a, t2, w);
    }
  }

  /** The call at t1 drops id's counter, but what it held does not block at t2. */
  lemma SweptAdmitted(cfg: Config, st: State, st': State, log: seq<Entry>, t': int, id: string, t1: int, t2: int)
    requires ValidConfig(cfg) && cfg.perAttestorLimit >= 1.0 && cfg.idleRetentionMs > 0 && !Blockable(cfg)
    requires NoHeavier(st, st', id, cfg.windowMs) && Knows(cfg, st', log, t') && t' <= t2 && t1 <= t2
    requires id in st.perAttestor && OwnFits(cfg, st.perAttestor[id]) && id !in Tick(cfg, st, t1).perAttestor
    requires Fits(EstimateCount(Exact(log, Everyone, t2, cfg.windowMs), t2, cfg.windowMs), cfg.globalLimit)
    ensures Fits(EstimateCount(Consulted(cfg, st', id, t2), t2, cfg.windowMs), cfg.perAttestorLimit)
  {
    var w, b := cfg.windowMs, Consulted(cfg, st', id, t2);
    ConsultedLater(cfg, st, st', id, t2);
    if b.current == 0 && b.previous == 0 {
      EstimateWithout(b, t2, w);
    } else {
      CallKnows(cfg, st', log, t', id, t2);
      UnderEveryone(b, log, id, t2, w);
      SweptFits(cfg, st.perAttestor[id], Exact(log, Everyone, t2, w), t2);
    }
  }

  // With nothing retained, the sweep that is due comes with the next call, whichever it is.

  /** Nothing is charged to `id`. */
  predicate Emptied(st: State, id: string) {
    id in st.perAttestor ==> st.perAttestor[id].current == 0 && st.perAttestor[id].previous == 0
  }

  /** A sweep is due at the next call. */
  predicate Due(cfg: Config, st: State) {
    cfg.pruneIntervalCalls > 0 && st.callsSincePrune + 1 >= cfg.pruneIntervalCalls
  }

  lemma EmptiedStep(cfg: Config, st: State, log: seq<Entry>, t: int, op: Op, id: string)
    requires ValidConfig(cfg) && cfg.idleRetentionMs <= 0 && Knows(cfg, st, log, t) && t <= op.now
    requires Emptied(st, id) || Due(cfg, st)
    requires var status := Step(cfg, st, op).1; status.Some? ==> !status.value.allowed
    ensures Emptied(Step(cfg, st, op).0, id) || Due(cfg, Step(cfg, st, op).0)
  {
    var w := cfg.windowMs;
    if op.Call? {
      var tracked := Tick(cfg, st, op.now).perAttestor;
      if Due(cfg, st) {
        assert tracked == map[];
      }
      if op.id == id {
        var found := if id in tracked then tracked[id] else CreateState(op.now, w);
        RollEmpty(found, op.now, w);
      }
    }
  }

  lemma {:induction false} EmptiedRun(cfg: Config, st: State, log: seq<Entry>, t: int, ops: seq<Op>, id: string)
    requires ValidConfig(cfg) && cfg.idleRetentionMs <= 0 && Knows(cfg, st, log, t) && Ordered(t, ops)
    requires (Emptied(st, id) || Due(cfg, st)) && AdmitsNothing(ops, Statuses(cfg, st, ops))
    ensures Emptied(Run(cfg, st, ops), id) || Due(cfg, Run(cfg, st, ops))
    decreases |ops|
  {
    if ops == [] {
    } else {
      var (next, status) := Step(cfg, st, ops[0]);
      var all := Statuses(cfg, st, ops);
      StatusesHead(cfg, st, ops);
      assert forall i :: 0 <= i < |ops| - 1 ==> all[1..][i] == all[i + 1];
      StepKnows(cfg, st, log, t, ops[0]);
      EmptiedStep(cfg, st, log, t, ops[0], id);
      EmptiedRun(cfg, next, Grown(log, ops[0], status), ops[0].now, ops[1..], id);
    }
  }

  lemma EmptiedAdmitted(cfg: Config, st: State, log: seq<Entry>, t: int, id: string, now: int)
    requires ValidConfig(cfg) && cfg.perAttestorLimit >= 1.0 && cfg.idleRetentionMs <= 0
    requires Knows(cfg, st, log, t) && t <= now && (Emptied(st, id) || Due(cfg, st))
    ensures Fits(EstimateCount(Consulted(cfg, st, id, now), now, cfg.windowMs), cfg.perAttestorLimit)
  {
    var w, tracked := cfg.windowMs, Tick(cfg, st, now).perAttestor;
    if Due(cfg, st) {
      assert tracked == map[];
    }
    var found := if id in tracked then tracked[id] else CreateState(now, w);
    RollEmpty(found, now, w);
    EstimateWithout(Consulted(cfg, st, id, now), now, w);
  }

  /** No counter that a call may drop would still have blocked. */
  ghost predicate Persistent(cfg: Config)
    requires ValidConfig(cfg)
  {
    cfg.idleRetentionMs <= 0 || cfg.perAttestorLimit < 1.0 || !Blockable(cfg)
  }

  /** The attestor's own limit at t2, after a run in which nothing was admitted from st on. */
  lemma OwnLimitFits(cfg: Config, t0: int, ops: seq<Op>, idle: seq<Op>, id: string, t1: int, t2: int)
    requires ValidConfig(cfg) && (Persistent(cfg) || cfg.pruneIntervalCalls <= 0) && t1 <= t2
    requires Ordered(t0, ops) && Latest(t0, ops) <= t1 && Ordered(t0, ops + idle) && Latest(t0, ops + idle) <= t2
    requires AcceptedInRun(cfg, t0, ops + idle) == AcceptedInRun(cfg, t0, ops) && cfg.perAttestorLimit >= 1.0
    requires
      var log, st, w := AcceptedInRun(cfg, t0, ops), Run(cfg, InitialState(cfg, t0), ops), cfg.windowMs;
      && Fits(EstimateCount(Consulted(cfg, st, id, t1), t1, w), cfg.perAttestorLimit)
      && Fits(EstimateCount(Exact(log, Everyone, t2, w), t2, w), cfg.globalLimit)
    ensures
      var st' := Run(cfg, InitialState(cfg, t0), ops + idle);
      Fits(EstimateCount(Consulted(cfg, st', id, t2), t2, cfg.windowMs), cfg.perAttestorLimit)
  {
    var from, log := InitialState(cfg, t0), AcceptedInRun(cfg, t0, ops);
    var st, st' := Run(cfg, from, ops), Run(cfg, from, ops + idle);
    RunSound(cfg, t0, ops);
    RunSound(cfg, t0, ops + idle);
    IdleNoHeavier(cfg, t0, ops, idle, id);
    if id !in st.perAttestor || id in Tick(cfg, st, t1).perAttestor {
      KeptAdmitted(cfg, st, st', id, t1, t2);
    } else if cfg.idleRetentionMs > 0 {
      RunOwn(cfg, from, t0, ops);
      SweptAdmitted(cfg, st, st', log, Latest(t0, ops + idle), id, t1, t2);
    } else {
      DueThenEmptied(cfg, t0, ops, idle, id);
      EmptiedAdmitted(cfg, st', log, Latest(t0, ops + idle), id, t2);
    }
  }

  lemma DueThenEmptied(cfg: Config, t0: int, ops: seq<Op>, idle: seq<Op>, id: string)
    requires ValidConfig(cfg) && cfg.idleRetentionMs <= 0 && Ordered(t0, ops + idle)
    requires AcceptedInRun(cfg, t0, ops + idle) == AcceptedInRun(cfg, t0, ops)
    requires Due(cfg, Run(cfg, InitialState(cfg, t0), ops))
    ensures
      var st' := Run(cfg, InitialState(cfg, t0), ops + idle);
      Emptied(st', id) || Due(cfg, st')
  {
    OrderedRest(t0, ops, idle);
    RunSound(cfg, t0, ops);
    RunConcat(cfg, InitialState(cfg, t0), ops, idle);
    IdleAdmitsNothing(cfg, t0, ops, idle);
    EmptiedRun(cfg, Run(cfg, InitialState(cfg, t0), ops), AcceptedInRun(cfg, t0, ops), Latest(t0, ops), idle, id);
  }

  /** The request of `id` at t1 after `ops`, and at t2 after `idle` on top, in which nothing is
      admitted: if the first would be admitted, so would the second. */
  ghost predicate Stays(cfg: Config, t0: int, ops: seq<Op>, idle: seq<Op>, id: string, t1: int, t2: int)
    requires ValidConfig(cfg)
  {
    var first, second := LastStatus(cfg, t0, ops, Call(id, t1)), LastStatus(cfg, t0, ops + idle, Call(id, t2));
    && first.Some? && second.Some?
    && (AcceptedInRun(cfg, t0, ops + idle) == AcceptedInRun(cfg, t0, ops) && first.value.allowed ==>
          second.value.allowed)
  }

  /** A request that would be admitted stays admissible for as long as nothing else is
      admitted, whatever calls are denied and whatever is pruned in between. */
  lemma StaysAdmissible(cfg: Config, t0: int, ops: seq<Op>, idle: seq<Op>, id: string, t1: int, t2: int)
    requires ValidConfig(cfg) && (Persistent(cfg) || cfg.pruneIntervalCalls <= 0) && t1 <= t2
    requires Ordered(t0, ops + [Call(id, t1)]) && Ordered(t0, (ops + idle) + [Call(id, t2)])
    ensures Stays(cfg, t0, ops, idle, id, t1, t2)
  {
    var from, log, w := InitialState(cfg, t0), AcceptedInRun(cfg, t0, ops), cfg.windowMs;
    var st, st' := Run(cfg, from, ops), Run(cfg, from, ops + idle);
    OrderedSnoc(t0, ops, Call(id, t1));
    OrderedSnoc(t0, ops + idle, Call(id, t2));
    LastStatusIsStep(cfg, t0, ops, Call(id, t1));
    LastStatusIsStep(cfg, t0, ops + idle, Call(id, t2));
    if AcceptedInRun(cfg, t0, ops + idle) == log && Step(cfg, st, Call(id, t1)).1.value.allowed {
      RunSound(cfg, t0, ops);
      RunSound(cfg, t0, ops + idle);
      CallDecides(cfg, st, log, Latest(t0, ops), id, t1);
      CallDecides(cfg, st', log, Latest(t0, ops + idle), id, t2);
      AllowedNeedsOne(cfg, Consulted(cfg, st, id, t1), Exact(log, Everyone, t1, w), t1);
      GlobalStays(cfg, log, t1, t2);
      OwnLimitFits(cfg, t0, ops, idle, id, t1, t2);
    }
  }

  lemma GlobalStays(cfg: Config, log: seq<Entry>, t1: int, t2: int)
    requires ValidConfig(cfg) && AllBy(log, Everyone, t1) && t1 <= t2
    requires Fits(EstimateCount(Exact(log, Everyone, t1, cfg.windowMs), t1, cfg.windowMs), cfg.globalLimit)
    ensures Fits(EstimateCount(Exact(log, Everyone, t2, cfg.windowMs), t2, cfg.windowMs), cfg.globalLimit)
  {
    RollExact(log, Everyone, t1, t2, cfg.windowMs);
    EstimateDecays(Exact(log, Everyone, t1, cfg.windowMs), t2, cfg.windowMs);
  }

  // --- When it does not --------------------------------------------------------------------

  /** Only "a" has ever called: its counter is the global one, or nothing has been counted. */
  ghost predicate Solo(st: State, s: Window, calls: int) {
    && st.global == s && st.callsSincePrune == calls
    && (st.perAttestor == map["a" := s] || (st.perAttestor == map[] && s.current == 0 && s.previous == 0))
  }

  /** An empty counter rolled on is a new one. */
  lemma EmptyIsNew(s: Window, now: int, w: int)
    requires w > 0 && Rolled(s, w) && s.lastSeen <= now && s.current == 0 && s.previous == 0
    ensures RollWindow(s, now, w) == CreateState(now, w)
  {
    RollEmpty(s, now, w);
    RollIsRolled(s, now, w);
    RollByIndex(s, now, w);
  }

  /** A call that does not drop the counter. */
  lemma SoloCall(cfg: Config, st: State, s: Window, calls: int, now: int)
    requires ValidConfig(cfg) && cfg.pruneIntervalCalls > 0 && Solo(st, s, calls)
    requires Rolled(s, cfg.windowMs) && s.lastSeen <= now
    requires calls + 1 < cfg.pruneIntervalCalls || now - s.lastSeen < cfg.idleRetentionMs
    ensures
      var (st', status) := Step(cfg, st, Call("a", now));
      var r := RollWindow(s, now, cfg.windowMs);
      && status == Some(Decide(cfg, r, r, now))
      && Solo(st', Charge(r, status.value.allowed), if calls + 1 < cfg.pruneIntervalCalls then calls + 1 else 0)
  {
    var w := cfg.windowMs;
    if "a" !in st.perAttestor {
      EmptyIsNew(s, now, w);
      RollNow(CreateState(now, w), w);
    }
  }

  /** A call that drops it. */
  lemma SoloSwept(cfg: Config, st: State, s: Window, calls: int, now: int)
    requires ValidConfig(cfg) && cfg.pruneIntervalCalls > 0 && Solo(st, s, calls)
    requires Rolled(s, cfg.windowMs) && s.lastSeen <= now
    requires calls + 1 >= cfg.pruneIntervalCalls && now - s.lastSeen >= cfg.idleRetentionMs
    ensures Step(cfg, st, Call("a", now)).1
         == Some(Decide(cfg, CreateState(now, cfg.windowMs), RollWindow(s, now, cfg.windowMs), now))
  {
    assert Tick(cfg, st, now).perAttestor == map[];
    RollNow(CreateState(now, cfg.windowMs), cfg.windowMs);
  }

  /** Both limits decide alike on equal counters. */
  lemma SoloDecides(cfg: Config, r: Window, now: int)
    requires ValidConfig(cfg) && r.start <= now < r.start + cfg.windowMs
    ensures Decide(cfg, r, r, now).allowed <==>
      Load(r, now, cfg.windowMs) + cfg.windowMs <= Cap(cfg.perAttestorLimit, cfg.windowMs)
  {
    FitsScaled(r, cfg.perAttestorLimit, now, cfg.windowMs);
  }

  /** A call that fits. */
  lemma SoloTakes(cfg: Config, st: State, s: Window, calls: int, now: int)
    requires ValidConfig(cfg) && Solo(st, s, calls) && 0 <= calls && calls + 1 < cfg.pruneIntervalCalls
    requires Rolled(s, cfg.windowMs) && s.lastSeen <= now
    requires
      var r := RollWindow(s, now, cfg.windowMs);
      Load(r, now, cfg.windowMs) + cfg.windowMs <= Cap(cfg.perAttestorLimit, cfg.windowMs)
    ensures
      var next := Charge(RollWindow(s, now, cfg.windowMs), true);
      && Solo(Step(cfg, st, Call("a", now)).0, next, calls + 1)
      && Rolled(next, cfg.windowMs) && next.lastSeen == now
  {
    var r := RollWindow(s, now, cfg.windowMs);
    RollIsRolled(s, now, cfg.windowMs);
    RollByIndex(s, now, cfg.windowMs);
    SoloCall(cfg, st, s, calls, now);
    SoloDecides(cfg, r, now);
  }

  lemma RoomForMore(s: Window, now: int, w: int, m: nat, cap: int)
    requires w > 0 && m > 0 && Load(s, now, w) + m * w <= cap
    ensures Load(s, now, w) + w <= cap && Load(Charge(s, true), now, w) + (m - 1) * w <= cap
  {
    OneMoreWindow(m - 1, w);
    OneMoreWindow(s.current, w);
    NonNegativeProduct(m - 1, w);
  }

  /** The counter after m calls at `now`. */
  function After(s: Window, now: int, w: int, m: nat): Window
    requires w > 0
  {
    if m == 0 then s
    else
      var r := RollWindow(s, now, w);
      r.(current := r.current + m)
  }

  /** m calls at one instant that all fit. */
  lemma {:induction false} SoloFill(cfg: Config, st: State, s: Window, calls: int, now: int, m: nat)
    requires ValidConfig(cfg) && Solo(st, s, calls) && 0 <= calls && calls + m < cfg.pruneIntervalCalls
    requires Rolled(s, cfg.windowMs) && s.lastSeen <= now
    requires
      var r, w := RollWindow(s, now, cfg.windowMs), cfg.windowMs;
      m > 0 ==> Load(r, now, w) + m * w <= Cap(cfg.perAttestorLimit, w)
    ensures Solo(Run(cfg, st, Repeat("a", now, m)), After(s, now, cfg.windowMs, m), calls + m)
    decreases m
  {
    if m == 0 {
    } else {
      var w, r := cfg.windowMs, RollWindow(s, now, cfg.windowMs);
      var next := Charge(r, true);
      RoomForMore(r, now, w, m, Cap(cfg.perAttestorLimit, w));
      SoloTakes(cfg, st, s, calls, now);
      RollNow(next, w);
      RepeatRuns(cfg, st, "a", now, m);
      SoloFill(cfg, Step(cfg, st, Call("a", now)).0, next, calls + 1, now, m - 1);
      assert After(next, now, w, m - 1) == After(s, now, w, m);
    }
  }

  // The failing run: p calls at 0, c calls at 2w - (z + R), then the request at 2w - z.

  /** When the last of the c calls is made, or the p calls if there are none. */
  function LastAt(cfg: Config, c: nat, z: nat): int {
    if c == 0 then 0 else 2 * cfg.windowMs - (z + cfg.idleRetentionMs)
  }

  /** The counter then. */
  function Held(cfg: Config, p: nat, c: nat, z: nat): Window {
    if c == 0 then Window(0, p, 0, 0) else Window(cfg.windowMs, c, p, LastAt(cfg, c, z))
  }

  function BlockingOps(cfg: Config, p: nat, c: nat, z: nat): seq<Op> {
    Repeat("a", 0, p) + Repeat("a", LastAt(cfg, c, z), c)
  }

  lemma FirstCalls(cfg: Config, st: State, s: Window, now: int, p: nat)
    requires ValidConfig(cfg) && p <= cfg.perAttestorLimit.Floor && p < cfg.pruneIntervalCalls
    requires s.current == 0 && s.previous == 0 && s.lastSeen == now && Rolled(s, cfg.windowMs)
    requires st == State(map[], s, 0)
    ensures Solo(Run(cfg, st, Repeat("a", now, p)), s.(current := p), p)
  {
    RollNow(s, cfg.windowMs);
    CapOfWhole(p, cfg.perAttestorLimit, cfg.windowMs);
    SoloFill(cfg, st, s, 0, now, p);
  }

  /** A counter of p at 0, seen again in window 1. */
  lemma RollsToNext(p: nat, t: int, w: int)
    requires w > 0 && w <= t < 2 * w
    ensures RollWindow(Window(0, p, 0, 0), t, w) == Window(w, 0, p, t)
    ensures Rolled(Window(0, p, 0, 0), w) && Index(t, w) == 1 && AlignToWindow(t, w) == w
  {
    IndexUnique(0, w, 0);
    IndexUnique(t, w, 1);
    RollByIndex(Window(0, p, 0, 0), t, w);
  }

  lemma BlockingState(cfg: Config, p: nat, c: nat, z: nat)
    requires ValidConfig(cfg) && cfg.idleRetentionMs > 0 && Blocks(cfg, p, c, z) && cfg.pruneIntervalCalls == p + c + 1
    ensures Solo(Run(cfg, InitialState(cfg, 0), BlockingOps(cfg, p, c, z)), Held(cfg, p, c, z), p + c)
    ensures Rolled(Held(cfg, p, c, z), cfg.windowMs)
  {
    var w, y, from := cfg.windowMs, LastAt(cfg, c, z), InitialState(cfg, 0);
    IndexUnique(0, w, 0);
    FirstCalls(cfg, from, Window(0, 0, 0, 0), 0, p);
    RunConcat(cfg, from, Repeat("a", 0, p), Repeat("a", y, c));
    SecondCalls(cfg, Run(cfg, from, Repeat("a", 0, p)), p, c, z);
  }

  lemma SecondCalls(cfg: Config, st: State, p: nat, c: nat, z: nat)
    requires ValidConfig(cfg) && cfg.idleRetentionMs > 0 && Blocks(cfg, p, c, z) && cfg.pruneIntervalCalls == p + c + 1
    requires Solo(st, Window(0, p, 0, 0), p)
    ensures Solo(Run(cfg, st, Repeat("a", LastAt(cfg, c, z), c)), Held(cfg, p, c, z), p + c)
    ensures Rolled(Held(cfg, p, c, z), cfg.windowMs)
  {
    var w, y := cfg.windowMs, LastAt(cfg, c, z);
    IndexUnique(0, w, 0);
    if c > 0 {
      RollsToNext(p, y, w);
      assert Load(Window(w, 0, p, y), y, w) == p * (z + cfg.idleRetentionMs);
    } else {
      RollNow(Window(0, p, 0, 0), w);
    }
    SoloFill(cfg, st, Window(0, p, 0, 0), p, y, c);
  }

  lemma BlockingOrdered(cfg: Config, p: nat, c: nat, z: nat)
    requires ValidConfig(cfg) && cfg.idleRetentionMs > 0 && Blocks(cfg, p, c, z)
    ensures
      var ops := BlockingOps(cfg, p, c, z);
      Ordered(0, ops) && Latest(0, ops) <= LastAt(cfg, c, z) <= 2 * cfg.windowMs - z
  {
    var first, y := Repeat("a", 0, p), LastAt(cfg, c, z);
    RepeatRunsOn(0, [], 0, p);
    assert [] + first == first;
    RepeatRunsOn(0, first, y, c);
  }

  lemma {:induction false} RepeatRunsOn(t: int, ops: seq<Op>, now: int, n: nat)
    requires Ordered(t, ops) && Latest(t, ops) <= now
    ensures Ordered(t, ops + Repeat("a", now, n)) && Latest(t, ops + Repeat("a", now, n)) <= now
    decreases n
  {
    if n == 0 {
      assert ops + Repeat("a", now, n) == ops;
    } else {
      OrderedAdd(t, ops, Call("a", now));
      RepeatRunsOn(t, ops + [Call("a", now)], now, n - 1);
      assert ops + Repeat("a", now, n) == ops + [Call("a", now)] + Repeat("a", now, n - 1);
    }
  }

  /** Rolled on to the request, the counter weighs what `Blocks` says. */
  lemma HeldLater(cfg: Config, p: nat, c: nat, z: nat)
    requires ValidConfig(cfg) && cfg.idleRetentionMs > 0 && Blocks(cfg, p, c, z)
    ensures
      var w, t, s := cfg.windowMs, 2 * cfg.windowMs - z, Held(cfg, p, c, z);
      && RollWindow(s, t, w) == Window(w, c, p, t)
      && Load(Window(w, c, p, t), t, w) == p * z + c * w
      && t - s.lastSeen >= cfg.idleRetentionMs
  {
    var w, t := cfg.windowMs, 2 * cfg.windowMs - z;
    RollsToNext(p, t, w);
    if c > 0 {
      IndexUnique(w, w, 1);
      RollByIndex(Held(cfg, p, c, z), t, w);
    }
  }

  /** It weighs no less before. */
  lemma HeldBlocks(cfg: Config, p: nat, c: nat, z: nat)
    requires ValidConfig(cfg) && cfg.idleRetentionMs > 0 && Blocks(cfg, p, c, z)
    ensures
      var w, s := cfg.windowMs, Held(cfg, p, c, z);
      && s.start <= s.lastSeen < s.start + w
      && Load(s, s.lastSeen, w) + w > Cap(cfg.perAttestorLimit, w)
  {
    var w, R := cfg.windowMs, cfg.idleRetentionMs;
    if c == 0 {
      MoreWeight(p, p, z, w);
    } else {
      MoreWeight(p, p, z, z + R);
      assert w - (LastAt(cfg, c, z) - w) == z + R;
    }
  }

  /** One more call at once is denied, and leaves the counter as it is. */
  lemma OneMoreDenied(cfg: Config, st: State, p: nat, c: nat, z: nat)
    requires ValidConfig(cfg) && cfg.idleRetentionMs > 0 && Blocks(cfg, p, c, z) && cfg.pruneIntervalCalls == p + c + 1
    requires Solo(st, Held(cfg, p, c, z), p + c) && Rolled(Held(cfg, p, c, z), cfg.windowMs)
    ensures
      var (st', status) := Step(cfg, st, Call("a", LastAt(cfg, c, z)));
      status.Some? && !status.value.allowed && Solo(st', Held(cfg, p, c, z), 0)
  {
    var s, y := Held(cfg, p, c, z), LastAt(cfg, c, z);
    HeldBlocks(cfg, p, c, z);
    RollNow(s, cfg.windowMs);
    SoloCall(cfg, st, s, p + c, y);
    SoloDecides(cfg, s, y);
  }

  lemma RequestBlocked(cfg: Config, st: State, p: nat, c: nat, z: nat)
    requires ValidConfig(cfg) && cfg.idleRetentionMs > 0 && Blocks(cfg, p, c, z) && cfg.pruneIntervalCalls == p + c + 1
    requires p + c > 0 && Solo(st, Held(cfg, p, c, z), 0) && Rolled(Held(cfg, p, c, z), cfg.windowMs)
    ensures
      var status := Step(cfg, st, Call("a", 2 * cfg.windowMs - z)).1;
      status.Some? && !status.value.allowed
  {
    var w, t := cfg.windowMs, 2 * cfg.windowMs - z;
    HeldLater(cfg, p, c, z);
    SoloCall(cfg, st, Held(cfg, p, c, z), 0, t);
    SoloDecides(cfg, Window(w, c, p, t), t);
  }

  lemma RequestSwept(cfg: Config, st: State, p: nat, c: nat, z: nat)
    requires ValidConfig(cfg) && cfg.idleRetentionMs > 0 && Blocks(cfg, p, c, z) && cfg.pruneIntervalCalls == p + c + 1
    requires cfg.perAttestorLimit >= 1.0
    requires Solo(st, Held(cfg, p, c, z), p + c) && Rolled(Held(cfg, p, c, z), cfg.windowMs)
    ensures
      var status := Step(cfg, st, Call("a", 2 * cfg.windowMs - z)).1;
      status.Some? && status.value.allowed
  {
    var w, t := cfg.windowMs, 2 * cfg.windowMs - z;
    HeldLater(cfg, p, c, z);
    SoloSwept(cfg, st, Held(cfg, p, c, z), p + c, t);
    FreshIsEmpty(t, w);
    FitsScaled(Window(w, c, p, t), cfg.globalLimit, t, w);
  }

  /** What the request is told, after the p + c calls alone and with one more denied call. */
  lemma BlockedAnswers(cfg: Config, p: nat, c: nat, z: nat)
    requires ValidConfig(cfg) && cfg.idleRetentionMs > 0 && cfg.perAttestorLimit >= 1.0
    requires Blocks(cfg, p, c, z) && cfg.pruneIntervalCalls == p + c + 1
    ensures
      var st := Run(cfg, InitialState(cfg, 0), BlockingOps(cfg, p, c, z));
      var (st', denied) := Step(cfg, st, Call("a", LastAt(cfg, c, z)));
      var request := Call("a", 2 * cfg.windowMs - z);
      var first, second := Step(cfg, st, request).1, Step(cfg, st', request).1;
      && denied.Some? && !denied.value.allowed
      && first.Some? && first.value.allowed && second.Some? && !second.value.allowed
  {
    var st := Run(cfg, InitialState(cfg, 0), BlockingOps(cfg, p, c, z));
    BlockingState(cfg, p, c, z);
    SomeCalls(cfg, p, c, z);
    OneMoreDenied(cfg, st, p, c, z);
    RequestSwept(cfg, st, p, c, z);
    RequestBlocked(cfg, Step(cfg, st, Call("a", LastAt(cfg, c, z))).0, p, c, z);
  }

  /** The run in which admissibility is lost: the request would be admitted, because that call
      sweeps; with a denied call before it, the sweep comes too early and it is blocked. */
  lemma BlockedRun(cfg: Config, p: nat, c: nat, z: nat)
    requires ValidConfig(cfg) && cfg.idleRetentionMs > 0 && cfg.perAttestorLimit >= 1.0
    requires Blocks(cfg, p, c, z) && cfg.pruneIntervalCalls == p + c + 1
    ensures
      var ops, idle, t := BlockingOps(cfg, p, c, z), [Call("a", LastAt(cfg, c, z))], 2 * cfg.windowMs - z;
      && Ordered(0, ops + [Call("a", t)]) && Ordered(0, (ops + idle) + [Call("a", t)])
      && !Stays(cfg, 0, ops, idle, "a", t, t)
  {
    var ops, idle := BlockingOps(cfg, p, c, z), Call("a", LastAt(cfg, c, z));
    BlockingOrdered(cfg, p, c, z);
    BlockedAnswers(cfg, p, c, z);
    LosesRequest(cfg, ops, idle, Call("a", 2 * cfg.windowMs - z));
  }

  /** A request admitted after `ops`, but not with one more denied call. */
  lemma LosesRequest(cfg: Config, ops: seq<Op>, idle: Op, request: Op)
    requires ValidConfig(cfg) && request.Call? && Ordered(0, ops) && Latest(0, ops) <= idle.now <= request.now
    requires
      var st := Run(cfg, InitialState(cfg, 0), ops);
      var (st', denied) := Step(cfg, st, idle);
      var first, second := Step(cfg, st, request).1, Step(cfg, st', request).1;
      && denied.Some? && !denied.value.allowed
      && first.Some? && first.value.allowed && second.Some? && !second.value.allowed
    ensures Ordered(0, ops + [request]) && Ordered(0, (ops + [idle]) + [request])
    ensures !Stays(cfg, 0, ops, [idle], request.id, request.now, request.now)
  {
    OrderedAdd(0, ops, request);
    OrderedAdd(0, ops, idle);
    OrderedAdd(0, ops + [idle], request);
    LastStatusIsStep(cfg, 0, ops, request);
    LastStatusIsStep(cfg, 0, ops + [idle], request);
    Extend(cfg, 0, ops, idle);
  }

  lemma SomeCalls(cfg: Config, p: nat, c: nat, z: nat)
    requires ValidConfig(cfg) && cfg.perAttestorLimit >= 1.0 && Blocks(cfg, p, c, z)
    ensures p + c > 0
  {
    CapOfWhole(1, cfg.perAttestorLimit, cfg.windowMs);
  }

  // --- Exactly when ---------------------------------------------------------------------------

  /** However often the limiter prunes by itself, a request that would be admitted stays
      admissible while nothing is admitted. */
  ghost predicate AdmissibilityPersists(cfg: Config)
    requires ValidConfig(cfg)
  {
    forall interval: int, t0: int, ops: seq<Op>, idle: seq<Op>, id: string, t1: int, t2: int ::
      t1 <= t2 && Ordered(t0, ops + [Call(id, t1)]) && Ordered(t0, (ops + idle) + [Call(id, t2)]) ==>
        Stays(cfg.(pruneIntervalCalls := interval), t0, ops, idle, id, t1, t2)
  }

  /** For every limit, window and retention: admissibility persists, whatever the prune interval,
      if and only if nothing is retained, or nothing is ever admitted, or no counter old enough
      to be swept would still block. */
  lemma AdmissibilityPersistsIff(cfg: Config)
    requires ValidConfig(cfg)
    ensures AdmissibilityPersists(cfg) <==> Persistent(cfg)
  {
    if Persistent(cfg) {
      forall interval: int, t0: int, ops: seq<Op>, idle: seq<Op>, id: string, t1: int, t2: int |
        t1 <= t2 && Ordered(t0, ops + [Call(id, t1)]) && Ordered(t0, (ops + idle) + [Call(id, t2)])
        ensures Stays(cfg.(pruneIntervalCalls := interval), t0, ops, idle, id, t1, t2)
      {
        PersistentAlike(cfg, interval);
        StaysAdmissible(cfg.(pruneIntervalCalls := interval), t0, ops, idle, id, t1, t2);
      }
    } else {
      LostSomewhere(cfg);
    }
  }

  /** The prune interval plays no part in the condition. */
  lemma PersistentAlike(cfg: Config, interval: int)
    requires ValidConfig(cfg)
    ensures Persistent(cfg.(pruneIntervalCalls := interval)) <==> Persistent(cfg)
  {
    var c := cfg.(pruneIntervalCalls := interval);
    assert forall p: nat, n: nat, z: nat :: Blocks(c, p, n, z) <==> Blocks(cfg, p, n, z);
  }

  lemma LostSomewhere(cfg: Config)
    requires ValidConfig(cfg) && !Persistent(cfg)
    ensures !AdmissibilityPersists(cfg)
  {
    var p: nat, c: nat, z: nat :| Blocks(cfg, p, c, z);
    BlockedRun(cfg.(pruneIntervalCalls := p + c + 1), p, c, z);
  }

  // --- The condition in closed form -------------------------------------------------------------

  /** The most that a counter can still weigh when it is swept leaves room for one more request. */
  predicate SweptLeavesRoom(cfg: Config) {
    (cfg.perAttestorLimit.Floor * (2 * cfg.windowMs - cfg.idleRetentionMs)) as real
    <= (cfg.perAttestorLimit - 1.0) * cfg.windowMs as real
  }

  /** On whole numbers. */
  lemma RoomOnWhole(cfg: Config)
    requires ValidConfig(cfg)
    ensures SweptLeavesRoom(cfg) <==>
      cfg.perAttestorLimit.Floor * (2 * cfg.windowMs - cfg.idleRetentionMs) + cfg.windowMs
      <= Cap(cfg.perAttestorLimit, cfg.windowMs)
  {
    var w := cfg.windowMs as real;
    assert (cfg.perAttestorLimit - 1.0) * w == cfg.perAttestorLimit * w - w;
  }

  /** Harmless pruning is one case of it. */
  lemma HarmlessLeavesRoom(cfg: Config)
    requires ValidConfig(cfg) && cfg.perAttestorLimit >= 1.0 && PrunesHarmlessly(cfg)
    ensures SweptLeavesRoom(cfg)
  {
    var n := cfg.perAttestorLimit.Floor;
    MulMonotone(cfg.windowMs as real, cfg.perAttestorLimit - n as real, cfg.perAttestorLimit - 1.0);
  }

  /** It is always enough. */
  lemma RoomNeverBlocks(cfg: Config)
    requires ValidConfig(cfg) && cfg.perAttestorLimit >= 1.0 && SweptLeavesRoom(cfg)
    ensures !Blockable(cfg)
  {
    forall p: nat, c: nat, z: nat ensures !Blocks(cfg, p, c, z) {
      RoomBlocksNot(cfg, p, c, z);
    }
  }

  lemma RoomBlocksNot(cfg: Config, p: nat, c: nat, z: nat)
    requires ValidConfig(cfg) && cfg.perAttestorLimit >= 1.0 && SweptLeavesRoom(cfg)
    ensures !Blocks(cfg, p, c, z)
  {
    var n, w, R := cfg.perAttestorLimit.Floor, cfg.windowMs, cfg.idleRetentionMs;
    RoomOnWhole(cfg);
    CapBelow(n + 1, cfg.perAttestorLimit, w);
    OneMoreWindow(n, w);
    if R <= w {
      MoreWeight(n, n, w, 2 * w - R);
    } else if p <= n && 1 <= z <= 2 * w - R {
      MoreWeight(p, n, z, 2 * w - R);
    }
  }

  /** So wherever pruning cannot be observed, the default retention included, admissibility
      persists. */
  lemma HarmlessPersists(cfg: Config)
    requires ValidConfig(cfg) && PrunesHarmlessly(cfg)
    ensures Persistent(cfg)
  {
    if cfg.perAttestorLimit >= 1.0 {
      HarmlessLeavesRoom(cfg);
      RoomNeverBlocks(cfg);
    }
  }

  /** With more room under the global limit than under the attestor's, it is also necessary. */
  lemma ClosedForm(cfg: Config)
    requires ValidConfig(cfg) && cfg.perAttestorLimit >= 1.0 && cfg.globalLimit.Floor > cfg.perAttestorLimit.Floor
    ensures Blockable(cfg) <==> !SweptLeavesRoom(cfg)
  {
    if SweptLeavesRoom(cfg) {
      RoomNeverBlocks(cfg);
    } else {
      FullBlocks(cfg);
    }
  }

  lemma FullBlocks(cfg: Config)
    requires ValidConfig(cfg) && cfg.perAttestorLimit >= 1.0 && cfg.globalLimit.Floor > cfg.perAttestorLimit.Floor
    requires !SweptLeavesRoom(cfg)
    ensures Blockable(cfg)
  {
    var n, w, R := cfg.perAttestorLimit.Floor, cfg.windowMs, cfg.idleRetentionMs;
    var z := Least(w, 2 * w - R);
    RoomOnWhole(cfg);
    CapOfWhole(1, cfg.perAttestorLimit, w);
    SignOfProduct(n, 2 * w - R);
    CapBelow(n + 1, cfg.perAttestorLimit, w);
    CapOfWhole(n + 1, cfg.globalLimit, w);
    OneMoreWindow(n, w);
    assert z >= 1;
    MoreWeight(n, n, z, w);
    assert Blocks(cfg, n, 0, z);
  }

  /** So, with more room under the global limit, admissibility persists whatever the prune
      interval if and only if nothing is retained, nothing is ever admitted, or
      floor(L) * (2 * windowMs - idleRetentionMs) <= (L - 1) * windowMs. */
  lemma PersistsClosedForm(cfg: Config)
    requires ValidConfig(cfg) && cfg.globalLimit.Floor > cfg.perAttestorLimit.Floor
    ensures AdmissibilityPersists(cfg) <==>
      cfg.idleRetentionMs <= 0 || cfg.perAttestorLimit < 1.0 || SweptLeavesRoom(cfg)
  {
    AdmissibilityPersistsIff(cfg);
    if cfg.perAttestorLimit >= 1.0 {
      ClosedForm(cfg);
    }
  }
}
