/** What the limiter knows whatever its retention: the global counter is always exact, an
    attestor's counter never exceeds the exact one, and with a retention of at least one
    window it lacks at most a previous window that is older than the retention. From this
    follow the caps on what any run admits, and when pruning cannot be observed. */
module RateLimiterRetention {
  import opened Prelude
  import opened SlidingWindow
  import opened RequestLog
  import opened RateLimiterModel
  import opened RateLimiterRefinement

  // --- What a run admitted -------------------------------------------------

  /** The requests of a run that its statuses report as allowed. */
  function Accepted(ops: seq<Op>, statuses: seq<Option<Status>>): seq<Entry>
    requires |ops| == |statuses|
  {
    if ops == [] then [] else Grown([], ops[0], statuses[0]) + Accepted(ops[1..], statuses[1..])
  }

  /** The log after an operation that reported `status`. */
  function Grown(log: seq<Entry>, op: Op, status: Option<Status>): seq<Entry> {
    if op.Call? && status.Some? && status.value.allowed then log + [Entry(op.id, op.now)] else log
  }

  /** The accepted requests of a run of the two-counter limiter. */
  function AcceptedInRun(cfg: Config, t0: int, ops: seq<Op>): seq<Entry>
    requires ValidConfig(cfg)
  {
    Accepted(ops, Statuses(cfg, InitialState(cfg, t0), ops))
  }

  ghost predicate Sorted(log: seq<Entry>) {
    forall i, j :: 0 <= i < j < |log| ==> log[i].time <= log[j].time
  }

  // --- Runs in pieces ----------------------------------------------------------

  lemma {:induction false} RunConcat(cfg: Config, st: State, a: seq<Op>, b: seq<Op>)
    requires ValidConfig(cfg)
    ensures Statuses(cfg, st, a + b) == Statuses(cfg, st, a) + Statuses(cfg, Run(cfg, st, a), b)
    ensures Run(cfg, st, a + b) == Run(cfg, Run(cfg, st, a), b)
    decreases |a|
  {
    if a == [] {
      assert a + b == b;
    } else {
      assert (a + b)[1..] == a[1..] + b;
      RunConcat(cfg, Step(cfg, st, a[0]).0, a[1..], b);
    }
  }

  lemma {:induction false} AcceptedSnoc(ops: seq<Op>, r: seq<Option<Status>>, op: Op, status: Option<Status>)
    requires |ops| == |r|
    ensures Accepted(ops + [op], r + [status]) == Grown(Accepted(ops, r), op, status)
    decreases |ops|
  {
    if ops == [] {
      assert [op][1..] == [] && [status][1..] == [];
      assert ops + [op] == [op] && r + [status] == [status];
    } else {
      AcceptedSnoc(ops[1..], r[1..], op, status);
      TailOfSnoc(ops, op);
      TailOfSnoc(r, status);
      GrownTail(Grown([], ops[0], r[0]), Accepted(ops[1..], r[1..]), op, status);
    }
  }

  lemma GrownTail(a: seq<Entry>, b: seq<Entry>, op: Op, status: Option<Status>)
    ensures a + Grown(b, op, status) == Grown(a + b, op, status)
  {
  }

  lemma TailOfSnoc<T>(xs: seq<T>, x: T)
    requires xs != []
    ensures (xs + [x])[0] == xs[0] && (xs + [x])[1..] == xs[1..] + [x]
  {
  }

  lemma StatusesSnoc(cfg: Config, from: State, ops: seq<Op>, op: Op)
    requires ValidConfig(cfg)
    ensures Statuses(cfg, from, ops + [op]) == Statuses(cfg, from, ops) + [Step(cfg, Run(cfg, from, ops), op).1]
  {
    RunConcat(cfg, from, ops, [op]);
    OneStatus(cfg, Run(cfg, from, ops), op);
  }

  lemma OneStatus(cfg: Config, st: State, op: Op)
    requires ValidConfig(cfg)
    ensures Statuses(cfg, st, [op]) == [Step(cfg, st, op).1]
  {
    assert Statuses(cfg, Step(cfg, st, op).0, []) == [];
  }

  /** One more operation at the end of a run. */
  lemma Extend(cfg: Config, t0: int, ops: seq<Op>, op: Op)
    requires ValidConfig(cfg)
    ensures
      var st := Run(cfg, InitialState(cfg, t0), ops);
      && Run(cfg, InitialState(cfg, t0), ops + [op]) == Step(cfg, st, op).0
      && AcceptedInRun(cfg, t0, ops + [op]) == Grown(AcceptedInRun(cfg, t0, ops), op, Step(cfg, st, op).1)
  {
    var from := InitialState(cfg, t0);
    var status := Step(cfg, Run(cfg, from, ops), op).1;
    RunSnoc(cfg, from, ops, op);
    StatusesSnoc(cfg, from, ops, op);
    AcceptedSnoc(ops, Statuses(cfg, from, ops), op, status);
  }

  lemma {:induction false} OrderedAdd(t: int, ops: seq<Op>, op: Op)
    requires Ordered(t, ops) && Latest(t, ops) <= op.now
    ensures Ordered(t, ops + [op]) && Latest(t, ops + [op]) == op.now
    decreases |ops|
  {
    if ops == [] {
    } else {
      assert (ops + [op])[1..] == ops[1..] + [op];
      OrderedAdd(ops[0].now, ops[1..], op);
    }
  }

  // --- What a counter remembers --------------------------------------------

  /** Long enough that a counter in use in this window is never forgotten. */
  predicate KeepsWindow(cfg: Config) {
    cfg.idleRetentionMs >= cfg.windowMs
  }

  /** Every request of `scope` in window k came by time t. */
  ghost predicate DoneBy(log: seq<Entry>, scope: Scope, k: int, t: int, w: int)
    requires w > 0
  {
    forall i :: 0 <= i < |log| && Covers(scope, log[i]) && Index(log[i].time, w) == k ==> log[i].time <= t
  }

  /** The exact counter, but for a previous window that may be missing if all of it is at
      least `retention` old. */
  ghost predicate Recalls(s: Window, log: seq<Entry>, scope: Scope, w: int, retention: int)
    requires w > 0
  {
    var x := Exact(log, scope, s.lastSeen, w);
    s == x || (s == x.(previous := 0) && DoneBy(log, scope, Index(s.lastSeen, w) - 1, s.lastSeen - retention, w))
  }

  /** No more than the exact counter. */
  ghost predicate Undercounts(s: Window, log: seq<Entry>, scope: Scope, w: int)
    requires w > 0
  {
    var x := Exact(log, scope, s.lastSeen, w);
    s.start == x.start && s.current <= x.current && s.previous <= x.previous
  }

  lemma RollUndercounts(s: Window, log: seq<Entry>, scope: Scope, now: int, w: int)
    requires w > 0 && Undercounts(s, log, scope, w) && AllBy(log, scope, s.lastSeen) && s.lastSeen <= now
    ensures Undercounts(RollWindow(s, now, w), log, scope, w) && RollWindow(s, now, w).lastSeen == now
  {
    var x := Exact(log, scope, s.lastSeen, w);
    RollExact(log, scope, s.lastSeen, now, w);
    RollIsRolled(x, now, w);
    RollByIndex(x, now, w);
    RollByIndex(s, now, w);
  }

  lemma RollRecalls(s: Window, log: seq<Entry>, scope: Scope, now: int, w: int, retention: int)
    requires w > 0 && Recalls(s, log, scope, w, retention) && AllBy(log, scope, s.lastSeen) && s.lastSeen <= now
    ensures Recalls(RollWindow(s, now, w), log, scope, w, retention)
  {
    var x := Exact(log, scope, s.lastSeen, w);
    RollExact(log, scope, s.lastSeen, now, w);
    RollIsRolled(x, now, w);
    RollByIndex(x, now, w);
    RollByIndex(s, now, w);
  }

  /** A counter created anew, when all earlier requests are at least a window old. */
  lemma CreatedRecalls(log: seq<Entry>, scope: Scope, now: int, w: int, retention: int)
    requires w > 0 && (retention >= w || log == [])
    requires forall i :: 0 <= i < |log| && Covers(scope, log[i]) ==> log[i].time + retention <= now
    ensures Recalls(CreateState(now, w), log, scope, w, retention)
  {
    var k := Index(now, w);
    CountNone(log, scope, k * w, (k + 1) * w);
  }

  lemma ChargeRecalls(s: Window, log: seq<Entry>, scope: Scope, id: string, w: int, retention: int)
    requires w > 0 && Covers(scope, Entry(id, s.lastSeen)) && Recalls(s, log, scope, w, retention)
    ensures Recalls(Charge(s, true), log + [Entry(id, s.lastSeen)], scope, w, retention)
  {
    ExactAppend(log, id, s.lastSeen, scope, w);
  }

  lemma ChargeUndercounts(s: Window, log: seq<Entry>, scope: Scope, id: string, w: int)
    requires w > 0 && Covers(scope, Entry(id, s.lastSeen)) && Undercounts(s, log, scope, w)
    ensures Undercounts(Charge(s, true), log + [Entry(id, s.lastSeen)], scope, w)
  {
    ExactAppend(log, id, s.lastSeen, scope, w);
  }

  /** What is known of one tracked attestor. */
  ghost predicate Holds(s: Window, log: seq<Entry>, id: string, t: int, w: int, retention: int)
    requires w > 0
  {
    && Undercounts(s, log, Attestor(id), w)
    && AllBy(log, Attestor(id), s.lastSeen)
    && s.lastSeen <= t
    && (retention >= w || log == [] ==> Recalls(s, log, Attestor(id), w, retention))
  }

  /** What is known at time t of a limiter that has admitted `log`. */
  ghost predicate Knows(cfg: Config, st: State, log: seq<Entry>, t: int)
    requires ValidConfig(cfg)
  {
    && Tracks(st.global, log, Everyone, t, cfg.windowMs)
    && (forall id :: id in st.perAttestor ==> Holds(st.perAttestor[id], log, id, t, cfg.windowMs, cfg.idleRetentionMs))
    && (forall i :: 0 <= i < |log| && log[i].id !in st.perAttestor ==> log[i].time + cfg.idleRetentionMs <= t)
  }

  lemma PruneKnows(cfg: Config, st: State, log: seq<Entry>, t: int, now: int, calls: int)
    requires ValidConfig(cfg) && Knows(cfg, st, log, t) && t <= now
    ensures Knows(cfg, State(Prune(cfg, st.perAttestor, now), st.global, calls), log, now)
    ensures Knows(cfg, st.(callsSincePrune := calls), log, now)
  {
  }

  lemma TickKnows(cfg: Config, st: State, log: seq<Entry>, t: int, now: int)
    requires ValidConfig(cfg) && Knows(cfg, st, log, t) && t <= now
    ensures Knows(cfg, Tick(cfg, st, now), log, now)
  {
    PruneKnows(cfg, st, log, t, now, 0);
    PruneKnows(cfg, st, log, t, now, st.callsSincePrune + 1);
    PruneKnows(cfg, st, log, t, now, st.callsSincePrune);
    assert st.(callsSincePrune := st.callsSincePrune) == st;
  }

  /** The attestor's counter that a call decides on. */
  function Consulted(cfg: Config, st: State, id: string, now: int): Window
    requires ValidConfig(cfg)
  {
    var tracked := Tick(cfg, st, now).perAttestor;
    RollWindow(if id in tracked then tracked[id] else CreateState(now, cfg.windowMs), now, cfg.windowMs)
  }

  lemma FoundHolds(cfg: Config, st: State, log: seq<Entry>, id: string, now: int)
    requires ValidConfig(cfg) && Knows(cfg, st, log, now)
    ensures
      var w := cfg.windowMs;
      var a := RollWindow(if id in st.perAttestor then st.perAttestor[id] else CreateState(now, w), now, w);
      a.lastSeen == now && Holds(a, log, id, now, w, cfg.idleRetentionMs)
  {
    var w, R := cfg.windowMs, cfg.idleRetentionMs;
    var s := if id in st.perAttestor then st.perAttestor[id] else CreateState(now, w);
    if id !in st.perAttestor && (R >= w || log == []) {
      CreatedRecalls(log, Attestor(id), now, w, R);
    }
    RollUndercounts(s, log, Attestor(id), now, w);
    if R >= w || log == [] {
      RollRecalls(s, log, Attestor(id), now, w, R);
    }
  }

  lemma OtherHolds(s: Window, log: seq<Entry>, other: string, e: Entry, t: int, w: int, retention: int)
    requires w > 0 && other != e.id && Holds(s, log, other, t, w, retention)
    ensures Holds(s, log + [e], other, t, w, retention)
  {
    ExactAppendOther(log, e, Attestor(other), s.lastSeen, w);
  }

  lemma ChargeHolds(s: Window, log: seq<Entry>, id: string, w: int, retention: int)
    requires w > 0 && Holds(s, log, id, s.lastSeen, w, retention)
    ensures Holds(Charge(s, true), log + [Entry(id, s.lastSeen)], id, s.lastSeen, w, retention)
  {
    ChargeUndercounts(s, log, Attestor(id), id, w);
    if retention >= w {
      ChargeRecalls(s, log, Attestor(id), id, w, retention);
    }
  }

  /** A call decides on what is known, and what is known grows with it. */
  lemma CallKnows(cfg: Config, st: State, log: seq<Entry>, t: int, id: string, now: int)
    requires ValidConfig(cfg) && Knows(cfg, st, log, t) && t <= now
    ensures
      var (st', status) := Step(cfg, st, Call(id, now));
      var a := Consulted(cfg, st, id, now);
      && a.lastSeen == now && Holds(a, log, id, now, cfg.windowMs, cfg.idleRetentionMs)
      && status == Some(Decide(cfg, a, Exact(log, Everyone, now, cfg.windowMs), now))
      && Knows(cfg, st', Grown(log, Call(id, now), status), now)
  {
    var w, R := cfg.windowMs, cfg.idleRetentionMs;
    var ticked, a := Tick(cfg, st, now), Consulted(cfg, st, id, now);
    TickKnows(cfg, st, log, t, now);
    FoundHolds(cfg, ticked, log, id, now);
    RollExact(log, Everyone, ticked.global.lastSeen, now, w);
    var (st', status) := Step(cfg, st, Call(id, now));
    if status.value.allowed {
      var e := Entry(id, now);
      ChargeHolds(a, log, id, w, R);
      ChargeRefines(Exact(log, Everyone, now, w), log, Everyone, id, now, w);
      forall other | other in st'.perAttestor
        ensures Holds(st'.perAttestor[other], log + [e], other, now, w, R)
      {
        if other != id {
          OtherHolds(ticked.perAttestor[other], log, other, e, now, w, R);
        }
      }
    }
  }

  lemma CallDecides(cfg: Config, st: State, log: seq<Entry>, t: int, id: string, now: int)
    requires ValidConfig(cfg) && Knows(cfg, st, log, t) && t <= now
    ensures Step(cfg, st, Call(id, now)).1
         == Some(Decide(cfg, Consulted(cfg, st, id, now), Exact(log, Everyone, now, cfg.windowMs), now))
  {
    CallKnows(cfg, st, log, t, id, now);
  }

  lemma StepKnows(cfg: Config, st: State, log: seq<Entry>, t: int, op: Op)
    requires ValidConfig(cfg) && Knows(cfg, st, log, t) && t <= op.now
    ensures Knows(cfg, Step(cfg, st, op).0, Grown(log, op, Step(cfg, st, op).1), op.now)
  {
    match op
    case Call(id, now) => CallKnows(cfg, st, log, t, id, now);
    case Sweep(now) => PruneKnows(cfg, st, log, t, now, st.callsSincePrune);
  }

  // --- What is admitted --------------------------------------------------------

  /** Request e, after `log`, fitted the limit of `scope`: exactly, or with nothing of the
      previous window less than a window old. */
  ghost predicate Passes(limit: real, log: seq<Entry>, e: Entry, scope: Scope, w: int)
    requires w > 0
  {
    var k := Index(e.time, w);
    && InWindow(log, scope, k, w) as real + 1.0 <= limit
    && (Fits(EstimateCount(Exact(log, scope, e.time, w), e.time, w), limit) || DoneBy(log, scope, k - 1, e.time - w, w))
  }

  /** Every request of `scope` passed when it came. */
  ghost predicate Vetted(limit: real, log: seq<Entry>, scope: Scope, w: int)
    requires w > 0
  {
    Sorted(log) && forall i :: 0 <= i < |log| && Covers(scope, log[i]) ==> Passes(limit, log[..i], log[i], scope, w)
  }

  /** The scopes whose limit is enforced: the global one always, an attestor's own when its
      counter is kept for a window. */
  predicate Enforced(cfg: Config, scope: Scope) {
    scope.Everyone? || KeepsWindow(cfg)
  }

  lemma EstimateBelow(s: Window, x: Window, now: int, w: int)
    requires w > 0 && s.start == x.start && s.current <= x.current && s.previous <= x.previous
    ensures EstimateCount(s, now, w) <= EstimateCount(x, now, w)
  {
    var overlap := Min(1.0, Max(0.0, 1.0 - (now - s.start) as real / w as real));
    MulMonotone(overlap, s.previous as real, x.previous as real);
  }

  lemma EstimateWithout(s: Window, now: int, w: int)
    requires w > 0 && s.previous == 0
    ensures EstimateCount(s, now, w) == s.current as real
  {
  }

  lemma AllowedPasses(cfg: Config, a: Window, log: seq<Entry>, id: string, now: int, scope: Scope)
    requires ValidConfig(cfg) && a.lastSeen == now && Holds(a, log, id, now, cfg.windowMs, cfg.idleRetentionMs)
    requires Decide(cfg, a, Exact(log, Everyone, now, cfg.windowMs), now).allowed
    requires Enforced(cfg, scope) && Covers(scope, Entry(id, now))
    ensures Passes(Limit(cfg, scope), log, Entry(id, now), scope, cfg.windowMs)
  {
    var w := cfg.windowMs;
    var x := Exact(log, scope, now, w);
    EstimateNonNegative(x, now, w);
    EstimateNonNegative(a, now, w);
    if scope.Attestor? && a != x {
      EstimateWithout(a, now, w);
    }
  }

  lemma AllowedNeedsOne(cfg: Config, a: Window, g: Window, now: int)
    requires ValidConfig(cfg) && Decide(cfg, a, g, now).allowed
    ensures cfg.perAttestorLimit >= 1.0
  {
    EstimateNonNegative(a, now, cfg.windowMs);
  }

  lemma VettedAppend(limit: real, log: seq<Entry>, e: Entry, scope: Scope, w: int)
    requires w > 0 && Vetted(limit, log, scope, w) && AllBy(log, Everyone, e.time)
    requires Covers(scope, e) ==> Passes(limit, log, e, scope, w)
    ensures Vetted(limit, log + [e], scope, w)
  {
    var log' := log + [e];
    forall i | 0 <= i < |log'| && Covers(scope, log'[i])
      ensures Passes(limit, log'[..i], log'[i], scope, w)
    {
      if i < |log| {
        assert log'[..i] == log[..i];
      } else {
        assert log'[..i] == log;
      }
    }
  }

  /** A log as a limiter with this configuration can leave it. */
  ghost predicate Lawful(cfg: Config, log: seq<Entry>)
    requires ValidConfig(cfg)
  {
    && (cfg.perAttestorLimit < 1.0 ==> log == [])
    && forall scope: Scope :: Enforced(cfg, scope) ==> Vetted(Limit(cfg, scope), log, scope, cfg.windowMs)
  }

  lemma StepLawful(cfg: Config, st: State, log: seq<Entry>, t: int, op: Op)
    requires ValidConfig(cfg) && Knows(cfg, st, log, t) && t <= op.now && Lawful(cfg, log)
    ensures Lawful(cfg, Grown(log, op, Step(cfg, st, op).1))
  {
    if op.Call? {
      CallKnows(cfg, st, log, t, op.id, op.now);
      var a := Consulted(cfg, st, op.id, op.now);
      if Step(cfg, st, op).1.value.allowed {
        AllowedNeedsOne(cfg, a, Exact(log, Everyone, op.now, cfg.windowMs), op.now);
        forall scope: Scope | Enforced(cfg, scope)
          ensures Vetted(Limit(cfg, scope), log + [Entry(op.id, op.now)], scope, cfg.windowMs)
        {
          if Covers(scope, Entry(op.id, op.now)) {
            AllowedPasses(cfg, a, log, op.id, op.now, scope);
          }
          VettedAppend(Limit(cfg, scope), log, Entry(op.id, op.now), scope, cfg.windowMs);
        }
      }
    }
  }

  lemma GrownFrom(log: seq<Entry>, op: Op, status: Option<Status>, rest: seq<Entry>)
    ensures log + (Grown([], op, status) + rest) == Grown(log, op, status) + rest
  {
  }

  /** What a run admits, first operation first. */
  lemma AcceptedHead(cfg: Config, st: State, log: seq<Entry>, ops: seq<Op>)
    requires ValidConfig(cfg) && ops != []
    ensures
      var (st', status) := Step(cfg, st, ops[0]);
      log + Accepted(ops, Statuses(cfg, st, ops))
      == Grown(log, ops[0], status) + Accepted(ops[1..], Statuses(cfg, st', ops[1..]))
  {
    var (st', status) := Step(cfg, st, ops[0]);
    StatusesHead(cfg, st, ops);
    GrownFrom(log, ops[0], status, Accepted(ops[1..], Statuses(cfg, st', ops[1..])));
  }

  lemma StatusesHead(cfg: Config, st: State, ops: seq<Op>)
    requires ValidConfig(cfg) && ops != []
    ensures
      var (st', status) := Step(cfg, st, ops[0]);
      Statuses(cfg, st, ops)[0] == status && Statuses(cfg, st, ops)[1..] == Statuses(cfg, st', ops[1..])
  {
  }

  /** Known at time t, and lawful. */
  ghost predicate Sound(cfg: Config, st: State, log: seq<Entry>, t: int)
    requires ValidConfig(cfg)
  {
    Knows(cfg, st, log, t) && Lawful(cfg, log)
  }

  lemma StepSound(cfg: Config, st: State, log: seq<Entry>, t: int, op: Op)
    requires ValidConfig(cfg) && Sound(cfg, st, log, t) && t <= op.now
    ensures Sound(cfg, Step(cfg, st, op).0, Grown(log, op, Step(cfg, st, op).1), op.now)
  {
    StepKnows(cfg, st, log, t, op);
    StepLawful(cfg, st, log, t, op);
  }

  lemma {:induction false} RunSoundFrom(cfg: Config, st: State, log: seq<Entry>, t: int, ops: seq<Op>)
    requires ValidConfig(cfg) && Sound(cfg, st, log, t) && Ordered(t, ops)
    ensures Sound(cfg, Run(cfg, st, ops), log + Accepted(ops, Statuses(cfg, st, ops)), Latest(t, ops))
    decreases |ops|
  {
    if ops == [] {
      assert log + [] == log;
    } else {
      var (st', status) := Step(cfg, st, ops[0]);
      StepSound(cfg, st, log, t, ops[0]);
      RunSoundFrom(cfg, st', Grown(log, ops[0], status), ops[0].now, ops[1..]);
      AcceptedHead(cfg, st, log, ops);
    }
  }

  /** Every run of every configuration, whatever its retention: what the limiter knows of the
      requests it admitted, and that each of them passed every limit that is enforced. */
  lemma RunSound(cfg: Config, t0: int, ops: seq<Op>)
    requires ValidConfig(cfg) && Ordered(t0, ops)
    ensures Sound(cfg, Run(cfg, InitialState(cfg, t0), ops), AcceptedInRun(cfg, t0, ops), Latest(t0, ops))
  {
    RunSoundFrom(cfg, InitialState(cfg, t0), [], t0, ops);
    assert [] + AcceptedInRun(cfg, t0, ops) == AcceptedInRun(cfg, t0, ops);
  }

  // --- Caps ---------------------------------------------------------------------

  lemma VettedPrefix(limit: real, log: seq<Entry>, scope: Scope, w: int)
    requires w > 0 && log != [] && Vetted(limit, log, scope, w)
    ensures Vetted(limit, log[..|log| - 1], scope, w)
  {
    var rest := log[..|log| - 1];
    forall i | 0 <= i < |rest| && Covers(scope, rest[i])
      ensures Passes(limit, rest[..i], rest[i], scope, w)
    {
      assert rest[..i] == log[..i];
    }
  }

  /** p * (w - x) + a * w shrinks as a shrinks and as x grows. */
  lemma Weaken(p: nat, x: int, x': int, a: nat, a': nat, w: int, cap: int)
    requires w > 0 && x <= x' && a' <= a
    requires p * (w - x) + a * w <= cap
    ensures p * (w - x') + a' * w <= cap
  {
    assert p * (w - x') <= p * (w - x);
    Scaled(a', a, w);
  }

  /** What window k may hold by offset e: never more than the limit, and no more than what
      the previous window leaves at e (all times windowMs), unless nothing of that window is
      less than windowMs old any more. */
  ghost predicate Capped(limit: real, log: seq<Entry>, scope: Scope, k: int, e: int, w: int)
    requires w > 0
  {
    var a := Count(log, scope, k * w, k * w + e + 1);
    a > 0 ==>
      && a as real <= limit
      && (InWindow(log, scope, k - 1, w) * (w - e) + a * w <= Cap(limit, w)
          || DoneBy(log, scope, k - 1, k * w + e - w, w))
  }

  lemma {:induction false} WeighedCap(limit: real, log: seq<Entry>, scope: Scope, k: int, e: int, w: int)
    requires 0 <= e < w && Vetted(limit, log, scope, w)
    ensures Capped(limit, log, scope, k, e, w)
  {
    if log == [] {
    } else {
      var rest, last := log[..|log| - 1], log[|log| - 1];
      if Covers(scope, last) && k * w <= last.time <= k * w + e {
        CappedLast(limit, log, scope, k, e, w);
      } else if Covers(scope, last) && last.time < k * w {
        CountNone(log, scope, k * w, k * w + e + 1);
      } else {
        VettedPrefix(limit, log, scope, w);
        WeighedCap(limit, rest, scope, k, e, w);
        SkipLast(log, scope, k, e, w);
      }
    }
  }

  /** A request after offset e, or of somebody else, changes neither count. */
  lemma SkipLast(log: seq<Entry>, scope: Scope, k: int, e: int, w: int)
    requires 0 <= e < w && log != []
    requires !Covers(scope, log[|log| - 1]) || log[|log| - 1].time > k * w + e
    ensures
      var rest := log[..|log| - 1];
      && InWindow(log, scope, k - 1, w) == InWindow(rest, scope, k - 1, w)
      && Count(log, scope, k * w, k * w + e + 1) == Count(rest, scope, k * w, k * w + e + 1)
      && (DoneBy(rest, scope, k - 1, k * w + e - w, w) ==> DoneBy(log, scope, k - 1, k * w + e - w, w))
  {
    var rest, last := log[..|log| - 1], log[|log| - 1];
    if Covers(scope, last) {
      LaterWindow(last.time, k, w);
    }
    forall i | 0 <= i < |log| && DoneBy(rest, scope, k - 1, k * w + e - w, w)
            && Covers(scope, log[i]) && Index(log[i].time, w) == k - 1
      ensures log[i].time <= k * w + e - w
    {
      if i < |rest| {
        assert rest[i] == log[i];
      }
    }
  }

  lemma LaterWindow(t: int, k: int, w: int)
    requires w > 0 && t >= k * w
    ensures Index(t, w) != k - 1
  {
  }

  lemma CappedLast(limit: real, log: seq<Entry>, scope: Scope, k: int, e: int, w: int)
    requires 0 <= e < w && log != [] && Vetted(limit, log, scope, w)
    requires Covers(scope, log[|log| - 1]) && k * w <= log[|log| - 1].time <= k * w + e
    ensures Capped(limit, log, scope, k, e, w)
  {
    var last := log[|log| - 1];
    assert Passes(limit, log[..|log| - 1], last, scope, w);
    IndexUnique(last.time, w, k);
    CappedByLast(limit, log, scope, k, e, w);
  }

  lemma CappedByLast(limit: real, log: seq<Entry>, scope: Scope, k: int, e: int, w: int)
    requires 0 <= e < w && log != [] && Passes(limit, log[..|log| - 1], log[|log| - 1], scope, w)
    requires Index(log[|log| - 1].time, w) == k && log[|log| - 1].time <= k * w + e
    ensures Capped(limit, log, scope, k, e, w)
  {
    var rest, last := log[..|log| - 1], log[|log| - 1];
    LastCounts(log, scope, k, e, w);
    if Fits(EstimateCount(Exact(rest, scope, last.time, w), last.time, w), limit) {
      LastWeighs(limit, log, scope, k, e, w);
    } else {
      StillDone(log, scope, k, last.time - w, k * w + e - w, w);
    }
  }

  lemma LastWeighs(limit: real, log: seq<Entry>, scope: Scope, k: int, e: int, w: int)
    requires 0 <= e < w && log != []
    requires Index(log[|log| - 1].time, w) == k && log[|log| - 1].time <= k * w + e
    requires
      var last := log[|log| - 1];
      Fits(EstimateCount(Exact(log[..|log| - 1], scope, last.time, w), last.time, w), limit)
    ensures InWindow(log, scope, k - 1, w) * (w - e) + Count(log, scope, k * w, k * w + e + 1) * w <= Cap(limit, w)
  {
    var rest, last := log[..|log| - 1], log[|log| - 1];
    LastCounts(log, scope, k, e, w);
    FitsScaled(Exact(rest, scope, last.time, w), limit, last.time, w);
    Weaken(InWindow(rest, scope, k - 1, w), last.time - k * w, e,
           InWindow(rest, scope, k, w) + 1, Count(log, scope, k * w, k * w + e + 1), w, Cap(limit, w));
  }

  /** A last request in window k does not change when window k - 1 was done. */
  lemma StillDone(log: seq<Entry>, scope: Scope, k: int, t: int, t': int, w: int)
    requires w > 0 && log != [] && Index(log[|log| - 1].time, w) != k - 1 && t <= t'
    requires DoneBy(log[..|log| - 1], scope, k - 1, t, w)
    ensures DoneBy(log, scope, k - 1, t', w)
  {
    var rest := log[..|log| - 1];
    forall i | 0 <= i < |log| && Covers(scope, log[i]) && Index(log[i].time, w) == k - 1
      ensures log[i].time <= t'
    {
      assert rest[i] == log[i];
    }
  }

  lemma LastCounts(log: seq<Entry>, scope: Scope, k: int, e: int, w: int)
    requires 0 <= e < w && log != [] && log[|log| - 1].time >= k * w
    ensures
      var rest := log[..|log| - 1];
      && InWindow(log, scope, k - 1, w) == InWindow(rest, scope, k - 1, w)
      && Count(log, scope, k * w, k * w + e + 1) <= InWindow(rest, scope, k, w) + 1
      && (InWindow(rest, scope, k, w) + 1) * w == InWindow(rest, scope, k, w) * w + w
  {
    var rest := log[..|log| - 1];
    CountSplit(rest, scope, k * w, k * w + e + 1, (k + 1) * w);
    OneMoreWindow(InWindow(rest, scope, k, w), w);
  }

  lemma OneMoreWindow(x: int, w: int)
    ensures (x + 1) * w == x * w + w
  {
  }

  lemma WindowCap(limit: real, log: seq<Entry>, scope: Scope, k: int, w: int)
    requires w > 0 && limit > 0.0 && Vetted(limit, log, scope, w)
    ensures InWindow(log, scope, k, w) as real <= limit
  {
    WeighedCap(limit, log, scope, k, w - 1, w);
    assert k * w + (w - 1) + 1 == (k + 1) * w;
  }
}
