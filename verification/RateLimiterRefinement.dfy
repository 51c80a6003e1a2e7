/** The two-counter limiter refines the limiter that keeps every request, as long as
    pruning waits two windows; and pruning bounds what it keeps. */
module RateLimiterRefinement {
  import opened Prelude
  import opened SlidingWindow
  import opened RequestLog
  import opened RateLimiterModel

  /** Retention long enough for a pruned counter to have decayed; the default is exactly this. */
  predicate KeepsTwoWindows(cfg: Config) {
    cfg.idleRetentionMs >= 2 * cfg.windowMs
  }

  ghost predicate Tracks(s: Window, log: seq<Entry>, scope: Scope, t: int, w: int)
    requires w > 0
  {
    && s == Exact(log, scope, s.lastSeen, w)
    && AllBy(log, scope, s.lastSeen)
    && s.lastSeen <= t
  }

  /** The counters at time `t` are exact for `log`, and whoever is not tracked has been
      silent for two windows. */
  ghost predicate Refines(cfg: Config, st: State, log: seq<Entry>, t: int)
    requires ValidConfig(cfg)
  {
    && Tracks(st.global, log, Everyone, t, cfg.windowMs)
    && (forall id :: id in st.perAttestor ==> Tracks(st.perAttestor[id], log, Attestor(id), t, cfg.windowMs))
    && (forall i :: 0 <= i < |log| && log[i].id !in st.perAttestor ==>
          Index(log[i].time, cfg.windowMs) + 2 <= Index(t, cfg.windowMs))
  }

  lemma PruneRefines(cfg: Config, st: State, log: seq<Entry>, t: int, now: int, calls: int)
    requires ValidConfig(cfg) && KeepsTwoWindows(cfg)
    requires Refines(cfg, st, log, t) && t <= now
    ensures Refines(cfg, State(Prune(cfg, st.perAttestor, now), st.global, calls), log, now)
    ensures Refines(cfg, st.(callsSincePrune := calls), log, now)
  {
    var w := cfg.windowMs;
    var kept := Prune(cfg, st.perAttestor, now);
    IndexMonotone(t, now, w);
    forall i | 0 <= i < |log| && log[i].id !in kept
      ensures Index(log[i].time, w) + 2 <= Index(now, w)
    {
      if log[i].id in st.perAttestor {
        assert log[i].time <= st.perAttestor[log[i].id].lastSeen;
        IndexAfterTwoWindows(log[i].time, now, w);
      }
    }
  }

  lemma TickRefines(cfg: Config, st: State, log: seq<Entry>, t: int, now: int)
    requires ValidConfig(cfg) && KeepsTwoWindows(cfg)
    requires Refines(cfg, st, log, t) && t <= now
    ensures Refines(cfg, Tick(cfg, st, now), log, now)
  {
    PruneRefines(cfg, st, log, t, now, 0);
    PruneRefines(cfg, st, log, t, now, st.callsSincePrune + 1);
    PruneRefines(cfg, st, log, t, now, st.callsSincePrune);
    assert st.(callsSincePrune := st.callsSincePrune) == st;
  }

  /** The counter a call works on, tracked or freshly created, rolls to the exact one. */
  lemma FoundIsExact(cfg: Config, st: State, log: seq<Entry>, id: string, now: int)
    requires ValidConfig(cfg) && Refines(cfg, st, log, now)
    ensures
      var found := if id in st.perAttestor then st.perAttestor[id] else CreateState(now, cfg.windowMs);
      RollWindow(found, now, cfg.windowMs) == Exact(log, Attestor(id), now, cfg.windowMs)
  {
    var w := cfg.windowMs;
    if id in st.perAttestor {
      RollExact(log, Attestor(id), st.perAttestor[id].lastSeen, now, w);
    } else {
      ForgottenIsFresh(log, Attestor(id), now, w);
      RollIsRolled(CreateState(now, w), now, w);
      RollByIndex(CreateState(now, w), now, w);
    }
  }

  lemma ChargeRefines(s: Window, log: seq<Entry>, scope: Scope, id: string, now: int, w: int)
    requires w > 0 && Covers(scope, Entry(id, now))
    requires s == Exact(log, scope, now, w) && AllBy(log, scope, now)
    ensures Tracks(Charge(s, true), log + [Entry(id, now)], scope, now, w)
  {
    ExactAppend(log, id, now, scope, w);
  }

  lemma OthersRefine(s: Window, log: seq<Entry>, other: string, e: Entry, t: int, w: int)
    requires w > 0 && other != e.id && Tracks(s, log, Attestor(other), t, w)
    ensures Tracks(s, log + [e], Attestor(other), t, w)
  {
    ExactAppendOther(log, e, Attestor(other), s.lastSeen, w);
  }

  /** A call answers as the full log would, and keeps the refinement. */
  lemma CallRefines(cfg: Config, st: State, log: seq<Entry>, t: int, id: string, now: int)
    requires ValidConfig(cfg) && KeepsTwoWindows(cfg)
    requires Refines(cfg, st, log, t) && t <= now
    ensures
      var (st', status) := Step(cfg, st, Call(id, now));
      var (log', status') := LogStep(cfg, log, Call(id, now));
      status == status' && Refines(cfg, st', log', now)
  {
    var w := cfg.windowMs;
    var ticked := Tick(cfg, st, now);
    TickRefines(cfg, st, log, t, now);
    FoundIsExact(cfg, ticked, log, id, now);
    RollExact(log, Everyone, ticked.global.lastSeen, now, w);
    var st' := Step(cfg, st, Call(id, now)).0;
    if LogDecide(cfg, log, id, now).allowed {
      var e := Entry(id, now);
      ChargeRefines(Exact(log, Attestor(id), now, w), log, Attestor(id), id, now, w);
      ChargeRefines(Exact(log, Everyone, now, w), log, Everyone, id, now, w);
      forall other | other in st'.perAttestor
        ensures Tracks(st'.perAttestor[other], log + [e], Attestor(other), now, w)
      {
        if other != id {
          OthersRefine(ticked.perAttestor[other], log, other, e, now, w);
        }
      }
    }
  }

  lemma StepRefines(cfg: Config, st: State, log: seq<Entry>, t: int, op: Op)
    requires ValidConfig(cfg) && KeepsTwoWindows(cfg)
    requires Refines(cfg, st, log, t) && t <= op.now
    ensures Step(cfg, st, op).1 == LogStep(cfg, log, op).1
    ensures Refines(cfg, Step(cfg, st, op).0, LogStep(cfg, log, op).0, op.now)
  {
    match op
    case Call(id, now) => CallRefines(cfg, st, log, t, id, now);
    case Sweep(now) => PruneRefines(cfg, st, log, t, now, st.callsSincePrune);
  }

  lemma {:induction false} RunRefinesFrom(cfg: Config, st: State, log: seq<Entry>, t: int, ops: seq<Op>)
    requires ValidConfig(cfg) && KeepsTwoWindows(cfg)
    requires Refines(cfg, st, log, t) && Ordered(t, ops)
    ensures Statuses(cfg, st, ops) == LogStatuses(cfg, log, ops)
    ensures Refines(cfg, Run(cfg, st, ops), LogRun(cfg, log, ops), Latest(t, ops))
    decreases |ops|
  {
    if ops == [] {
    } else {
      StepRefines(cfg, st, log, t, ops[0]);
      RunRefinesFrom(cfg, Step(cfg, st, ops[0]).0, LogStep(cfg, log, ops[0]).0, ops[0].now, ops[1..]);
    }
  }

  /** Refinement: every run of the two-counter limiter answers as the full log would, and its
      counters stay exact. */
  lemma RunRefines(cfg: Config, t0: int, ops: seq<Op>)
    requires ValidConfig(cfg) && KeepsTwoWindows(cfg) && Ordered(t0, ops)
    ensures Statuses(cfg, InitialState(cfg, t0), ops) == LogStatuses(cfg, [], ops)
    ensures Refines(cfg, Run(cfg, InitialState(cfg, t0), ops), LogRun(cfg, [], ops), Latest(t0, ops))
  {
    RunRefinesFrom(cfg, InitialState(cfg, t0), [], t0, ops);
  }

  // --- Memory -----------------------------------------------------------------

  function Calls(ops: seq<Op>): nat {
    if ops == [] then 0 else Calls(ops[..|ops| - 1]) + if ops[|ops| - 1].Call? then 1 else 0
  }

  /** Time of the last call whose number is a multiple of n. */
  function LastNth(ops: seq<Op>, n: int): Option<int>
    requires n > 0
  {
    if ops == [] then None
    else if ops[|ops| - 1].Call? && Calls(ops) % n == 0 then Some(ops[|ops| - 1].now)
    else LastNth(ops[..|ops| - 1], n)
  }

  /** Nobody tracked has been idle for the retention at time `since`. */
  ghost predicate NoneIdleAt(cfg: Config, st: State, since: Option<int>) {
    since.Some? ==> forall id :: id in st.perAttestor ==>
      since.value - st.perAttestor[id].lastSeen < cfg.idleRetentionMs
  }

  lemma {:induction false} RunSnoc(cfg: Config, st: State, ops: seq<Op>, op: Op)
    requires ValidConfig(cfg)
    ensures Run(cfg, st, ops + [op]) == Step(cfg, Run(cfg, st, ops), op).0
    decreases |ops|
  {
    if ops == [] {
      assert ([] + [op])[1..] == [];
    } else {
      assert (ops + [op])[1..] == ops[1..] + [op];
      RunSnoc(cfg, Step(cfg, st, ops[0]).0, ops[1..], op);
    }
  }

  lemma {:induction false} OrderedSnoc(t: int, ops: seq<Op>, op: Op)
    requires Ordered(t, ops + [op])
    ensures Ordered(t, ops) && Latest(t, ops) <= op.now && t <= Latest(t, ops)
    ensures Latest(t, ops + [op]) == op.now
    decreases |ops|
  {
    if ops == [] {
    } else {
      assert (ops + [op])[1..] == ops[1..] + [op];
      OrderedSnoc(ops[0].now, ops[1..], op);
    }
  }

  lemma DivMod(x: int, n: int)
    requires n > 0
    ensures x == Index(x, n) * n + x % n && 0 <= x % n < n
  {
  }

  lemma NextCall(c: nat, n: int)
    requires n > 0
    ensures (c + 1) % n == if c % n + 1 >= n then 0 else c % n + 1
  {
    DivMod(c, n);
    DivMod(c + 1, n);
    IndexUnique(c + 1, n, if c % n + 1 >= n then Index(c, n) + 1 else Index(c, n));
  }

  lemma CallCounts(cfg: Config, st: State, op: Op)
    requires ValidConfig(cfg) && cfg.pruneIntervalCalls > 0
    ensures Step(cfg, st, op).0.callsSincePrune ==
      if op.Sweep? then st.callsSincePrune
      else if st.callsSincePrune + 1 >= cfg.pruneIntervalCalls then 0 else st.callsSincePrune + 1
  {
  }

  lemma CountedStep(cfg: Config, st: State, op: Op, calls: nat)
    requires ValidConfig(cfg) && cfg.pruneIntervalCalls > 0 && st.callsSincePrune == calls % cfg.pruneIntervalCalls
    ensures Step(cfg, st, op).0.callsSincePrune == (calls + if op.Call? then 1 else 0) % cfg.pruneIntervalCalls
  {
    CallCounts(cfg, st, op);
    NextCall(calls, cfg.pruneIntervalCalls);
  }

  /** The limiter counts its calls modulo the interval, and sweeps when it comes round. */
  lemma {:induction false} CallsCounted(cfg: Config, t0: int, ops: seq<Op>)
    requires ValidConfig(cfg) && cfg.pruneIntervalCalls > 0
    ensures Run(cfg, InitialState(cfg, t0), ops).callsSincePrune == Calls(ops) % cfg.pruneIntervalCalls
    decreases |ops|
  {
    if ops == [] {
      DivMod(0, cfg.pruneIntervalCalls);
      IndexUnique(0, cfg.pruneIntervalCalls, 0);
    } else {
      var prefix, last := ops[..|ops| - 1], ops[|ops| - 1];
      assert ops == prefix + [last];
      CallsCounted(cfg, t0, prefix);
      RunSnoc(cfg, InitialState(cfg, t0), prefix, last);
      CountedStep(cfg, Run(cfg, InitialState(cfg, t0), prefix), last, Calls(prefix));
    }
  }

  lemma CallPrunes(cfg: Config, st: State, id: string, now: int, since: Option<int>)
    requires ValidConfig(cfg) && cfg.pruneIntervalCalls > 0 && cfg.idleRetentionMs > 0
    requires NoneIdleAt(cfg, st, since) && (since.Some? ==> since.value <= now)
    ensures
      var sweeps := st.callsSincePrune + 1 >= cfg.pruneIntervalCalls;
      NoneIdleAt(cfg, Step(cfg, st, Call(id, now)).0, if sweeps then Some(now) else since)
  {
  }

  /** Bounded memory: the limiter sweeps at every pruneIntervalCalls-th call, and from then on
      tracks only attestors seen less than idleRetentionMs before that call. */
  lemma {:induction false} SweepsEveryNth(cfg: Config, t0: int, ops: seq<Op>)
    requires ValidConfig(cfg) && cfg.pruneIntervalCalls > 0 && cfg.idleRetentionMs > 0 && Ordered(t0, ops)
    ensures
      var st, since := Run(cfg, InitialState(cfg, t0), ops), LastNth(ops, cfg.pruneIntervalCalls);
      && NoneIdleAt(cfg, st, since)
      && (since.Some? ==> since.value <= Latest(t0, ops))
    decreases |ops|
  {
    if ops == [] {
    } else {
      var prefix, last := ops[..|ops| - 1], ops[|ops| - 1];
      assert ops == prefix + [last];
      OrderedSnoc(t0, prefix, last);
      SweepsEveryNth(cfg, t0, prefix);
      CallsCounted(cfg, t0, prefix);
      RunSnoc(cfg, InitialState(cfg, t0), prefix, last);
      if last.Call? {
        NextCall(Calls(prefix), cfg.pruneIntervalCalls);
        CallPrunes(cfg, Run(cfg, InitialState(cfg, t0), prefix), last.id, last.now,
                   LastNth(prefix, cfg.pruneIntervalCalls));
      }
    }
  }

  /** What one call leaves: every counter that its sweep, if it is due for one, has not found
      idle for the retention; the caller's, kept or new, and the global one are rolled to now and
      count the request if and only if it is allowed. */
  lemma CallLeaves(cfg: Config, st: State, id: string, other: string, now: int)
    requires ValidConfig(cfg)
    ensures
      var (st', status) := CheckAndConsume(cfg, st, id, now);
      var sweeps := cfg.pruneIntervalCalls > 0 && st.callsSincePrune + 1 >= cfg.pruneIntervalCalls;
      var kept := (x: string) =>
        x in st.perAttestor && !(sweeps && now - st.perAttestor[x].lastSeen >= cfg.idleRetentionMs);
      var counted := if status.allowed then 1 else 0;
      var a := RollWindow(if kept(id) then st.perAttestor[id] else CreateState(now, cfg.windowMs), now, cfg.windowMs);
      var g := RollWindow(st.global, now, cfg.windowMs);
      && id in st'.perAttestor && st'.perAttestor[id] == a.(current := a.current + counted)
      && st'.global == g.(current := g.current + counted)
      && (other != id ==> (other in st'.perAttestor <==> kept(other)))
      && (other != id && kept(other) ==> st'.perAttestor[other] == st.perAttestor[other])
  {
  }

  /** When `id` was last seen, if its counter is still there: it goes with the first sweep, asked
      for or at every n-th call, that finds it idle for the retention. */
  function StillTracked(cfg: Config, ops: seq<Op>, id: string): Option<int> {
    if ops == [] then None
    else
      var last, seen := ops[|ops| - 1], StillTracked(cfg, ops[..|ops| - 1], id);
      var sweeps := last.Sweep? || (cfg.pruneIntervalCalls > 0 && Calls(ops) % cfg.pruneIntervalCalls == 0);
      if last.Call? && last.id == id then Some(last.now)
      else if sweeps && seen.Some? && last.now - seen.value >= cfg.idleRetentionMs then None
      else seen
  }

  lemma TrackedStep(cfg: Config, st: State, op: Op, id: string, sweeps: bool)
    requires ValidConfig(cfg)
    requires sweeps <==> op.Sweep? || (cfg.pruneIntervalCalls > 0 && st.callsSincePrune + 1 >= cfg.pruneIntervalCalls)
    ensures
      var st' := Step(cfg, st, op).0;
      var dropped := sweeps && id in st.perAttestor && op.now - st.perAttestor[id].lastSeen >= cfg.idleRetentionMs;
      if op.Call? && op.id == id then id in st'.perAttestor && st'.perAttestor[id].lastSeen == op.now
      else if dropped then id !in st'.perAttestor
      else
        && (id in st'.perAttestor <==> id in st.perAttestor)
        && (id in st.perAttestor ==> st'.perAttestor[id].lastSeen == st.perAttestor[id].lastSeen)
  {
  }

  /** In every run, whatever its clock does, exactly those attestors are tracked whose counter no
      sweep has found idle for the retention, each with the time of its last call. */
  lemma {:induction false} TrackedExactly(cfg: Config, t0: int, ops: seq<Op>, id: string)
    requires ValidConfig(cfg)
    ensures
      var st, seen := Run(cfg, InitialState(cfg, t0), ops), StillTracked(cfg, ops, id);
      && (id in st.perAttestor <==> seen.Some?)
      && (seen.Some? ==> st.perAttestor[id].lastSeen == seen.value)
    decreases |ops|
  {
    if ops == [] {
    } else {
      var prefix, last := ops[..|ops| - 1], ops[|ops| - 1];
      var st := Run(cfg, InitialState(cfg, t0), prefix);
      assert ops == prefix + [last];
      TrackedExactly(cfg, t0, prefix, id);
      RunSnoc(cfg, InitialState(cfg, t0), prefix, last);
      var sweeps := last.Sweep? || (cfg.pruneIntervalCalls > 0 && st.callsSincePrune + 1 >= cfg.pruneIntervalCalls);
      if cfg.pruneIntervalCalls > 0 && last.Call? {
        CallsCounted(cfg, t0, prefix);
        NextCall(Calls(prefix), cfg.pruneIntervalCalls);
        DivMod(Calls(prefix), cfg.pruneIntervalCalls);
      }
      TrackedStep(cfg, st, last, id, sweeps);
    }
  }
}
