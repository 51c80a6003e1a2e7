/** What a `RateLimiter` does, call by call, as functions on values; whole runs of it; and
    the reference limiter that decides from the full request log. */
module RateLimiterModel {
  import opened Prelude
  import opened SlidingWindow
  import opened RequestLog

  datatype Config = Config(
    perAttestorLimit: real,
    globalLimit: real,
    windowMs: int,
    idleRetentionMs: int,
    pruneIntervalCalls: int)

  /** The configurations the constructor does not reject. */
  predicate ValidConfig(cfg: Config) {
    cfg.windowMs > 0 && 0.0 < cfg.perAttestorLimit <= cfg.globalLimit
  }

  function Limit(cfg: Config, scope: Scope): real {
    if scope.Everyone? then cfg.globalLimit else cfg.perAttestorLimit
  }

  datatype LimitedBy = ByAttestor | ByGlobal

  datatype Status = Status(
    allowed: bool,
    remaining: int,
    remainingGlobal: int,
    retryAfterMs: int,
    limitedBy: Option<LimitedBy>)

  datatype State = State(perAttestor: map<string, Window>, global: Window, callsSincePrune: int)

  function InitialState(cfg: Config, t0: int): State
    requires ValidConfig(cfg)
  {
    State(map[], CreateState(t0, cfg.windowMs), 0)
  }

  // --- One call -----------------------------------------------------------

  function Prune(cfg: Config, tracked: map<string, Window>, now: int): map<string, Window> {
    map id | id in tracked && now - tracked[id].lastSeen < cfg.idleRetentionMs :: tracked[id]
  }

  /** The opportunistic sweep at the head of `checkAndConsume`. */
  function Tick(cfg: Config, st: State, now: int): State {
    if cfg.pruneIntervalCalls <= 0 then st
    else if st.callsSincePrune + 1 >= cfg.pruneIntervalCalls then
      State(Prune(cfg, st.perAttestor, now), st.global, 0)
    else st.(callsSincePrune := st.callsSincePrune + 1)
  }

  predicate Fits(estimate: real, limit: real) {
    estimate + 1.0 <= limit
  }

  /** Whole requests left once the estimate is `estimate`. */
  function Room(limit: real, estimate: real): int {
    var left := (limit - estimate).Floor;
    if left < 0 then 0 else left
  }

  /** The status of a request at `now`, given the two estimates. */
  function DecideOn(cfg: Config, attestorEstimate: real, globalEstimate: real, now: int): Status
    requires ValidConfig(cfg)
  {
    var attestorOk := Fits(attestorEstimate, cfg.perAttestorLimit);
    var globalOk := Fits(globalEstimate, cfg.globalLimit);
    var allowed := attestorOk && globalOk;
    var charge := if allowed then 1.0 else 0.0;
    Status(
      allowed,
      Room(cfg.perAttestorLimit, attestorEstimate + charge),
      Room(cfg.globalLimit, globalEstimate + charge),
      if allowed then 0 else cfg.windowMs - (now - AlignToWindow(now, cfg.windowMs)),
      if allowed then None else Some(if !attestorOk then ByAttestor else ByGlobal))
  }

  /** The same, from the two counters rolled to `now`. */
  function Decide(cfg: Config, a: Window, g: Window, now: int): Status
    requires ValidConfig(cfg)
  {
    DecideOn(cfg, EstimateCount(a, now, cfg.windowMs), EstimateCount(g, now, cfg.windowMs), now)
  }

  function Charge(s: Window, allowed: bool): Window {
    if allowed then s.(current := s.current + 1) else s
  }

  function CheckAndConsume(cfg: Config, st: State, id: string, now: int): (State, Status)
    requires ValidConfig(cfg)
  {
    var w := cfg.windowMs;
    var ticked := Tick(cfg, st, now);
    var found := if id in ticked.perAttestor then ticked.perAttestor[id] else CreateState(now, w);
    var a := RollWindow(found, now, w);
    var g := RollWindow(ticked.global, now, w);
    var status := Decide(cfg, a, g, now);
    (State(ticked.perAttestor[id := Charge(a, status.allowed)],
           Charge(g, status.allowed),
           ticked.callsSincePrune),
     status)
  }

  // --- Runs ---------------------------------------------------------------

  datatype Op = Call(id: string, now: int) | Sweep(now: int)

  /** The clock never goes back. */
  predicate Ordered(t: int, ops: seq<Op>)
    decreases |ops|
  {
    ops == [] || (t <= ops[0].now && Ordered(ops[0].now, ops[1..]))
  }

  function Step(cfg: Config, st: State, op: Op): (State, Option<Status>)
    requires ValidConfig(cfg)
  {
    match op
    case Call(id, now) =>
      var (st', status) := CheckAndConsume(cfg, st, id, now);
      (st', Some(status))
    case Sweep(now) =>
      (st.(perAttestor := Prune(cfg, st.perAttestor, now)), None)
  }

  /** Final state of a run. */
  function Run(cfg: Config, st: State, ops: seq<Op>): State
    requires ValidConfig(cfg)
    decreases |ops|
  {
    if ops == [] then st else Run(cfg, Step(cfg, st, ops[0]).0, ops[1..])
  }

  /** What each operation of a run reports; a sweep reports no status. */
  function Statuses(cfg: Config, st: State, ops: seq<Op>): (r: seq<Option<Status>>)
    requires ValidConfig(cfg)
    ensures |r| == |ops|
    decreases |ops|
  {
    if ops == [] then []
    else
      var (st', status) := Step(cfg, st, ops[0]);
      [status] + Statuses(cfg, st', ops[1..])
  }

  function Latest(t: int, ops: seq<Op>): int
    decreases |ops|
  {
    if ops == [] then t else Latest(ops[0].now, ops[1..])
  }

  // --- The reference: decide from the full log -----------------------------

  function LogDecide(cfg: Config, log: seq<Entry>, id: string, now: int): Status
    requires ValidConfig(cfg)
  {
    Decide(cfg, Exact(log, Attestor(id), now, cfg.windowMs), Exact(log, Everyone, now, cfg.windowMs), now)
  }

  function LogStep(cfg: Config, log: seq<Entry>, op: Op): (seq<Entry>, Option<Status>)
    requires ValidConfig(cfg)
  {
    match op
    case Call(id, now) =>
      var status := LogDecide(cfg, log, id, now);
      (if status.allowed then log + [Entry(id, now)] else log, Some(status))
    case Sweep(_) => (log, None)
  }

  /** The accepted requests of a run. */
  function LogRun(cfg: Config, log: seq<Entry>, ops: seq<Op>): seq<Entry>
    requires ValidConfig(cfg)
    decreases |ops|
  {
    if ops == [] then log else LogRun(cfg, LogStep(cfg, log, ops[0]).0, ops[1..])
  }

  function LogStatuses(cfg: Config, log: seq<Entry>, ops: seq<Op>): (r: seq<Option<Status>>)
    requires ValidConfig(cfg)
    ensures |r| == |ops|
    decreases |ops|
  {
    if ops == [] then []
    else
      var (log', status) := LogStep(cfg, log, ops[0]);
      [status] + LogStatuses(cfg, log', ops[1..])
  }
}
