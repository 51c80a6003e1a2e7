/** `class RateLimiter` of `sdk/src/services/rateLimiter.ts`: mutable counters behind
    `checkAndConsume`, `prune` and `reset`, each proved against `RateLimiterModel`. */
module RateLimiting {
  import opened Prelude
  import opened SlidingWindow
  import opened RateLimiterModel

  datatype ConfigError = BadPerAttestorLimit | BadGlobalLimit | BadWindow | PerAttestorAboveGlobal

  class RateLimiter {
    const config: Config
    var perAttestor: map<string, Window>
    var global: Window
    var callsSincePrune: int

    ghost function Abstract(): State
      reads this
    {
      State(perAttestor, global, callsSincePrune)
    }

    constructor (config: Config, now: int)
      requires ValidConfig(config)
      ensures this.config == config && Abstract() == InitialState(config, now)
    {
      this.config := config;
      perAttestor := map[];
      global := CreateState(now, config.windowMs);
      callsSincePrune := 0;
    }

    method CheckAndConsume(attestorId: string, now: int) returns (status: Status)
      requires ValidConfig(config)
      modifies this
      ensures (Abstract(), status) == RateLimiterModel.CheckAndConsume(config, old(Abstract()), attestorId, now)
    {
      CountCall(now);
      ghost var ticked := perAttestor;
      if attestorId !in perAttestor {
        perAttestor := perAttestor[attestorId := CreateState(now, config.windowMs)];
      }
      var attestorState := RollWindow(perAttestor[attestorId], now, config.windowMs);
      global := RollWindow(global, now, config.windowMs);

      var attestorEstimate := EstimateCount(attestorState, now, config.windowMs);
      var globalEstimate := EstimateCount(global, now, config.windowMs);
      status := Judge(attestorEstimate, globalEstimate, now);
      assert status == Decide(config, attestorState, global, now);

      if status.allowed {
        attestorState := attestorState.(current := attestorState.current + 1);
        global := global.(current := global.current + 1);
      }
      perAttestor := perAttestor[attestorId := attestorState];
      assert perAttestor == ticked[attestorId := attestorState];
    }

    /** Counts the call and sweeps when it is time to. */
    method CountCall(now: int)
      modifies this
      ensures Abstract() == Tick(config, old(Abstract()), now)
    {
      if config.pruneIntervalCalls > 0 {
        callsSincePrune := callsSincePrune + 1;
        if callsSincePrune >= config.pruneIntervalCalls {
          var _ := Prune(now);
          callsSincePrune := 0;
        }
      }
    }

    /** Both caps, what is left under each, and when to retry. */
    method Judge(attestorEstimate: real, globalEstimate: real, now: int) returns (status: Status)
      requires ValidConfig(config)
      ensures status == DecideOn(config, attestorEstimate, globalEstimate, now)
    {
      var attestorOk := attestorEstimate + 1.0 <= config.perAttestorLimit;
      var globalOk := globalEstimate + 1.0 <= config.globalLimit;
      var allowed := attestorOk && globalOk;
      var consumedAttestor := if allowed then attestorEstimate + 1.0 else attestorEstimate;
      var consumedGlobal := if allowed then globalEstimate + 1.0 else globalEstimate;
      var limitedBy := None;
      var retryAfterMs := 0;
      if !allowed {
        limitedBy := Some(if !attestorOk then ByAttestor else ByGlobal);
        var elapsedInCurrent := now - AlignToWindow(now, config.windowMs);
        var left := config.windowMs - elapsedInCurrent;
        retryAfterMs := if left < 0 then 0 else left;
      }
      status := Status(allowed,
                       Room(config.perAttestorLimit, consumedAttestor),
                       Room(config.globalLimit, consumedGlobal),
                       retryAfterMs, limitedBy);
    }

    /** Visits every entry once, in any order, and deletes the idle ones. */
    method Prune(now: int) returns (removed: nat)
      modifies this`perAttestor
      ensures perAttestor == RateLimiterModel.Prune(config, old(perAttestor), now)
      ensures removed == |old(perAttestor)| - |perAttestor|
    {
      removed := 0;
      var todo := perAttestor.Keys;
      while todo != {}
        invariant todo <= perAttestor.Keys <= old(perAttestor).Keys
        invariant forall id :: id in perAttestor ==> perAttestor[id] == old(perAttestor)[id]
        invariant forall id :: id in old(perAttestor) && id !in todo ==>
                    (id in perAttestor <==> now - old(perAttestor)[id].lastSeen < config.idleRetentionMs)
        invariant forall id :: id in todo ==> id in perAttestor
        invariant removed + |perAttestor| == |old(perAttestor)|
        decreases |todo|
      {
        var id :| id in todo;
        if now - perAttestor[id].lastSeen >= config.idleRetentionMs {
          ghost var before := perAttestor;
          perAttestor := perAttestor - {id};
          assert perAttestor.Keys == before.Keys - {id};
          removed := removed + 1;
        }
        todo := todo - {id};
      }
    }

    method Reset(now: int)
      requires ValidConfig(config)
      modifies this
      ensures Abstract() == InitialState(config, now)
    {
      perAttestor := map[];
      global := CreateState(now, config.windowMs);
      callsSincePrune := 0;
    }
  }

  const DEFAULT_IDLE_RETENTION_MULTIPLIER := 2
  const DEFAULT_PRUNE_INTERVAL_CALLS := 500

  /** Checks the configuration as the source's constructor does, in its order, and fills in
      the two defaults. */
  method NewRateLimiter(perAttestorLimit: real, globalLimit: real, windowMs: int,
                        idleRetentionMs: Option<int>, pruneIntervalCalls: Option<int>, now: int)
    returns (r: Result<RateLimiter, ConfigError>)
    ensures r.Ok? <==> 0.0 < perAttestorLimit <= globalLimit && windowMs > 0
    ensures r.Ok? ==>
      && r.value.config == Config(perAttestorLimit, globalLimit, windowMs,
                                  if idleRetentionMs.Some? then idleRetentionMs.value else 2 * windowMs,
                                  if pruneIntervalCalls.Some? then pruneIntervalCalls.value else 500)
      && r.value.Abstract() == InitialState(r.value.config, now)
    ensures r == Err(BadPerAttestorLimit) <==> perAttestorLimit <= 0.0
    ensures r == Err(BadGlobalLimit) <==> globalLimit <= 0.0 < perAttestorLimit
    ensures r == Err(BadWindow) <==> windowMs <= 0 && perAttestorLimit > 0.0 && globalLimit > 0.0
    ensures r == Err(PerAttestorAboveGlobal) <==> perAttestorLimit > globalLimit > 0.0 && windowMs > 0
  {
    if perAttestorLimit <= 0.0 {
      return Err(BadPerAttestorLimit);
    }
    if globalLimit <= 0.0 {
      return Err(BadGlobalLimit);
    }
    if windowMs <= 0 {
      return Err(BadWindow);
    }
    if perAttestorLimit > globalLimit {
      return Err(PerAttestorAboveGlobal);
    }
    var idle := if idleRetentionMs.Some? then idleRetentionMs.value else windowMs * DEFAULT_IDLE_RETENTION_MULTIPLIER;
    var interval := if pruneIntervalCalls.Some? then pruneIntervalCalls.value else DEFAULT_PRUNE_INTERVAL_CALLS;
    var limiter := new RateLimiter(Config(perAttestorLimit, globalLimit, windowMs, idle, interval), now);
    r := Ok(limiter);
  }
}
