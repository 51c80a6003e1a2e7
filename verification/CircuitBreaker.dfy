/** The breaker, its permits and the per-host registry as the mutable objects they are in
    `webhook-sdk/src/circuit_breaker.rs`, each method proved against `CircuitBreakerModel`.
    A method body is what runs while the lock is held. */
module CircuitBreaking {
  import opened Prelude
  import opened CircuitBreakerModel

  class CircuitBreaker {
    const config: Config
    var state: CircuitState
    var consecutiveFailures: nat
    var openedAt: Option<int>

    ghost function Abstract(): Breaker
      reads this
    {
      Breaker(state, consecutiveFailures, openedAt)
    }

    constructor (config: Config)
      ensures this.config == config && Abstract() == NEW_BREAKER
    {
      this.config := config;
      state, consecutiveFailures, openedAt := Closed, 0, None;
    }

    method TryAcquire(now: int) returns (permit: Option<Permit>)
      modifies this
      ensures
        var (b, grant) := CircuitBreakerModel.TryAcquire(config, old(Abstract()), now);
        && Abstract() == b
        && (permit.Some? <==> grant.Granted?)
        && (permit.Some? ==> fresh(permit.value) && permit.value.breaker == this
                             && !permit.value.resolved && permit.value.isProbe == grant.isProbe)
    {
      match state
      case Closed =>
        var p := new Permit(this, false);
        permit := Some(p);
      case Open =>
        var cooldownElapsed := openedAt.Some? && now - openedAt.value >= config.cooldown;
        if cooldownElapsed {
          state := HalfOpen;
          var p := new Permit(this, true);
          permit := Some(p);
        } else {
          permit := None;
        }
      case HalfOpen =>
        permit := None;
    }

    method RecordSuccess()
      modifies this
      ensures Abstract() == CircuitBreakerModel.RecordSuccess(old(Abstract()))
    {
      state := Closed;
      consecutiveFailures := 0;
      openedAt := None;
    }

    method RecordFailure(isProbe: bool, now: int)
      modifies this
      ensures Abstract() == CircuitBreakerModel.RecordFailure(config, old(Abstract()), isProbe, now)
    {
      if isProbe {
        state := Open;
        openedAt := Some(now);
        return;
      }
      consecutiveFailures := consecutiveFailures + 1;
      if consecutiveFailures >= config.failureThreshold {
        state := Open;
        openedAt := Some(now);
      }
    }

    /** Other holders of the same breaker left it as `b`. */
    method Interfere(b: Breaker)
      modifies this
      ensures Abstract() == b
    {
      state, consecutiveFailures, openedAt := b.state, b.consecutiveFailures, b.openedAt;
    }
  }

  /** One call slot. Resolving it runs its destructor too, which must not count it again. */
  class Permit {
    const breaker: CircuitBreaker
    const isProbe: bool
    var resolved: bool

    constructor (breaker: CircuitBreaker, isProbe: bool)
      ensures this.breaker == breaker && this.isProbe == isProbe && !resolved
    {
      this.breaker, this.isProbe := breaker, isProbe;
      resolved := false;
    }

    method Success(now: int)
      requires !resolved
      modifies this, breaker
      ensures resolved && breaker.Abstract() == CircuitBreakerModel.RecordSuccess(old(breaker.Abstract()))
    {
      resolved := true;
      breaker.RecordSuccess();
      Drop(now);
    }

    method Failure(now: int)
      requires !resolved
      modifies this, breaker
      ensures resolved
      ensures breaker.Abstract()
           == CircuitBreakerModel.RecordFailure(breaker.config, old(breaker.Abstract()), isProbe, now)
    {
      resolved := true;
      breaker.RecordFailure(isProbe, now);
      Drop(now);
    }

    /** The destructor: an unreported outcome counts as a failure, a reported one as nothing. */
    method Drop(now: int)
      modifies breaker
      ensures breaker.Abstract() ==
        if resolved then old(breaker.Abstract())
        else CircuitBreakerModel.RecordFailure(breaker.config, old(breaker.Abstract()), isProbe, now)
    {
      if !resolved {
        breaker.RecordFailure(isProbe, now);
      }
    }
  }

  /** One breaker per destination host, created on first use. */
  class CircuitBreakerRegistry {
    const config: Config
    var breakers: map<string, CircuitBreaker>

    /** Different hosts never share a breaker, and all use the same configuration. */
    ghost predicate Valid()
      reads this
    {
      && (forall k :: k in breakers ==> breakers[k].config == config)
      && (forall j, k :: j in breakers && k in breakers && j != k ==> breakers[j] != breakers[k])
    }

    constructor (config: Config)
      ensures Valid() && this.config == config && breakers == map[]
    {
      this.config := config;
      breakers := map[];
    }

    /** A host always gets the same breaker back; a new host gets a closed one, and no other
        host's breaker is touched. */
    method BreakerFor(key: string) returns (b: CircuitBreaker)
      requires Valid()
      modifies this
      ensures Valid() && key in breakers && b == breakers[key]
      ensures key in old(breakers) ==> breakers == old(breakers)
      ensures key !in old(breakers) ==>
        fresh(b) && b.Abstract() == NEW_BREAKER && breakers == old(breakers)[key := b]
    {
      if key !in breakers {
        var created := new CircuitBreaker(config);
        breakers := breakers[key := created];
      }
      b := breakers[key];
    }
  }
}
