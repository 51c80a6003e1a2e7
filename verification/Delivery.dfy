/** `WebhookDeliverer::deliver` as the loop it is: it takes a permit before every send,
    reports the outcome, and sleeps before trying again. */
module Delivering {
  import opened Prelude
  import opened CircuitBreakerModel
  import opened CircuitBreaking
  import opened DeliveryModel

  ghost function State(breaker: Option<CircuitBreaker>): Option<Breaker>
    reads if breaker.Some? then {breaker.value} else {}
  {
    if breaker.Some? then Some(breaker.value.Abstract()) else None
  }

  function BreakerConfig(breaker: Option<CircuitBreaker>): Config {
    if breaker.Some? then breaker.value.config else Config(0, 0)
  }

  /** One attempt: take a permit if a breaker is attached, send, report the outcome on the
      permit. Refused without sending when the breaker says so. */
  method Attempt(breaker: Option<CircuitBreaker>, world: World, i: nat, now: int)
    returns (sent: Option<SendOutcome>, ghost permit: Option<Permit>)
    modifies if breaker.Some? then {breaker.value} else {}
    ensures sent.Some? <==> Gate(BreakerConfig(breaker), old(State(breaker)), now).Granted?
    ensures sent.None? ==> State(breaker) == old(State(breaker))
    ensures sent.Some? ==>
      var held := Held(BreakerConfig(breaker), world, old(State(breaker)), i, now);
      && sent.value == world.send(i)
      && State(breaker) ==
         (if sent.value.SendFailed? then Reported(BreakerConfig(breaker), world, old(State(breaker)), i, now)
          else if held.Some? then Some(RecordSuccess(held.value)) else None)
    ensures permit.Some? <==> sent.Some? && breaker.Some?
    ensures permit.Some? ==> fresh(permit.value) && permit.value.resolved && permit.value.breaker == breaker.value
  {
    var taken: Option<Permit> := None;
    permit := None;
    if breaker.Some? {
      taken := breaker.value.TryAcquire(now);
      if taken.None? {
        return None, None;
      }
      breaker.value.Interfere(world.duringSend(i, CurrentState(breaker.value)));
    }
    var outcome := world.send(i);
    if taken.Some? {
      if outcome.Sent? {
        taken.value.Success(now + world.sendTime(i));
      } else {
        taken.value.Failure(now + world.sendTime(i));
      }
    }
    return Some(outcome), taken;
  }

  /** One turn of the loop: an attempt and, if it is to be repeated, the pause after it. What
      is left to do afterwards is what was left before. */
  method Turn(retry: RetryConfig, breaker: Option<CircuitBreaker>, world: World, delivery: Delivery, i: nat, now: int)
    returns (done: Option<Result<Delivery, DeliveryError>>, d: Delivery, sends: nat, end: int,
             ghost permit: Option<Permit>)
    modifies if breaker.Some? then {breaker.value} else {}
    ensures
      var bc := BreakerConfig(breaker);
      var todo := DeliveryModel.Deliver(retry, bc, world, old(State(breaker)), delivery, i, now);
      if done.Some? then Outcome(done.value, sends, State(breaker), end) == todo
      else DeliveryModel.Deliver(retry, bc, world, State(breaker), d, sends, end) == todo
    ensures done.None? ==> delivery.attempt < d.attempt < retry.maxRetries
    ensures sends == i + if done == Some(Err(CircuitOpen)) then 0 else 1
    ensures permit.Some? <==> breaker.Some? && sends == i + 1
    ensures permit.Some? ==> fresh(permit.value) && permit.value.resolved
  {
    d := delivery.(attempt := delivery.attempt + 1, lastAttemptedAt := Some(now));
    end := now;
    ghost var before := State(breaker);
    if !Retries(retry, BreakerConfig(breaker), world, before, delivery, i, now) {
      DeliverReturns(retry, BreakerConfig(breaker), world, before, delivery, i, now);
    }
    var sent, taken := Attempt(breaker, world, i, now);
    permit := taken;
    if sent.None? {
      return Some(Err(CircuitOpen)), d, i, end, permit;
    }
    sends := i + 1;
    if sent.value.Sent? {
      d := d.(statusCode := Some(sent.value.status), responseBody := sent.value.body, delivered := true);
      return Some(Ok(d)), d, sends, now + world.sendTime(i), permit;
    }
    d := d.(error := Some(sent.value.error));
    if !ShouldRetry(retry, d.attempt) {
      return Some(Err(MaxRetriesExceeded)), d, sends, now + world.sendTime(i), permit;
    }
    end := Woken(retry, world, d.attempt - 1, i, now);
    if breaker.Some? {
      breaker.value.Interfere(world.duringSleep(i, CurrentState(breaker.value)));
    }
    DeliverRetries(retry, BreakerConfig(breaker), world, before, delivery, i, now);
    done := None;
  }

  /** Refines `DeliveryModel.Deliver`. Every permit it takes is its own, one per send, and is
      resolved by the time it returns. */
  method Deliver(retry: RetryConfig, breaker: Option<CircuitBreaker>, world: World, delivery: Delivery, start: int)
    returns (r: Result<Delivery, DeliveryError>, sends: nat, end: int, ghost permits: set<Permit>)
    modifies if breaker.Some? then {breaker.value} else {}
    ensures Outcome(r, sends, State(breaker), end)
         == DeliveryModel.Deliver(retry, BreakerConfig(breaker), world, old(State(breaker)), delivery, 0, start)
    ensures forall p :: p in permits ==> fresh(p) && p.resolved
    ensures |permits| == if breaker.Some? then sends else 0
  {
    ghost var bc := BreakerConfig(breaker);
    ghost var target := DeliveryModel.Deliver(retry, bc, world, State(breaker), delivery, 0, start);
    var d := delivery;
    sends, end, permits := 0, start, {};
    while true
      invariant DeliveryModel.Deliver(retry, bc, world, State(breaker), d, sends, end) == target
      invariant forall p :: p in permits ==> fresh(p) && p.resolved
      invariant |permits| == if breaker.Some? then sends else 0
      decreases if d.attempt < retry.maxRetries then retry.maxRetries - d.attempt else 0
    {
      var done: Option<Result<Delivery, DeliveryError>>;
      ghost var permit: Option<Permit>;
      done, d, sends, end, permit := Turn(retry, breaker, world, d, sends, end);
      if permit.Some? {
        permits := permits + {permit.value};
      }
      if done.Some? {
        return done.value, sends, end, permits;
      }
    }
  }

  /** What the fields of a breaker hold. */
  function CurrentState(b: CircuitBreaker): Breaker
    reads b
  {
    Breaker(b.state, b.consecutiveFailures, b.openedAt)
  }
}
