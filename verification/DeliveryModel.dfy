/** The retry loop of `webhook-sdk/src/delivery.rs` with the backoff of `retry.rs`, composed
    with the circuit breaker. Sending, the clock and the other users of the breaker are
    given by a `World`. */
module DeliveryModel {
  import opened Prelude
  import opened CircuitBreakerModel

  // --- Retry policy ---------------------------------------------------------

  datatype RetryConfig = RetryConfig(maxRetries: nat, initialBackoff: nat, maxBackoff: nat, multiplier: real)

  function Pow(x: real, n: nat): real {
    if n == 0 then 1.0 else Pow(x, n - 1) * x
  }

  /** Milliseconds to wait after the given attempt: exponential, capped, rounded down; the
      cast to an unsigned number turns anything negative into zero. */
  function BackoffDuration(cfg: RetryConfig, attempt: nat): nat {
    Capped(cfg.initialBackoff as real * Pow(cfg.multiplier, attempt), cfg.maxBackoff)
  }

  function Capped(raw: real, cap: nat): nat {
    var x := if raw < cap as real then raw else cap as real;
    if x < 0.0 then 0 else x.Floor
  }

  predicate ShouldRetry(cfg: RetryConfig, attempt: nat) {
    attempt < cfg.maxRetries
  }

  // --- Deliveries -----------------------------------------------------------

  datatype SendOutcome = Sent(status: nat, body: Option<string>) | SendFailed(error: string)

  datatype Delivery = Delivery(
    url: string,
    payload: string,
    statusCode: Option<nat>,
    responseBody: Option<string>,
    attempt: nat,
    error: Option<string>,
    lastAttemptedAt: Option<int>,
    delivered: bool)

  datatype DeliveryError = CircuitOpen | MaxRetriesExceeded

  /** What the i-th send of a delivery returns and how long it takes, how much longer than
      asked the i-th sleep lasts, and what other tasks do to the breaker meanwhile. */
  datatype World = World(
    send: nat -> SendOutcome,
    sendTime: nat -> nat,
    oversleep: nat -> nat,
    duringSend: (nat, Breaker) -> Breaker,
    duringSleep: (nat, Breaker) -> Breaker)

  datatype Outcome = Outcome(result: Result<Delivery, DeliveryError>, sends: nat, breaker: Option<Breaker>, now: int)

  /** Whether the breaker, if any, lets the call through. */
  function Gate(bc: Config, breaker: Option<Breaker>, now: int): Grant {
    if breaker.Some? then TryAcquire(bc, breaker.value, now).1 else Granted(false)
  }

  /** The breaker when the i-th send, started at `now`, has returned. */
  function Held(bc: Config, world: World, breaker: Option<Breaker>, i: nat, now: int): Option<Breaker> {
    if breaker.Some? then Some(world.duringSend(i, TryAcquire(bc, breaker.value, now).0)) else None
  }

  /** The breaker once that send has been reported as failed. */
  function Reported(bc: Config, world: World, breaker: Option<Breaker>, i: nat, now: int): Option<Breaker> {
    var held := Held(bc, world, breaker, i, now);
    var grant := Gate(bc, breaker, now);
    if held.Some? && grant.Granted?
    then Some(RecordFailure(bc, held.value, grant.isProbe, now + world.sendTime(i)))
    else held
  }

  function Rested(world: World, breaker: Option<Breaker>, i: nat): Option<Breaker> {
    if breaker.Some? then Some(world.duringSleep(i, breaker.value)) else None
  }

  /** When the sleep after the i-th send, started at `now`, is over. */
  function Woken(retry: RetryConfig, world: World, attempt: nat, i: nat, now: int): int {
    now + world.sendTime(i) + BackoffDuration(retry, attempt) + world.oversleep(i)
  }

  /** `breaker` is None when no breaker is attached or the url has no host. `i` sends have
      been made already. */
  function Deliver(retry: RetryConfig, bc: Config, world: World,
                   breaker: Option<Breaker>, d: Delivery, i: nat, now: int): Outcome
    decreases if d.attempt < retry.maxRetries then retry.maxRetries - d.attempt else 0
  {
    var d1 := d.(attempt := d.attempt + 1, lastAttemptedAt := Some(now));
    if Gate(bc, breaker, now).Refused? then
      Outcome(Err(CircuitOpen), i, breaker, now)
    else
      match world.send(i)
      case Sent(status, body) =>
        var held := Held(bc, world, breaker, i, now);
        Outcome(Ok(d1.(statusCode := Some(status), responseBody := body, delivered := true)), i + 1,
                if held.Some? then Some(RecordSuccess(held.value)) else None, now + world.sendTime(i))
      case SendFailed(e) =>
        var reported := Reported(bc, world, breaker, i, now);
        if !ShouldRetry(retry, d1.attempt) then
          Outcome(Err(MaxRetriesExceeded), i + 1, reported, now + world.sendTime(i))
        else
          Deliver(retry, bc, world, Rested(world, reported, i), d1.(error := Some(e)), i + 1,
                  Woken(retry, world, d.attempt, i, now))
  }

  // --- Backoff --------------------------------------------------------------

  lemma {:induction false} PowAtLeastOne(x: real, n: nat)
    requires x >= 1.0
    ensures Pow(x, n) >= 1.0
  {
    if n == 0 {
    } else {
      PowAtLeastOne(x, n - 1);
      Grows(Pow(x, n - 1), x);
    }
  }

  lemma Grows(p: real, x: real)
    requires p >= 0.0 && x >= 1.0
    ensures p * x >= p
  {
    assert p * (x - 1.0) >= 0.0;
  }

  lemma CappedMonotone(a: real, b: real, cap: nat)
    ensures Capped(a, cap) <= cap
    ensures a <= b ==> Capped(a, cap) <= Capped(b, cap)
  {
  }

  lemma RawGrows(x: real, p: real, q: real)
    requires x >= 0.0 && p <= q
    ensures x * p <= x * q
  {
    assert x * (q - p) >= 0.0;
  }

  /** Never above the cap, whatever the multiplier. */
  lemma BackoffCapped(cfg: RetryConfig, attempt: nat)
    ensures BackoffDuration(cfg, attempt) <= cfg.maxBackoff
  {
    CappedMonotone(cfg.initialBackoff as real * Pow(cfg.multiplier, attempt), 0.0, cfg.maxBackoff);
  }

  /** Non-decreasing from attempt to attempt when the multiplier is at least one. */
  lemma BackoffGrows(cfg: RetryConfig, attempt: nat)
    requires cfg.multiplier >= 1.0
    ensures BackoffDuration(cfg, attempt) <= BackoffDuration(cfg, attempt + 1)
  {
    PowAtLeastOne(cfg.multiplier, attempt);
    Grows(Pow(cfg.multiplier, attempt), cfg.multiplier);
    BackoffOrder(cfg.initialBackoff, Pow(cfg.multiplier, attempt), Pow(cfg.multiplier, attempt + 1), cfg.maxBackoff);
  }

  lemma BackoffOrder(initial: nat, p: real, q: real, cap: nat)
    requires p <= q
    ensures Capped(initial as real * p, cap) <= Capped(initial as real * q, cap)
  {
    RawGrows(initial as real, p, q);
    CappedMonotone(initial as real * p, initial as real * q, cap);
  }

  function WholePow(k: nat, n: nat): nat {
    if n == 0 then 1 else WholePow(k, n - 1) * k
  }

  lemma {:induction false} PowWhole(k: nat, n: nat)
    ensures Pow(k as real, n) == WholePow(k, n) as real
  {
    if n == 0 {
    } else {
      PowWhole(k, n - 1);
      ProductWhole(WholePow(k, n - 1), k);
    }
  }

  lemma ProductWhole(a: nat, b: nat)
    ensures (a * b) as real == a as real * b as real
  {
  }

  lemma CappedWhole(raw: nat, cap: nat)
    ensures Capped(raw as real, cap) == Least(raw, cap)
  {
    assert (raw as real).Floor == raw && (cap as real).Floor == cap;
  }

  lemma CapAfterScaling(k: nat, initial: nat, power: nat, cap: nat)
    requires k >= 1
    ensures Least(initial * (power * k), cap) == Least(k * Least(initial * power, cap), cap)
  {
    var raw := initial * power;
    assert initial * (power * k) == raw * k;
    if raw > cap {
      assert raw * k >= raw && k * cap >= cap;
    }
  }

  lemma {:induction false} PowSplits(x: real, m: nat, n: nat)
    ensures Pow(x, m + n) == Pow(x, m) * Pow(x, n) && Pow(x, 1) == x
    decreases n
  {
    assert Pow(x, 1) == Pow(x, 0) * x;
    if n == 0 {
    } else {
      PowSplits(x, m, n - 1);
      assert (Pow(x, m) * Pow(x, n - 1)) * x == Pow(x, m) * (Pow(x, n - 1) * x);
    }
  }

  /** Every wait, whatever the multiplier: the initial backoff times its power, capped, in whole
      milliseconds rounded down, and nothing if that is negative. */
  lemma BackoffMeans(cfg: RetryConfig, attempt: nat)
    ensures
      var raw, wait := cfg.initialBackoff as real * Pow(cfg.multiplier, attempt), BackoffDuration(cfg, attempt);
      && (raw < 0.0 ==> wait == 0)
      && (raw >= cfg.maxBackoff as real ==> wait == cfg.maxBackoff)
      && (0.0 <= raw < cfg.maxBackoff as real ==> wait as real <= raw < wait as real + 1.0)
  {
  }

  /** The first wait is the initial backoff, up to the cap. */
  lemma BackoffStarts(cfg: RetryConfig)
    ensures BackoffDuration(cfg, 0) == Least(cfg.initialBackoff, cfg.maxBackoff)
  {
    CappedWhole(cfg.initialBackoff, cfg.maxBackoff);
    assert cfg.initialBackoff as real * Pow(cfg.multiplier, 0) == cfg.initialBackoff as real;
  }

  /** With a whole multiplier k >= 1 each wait is k times the one before, until the cap. */
  lemma BackoffGeometric(cfg: RetryConfig, k: nat, attempt: nat)
    requires cfg.multiplier == k as real && k >= 1
    ensures BackoffDuration(cfg, attempt + 1) == Least(k * BackoffDuration(cfg, attempt), cfg.maxBackoff)
  {
    BackoffWhole(cfg, k, attempt);
    BackoffWhole(cfg, k, attempt + 1);
    CapAfterScaling(k, cfg.initialBackoff, WholePow(k, attempt), cfg.maxBackoff);
  }

  lemma BackoffWhole(cfg: RetryConfig, k: nat, attempt: nat)
    requires cfg.multiplier == k as real
    ensures BackoffDuration(cfg, attempt) == Least(cfg.initialBackoff * WholePow(k, attempt), cfg.maxBackoff)
  {
    PowWhole(k, attempt);
    assert Pow(cfg.multiplier, attempt) == WholePow(k, attempt) as real;
    CappedProduct(cfg.initialBackoff, WholePow(k, attempt), Pow(cfg.multiplier, attempt), cfg.maxBackoff);
  }

  lemma CappedProduct(initial: nat, power: nat, p: real, cap: nat)
    requires p == power as real
    ensures Capped(initial as real * p, cap) == Least(initial * power, cap)
  {
    ProductWhole(initial, power);
    CappedWhole(initial * power, cap);
  }

  // --- Every world ----------------------------------------------------------

  /** The first successful send from number i on and before `end`, or `end` if there is none. */
  function FirstSent(world: World, i: nat, end: nat): (k: nat)
    requires i <= end
    ensures i <= k <= end
    ensures k < end ==> world.send(k).Sent?
    ensures forall j :: i <= j < k ==> world.send(j).SendFailed?
    decreases end - i
  {
    if i == end || world.send(i).Sent? then i else FirstSent(world, i + 1, end)
  }

  /** Attempts a delivery may still make: at least one, whatever the configuration. */
  function Allowance(retry: RetryConfig, d: Delivery): nat {
    Most(1, retry.maxRetries - d.attempt)
  }

  /** What a delivery can end with that starts with send i, may make sends before `end`, and
      would first succeed with send `first`. */
  ghost predicate EndsWell(o: Outcome, world: World, d: Delivery, i: nat, end: nat, first: nat) {
    && i <= o.sends <= Least(end, first + 1)
    && match o.result
       case Ok(v) =>
         && first < end && o.sends == first + 1
         && v.delivered && v.attempt == d.attempt + (first - i) + 1 && v.url == d.url && v.payload == d.payload
         && v.lastAttemptedAt == Some(o.now - world.sendTime(first))
         && world.send(first).Sent? && v.statusCode == Some(world.send(first).status)
         && v.responseBody == world.send(first).body
         && v.error == (if first <= i then d.error else LastError(world, first - 1))
       case Err(MaxRetriesExceeded) => first == end && o.sends == end
       case Err(CircuitOpen) => o.sends < end && o.sends <= first
  }

  /** The message of a failed send. */
  function LastError(world: World, i: nat): Option<string> {
    if world.send(i).SendFailed? then Some(world.send(i).error) else None
  }

  lemma EndsWellLater(o: Outcome, world: World, d: Delivery, d': Delivery, i: nat, end: nat, first: nat)
    requires d'.attempt == d.attempt + 1 && d'.error == LastError(world, i) && i < first
    requires d'.url == d.url && d'.payload == d.payload
    requires EndsWell(o, world, d', i + 1, end, first)
    ensures EndsWell(o, world, d, i, end, first)
  {
  }

  /** What `DeliverEnds` says. */
  ghost predicate Ended(retry: RetryConfig, world: World, breaker: Option<Breaker>, d: Delivery, i: nat, o: Outcome) {
    var end := i + Allowance(retry, d);
    && EndsWell(o, world, d, i, end, FirstSent(world, i, end))
    && (breaker.None? ==> o.breaker.None? && o.result != Err(CircuitOpen))
    && (breaker.Some? ==> o.breaker.Some? && (o.result.Ok? ==> o.breaker == Some(NEW_BREAKER)))
  }

  lemma EndedLater(retry: RetryConfig, world: World, breaker: Option<Breaker>, breaker': Option<Breaker>,
                   d: Delivery, d': Delivery, i: nat, o: Outcome)
    requires world.send(i).SendFailed? && d'.attempt == d.attempt + 1 && d'.error == LastError(world, i)
    requires d'.url == d.url && d'.payload == d.payload
    requires d'.attempt < retry.maxRetries && (breaker.None? <==> breaker'.None?)
    requires Ended(retry, world, breaker', d', i + 1, o)
    ensures Ended(retry, world, breaker, d, i, o)
  {
    var end := i + Allowance(retry, d);
    assert end == i + 1 + Allowance(retry, d');
    EndsWellLater(o, world, d, d', i, end, FirstSent(world, i + 1, end));
  }

  /** Whatever the destination, the clock and other tasks do: a delivery ends after at most
      max(1, maxRetries) sends; it succeeds exactly with its first successful send, stamped
      with the attempt it took; it gives up only after using every attempt; and only a
      breaker can stop it earlier. */
  lemma {:induction false} DeliverEnds(retry: RetryConfig, bc: Config, world: World,
                                       breaker: Option<Breaker>, d: Delivery, i: nat, now: int)
    ensures Ended(retry, world, breaker, d, i, Deliver(retry, bc, world, breaker, d, i, now))
    decreases Allowance(retry, d)
  {
    if Retries(retry, bc, world, breaker, d, i, now) {
      DeliverRetries(retry, bc, world, breaker, d, i, now);
      var next := Next(world, d, i, now);
      var rested := Rested(world, Reported(bc, world, breaker, i, now), i);
      var woken := Woken(retry, world, d.attempt, i, now);
      DeliverEnds(retry, bc, world, rested, next, i + 1, woken);
      EndedLater(retry, world, breaker, rested, d, next, i, Deliver(retry, bc, world, rested, next, i + 1, woken));
    } else {
      DeliverStops(retry, bc, world, breaker, d, i, now);
    }
  }

  /** The attempt is let through, fails and may be repeated. */
  predicate Retries(retry: RetryConfig, bc: Config, world: World,
                    breaker: Option<Breaker>, d: Delivery, i: nat, now: int)
  {
    Gate(bc, breaker, now).Granted? && world.send(i).SendFailed? && ShouldRetry(retry, d.attempt + 1)
  }

  /** The delivery as the next attempt finds it. */
  function Next(world: World, d: Delivery, i: nat, now: int): Delivery
    requires world.send(i).SendFailed?
  {
    d.(attempt := d.attempt + 1, lastAttemptedAt := Some(now), error := Some(world.send(i).error))
  }

  lemma DeliverRetries(retry: RetryConfig, bc: Config, world: World,
                       breaker: Option<Breaker>, d: Delivery, i: nat, now: int)
    requires Retries(retry, bc, world, breaker, d, i, now)
    ensures Deliver(retry, bc, world, breaker, d, i, now)
         == Deliver(retry, bc, world, Rested(world, Reported(bc, world, breaker, i, now), i),
                    Next(world, d, i, now), i + 1, Woken(retry, world, d.attempt, i, now))
  {
  }

  /** The three ways an attempt can be the last. */
  lemma DeliverReturns(retry: RetryConfig, bc: Config, world: World,
                       breaker: Option<Breaker>, d: Delivery, i: nat, now: int)
    requires !Retries(retry, bc, world, breaker, d, i, now)
    ensures
      var o := Deliver(retry, bc, world, breaker, d, i, now);
      var d1 := d.(attempt := d.attempt + 1, lastAttemptedAt := Some(now));
      var held := Held(bc, world, breaker, i, now);
      if Gate(bc, breaker, now).Refused? then o == Outcome(Err(CircuitOpen), i, breaker, now)
      else match world.send(i)
        case Sent(status, body) =>
          o == Outcome(Ok(d1.(statusCode := Some(status), responseBody := body, delivered := true)), i + 1,
                       if held.Some? then Some(RecordSuccess(held.value)) else None, now + world.sendTime(i))
        case SendFailed(_) =>
          o == Outcome(Err(MaxRetriesExceeded), i + 1, Reported(bc, world, breaker, i, now), now + world.sendTime(i))
  {
  }

  lemma DeliverStops(retry: RetryConfig, bc: Config, world: World,
                     breaker: Option<Breaker>, d: Delivery, i: nat, now: int)
    requires !Retries(retry, bc, world, breaker, d, i, now)
    ensures Ended(retry, world, breaker, d, i, Deliver(retry, bc, world, breaker, d, i, now))
  {
  }

  // --- One attempt, and the time all of them take ---------------------------------

  /** One attempt under a breaker that others may use during the send and the sleep: refused
      without a send, or one send whose outcome is reported to the breaker as it then is; a
      failure is retried after the backoff for the attempts made before, while fewer than
      `maxRetries` have been made. */
  lemma AttemptMeans(retry: RetryConfig, bc: Config, world: World, b: Breaker, d: Delivery, i: nat, now: int)
    ensures
      var o := Deliver(retry, bc, world, Some(b), d, i, now);
      var (held, grant) := TryAcquire(bc, b, now);
      var after, returned := world.duringSend(i, held), now + world.sendTime(i);
      if grant.Refused? then o == Outcome(Err(CircuitOpen), i, Some(b), now)
      else match world.send(i)
        case Sent(status, body) =>
          && o.result == Ok(Delivery(d.url, d.payload, Some(status), body, d.attempt + 1, d.error, Some(now), true))
          && o.sends == i + 1 && o.breaker == Some(NEW_BREAKER) && o.now == returned
        case SendFailed(e) =>
          var failed := RecordFailure(bc, after, grant.isProbe, returned);
          if d.attempt + 1 < retry.maxRetries then
            o == Deliver(retry, bc, world, Some(world.duringSleep(i, failed)),
                         d.(attempt := d.attempt + 1, lastAttemptedAt := Some(now), error := Some(e)), i + 1,
                         returned + BackoffDuration(retry, d.attempt) + world.oversleep(i))
          else o == Outcome(Err(MaxRetriesExceeded), i + 1, Some(failed), returned)
  {
  }

  /** The time of n sends from number i on, each with the pause after it. */
  function Elapsed(retry: RetryConfig, world: World, attempt: nat, i: nat, n: nat): int
    decreases n
  {
    if n == 0 then 0
    else
      world.sendTime(i) + BackoffDuration(retry, attempt) + world.oversleep(i)
      + Elapsed(retry, world, attempt + 1, i + 1, n - 1)
  }

  /** A delivery takes the time of its sends and of the pauses between them; one that is cut off
      has also waited out the pause after its last send. */
  lemma {:induction false} DeliverTakes(retry: RetryConfig, bc: Config, world: World,
                                        breaker: Option<Breaker>, d: Delivery, i: nat, now: int)
    ensures
      var o := Deliver(retry, bc, world, breaker, d, i, now);
      && o.sends >= i
      && (o.result == Err(CircuitOpen) ==> o.now == now + Elapsed(retry, world, d.attempt, i, o.sends - i))
      && (o.result != Err(CircuitOpen) ==>
            && o.sends > i
            && o.now == now + Elapsed(retry, world, d.attempt, i, o.sends - i - 1) + world.sendTime(o.sends - 1))
    decreases Allowance(retry, d)
  {
    if Retries(retry, bc, world, breaker, d, i, now) {
      DeliverRetries(retry, bc, world, breaker, d, i, now);
      DeliverTakes(retry, bc, world, Rested(world, Reported(bc, world, breaker, i, now), i),
                   Next(world, d, i, now), i + 1, Woken(retry, world, d.attempt, i, now));
    } else {
      DeliverReturns(retry, bc, world, breaker, d, i, now);
    }
  }

  // --- A host that is down --------------------------------------------------

  /** Nobody else uses the breaker and every send fails. */
  ghost predicate DownAndAlone(world: World) {
    && (forall i :: world.send(i).SendFailed?)
    && (forall i, b :: world.duringSend(i, b) == b && world.duringSleep(i, b) == b)
  }

  /** The pause after the j-th send from here is shorter than the cooldown. */
  predicate ShortPause(retry: RetryConfig, bc: Config, world: World, attempt: nat, i: nat, j: nat)
    requires j >= 1
  {
    BackoffDuration(retry, attempt + j - 1) + world.oversleep(i + j - 1) < bc.cooldown
  }

  /** Of `room` sends, k are made: the breaker stops the delivery at the first short pause
      from the `left`-th send on. */
  ghost predicate CutAt(retry: RetryConfig, bc: Config, world: World, attempt: nat, i: nat,
                        left: nat, room: nat, k: nat)
    requires left >= 1
  {
    && 1 <= k <= room
    && (k < room ==> k >= left && ShortPause(retry, bc, world, attempt, i, k))
    && forall j :: left <= j < k ==> !ShortPause(retry, bc, world, attempt, i, j)
  }

  /** One send more in front, whose pause does not stop the delivery. */
  lemma CutLater(retry: RetryConfig, bc: Config, world: World, attempt: nat, i: nat, left: nat, room: nat, k: nat)
    requires left >= 1 && CutAt(retry, bc, world, attempt + 1, i + 1, left, room, k)
    ensures CutAt(retry, bc, world, attempt, i, left + 1, room + 1, k + 1)
    ensures left == 1 && !ShortPause(retry, bc, world, attempt, i, 1) ==>
      CutAt(retry, bc, world, attempt, i, 1, room + 1, k + 1)
  {
    forall j | 2 <= j
      ensures ShortPause(retry, bc, world, attempt, i, j) == ShortPause(retry, bc, world, attempt + 1, i + 1, j - 1)
    {
      assert attempt + j - 1 == attempt + 1 + (j - 1) - 1 && i + j - 1 == i + 1 + (j - 1) - 1;
    }
  }

  /** How a delivery against a host that is down ends, after k sends. */
  ghost predicate EndsDown(o: Outcome, i: nat, room: nat, k: nat, failures: nat, state: CircuitState) {
    && o.sends == i + k
    && o.result == Err(if k < room then CircuitOpen else MaxRetriesExceeded)
    && o.breaker.Some?
    && o.breaker.value.consecutiveFailures == failures
    && o.breaker.value.state == state
  }

  /** One failed attempt alone, in which the breaker goes from b to `failed`. */
  lemma DownStep(retry: RetryConfig, bc: Config, world: World, b: Breaker, d: Delivery, i: nat, now: int)
    requires DownAndAlone(world) && TryAcquire(bc, b, now).1.Granted?
    ensures
      var (held, grant) := TryAcquire(bc, b, now);
      var failed := RecordFailure(bc, held, grant.isProbe, now + world.sendTime(i));
      Deliver(retry, bc, world, Some(b), d, i, now) ==
        if ShouldRetry(retry, d.attempt + 1)
        then Deliver(retry, bc, world, Some(failed), Next(world, d, i, now), i + 1,
                     Woken(retry, world, d.attempt, i, now))
        else Outcome(Err(MaxRetriesExceeded), i + 1, Some(failed), now + world.sendTime(i))
  {
    var (held, grant) := TryAcquire(bc, b, now);
    var failed := RecordFailure(bc, held, grant.isProbe, now + world.sendTime(i));
    assert world.duringSend(i, held) == held && world.duringSleep(i, failed) == failed;
    assert Rested(world, Reported(bc, world, Some(b), i, now), i) == Some(failed);
  }

  /** A circuit just opened at `opened`, when the delivery wakes after its pause. */
  lemma {:induction false} DownProbing(retry: RetryConfig, bc: Config, world: World, c: nat, opened': int,
                                       d: Delivery, i: nat, now: int) returns (k: nat)
    requires DownAndAlone(world) && now - opened' >= bc.cooldown
    ensures CutAt(retry, bc, world, d.attempt, i, 1, Allowance(retry, d), k)
    ensures EndsDown(Deliver(retry, bc, world, Some(Breaker(Open, c, Some(opened'))), d, i, now),
                     i, Allowance(retry, d), k, c, Open)
    decreases Allowance(retry, d)
  {
    DownStep(retry, bc, world, Breaker(Open, c, Some(opened')), d, i, now);
    k := 1;
    if ShouldRetry(retry, d.attempt + 1) && !ShortPause(retry, bc, world, d.attempt, i, 1) {
      var woken := Woken(retry, world, d.attempt, i, now);
      var later := DownProbing(retry, bc, world, c, now + world.sendTime(i), Next(world, d, i, now), i + 1, woken);
      CutLater(retry, bc, world, d.attempt, i, 1, Allowance(retry, d) - 1, later);
      k := later + 1;
    }
  }

  /** The attempt whose failure opens the circuit. */
  lemma DownOpening(retry: RetryConfig, bc: Config, world: World, f: nat, d: Delivery, i: nat, now: int)
    returns (k: nat)
    requires DownAndAlone(world) && f + 1 >= bc.failureThreshold
    ensures CutAt(retry, bc, world, d.attempt, i, 1, Allowance(retry, d), k)
    ensures EndsDown(Deliver(retry, bc, world, Some(Breaker(Closed, f, None)), d, i, now),
                     i, Allowance(retry, d), k, f + 1, Open)
  {
    DownStep(retry, bc, world, Breaker(Closed, f, None), d, i, now);
    k := 1;
    if ShouldRetry(retry, d.attempt + 1) && !ShortPause(retry, bc, world, d.attempt, i, 1) {
      var woken := Woken(retry, world, d.attempt, i, now);
      var later := DownProbing(retry, bc, world, f + 1, now + world.sendTime(i), Next(world, d, i, now), i + 1, woken);
      CutLater(retry, bc, world, d.attempt, i, 1, Allowance(retry, d) - 1, later);
      k := later + 1;
    }
  }

  /** What `DownHost` says. */
  ghost predicate DownEnd(retry: RetryConfig, bc: Config, world: World, f: nat, d: Delivery, i: nat,
                          o: Outcome, k: nat)
  {
    var left, room := Most(1, bc.failureThreshold - f), Allowance(retry, d);
    && CutAt(retry, bc, world, d.attempt, i, left, room, k)
    && EndsDown(o, i, room, k, f + Least(left, k), if left <= k then Open else Closed)
  }

  /** An attempt whose failure is only counted. */
  lemma DownCounting(retry: RetryConfig, bc: Config, world: World, f: nat, d: Delivery, d': Delivery, i: nat,
                     o: Outcome, k: nat)
    requires f + 1 < bc.failureThreshold && d'.attempt == d.attempt + 1 && d'.attempt < retry.maxRetries
    requires DownEnd(retry, bc, world, f + 1, d', i + 1, o, k)
    ensures DownEnd(retry, bc, world, f, d, i, o, k + 1)
  {
    CutLater(retry, bc, world, d.attempt, i, bc.failureThreshold - f - 1, Allowance(retry, d'), k);
  }

  /** Used alone against a host that is down, with f failures already counted, whatever the
      pauses: the failure that reaches the threshold opens the circuit, and the breaker then
      stops the delivery at the first pause shorter than the cooldown; after a longer pause
      one more attempt is let through as a probe, fails and opens the circuit again. So the
      number k of sends is determined, CircuitOpen is returned exactly when attempts were
      left, and the circuit is left open exactly when the threshold was reached. */
  lemma {:induction false} DownHost(retry: RetryConfig, bc: Config, world: World,
                                    f: nat, d: Delivery, i: nat, now: int) returns (k: nat)
    requires DownAndAlone(world)
    ensures DownEnd(retry, bc, world, f, d, i, Deliver(retry, bc, world, Some(Breaker(Closed, f, None)), d, i, now), k)
    decreases Allowance(retry, d)
  {
    if f + 1 >= bc.failureThreshold {
      k := DownOpening(retry, bc, world, f, d, i, now);
    } else {
      DownStep(retry, bc, world, Breaker(Closed, f, None), d, i, now);
      if ShouldRetry(retry, d.attempt + 1) {
        var next, woken := Next(world, d, i, now), Woken(retry, world, d.attempt, i, now);
        k := DownHost(retry, bc, world, f + 1, next, i + 1, woken);
        DownCounting(retry, bc, world, f, d, next, i,
                     Deliver(retry, bc, world, Some(Breaker(Closed, f + 1, None)), next, i + 1, woken), k);
        k := k + 1;
      } else {
        k := 1;
      }
    }
  }

  /** In particular, if the pause after the threshold is reached is shorter than the cooldown,
      exactly min(threshold - f, max(1, maxRetries)) sends are made. */
  lemma DownHostShort(retry: RetryConfig, bc: Config, world: World, f: nat, d: Delivery, i: nat, now: int)
    requires DownAndAlone(world) && f < bc.failureThreshold
    requires ShortPause(retry, bc, world, d.attempt, i, bc.failureThreshold - f)
    ensures
      var o := Deliver(retry, bc, world, Some(Breaker(Closed, f, None)), d, i, now);
      var left, room := bc.failureThreshold - f, Allowance(retry, d);
      EndsDown(o, i, room, Least(left, room), f + Least(left, room), if left <= room then Open else Closed)
  {
    var k := DownHost(retry, bc, world, f, d, i, now);
  }
}
