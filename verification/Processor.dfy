/** `IdempotentWebhookProcessor::process` on top of the retrying deliverer and the
    idempotency table. */
module Processing {
  import opened Prelude
  import opened CircuitBreaking
  import B = CircuitBreakerModel
  import D = DeliveryModel
  import Delivering
  import opened IdempotencyModel

  class IdempotencyStore {
    var rows: map<Key, Response>
    ghost var inserts: seq<(Key, Response)>

    /** The table is what the inserts made so far leave in it. */
    ghost predicate Valid()
      reads this
    {
      rows == Inserted(inserts)
    }

    constructor ()
      ensures Valid() && rows == map[] && inserts == []
    {
      rows, inserts := map[], [];
    }

    /** `INSERT OR IGNORE`: a key that is already there keeps its response. */
    method Insert(key: Key, response: Response)
      requires Valid()
      modifies this
      ensures Valid() && inserts == old(inserts) + [(key, response)]
      ensures rows == Record(old(rows), key, response)
      ensures key in rows && (key in old(rows) ==> rows == old(rows))
      ensures forall k :: k in old(rows) ==> k in rows && rows[k] == old(rows)[k]
    {
      InsertedSnoc(inserts, key, response);
      if key !in rows {
        rows := rows[key := response];
      }
      inserts := inserts + [(key, response)];
    }

    /** The response of the first insert made for the key. */
    method Get(key: Key) returns (r: Option<Response>)
      requires Valid()
      ensures r == FirstInsert(inserts, key)
      ensures r.Some? <==> key in rows
      ensures r.Some? ==> rows[key] == r.value
    {
      LookupFindsFirst(inserts, key);
      r := if key in rows then Some(rows[key]) else None;
    }
  }

  datatype ProcessingResult = ProcessingResult(idempotencyKey: Key, isDuplicate: bool, response: Response)

  datatype ProcessError = Storage | Delivery(error: D.DeliveryError)

  /** Whether the database fails at the lookup, and at the record. */
  datatype Faults = Faults(lookup: bool, record: bool)

  function ErrorText(e: D.DeliveryError): string {
    if e.CircuitOpen? then "Circuit breaker open: refusing to call a repeatedly failing destination"
    else "Max retries exceeded"
  }

  /** The JSON that `process` caches for a finished delivery. */
  function ResponseOf(r: Result<D.Delivery, D.DeliveryError>): Response {
    match r
    case Ok(d) => Delivered(d.attempt, d.statusCode)
    case Err(e) => NotDelivered(ErrorText(e))
  }

  /** What a delivery is cached as, in terms of its sends: the attempt and status of the first
      one that succeeded, or the message of the error it ended with. */
  lemma ResponseMeans(retry: D.RetryConfig, bc: B.Config, world: D.World, breaker: Option<B.Breaker>,
                      delivery: D.Delivery, start: int)
    ensures
      var o := D.Deliver(retry, bc, world, breaker, delivery, 0, start);
      var k := D.FirstSent(world, 0, D.Allowance(retry, delivery));
      match o.result
      case Ok(_) =>
        && k < D.Allowance(retry, delivery) && world.send(k).Sent?
        && ResponseOf(o.result) == Delivered(delivery.attempt + k + 1, Some(world.send(k).status))
      case Err(MaxRetriesExceeded) => ResponseOf(o.result) == NotDelivered("Max retries exceeded")
      case Err(CircuitOpen) =>
        ResponseOf(o.result)
        == NotDelivered("Circuit breaker open: refusing to call a repeatedly failing destination")
  {
    D.DeliverEnds(retry, bc, world, breaker, delivery, 0, start);
  }

  /** How one undisturbed call moves the interleaving model: its lookup, delivery and record. */
  function AfterCall(s: System, call: nat, key: Key, response: Response, faults: Faults): System
    requires call !in s.calls
  {
    if faults.lookup then Apply(s, LookupFault(call, key))
    else if key in s.rows then Apply(s, Lookup(call, key))
    else
      var delivered := Apply(Apply(s, Lookup(call, key)), Deliver(call, response));
      Apply(delivered, if faults.record then StoreFault(call) else Store(call))
  }

  /** What the caller gets is how the call ends in the interleaving model. */
  predicate Matches(r: Result<ProcessingResult, ProcessError>, p: Phase) {
    match p
    case Returned(key, response, isDuplicate) => r == Ok(ProcessingResult(key, isDuplicate, response))
    case Failed(_, e) => r.Err? && r.error.Delivery? && ErrorText(r.error.error) == e
    case StorageFailed(_) => r == Err(Storage)
    case _ => false
  }

  /** What a new key's delivery, which ended as o, leaves in the table and tells the caller. */
  ghost predicate Settles(retry: D.RetryConfig, world: D.World, delivery: D.Delivery, o: D.Outcome, key: Key,
                          before: map<Key, Response>, after: map<Key, Response>,
                          r: Result<ProcessingResult, ProcessError>)
  {
    var k := D.FirstSent(world, 0, D.Allowance(retry, delivery));
    match o.result
    case Ok(_) =>
      && world.send(k).Sent?
      && var cached := Delivered(delivery.attempt + k + 1, Some(world.send(k).status));
         r == Ok(ProcessingResult(key, false, cached)) && after == before[key := cached]
    case Err(MaxRetriesExceeded) =>
      && r == Err(Delivery(D.MaxRetriesExceeded))
      && after == before[key := NotDelivered("Max retries exceeded")]
    case Err(CircuitOpen) =>
      && r == Err(Delivery(D.CircuitOpen))
      && after == before[key := NotDelivered(
           "Circuit breaker open: refusing to call a repeatedly failing destination")]
  }

  lemma ResponseSettles(retry: D.RetryConfig, bc: B.Config, world: D.World, breaker: Option<B.Breaker>,
                        delivery: D.Delivery, start: int, key: Key, before: map<Key, Response>,
                        r: Result<ProcessingResult, ProcessError>)
    requires
      var o := D.Deliver(retry, bc, world, breaker, delivery, 0, start);
      r == if o.result.Ok? then Ok(ProcessingResult(key, false, ResponseOf(o.result)))
           else Err(Delivery(o.result.error))
    ensures
      var o := D.Deliver(retry, bc, world, breaker, delivery, 0, start);
      Settles(retry, world, delivery, o, key, before, before[key := ResponseOf(o.result)], r)
  {
    ResponseMeans(retry, bc, world, breaker, delivery, start);
  }

  /** A cached key is answered from the table without a single send, with the response of the
      first delivery whether it succeeded or not; any other key is delivered and its outcome
      recorded. The table moves as in the interleaving model. */
  method Process(store: IdempotencyStore, retry: D.RetryConfig, breaker: Option<CircuitBreaker>,
                 world: D.World, key: Key, delivery: D.Delivery, start: int, faults: Faults)
    returns (r: Result<ProcessingResult, ProcessError>, sends: nat)
    requires store.Valid()
    modifies store
    modifies if breaker.Some? then {breaker.value} else {}
    ensures store.Valid()
    ensures
      var before := old(store.rows);
      var o := D.Deliver(retry, Delivering.BreakerConfig(breaker), world, old(Delivering.State(breaker)),
                         delivery, 0, start);
      var model := AfterCall(System(before, map[]), 0, key, ResponseOf(o.result), faults);
      && store.rows == model.rows && Matches(r, model.calls[0])
      && (faults.lookup ==> r == Err(Storage) && sends == 0 && store.rows == before)
      && (!faults.lookup && key in before ==>
            r == Ok(ProcessingResult(key, true, before[key])) && sends == 0 && store.rows == before)
      && (!faults.lookup && key !in before ==>
            && sends == o.sends
            && (faults.record ==> r == Err(Storage) && store.rows == before)
            && (!faults.record ==> Settles(retry, world, delivery, o, key, before, store.rows, r)))
  {
    if faults.lookup {
      return Err(Storage), 0;
    }
    var cached := store.Get(key);
    if cached.Some? {
      return Ok(ProcessingResult(key, true, cached.value)), 0;
    }
    ghost var bc, was, before := Delivering.BreakerConfig(breaker), Delivering.State(breaker), store.rows;
    var result, n, end, permits := Delivering.Deliver(retry, breaker, world, delivery, start);
    var response := ResponseOf(result);
    sends := n;
    if faults.record {
      return Err(Storage), sends;
    }
    store.Insert(key, response);
    r := if result.Ok? then Ok(ProcessingResult(key, false, response)) else Err(Delivery(result.error));
    ResponseSettles(retry, bc, world, was, delivery, start, key, before, r);
  }
}
