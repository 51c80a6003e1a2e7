/** `IdempotentWebhookProcessor::process` over the first-write-wins table of
    `webhook-sdk/src/idempotency.rs`, as interleaved steps: look up, deliver, record. The
    key of a payload (a SHA-256 digest) is left abstract. */
module IdempotencyModel {
  import opened Prelude

  type Key = string

  /** What is cached for later duplicates, failures included. */
  datatype Response =
    | Delivered(attempt: nat, statusCode: Option<nat>)
    | NotDelivered(error: string)

  /** Where a call to `process` stands, or how it ended: with a response, with the error of
      its own delivery, or with an error of the database. */
  datatype Phase =
    | Missed(key: Key)
    | Unrecorded(key: Key, response: Response)
    | Returned(key: Key, response: Response, isDuplicate: bool)
    | Failed(key: Key, error: string)
    | StorageFailed(key: Key)

  datatype System = System(rows: map<Key, Response>, calls: map<nat, Phase>)

  const EMPTY := System(map[], map[])

  /** `INSERT OR IGNORE`. */
  function Record(rows: map<Key, Response>, key: Key, response: Response): map<Key, Response> {
    if key in rows then rows else rows[key := response]
  }

  /** How a call ends that delivered and recorded: only a success is returned as a response. */
  function Recorded(key: Key, response: Response): Phase {
    match response
    case Delivered(_, _) => Returned(key, response, false)
    case NotDelivered(e) => Failed(key, e)
  }

  datatype Step =
    | Lookup(call: nat, key: Key)
    | LookupFault(call: nat, key: Key)
    | Deliver(call: nat, response: Response)
    | Store(call: nat)
    | StoreFault(call: nat)

  predicate Enabled(s: System, step: Step) {
    match step
    case Lookup(call, _) => call !in s.calls
    case LookupFault(call, _) => call !in s.calls
    case Deliver(call, _) => call in s.calls && s.calls[call].Missed?
    case Store(call) => call in s.calls && s.calls[call].Unrecorded?
    case StoreFault(call) => call in s.calls && s.calls[call].Unrecorded?
  }

  function Apply(s: System, step: Step): System
    requires Enabled(s, step)
  {
    match step
    case Lookup(call, key) =>
      s.(calls := s.calls[call := if key in s.rows then Returned(key, s.rows[key], true) else Missed(key)])
    case LookupFault(call, key) =>
      s.(calls := s.calls[call := StorageFailed(key)])
    case Deliver(call, response) =>
      s.(calls := s.calls[call := Unrecorded(s.calls[call].key, response)])
    case Store(call) =>
      var c := s.calls[call];
      System(Record(s.rows, c.key, c.response), s.calls[call := Recorded(c.key, c.response)])
    case StoreFault(call) =>
      s.(calls := s.calls[call := StorageFailed(s.calls[call].key)])
  }

  predicate Legal(steps: seq<Step>)
    decreases |steps|, 0
  {
    steps == [] || (Legal(steps[..|steps| - 1]) && Enabled(Run(steps[..|steps| - 1]), steps[|steps| - 1]))
  }

  function Run(steps: seq<Step>): System
    requires Legal(steps)
    decreases |steps|, 1
  {
    if steps == [] then EMPTY else Apply(Run(steps[..|steps| - 1]), steps[|steps| - 1])
  }

  /** Deliveries made for `key`. */
  function Deliveries(steps: seq<Step>, key: Key): nat
    requires Legal(steps)
  {
    if steps == [] then 0
    else
      var before, last := Run(steps[..|steps| - 1]), steps[|steps| - 1];
      Deliveries(steps[..|steps| - 1], key)
      + if last.Deliver? && before.calls[last.call].key == key then 1 else 0
  }

  /** Calls for `key` whose lookup came before the first record of `key`. */
  function EarlyLookups(steps: seq<Step>, key: Key): nat
    requires Legal(steps)
  {
    if steps == [] then 0
    else
      var before, last := Run(steps[..|steps| - 1]), steps[|steps| - 1];
      EarlyLookups(steps[..|steps| - 1], key)
      + if last.Lookup? && last.key == key && key !in before.rows then 1 else 0
  }

  /** Writes for `key` that the database refused. */
  function LostRecords(steps: seq<Step>, key: Key): nat
    requires Legal(steps)
  {
    if steps == [] then 0
    else
      var before, last := Run(steps[..|steps| - 1]), steps[|steps| - 1];
      LostRecords(steps[..|steps| - 1], key)
      + if last.StoreFault? && before.calls[last.call].key == key then 1 else 0
  }

  predicate InProgress(p: Phase) {
    p.Missed? || p.Unrecorded?
  }

  /** Calls run one after the other: no call starts while another is under way. */
  predicate Sequential(steps: seq<Step>)
    requires Legal(steps)
  {
    steps == [] ||
    var before, last := Run(steps[..|steps| - 1]), steps[|steps| - 1];
    && Sequential(steps[..|steps| - 1])
    && (last.Lookup? || last.LookupFault? ==> forall c :: c in before.calls ==> !InProgress(before.calls[c]))
  }

  // --- Every interleaving ---------------------------------------------------

  lemma {:induction false} LegalPrefix(steps: seq<Step>, n: nat)
    requires Legal(steps) && n <= |steps|
    ensures Legal(steps[..n])
    decreases |steps|
  {
    if n < |steps| {
      LegalPrefix(steps[..|steps| - 1], n);
      assert steps[..|steps| - 1][..n] == steps[..n];
    } else {
      assert steps[..n] == steps;
    }
  }

  /** First write wins: once a key has a cached response it keeps it for good. */
  lemma {:induction false} CachedForever(steps: seq<Step>, n: nat, key: Key)
    requires Legal(steps) && n <= |steps| && Legal(steps[..n]) && key in Run(steps[..n]).rows
    ensures key in Run(steps).rows && Run(steps).rows[key] == Run(steps[..n]).rows[key]
    decreases |steps|
  {
    if n < |steps| {
      assert steps[..|steps| - 1][..n] == steps[..n];
      CachedForever(steps[..|steps| - 1], n, key);
    } else {
      assert steps[..n] == steps;
    }
  }

  /** The table after a sequence of inserts. */
  function Inserted(log: seq<(Key, Response)>): map<Key, Response> {
    if log == [] then map[] else Record(Inserted(log[..|log| - 1]), log[|log| - 1].0, log[|log| - 1].1)
  }

  lemma InsertedSnoc(log: seq<(Key, Response)>, key: Key, response: Response)
    ensures Inserted(log + [(key, response)]) == Record(Inserted(log), key, response)
  {
    assert (log + [(key, response)])[..|log|] == log;
  }

  /** The first insert for a key. */
  function FirstInsert(log: seq<(Key, Response)>, key: Key): Option<Response> {
    if log == [] then None
    else if log[0].0 == key then Some(log[0].1)
    else FirstInsert(log[1..], key)
  }

  lemma {:induction false} FirstInsertSnoc(log: seq<(Key, Response)>, x: (Key, Response), key: Key)
    ensures FirstInsert(log + [x], key) ==
      if FirstInsert(log, key).Some? then FirstInsert(log, key) else if x.0 == key then Some(x.1) else None
    decreases |log|
  {
    if log == [] {
      assert ([] + [x])[1..] == [];
    } else {
      assert (log + [x])[1..] == log[1..] + [x];
      FirstInsertSnoc(log[1..], x, key);
    }
  }

  /** After any sequence of inserts a lookup finds the first one made for its key. */
  lemma {:induction false} LookupFindsFirst(log: seq<(Key, Response)>, key: Key)
    ensures (if key in Inserted(log) then Some(Inserted(log)[key]) else None) == FirstInsert(log, key)
    decreases |log|
  {
    if log == [] {
    } else {
      var rest, last := log[..|log| - 1], log[|log| - 1];
      LookupFindsFirst(rest, key);
      assert log == rest + [last];
      FirstInsertSnoc(rest, last, key);
    }
  }

  /** A call that delivered `response` for `key`, later on. */
  ghost predicate Ends(p: Phase, key: Key, response: Response) {
    || p == Unrecorded(key, response)
    || (response.Delivered? && p == Returned(key, response, false))
    || (response.NotDelivered? && p == Failed(key, response.error))
    || p == StorageFailed(key)
  }

  /** In every interleaving a call that delivered ends as its own delivery did: with the
      response if it succeeded, with the error if not, unless its record is lost. */
  lemma {:induction false} EndsAsDelivered(steps: seq<Step>, i: nat)
    requires Legal(steps) && i < |steps| && steps[i].Deliver? && Legal(steps[..i]) && Enabled(Run(steps[..i]), steps[i])
    ensures
      var call := steps[i].call;
      call in Run(steps).calls && Ends(Run(steps).calls[call], Run(steps[..i]).calls[call].key, steps[i].response)
    decreases |steps|
  {
    if i == |steps| - 1 {
      assert steps[..i] == steps[..|steps| - 1];
    } else {
      assert steps[..|steps| - 1][..i] == steps[..i];
      EndsAsDelivered(steps[..|steps| - 1], i);
    }
  }

  /** In every interleaving a call whose lookup finds its key cached ends there and then, with
      that response and no error, whether the cached delivery succeeded or not. */
  lemma {:induction false} DuplicatesAnswer(steps: seq<Step>, j: nat)
    requires Legal(steps) && j < |steps| && steps[j].Lookup? && Legal(steps[..j]) && Enabled(Run(steps[..j]), steps[j])
    requires steps[j].key in Run(steps[..j]).rows
    ensures
      var s, key := Run(steps[..j]), steps[j].key;
      steps[j].call in Run(steps).calls && Run(steps).calls[steps[j].call] == Returned(key, s.rows[key], true)
    decreases |steps|
  {
    if j == |steps| - 1 {
      assert steps[..j] == steps[..|steps| - 1];
    } else {
      assert steps[..|steps| - 1][..j] == steps[..j];
      DuplicatesAnswer(steps[..|steps| - 1], j);
    }
  }

  /** Calls that looked `key` up in vain and have not delivered yet. */
  function Waiting(s: System, key: Key): set<nat> {
    set c | c in s.calls && s.calls[c] == Missed(key)
  }

  lemma WaitingUpdate(s: System, s': System, call: nat, phase: Phase, key: Key)
    requires s'.calls == s.calls[call := phase]
    ensures phase == Missed(key) && call !in s.calls ==> |Waiting(s', key)| == |Waiting(s, key)| + 1
    ensures phase != Missed(key) && call in Waiting(s, key) ==> |Waiting(s', key)| == |Waiting(s, key)| - 1
    ensures phase != Missed(key) && call !in Waiting(s, key) ==> Waiting(s', key) == Waiting(s, key)
  {
    if phase == Missed(key) && call !in s.calls {
      assert Waiting(s', key) == Waiting(s, key) + {call};
    } else if phase != Missed(key) {
      assert Waiting(s', key) == Waiting(s, key) - {call};
    }
  }

  /** How one step moves calls in and out of waiting. */
  lemma WaitingStep(s: System, step: Step, key: Key)
    requires Enabled(s, step)
    ensures
      var joins := step.Lookup? && step.key == key && key !in s.rows;
      var leaves := step.Deliver? && s.calls[step.call].key == key;
      |Waiting(Apply(s, step), key)| + (if leaves then 1 else 0) == |Waiting(s, key)| + if joins then 1 else 0
  {
    var s' := Apply(s, step);
    WaitingUpdate(s, s', step.call, s'.calls[step.call], key);
  }

  lemma {:induction false} LookupsDeliverOnce(steps: seq<Step>, key: Key)
    requires Legal(steps)
    ensures Deliveries(steps, key) + |Waiting(Run(steps), key)| == EarlyLookups(steps, key)
    decreases |steps|
  {
    if steps == [] {
      assert Waiting(EMPTY, key) == {};
    } else {
      LookupsDeliverOnce(steps[..|steps| - 1], key);
      WaitingStep(Run(steps[..|steps| - 1]), steps[|steps| - 1], key);
    }
  }

  /** In every interleaving, crashes and storage faults included, a key is delivered at most
      as often as calls looked it up before its first record. */
  lemma DeliveriesBounded(steps: seq<Step>, key: Key)
    requires Legal(steps)
    ensures Deliveries(steps, key) <= EarlyLookups(steps, key)
  {
    LookupsDeliverOnce(steps, key);
  }

  lemma Snoc(steps: seq<Step>, step: Step, key: Key)
    requires Legal(steps) && Enabled(Run(steps), step)
    ensures Legal(steps + [step]) && Run(steps + [step]) == Apply(Run(steps), step)
    ensures EarlyLookups(steps + [step], key) == EarlyLookups(steps, key)
      + if step.Lookup? && step.key == key && key !in Run(steps).rows then 1 else 0
  {
    assert (steps + [step])[..|steps|] == steps;
  }

  /** The bound cannot be improved: from any point every call that looked the key up too
      early can still deliver it, so only overlapping lookups break at-most-once. */
  lemma {:induction false} BoundAttained(steps: seq<Step>, key: Key, response: Response) returns (more: seq<Step>)
    requires Legal(steps)
    ensures Legal(steps + more) && forall i :: 0 <= i < |more| ==> more[i].Deliver?
    ensures Deliveries(steps + more, key) == EarlyLookups(steps, key)
    decreases |Waiting(Run(steps), key)|
  {
    LookupsDeliverOnce(steps, key);
    if Waiting(Run(steps), key) == {} {
      more := [];
      assert steps + more == steps;
    } else {
      var c :| c in Waiting(Run(steps), key);
      Snoc(steps, Deliver(c, response), key);
      WaitingStep(Run(steps), Deliver(c, response), key);
      var rest := BoundAttained(steps + [Deliver(c, response)], key, response);
      more := [Deliver(c, response)] + rest;
      assert steps + more == steps + [Deliver(c, response)] + rest;
    }
  }

  ghost predicate OnlyDelivers(more: seq<Step>) {
    forall i :: 0 <= i < |more| ==> more[i].Deliver?
  }

  lemma {:induction false} DeliversAddNoLookups(steps: seq<Step>, more: seq<Step>, key: Key)
    requires Legal(steps) && Legal(steps + more) && OnlyDelivers(more)
    ensures EarlyLookups(steps + more, key) == EarlyLookups(steps, key)
    decreases |more|
  {
    if more == [] {
      assert steps + more == steps;
    } else {
      var rest := more[..|more| - 1];
      assert (steps + more)[..|steps + more| - 1] == steps + rest;
      DeliversAddNoLookups(steps, rest, key);
    }
  }

  /** Whatever deliveries are still made by the calls under way, the key is delivered at most
      once. */
  ghost predicate AtMostOnceFrom(steps: seq<Step>, key: Key)
    requires Legal(steps)
  {
    forall more :: OnlyDelivers(more) && Legal(steps + more) ==> Deliveries(steps + more, key) <= 1
  }

  /** At-most-once, exactly: from any point of any interleaving, the calls already under way
      cannot take the deliveries of the key above one, if and only if at most one call looked
      it up before its first record. */
  lemma AtMostOnceIff(steps: seq<Step>, key: Key)
    requires Legal(steps)
    ensures AtMostOnceFrom(steps, key) <==> EarlyLookups(steps, key) <= 1
  {
    if EarlyLookups(steps, key) <= 1 {
      forall more | OnlyDelivers(more) && Legal(steps + more) ensures Deliveries(steps + more, key) <= 1 {
        DeliveriesBounded(steps + more, key);
        DeliversAddNoLookups(steps, more, key);
      }
    } else {
      var more := BoundAttained(steps, key, NotDelivered(""));
      assert OnlyDelivers(more);
    }
  }

  /** Two calls that look the key up before either has recorded it deliver it twice. */
  lemma OverlapDeliversTwice(key: Key, r: Response)
    ensures
      var steps := [Lookup(0, key), Lookup(1, key), Deliver(0, r), Deliver(1, r)];
      Legal(steps) && Deliveries(steps, key) == 2
  {
    var a, b, c, d := Lookup(0, key), Lookup(1, key), Deliver(0, r), Deliver(1, r);
    assert [] + [a] == [a] && [a] + [b] == [a, b] && [a, b] + [c] == [a, b, c] && [a, b, c] + [d] == [a, b, c, d];
    Snoc([], a, key);
    Snoc([a], b, key);
    Snoc([a, b], c, key);
    Snoc([a, b, c], d, key);
    LookupsDeliverOnce([a, b, c, d], key);
    assert Waiting(Run([a, b, c, d]), key) == {};
  }

  // --- One call at a time ---------------------------------------------------

  /** At most one call is under way; the deliveries of a key are the recorded one, those
      whose record was lost, and the one waiting to be recorded. */
  ghost predicate OneAtATime(s: System) {
    forall c, c' :: c in s.calls && c' in s.calls && InProgress(s.calls[c]) && InProgress(s.calls[c']) ==> c == c'
  }

  ghost predicate Pending(s: System, key: Key) {
    exists c :: c in s.calls && s.calls[c].Unrecorded? && s.calls[c].key == key
  }

  /** A call under way for a key still has no cached response to go by. */
  ghost predicate MissesAreUncached(s: System) {
    forall c :: c in s.calls && InProgress(s.calls[c]) ==> s.calls[c].key !in s.rows
  }

  /** What a finished call told its caller about the delivery of its key. */
  function Told(p: Phase): Option<Response> {
    match p
    case Returned(_, response, _) => Some(response)
    case Failed(_, e) => Some(NotDelivered(e))
    case _ => None
  }

  /** Every finished call told its caller what the table holds for its key. */
  ghost predicate ReturnsCached(s: System) {
    forall c :: c in s.calls && Told(s.calls[c]).Some? ==>
      s.calls[c].key in s.rows && s.rows[s.calls[c].key] == Told(s.calls[c]).value
  }

  lemma {:induction false} SequentialInv(steps: seq<Step>)
    requires Legal(steps) && Sequential(steps)
    ensures OneAtATime(Run(steps)) && MissesAreUncached(Run(steps)) && ReturnsCached(Run(steps))
    decreases |steps|
  {
    if steps == [] {
    } else {
      SequentialInv(steps[..|steps| - 1]);
      var before, last := Run(steps[..|steps| - 1]), steps[|steps| - 1];
      if last.Store? {
        forall c | c in before.calls && InProgress(before.calls[c]) ensures c == last.call {
        }
      }
    }
  }

  lemma {:induction false} SequentialCount(steps: seq<Step>, key: Key)
    requires Legal(steps) && Sequential(steps)
    ensures Deliveries(steps, key)
         == LostRecords(steps, key) + (if key in Run(steps).rows then 1 else 0)
            + (if Pending(Run(steps), key) then 1 else 0)
    decreases |steps|
  {
    if steps == [] {
    } else {
      var prefix, last := steps[..|steps| - 1], steps[|steps| - 1];
      SequentialCount(prefix, key);
      SequentialInv(prefix);
      var before, after := Run(prefix), Run(steps);
      match last {
        case Lookup(call, k) => SamePending(before, after, call, key);
        case LookupFault(call, k) => SamePending(before, after, call, key);
        case Deliver(call, response) =>
          if before.calls[call].key == key {
            assert after.calls[call].Unrecorded?;
            NonePending(before, call, key);
          } else {
            SamePending(before, after, call, key);
          }
        case Store(call) =>
          if before.calls[call].key == key {
            assert Pending(before, key);
            NonePending(after, call, key);
          } else {
            SamePending(before, after, call, key);
          }
        case StoreFault(call) =>
          if before.calls[call].key == key {
            assert Pending(before, key);
            NonePending(after, call, key);
          } else {
            SamePending(before, after, call, key);
          }
      }
    }
  }

  /** A step of another kind or key leaves the pending records of `key` alone. */
  lemma SamePending(before: System, after: System, call: nat, key: Key)
    requires forall c :: c != call ==> (c in before.calls <==> c in after.calls)
    requires forall c :: c != call && c in before.calls ==> after.calls[c] == before.calls[c]
    requires call in before.calls ==> !(before.calls[call].Unrecorded? && before.calls[call].key == key)
    requires call in after.calls ==> !(after.calls[call].Unrecorded? && after.calls[call].key == key)
    ensures Pending(before, key) <==> Pending(after, key)
  {
    if Pending(before, key) {
      var c :| c in before.calls && before.calls[c].Unrecorded? && before.calls[c].key == key;
      assert c in after.calls && after.calls[c].Unrecorded?;
    }
    if Pending(after, key) {
      var c :| c in after.calls && after.calls[c].Unrecorded? && after.calls[c].key == key;
      assert c in before.calls && before.calls[c].Unrecorded?;
    }
  }

  lemma NonePending(s: System, call: nat, key: Key)
    requires forall c :: c in s.calls && InProgress(s.calls[c]) ==> c == call
    requires call in s.calls && !s.calls[call].Unrecorded?
    ensures !Pending(s, key)
  {
  }

  /** One call at a time, a key is delivered at most once, plus once for every record the
      database lost; and every finished call, duplicate or not, reported the one outcome cached
      for its key, a failed first call as an error. */
  lemma SequentialAtMostOnce(steps: seq<Step>, key: Key)
    requires Legal(steps) && Sequential(steps)
    ensures Deliveries(steps, key) <= 1 + LostRecords(steps, key)
    ensures ReturnsCached(Run(steps))
  {
    SequentialInv(steps);
    SequentialCount(steps, key);
    var s := Run(steps);
    if Pending(s, key) {
      var c :| c in s.calls && s.calls[c].Unrecorded? && s.calls[c].key == key;
      assert key !in s.rows;
    }
  }

  /** A call that delivered a key and one whose lookup found the key cached, in every
      interleaving: the two agree on success or error if and only if that delivery succeeded.
      One call at a time, the second also returns that delivery's response. */
  lemma DuplicateAgreesIff(steps: seq<Step>, i: nat, j: nat)
    requires Legal(steps)
    requires i < |steps| && steps[i].Deliver? && Legal(steps[..i]) && Enabled(Run(steps[..i]), steps[i])
    requires j < |steps| && steps[j].Lookup? && Legal(steps[..j]) && Enabled(Run(steps[..j]), steps[j])
    requires steps[j].key == Run(steps[..i]).calls[steps[i].call].key && steps[j].key in Run(steps[..j]).rows
    requires steps[i].call in Run(steps).calls && Told(Run(steps).calls[steps[i].call]).Some?
    ensures
      var s, first, later := Run(steps), steps[i].call, steps[j].call;
      && later in s.calls
      && ((s.calls[first].Returned? <==> s.calls[later].Returned?) <==> steps[i].response.Delivered?)
      && (Sequential(steps) ==> Told(s.calls[later]) == Some(steps[i].response))
  {
    EndsAsDelivered(steps, i);
    DuplicatesAnswer(steps, j);
    if Sequential(steps) {
      SequentialInv(steps);
    }
  }

  /** A failed delivery and its duplicate: an error first, then the cached failure as a
      response. */
  lemma FailureThenDuplicate(key: Key, e: string)
    ensures
      var steps := [Lookup(0, key), Deliver(0, NotDelivered(e)), Store(0), Lookup(1, key)];
      && Legal(steps) && Sequential(steps)
      && Run(steps).calls == map[0 := Failed(key, e), 1 := Returned(key, NotDelivered(e), true)]
  {
    var a, b, c, d := Lookup(0, key), Deliver(0, NotDelivered(e)), Store(0), Lookup(1, key);
    assert [] + [a] == [a] && [a] + [b] == [a, b] && [a, b] + [c] == [a, b, c] && [a, b, c] + [d] == [a, b, c, d];
    Snoc([], a, key);
    Snoc([a], b, key);
    Snoc([a, b], c, key);
    Snoc([a, b, c], d, key);
    SequentialSnoc([], a);
    SequentialSnoc([a], b);
    SequentialSnoc([a, b], c);
    SequentialSnoc([a, b, c], d);
  }

  lemma SequentialSnoc(steps: seq<Step>, step: Step)
    requires Legal(steps) && Sequential(steps) && Legal(steps + [step])
    requires step.Lookup? || step.LookupFault? ==>
      forall c :: c in Run(steps).calls ==> !InProgress(Run(steps).calls[c])
    ensures Sequential(steps + [step])
  {
    assert (steps + [step])[..|steps|] == steps;
  }
}
