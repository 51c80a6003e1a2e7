/** Batches, validity over time, pauses, the running count and the administration of the
    contract. */
module ContractRuns {
  import opened Prelude
  import opened ContractModel
  import M = Multisig
  import opened ContractProofs

  // --- A batch is its attests, one after the other ------------------------------

  /** `attest` for each entry in turn, at one ledger time, stopping at the first error. */
  function FoldAttest(st: State, auth: set<Address>, attestor: Address, entries: seq<BatchEntry>, now: U64)
    : Result<State, Error>
    decreases |entries|
  {
    if entries == [] then Ok(st)
    else
      match Attest(st, auth, attestor, entries[0], now)
      case Err(e) => Err(e)
      case Ok(st') => FoldAttest(st', auth, attestor, entries[1..], now)
  }

  /** How often a pair occurs in a batch. */
  function Times(entries: seq<BatchEntry>, p: Pair): nat {
    if entries == [] then 0 else (if entries[0].pair == p then 1 else 0) + Times(entries[1..], p)
  }

  /** The 64-bit counters can take the whole batch. */
  ghost predicate CounterRoom(st: State, entries: seq<BatchEntry>) {
    && (entries != [] ==> st.count + |entries| <= U64_MAX)
    && forall p :: Times(entries, p) > 0 ==> Seq(st, p) + Times(entries, p) <= U64_MAX
  }

  /** The lifetime, type-length and maximum-lifetime checks of one entry. */
  predicate Passes(st: State, e: BatchEntry) {
    0 < e.ttl <= MaxTtl(st, e.pair.kind) && |e.pair.kind| <= 24
  }

  /** Who may attest. */
  predicate MayAttest(st: State, auth: set<Address>, attestor: Address) {
    !st.paused && attestor in auth && attestor in st.attestors
  }

  lemma RoomStep(st: State, attestor: Address, entries: seq<BatchEntry>, now: U64)
    requires entries != []
    ensures
      var e, next := entries[0], Recorded(st, attestor, entries[0], now);
      CounterRoom(st, entries) <==>
        Seq(st, e.pair) + 1 <= U64_MAX && st.count + 1 <= U64_MAX && CounterRoom(next, entries[1..])
  {
    var e, next := entries[0], Recorded(st, attestor, entries[0], now);
    assert forall p :: Seq(next, p) + Times(entries[1..], p) == Seq(st, p) + Times(entries, p);
    assert Times(entries, e.pair) >= 1;
  }

  lemma {:induction false} RecordAllIff(st: State, auth: set<Address>, attestor: Address,
                                        entries: seq<BatchEntry>, now: U64)
    requires AttestGuard(st, auth, attestor).None?
    ensures RecordAll(st, attestor, entries, now).1.None?
       <==> (forall e :: e in entries ==> Passes(st, e)) && CounterRoom(st, entries)
    ensures RecordAll(st, attestor, entries, now).1.None? ==>
      && FoldAttest(st, auth, attestor, entries, now) == Ok(RecordAll(st, attestor, entries, now).0)
      && RecordAll(st, attestor, entries, now).0.count == st.count + |entries|
    ensures RecordAll(st, attestor, entries, now).1.Some? ==> FoldAttest(st, auth, attestor, entries, now).Err?
    decreases |entries|
  {
    if entries == [] {
    } else {
      var next := Recorded(st, attestor, entries[0], now);
      RoomStep(st, attestor, entries, now);
      assert forall e :: e in entries <==> e == entries[0] || e in entries[1..];
      assert forall e :: Passes(next, e) <==> Passes(st, e);
      assert entries[0] in entries;
      if Record(st, attestor, entries[0], now).Ok? {
        RecordAllIff(next, auth, attestor, entries[1..], now);
      }
    }
  }

  lemma {:induction false} PreCheckIff(st: State, entries: seq<BatchEntry>)
    ensures (forall e :: e in entries ==> Passes(st, e)) ==> PreCheck(entries).None?
  {
    if entries == [] {
    } else {
      assert entries[0] in entries;
      PreCheckIff(st, entries[1..]);
    }
  }

  /** On a non-empty list `attest_batch` commits exactly when the contract runs, the attestor
      is listed and authorised the call, every entry alone passes the three checks and the
      counters have room; it then commits exactly
      what attesting the entries one by one at the same time would, repeated pairs included;
      otherwise nothing changes. */
  lemma BatchIsFold(st: State, auth: set<Address>, attestor: Address, entries: seq<BatchEntry>, now: U64)
    requires entries != []
    ensures
      var r := Apply(st, auth, now, DoAttestBatch(attestor, entries));
      var fold := FoldAttest(st, auth, attestor, entries, now);
      && (r.Ok? <==>
            && !st.paused && attestor in auth && attestor in st.attestors
            && (forall e :: e in entries ==> 0 < e.ttl <= MaxTtl(st, e.pair.kind) && |e.pair.kind| <= 24)
            && CounterRoom(st, entries))
      && (r.Ok? <==> fold.Ok?)
      && (r.Ok? ==> r == fold)
      && (r.Err? ==> Step(st, Invocation(auth, now, DoAttestBatch(attestor, entries))) == st)
  {
    assert forall e :: Passes(st, e) <==> 0 < e.ttl <= MaxTtl(st, e.pair.kind) && |e.pair.kind| <= 24;
    if AttestGuard(st, auth, attestor).None? {
      RecordAllIff(st, auth, attestor, entries, now);
      PreCheckIff(st, entries);
    } else {
      assert Attest(st, auth, attestor, entries[0], now).Err?;
    }
    if AttestGuard(st, auth, attestor).None? && PreCheck(entries).Some? {
      PreCheckFails(st, entries);
    }
  }

  lemma {:induction false} PreCheckFails(st: State, entries: seq<BatchEntry>)
    requires PreCheck(entries).Some?
    ensures exists e :: e in entries && !Passes(st, e)
  {
    if entries[0].ttl == 0 || |entries[0].pair.kind| > MAX_ATTESTATION_TYPE_LEN {
      assert entries[0] in entries && !Passes(st, entries[0]);
    } else {
      PreCheckFails(st, entries[1..]);
      var e :| e in entries[1..] && !Passes(st, e);
      assert e in entries;
    }
  }

  lemma {:induction false} RecordAllNeverLowers(st: State, attestor: Address, entries: seq<BatchEntry>, now: U64)
    ensures RecordAll(st, attestor, entries, now).0.count >= st.count
    decreases |entries|
  {
    if entries != [] && Record(st, attestor, entries[0], now).Ok? {
      RecordAllNeverLowers(Recorded(st, attestor, entries[0], now), attestor, entries[1..], now);
    }
  }

  /** The attestation that an entry stands for. */
  function Stands(attestor: Address, e: BatchEntry, now: U64): Attestation {
    Attestation(attestor, e.pair.subject, e.pair.kind, e.payloadHash, now,
                Least(now + e.ttl, 0xFFFF_FFFF_FFFF_FFFF), Active)
  }

  /** The entry gets as far as being written, and that changes something: there is room in the
      pair's own counter, or its latest record was another one. */
  predicate Written(st: State, attestor: Address, e: BatchEntry, now: U64) {
    && Passes(st, e)
    && (Seq(st, e.pair) < U64_MAX
        || !(e.pair in st.attestations && st.attestations[e.pair] == Stands(attestor, e, now)))
  }

  /** The pre-check, entry by entry. */
  predicate PreChecked(entries: seq<BatchEntry>) {
    forall e :: e in entries ==> e.ttl > 0 && |e.pair.kind| <= 24
  }

  lemma {:induction false} PreCheckMeans(entries: seq<BatchEntry>)
    ensures PreCheck(entries).None? <==> PreChecked(entries)
  {
    if entries == [] {
    } else {
      PreCheckMeans(entries[1..]);
      assert forall e :: e in entries <==> e == entries[0] || e in entries[1..];
    }
  }

  /** Exactly when a refused batch has written something that only the host undoes: the
      caller may attest, the pre-check has nothing to say, the first entry is written, and some
      entry is over its maximum lifetime or finds a counter full. */
  lemma PartialWriteIff(st: State, auth: set<Address>, attestor: Address, entries: seq<BatchEntry>, now: U64)
    requires entries != []
    ensures
      var (raw, e) := RawBatch(st, auth, attestor, entries, now);
      e.Some? && raw != st <==>
        && MayAttest(st, auth, attestor) && PreChecked(entries) && Written(st, attestor, entries[0], now)
        && !((forall x :: x in entries ==> Passes(st, x)) && CounterRoom(st, entries))
  {
    var e := entries[0];
    PreCheckMeans(entries);
    if AttestGuard(st, auth, attestor).None? && PreCheck(entries).None? {
      assert e in entries;
      RecordAllIff(st, auth, attestor, entries, now);
      if Objection(st, e).None? {
        RecordAllNeverLowers(Recorded(st, attestor, e, now), attestor, entries[1..], now);
      } else if Objection(st, e) == Some(OverflowTrap) {
        TrapChanges(st, e.pair, Issued(attestor, e, now));
      }
    }
  }

  lemma TrapChanges(st: State, p: Pair, a: Attestation)
    ensures Trapped(st, p, a) == st <==> Seq(st, p) >= U64_MAX && p in st.attestations && st.attestations[p] == a
  {
    if Seq(st, p) < U64_MAX {
      assert Seq(Write(st, p, a), p) == Seq(st, p) + 1;
    } else if p in st.attestations && st.attestations[p] == a {
      assert st.attestations[p := a] == st.attestations;
    } else {
      assert p in Trapped(st, p, a).attestations && Trapped(st, p, a).attestations[p] == a;
    }
  }

  /** The pre-check does not look at the maximum lifetime: of two entries, a good one and one
      over its maximum, the first is written before the second is refused, and it is the
      host's rollback alone that removes it again. */
  lemma RollbackNeeded(st: State, auth: set<Address>, attestor: Address, good: BatchEntry, over: BatchEntry, now: U64)
    requires MayAttest(st, auth, attestor) && st.count < U64_MAX && Seq(st, good.pair) < U64_MAX
    requires Passes(st, good)
    requires over.ttl > MaxTtl(st, over.pair.kind) && over.ttl > 0 && |over.pair.kind| <= 24
    ensures
      var (raw, e) := RawBatch(st, auth, attestor, [good, over], now);
      && e == Some(ExceedsMaxTtl) && Apply(st, auth, now, DoAttest(attestor, good)) == Ok(raw) && raw != st
    ensures Step(st, Invocation(auth, now, DoAttestBatch(attestor, [good, over]))) == st
  {
    var entries := [good, over];
    assert entries[1..] == [over] && [over][1..] == [];
    assert PreCheck([over]).None?;
    var next := Recorded(st, attestor, good, now);
    assert RecordAll(next, attestor, [over], now) == (next, Some(ExceedsMaxTtl));
    assert next.count == st.count + 1;
  }

  // --- The running count --------------------------------------------------------

  /** Entries an invocation records. */
  function RecordedBy(st: State, inv: Invocation): nat {
    if Apply(st, inv.auth, inv.now, inv.call).Err? then 0
    else match inv.call
      case DoAttest(_, _) => 1
      case DoAttestBatch(_, entries) => |entries|
      case _ => 0
  }

  function RecordedInRun(st: State, invs: seq<Invocation>): nat {
    if invs == [] then 0
    else
      RecordedInRun(st, invs[..|invs| - 1]) + RecordedBy(Run(st, invs[..|invs| - 1]), invs[|invs| - 1])
  }

  lemma CountStep(st: State, inv: Invocation)
    ensures Step(st, inv).count == st.count + RecordedBy(st, inv)
  {
    if inv.call.DoAttestBatch? && Apply(st, inv.auth, inv.now, inv.call).Ok? {
      RecordAllIff(st, inv.auth, inv.call.attestor, inv.call.entries, inv.now);
    }
  }

  /** The count goes up by one for every attestation accepted, alone or in a batch, and by
      nothing else; so it is both the number of successful attests and of active entries. */
  lemma {:induction false} CountIsAccepted(invs: seq<Invocation>)
    ensures Run(DEPLOYED, invs).count == RecordedInRun(DEPLOYED, invs)
    decreases |invs|
  {
    if invs == [] {
    } else {
      CountIsAccepted(invs[..|invs| - 1]);
      CountStep(Run(DEPLOYED, invs[..|invs| - 1]), invs[|invs| - 1]);
    }
  }

  // --- Validity -----------------------------------------------------------------

  /** The invocation records a new attestation for p. */
  predicate Attests(st: State, inv: Invocation, p: Pair) {
    && Apply(st, inv.auth, inv.now, inv.call).Ok?
    && match inv.call
       case DoAttest(_, e) => e.pair == p
       case DoAttestBatch(_, entries) => exists e :: e in entries && e.pair == p
       case _ => false
  }

  predicate NeverAttests(st: State, invs: seq<Invocation>, p: Pair) {
    invs == [] ||
    (NeverAttests(st, invs[..|invs| - 1], p) && !Attests(Run(st, invs[..|invs| - 1]), invs[|invs| - 1], p))
  }

  lemma {:induction false} RecordAllSpares(st: State, attestor: Address, entries: seq<BatchEntry>, now: U64, p: Pair)
    requires forall e :: e in entries ==> e.pair != p
    ensures
      var st' := RecordAll(st, attestor, entries, now).0;
      (p in st'.attestations <==> p in st.attestations)
      && (p in st.attestations ==> st'.attestations[p] == st.attestations[p])
    decreases |entries|
  {
    if entries != [] && Record(st, attestor, entries[0], now).Ok? {
      assert entries[0] in entries;
      assert forall e :: e in entries[1..] ==> e in entries;
      RecordAllSpares(Recorded(st, attestor, entries[0], now), attestor, entries[1..], now, p);
    }
  }

  lemma ValidStep(st: State, inv: Invocation, p: Pair)
    requires !Attests(st, inv, p)
    ensures
      var st' := Step(st, inv);
      p in st'.attestations && st'.attestations[p].status == Active ==>
        p in st.attestations && st'.attestations[p] == st.attestations[p]
  {
    if Apply(st, inv.auth, inv.now, inv.call).Ok? && inv.call.DoAttestBatch? {
      RecordAllSpares(st, inv.call.attestor, inv.call.entries, inv.now, p);
    }
  }

  /** Between successful attests for a pair, validity can only be lost: no sequence of
      revocations, renewals, pauses, other pairs' attests or passing time brings it back. */
  lemma {:induction false} NoResurrection(st: State, t: U64, invs: seq<Invocation>, p: Pair)
    requires Ordered(t, invs) && NeverAttests(st, invs, p)
    ensures IsValid(Run(st, invs), p, Latest(t, invs)) ==> IsValid(st, p, t)
    ensures p in Run(st, invs).attestations && Run(st, invs).attestations[p].status == Active ==>
      p in st.attestations && Run(st, invs).attestations[p] == st.attestations[p]
    ensures t <= Latest(t, invs)
    decreases |invs|
  {
    if invs == [] {
    } else {
      NoResurrection(st, t, invs[..|invs| - 1], p);
      ValidStep(Run(st, invs[..|invs| - 1]), invs[|invs| - 1], p);
    }
  }

  // --- Pauses -------------------------------------------------------------------

  /** The contract is paused in every state of the run, the first and the last included. */
  predicate StaysPaused(st: State, invs: seq<Invocation>) {
    Run(st, invs).paused && (invs == [] || StaysPaused(st, invs[..|invs| - 1]))
  }

  lemma PausedStep(st: State, inv: Invocation)
    requires st.paused
    ensures
      var st' := Step(st, inv);
      LogUnchanged(st, st') && st'.count == st.count
  {
    if !Writes(inv.call) && Apply(st, inv.auth, inv.now, inv.call).Ok? {
      OthersAreQuiet(st, inv.auth, inv.now, inv.call);
    }
  }

  /** While the contract stays paused every attestation, every history and the count are
      frozen, although renewals and administration still run. */
  lemma {:induction false} PauseFreezes(st: State, invs: seq<Invocation>)
    requires StaysPaused(st, invs)
    ensures LogUnchanged(st, Run(st, invs)) && Run(st, invs).count == st.count
    decreases |invs|
  {
    if invs == [] {
    } else {
      PauseFreezes(st, invs[..|invs| - 1]);
      PausedStep(Run(st, invs[..|invs| - 1]), invs[|invs| - 1]);
    }
  }

  // --- What one attest and one revoke do ------------------------------------------

  /** A successful attest makes its pair valid from now until now + ttl (or the end of
      64-bit time), leaves every other pair as it was, and stores just this: the attestation,
      the next number, its history entry and the count. */
  lemma AttestMakesValid(st: State, auth: set<Address>, attestor: Address, e: BatchEntry, now: U64, q: Pair, later: U64)
    requires Attest(st, auth, attestor, e, now).Ok?
    ensures
      var st' := Attest(st, auth, attestor, e, now).value;
      var n, a := Seq(st, e.pair) + 1, Stands(attestor, e, now);
      var entry := HistoryEntry(n, attestor, e.payloadHash, now, a.expiresAt, Active);
      && (IsValid(st', e.pair, later) <==> later < now + e.ttl && later < U64_MAX)
      && (q != e.pair ==> (IsValid(st', q, later) <==> IsValid(st, q, later)) && Seq(st', q) == Seq(st, q))
      && st' == st.(attestations := st.attestations[e.pair := a],
                    seqs := st.seqs[e.pair := n],
                    history := st.history[(e.pair, n) := entry],
                    count := st.count + 1)
  {
  }

  /** In any reachable state a revoke commits exactly when the contract runs, the pair has an
      active attestation, and its caller authorised the call and is the admin or the original
      attestor; it then ends that pair's validity, keeps its terms, and touches nothing else. */
  lemma RevokeExactly(t: U64, invs: seq<Invocation>, auth: set<Address>, caller: Address, p: Pair, now: U64)
    requires Ordered(t, invs) && Latest(t, invs) <= now && Seq(Run(DEPLOYED, invs), p) < U64_MAX
    ensures
      var st := Run(DEPLOYED, invs);
      var r := Apply(st, auth, now, DoRevoke(caller, p));
      && (r.Ok? <==>
            && !st.paused && caller in auth
            && p in st.attestations && st.attestations[p].status == Active
            && (st.admin == Some(caller) || st.attestations[p].attestor == caller))
      && (r.Ok? ==>
            && (forall later :: !IsValid(r.value, p, later))
            && r.value.attestations == st.attestations[p := st.attestations[p].(status := Revoked)]
            && r.value.count == st.count && SameSettings(st, r.value)
            && Keyed(st) && Keyed(r.value)
            && (forall q :: q != p ==> HistoryOf(r.value, q) == HistoryOf(st, q))
            && var a, n := st.attestations[p], Seq(st, p) + 1;
               HistoryOf(r.value, p)
               == HistoryOf(st, p) + [HistoryEntry(n, a.attestor, a.payloadHash, a.issuedAt, a.expiresAt, Revoked)])
  {
    DeployedInv(t);
    RunInv(DEPLOYED, t, invs);
    var st := Run(DEPLOYED, invs);
    if Revoke(st, auth, caller, p).Ok? {
      WriteKeyed(st, p, st.attestations[p].(status := Revoked));
    }
  }

  // --- Which maximum applies --------------------------------------------------------

  /** The value of the last successful per-type override for `kind`. */
  function LastOverride(st: State, invs: seq<Invocation>, kind: Symbol): Option<U64> {
    if invs == [] then None
    else
      var before, last := Run(st, invs[..|invs| - 1]), invs[|invs| - 1];
      if last.call.SetMaxTtl? && last.call.kind == kind && Apply(before, last.auth, last.now, last.call).Ok?
      then Some(last.call.seconds)
      else LastOverride(st, invs[..|invs| - 1], kind)
  }

  /** The value of the last successful change of the default. */
  function LastDefault(st: State, invs: seq<Invocation>): Option<U64> {
    if invs == [] then None
    else
      var before, last := Run(st, invs[..|invs| - 1]), invs[|invs| - 1];
      if last.call.SetDefaultMaxTtl? && Apply(before, last.auth, last.now, last.call).Ok?
      then Some(last.call.seconds)
      else LastDefault(st, invs[..|invs| - 1])
  }

  lemma {:induction false} RecordAllSettings(st: State, attestor: Address, entries: seq<BatchEntry>, now: U64)
    ensures SameSettings(st, RecordAll(st, attestor, entries, now).0)
    decreases |entries|
  {
    if entries != [] && Record(st, attestor, entries[0], now).Ok? {
      RecordAllSettings(Recorded(st, attestor, entries[0], now), attestor, entries[1..], now);
    }
  }

  /** One invocation changes a per-type maximum only by its own successful setting. */
  lemma OverrideStep(st: State, inv: Invocation, kind: Symbol)
    ensures
      var st', ok := Step(st, inv), Apply(st, inv.auth, inv.now, inv.call).Ok?;
      if ok && inv.call.SetMaxTtl? && inv.call.kind == kind
      then kind in st'.maxTtl && st'.maxTtl[kind] == inv.call.seconds > 0
      else (kind in st'.maxTtl <==> kind in st.maxTtl) && (kind in st.maxTtl ==> st'.maxTtl[kind] == st.maxTtl[kind])
  {
    if Writes(inv.call) {
      WritesKeepSettings(st, inv);
    }
  }

  /** And the default likewise. */
  lemma DefaultStep(st: State, inv: Invocation)
    ensures
      var st', ok := Step(st, inv), Apply(st, inv.auth, inv.now, inv.call).Ok?;
      if ok && inv.call.SetDefaultMaxTtl?
      then st'.defaultMaxTtl == Some(inv.call.seconds) && inv.call.seconds > 0
      else st'.defaultMaxTtl == st.defaultMaxTtl
  {
    if Writes(inv.call) {
      WritesKeepSettings(st, inv);
    }
  }

  lemma WritesKeepSettings(st: State, inv: Invocation)
    requires Writes(inv.call)
    ensures SameSettings(st, Step(st, inv))
  {
    if inv.call.DoAttestBatch? {
      RecordAllSettings(st, inv.call.attestor, inv.call.entries, inv.now);
    }
  }

  function EffectiveMaximum(perType: Option<U64>, default: Option<U64>): U64 {
    if perType.Some? then perType.value else if default.Some? then default.value else 31_536_000
  }

  /** In every run the maximum lifetime of a type is its last per-type override, however often
      the default changed since; else the last default; else 365 days. It is never zero. */
  lemma {:induction false} MaximumPrecedence(invs: seq<Invocation>, kind: Symbol)
    ensures
      var st := Run(DEPLOYED, invs);
      && (kind in st.maxTtl <==> LastOverride(DEPLOYED, invs, kind).Some?)
      && (kind in st.maxTtl ==> st.maxTtl[kind] == LastOverride(DEPLOYED, invs, kind).value > 0)
      && st.defaultMaxTtl == LastDefault(DEPLOYED, invs)
      && (st.defaultMaxTtl.Some? ==> st.defaultMaxTtl.value > 0)
      && 0 < MaxTtl(st, kind) == EffectiveMaximum(LastOverride(DEPLOYED, invs, kind), LastDefault(DEPLOYED, invs))
    decreases |invs|
  {
    if invs == [] {
    } else {
      MaximumPrecedence(invs[..|invs| - 1], kind);
      OverrideStep(Run(DEPLOYED, invs[..|invs| - 1]), invs[|invs| - 1], kind);
      DefaultStep(Run(DEPLOYED, invs[..|invs| - 1]), invs[|invs| - 1]);
    }
  }

  // --- Who is in charge ---------------------------------------------------------------

  predicate Succeeds(st: State, inv: Invocation) {
    Apply(st, inv.auth, inv.now, inv.call).Ok?
  }

  /** The last administrator installed. */
  function LastAdmin(invs: seq<Invocation>): Option<Address> {
    if invs == [] then None
    else
      var last := invs[|invs| - 1];
      if (last.call.Initialize? || last.call.SetAdmin?) && Succeeds(Run(DEPLOYED, invs[..|invs| - 1]), last)
      then Some(last.call.newAdmin)
      else LastAdmin(invs[..|invs| - 1])
  }

  /** Whether the last successful pause or unpause was a pause. */
  predicate LastPause(invs: seq<Invocation>) {
    if invs == [] then false
    else
      var last := invs[|invs| - 1];
      if (last.call.Pause? || last.call.Unpause? || last.call.Initialize?)
         && Succeeds(Run(DEPLOYED, invs[..|invs| - 1]), last)
      then last.call.Pause?
      else LastPause(invs[..|invs| - 1])
  }

  /** Whether the last successful change to the listing of `a` was an addition. */
  predicate LastListing(invs: seq<Invocation>, a: Address) {
    if invs == [] then false
    else
      var last := invs[|invs| - 1];
      if (last.call.AddAttestor? || last.call.RemoveAttestor?) && last.call.attestor == a
         && Succeeds(Run(DEPLOYED, invs[..|invs| - 1]), last)
      then last.call.AddAttestor?
      else LastListing(invs[..|invs| - 1], a)
  }

  lemma AdminStep(st: State, inv: Invocation)
    ensures
      var st' := Step(st, inv);
      && st'.admin == (if Succeeds(st, inv) && (inv.call.Initialize? || inv.call.SetAdmin?)
                       then Some(inv.call.newAdmin) else st.admin)
      && st'.paused == (if Succeeds(st, inv) && (inv.call.Pause? || inv.call.Unpause? || inv.call.Initialize?)
                        then inv.call.Pause? else st.paused)
  {
    if Writes(inv.call) {
      WritesKeepSettings(st, inv);
    }
  }

  lemma ListingStep(st: State, inv: Invocation, a: Address)
    ensures a in Step(st, inv).attestors <==>
      if Succeeds(st, inv) && (inv.call.AddAttestor? || inv.call.RemoveAttestor?) && inv.call.attestor == a
      then inv.call.AddAttestor? else a in st.attestors
  {
    if Writes(inv.call) {
      WritesKeepSettings(st, inv);
    }
  }

  /** In every run the admin, the pause flag and the allow-list are what the last successful
      call about them made them. */
  lemma {:induction false} GovernanceFollows(invs: seq<Invocation>, a: Address)
    ensures
      var st := Run(DEPLOYED, invs);
      && st.admin == LastAdmin(invs)
      && st.paused == LastPause(invs)
      && (a in st.attestors <==> LastListing(invs, a))
    decreases |invs|
  {
    if invs == [] {
    } else {
      GovernanceFollows(invs[..|invs| - 1], a);
      AdminStep(Run(DEPLOYED, invs[..|invs| - 1]), invs[|invs| - 1]);
      ListingStep(Run(DEPLOYED, invs[..|invs| - 1]), invs[|invs| - 1], a);
    }
  }

  /** Nothing about the administration changes without the authority of the current admin,
      once there is one. */
  lemma AdminAuthority(st: State, inv: Invocation)
    requires st.admin.Some? && st.admin.value !in inv.auth
    ensures
      var st' := Step(st, inv);
      && st'.admin == st.admin && st'.paused == st.paused && st'.attestors == st.attestors
      && st'.defaultMaxTtl == st.defaultMaxTtl && st'.maxTtl == st.maxTtl
  {
    if Writes(inv.call) {
      WritesKeepSettings(st, inv);
    }
  }

  // --- Who signs ----------------------------------------------------------------------

  /** Installing succeeds exactly for a valid set, and only until there are both an admin and
      a stored set. */
  lemma InstallIff(st: State, auth: set<Address>, now: U64, signers: seq<Address>, threshold: nat)
    ensures Apply(st, auth, now, InitializeMultisig(signers, threshold)).Ok?
       <==> (st.admin.None? || st.multisig.None?) && M.ValidConfig(M.Config(signers, threshold, 0))
  {
  }

  /** Before there is an admin, a second set replaces the first. */
  lemma InstalledTwice(auth: set<Address>, now: U64, s1: seq<Address>, t1: nat, s2: seq<Address>, t2: nat)
    requires M.ValidConfig(M.Config(s1, t1, 0)) && M.ValidConfig(M.Config(s2, t2, 0))
    ensures
      var first := Step(DEPLOYED, Invocation(auth, now, InitializeMultisig(s1, t1)));
      && first.multisig == Some(M.Config(s1, t1, 0))
      && Step(first, Invocation(auth, now, InitializeMultisig(s2, t2))).multisig == Some(M.Config(s2, t2, 0))
  {
    InstallIff(DEPLOYED, auth, now, s1, t1);
    InstallIff(Step(DEPLOYED, Invocation(auth, now, InitializeMultisig(s1, t1))), auth, now, s2, t2);
  }

  /** A rotation succeeds exactly when enough entries of the list name stored signers and the
      new set is valid, whoever authorised the call. Neither the signatures nor the
      authority of the signers named enter into it, and one signer may be named repeatedly. */
  lemma RotateIff(st: State, auth: set<Address>, now: U64, signers: seq<Address>, threshold: nat, listed: seq<Address>)
    ensures Apply(st, auth, now, DoRotateSigners(signers, threshold, listed)).Ok?
       <==> && st.multisig.Some?
            && M.CountEntries(st.multisig.value, listed) >= st.multisig.value.threshold
            && M.ValidConfig(M.Config(signers, threshold, 0))
    ensures st.multisig.Some? && M.NoAuthorisedRepeat(st.multisig.value, listed) ==>
      (Apply(st, auth, now, DoRotateSigners(signers, threshold, listed)).Ok?
       <==> |M.Named(st.multisig.value, listed)| >= st.multisig.value.threshold
            && M.ValidConfig(M.Config(signers, threshold, 0)))
  {
    if st.multisig.Some? {
      M.EntriesVersusSigners(st.multisig.value, listed);
    }
  }

  /** The signer set last installed or rotated in. */
  function LastSigners(invs: seq<Invocation>): Option<(seq<Address>, nat)> {
    if invs == [] then None
    else
      var last := invs[|invs| - 1];
      if (last.call.InitializeMultisig? || last.call.DoRotateSigners?)
         && Succeeds(Run(DEPLOYED, invs[..|invs| - 1]), last)
      then Some((last.call.signers, last.call.threshold))
      else LastSigners(invs[..|invs| - 1])
  }

  /** Rotations since the set was last installed. */
  function Rotations(invs: seq<Invocation>): nat {
    if invs == [] then 0
    else
      var last, earlier := invs[|invs| - 1], Rotations(invs[..|invs| - 1]);
      if !Succeeds(Run(DEPLOYED, invs[..|invs| - 1]), last) then earlier
      else if last.call.InitializeMultisig? then 0
      else if last.call.DoRotateSigners? then earlier + 1
      else earlier
  }

  lemma SignersStep(st: State, inv: Invocation)
    ensures
      var now := Step(st, inv).multisig;
      if !Succeeds(st, inv) then now == st.multisig
      else match inv.call
           case InitializeMultisig(s, t) => now == Some(M.Config(s, t, 0))
           case DoRotateSigners(s, t, _) =>
             st.multisig.Some? && now == Some(M.Config(s, t, SaturatingAdd(st.multisig.value.nonce, 1)))
           case _ => now == st.multisig
  {
    if Writes(inv.call) {
      WritesKeepSettings(st, inv);
    }
  }

  /** In every run the stored signer set is the one last installed or rotated in, and its
      nonce counts the rotations since the installation, up to the 64-bit limit. */
  lemma {:induction false} SignersFollow(invs: seq<Invocation>)
    ensures
      var stored := Run(DEPLOYED, invs).multisig;
      if stored.None? then LastSigners(invs).None?
      else
        && LastSigners(invs) == Some((stored.value.signers, stored.value.threshold))
        && stored.value.nonce == Least(Rotations(invs), U64_MAX)
    decreases |invs|
  {
    if invs == [] {
    } else {
      SignersFollow(invs[..|invs| - 1]);
      SignersStep(Run(DEPLOYED, invs[..|invs| - 1]), invs[|invs| - 1]);
    }
  }
}
