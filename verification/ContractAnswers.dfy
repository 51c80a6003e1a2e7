/** Exactly when each entry point of the contract succeeds, and which error it gives
    otherwise, going by the stored state and the authorisations alone. */
module ContractAnswers {
  import opened Prelude
  import opened ContractModel
  import opened ContractRuns
  import M = Multisig

  // --- Attesting ------------------------------------------------------------------

  /** An attest succeeds exactly when the contract runs, the attestor is listed and authorised
      the call, the lifetime is positive and within the maximum for its type, the type has at
      most 24 characters, and neither 64-bit counter is full; and each error means that its own
      check is the first to fail. */
  lemma AttestIff(st: State, auth: set<Address>, attestor: Address, e: BatchEntry, now: U64)
    ensures
      var r, max := Apply(st, auth, now, DoAttest(attestor, e)), MaxTtl(st, e.pair.kind);
      var may := !st.paused && attestor in auth && attestor in st.attestors;
      var full := Seq(st, e.pair) >= 0xFFFF_FFFF_FFFF_FFFF || st.count >= 0xFFFF_FFFF_FFFF_FFFF;
      && (r.Ok? <==>
            && !st.paused && attestor in auth && attestor in st.attestors
            && 0 < e.ttl <= max && |e.pair.kind| <= 24
            && Seq(st, e.pair) < 0xFFFF_FFFF_FFFF_FFFF && st.count < 0xFFFF_FFFF_FFFF_FFFF)
      && (r == Err(ContractPaused) <==> st.paused)
      && (r == Err(AuthTrap) <==> !st.paused && attestor !in auth)
      && (r == Err(AttestorNotRegistered) <==> !st.paused && attestor in auth && attestor !in st.attestors)
      && (r == Err(InvalidExpiration) <==> may && e.ttl == 0)
      && (r == Err(AttestationTypeTooLong) <==> may && e.ttl > 0 && |e.pair.kind| > 24)
      && (r == Err(ExceedsMaxTtl) <==> may && e.ttl > max && |e.pair.kind| <= 24)
      && (r == Err(OverflowTrap) <==> may && 0 < e.ttl <= max && |e.pair.kind| <= 24 && full)
  {
  }

  /** Before any entry is looked at. */
  lemma BatchRefused(st: State, auth: set<Address>, attestor: Address, entries: seq<BatchEntry>, now: U64)
    ensures
      var r := Apply(st, auth, now, DoAttestBatch(attestor, entries));
      && (st.paused ==> r == Err(ContractPaused))
      && (!st.paused && attestor !in auth ==> r == Err(AuthTrap))
      && (!st.paused && attestor in auth && attestor !in st.attestors ==> r == Err(AttestorNotRegistered))
      && (!st.paused && attestor in auth && attestor in st.attestors && entries == [] ==> r == Err(EmptyBatch))
  {
  }

  lemma {:induction false} FirstPreChecked(entries: seq<BatchEntry>, i: nat)
    requires i < |entries| && PreChecked(entries[..i]) && !(entries[i].ttl > 0 && |entries[i].pair.kind| <= 24)
    ensures PreCheck(entries) == Some(if entries[i].ttl == 0 then InvalidExpiration else AttestationTypeTooLong)
    decreases i
  {
    if i == 0 {
    } else {
      assert entries[0] in entries[..i] && entries[1..][..i - 1] == entries[1..i];
      assert forall e :: e in entries[1..i] ==> e in entries[..i];
      FirstPreChecked(entries[1..], i - 1);
    }
  }

  /** The first entry without a lifetime, or with too long a type, gives the error, whatever
      comes before or after it. */
  lemma BatchMalformed(st: State, auth: set<Address>, attestor: Address, entries: seq<BatchEntry>, now: U64, i: nat)
    requires MayAttest(st, auth, attestor)
    requires i < |entries| && PreChecked(entries[..i]) && !(entries[i].ttl > 0 && |entries[i].pair.kind| <= 24)
    ensures Apply(st, auth, now, DoAttestBatch(attestor, entries))
         == Err(if entries[i].ttl == 0 then InvalidExpiration else AttestationTypeTooLong)
  {
    FirstPreChecked(entries, i);
  }

  lemma {:induction false} FirstUnrecorded(st: State, auth: set<Address>, attestor: Address,
                                           entries: seq<BatchEntry>, now: U64, i: nat)
    requires MayAttest(st, auth, attestor) && i < |entries| && PreChecked(entries)
    requires FoldAttest(st, auth, attestor, entries[..i], now).Ok?
    requires
      var before := FoldAttest(st, auth, attestor, entries[..i], now).value;
      Apply(before, auth, now, DoAttest(attestor, entries[i])).Err?
    ensures
      var before := FoldAttest(st, auth, attestor, entries[..i], now).value;
      RecordAll(st, attestor, entries, now).1 == Some(Apply(before, auth, now, DoAttest(attestor, entries[i])).error)
    decreases i
  {
    if i == 0 {
      assert entries[..i] == [];
    } else {
      assert entries[..i][0] == entries[0] && entries[..i][1..] == entries[1..][..i - 1];
      assert forall e :: e in entries[1..] ==> e in entries;
      var next := Recorded(st, attestor, entries[0], now);
      assert MayAttest(next, auth, attestor);
      FirstUnrecorded(next, auth, attestor, entries[1..], now, i - 1);
    }
  }

  /** Otherwise the first entry that could not be attested after those before it gives the
      error it would give alone. */
  lemma BatchFailsAs(st: State, auth: set<Address>, attestor: Address, entries: seq<BatchEntry>, now: U64, i: nat)
    requires MayAttest(st, auth, attestor) && i < |entries| && PreChecked(entries)
    requires FoldAttest(st, auth, attestor, entries[..i], now).Ok?
    requires
      var before := FoldAttest(st, auth, attestor, entries[..i], now).value;
      Apply(before, auth, now, DoAttest(attestor, entries[i])).Err?
    ensures
      var before := FoldAttest(st, auth, attestor, entries[..i], now).value;
      Apply(st, auth, now, DoAttestBatch(attestor, entries))
      == Err(Apply(before, auth, now, DoAttest(attestor, entries[i])).error)
  {
    PreCheckMeans(entries);
    FirstUnrecorded(st, auth, attestor, entries, now, i);
  }

  /** What is left behind when a counter overflows in the middle of a write. */
  lemma OverflowLeaves(st: State, auth: set<Address>, attestor: Address, e: BatchEntry, now: U64)
    requires MayAttest(st, auth, attestor) && Passes(st, e) && (Seq(st, e.pair) >= U64_MAX || st.count >= U64_MAX)
    ensures
      var (raw, error) := RawBatch(st, auth, attestor, [e], now);
      var n, a := Seq(st, e.pair) + 1, Stands(attestor, e, now);
      var latest := st.(attestations := st.attestations[e.pair := a]);
      && error == Some(OverflowTrap)
      && (Seq(st, e.pair) >= U64_MAX ==> raw == latest)
      && (Seq(st, e.pair) < U64_MAX ==>
            var entry := HistoryEntry(n, attestor, e.payloadHash, now, a.expiresAt, Active);
            raw == latest.(seqs := st.seqs[e.pair := n], history := st.history[(e.pair, n) := entry]))
  {
    assert [e][1..] == [];
    assert PreCheck([e]) == None;
  }

  // --- Revoking and renewing --------------------------------------------------------

  /** In every state, reachable or not: a revoke succeeds exactly for an authorised caller who
      is the admin or the original attestor of an active attestation while the contract runs
      with an admin and the pair's counter has room; each error is the first check that fails. */
  lemma RevokeIff(st: State, auth: set<Address>, caller: Address, p: Pair, now: U64)
    ensures
      var r := Apply(st, auth, now, DoRevoke(caller, p));
      var found := !st.paused && caller in auth && p in st.attestations;
      var owns := found && st.admin.Some? && (caller == st.admin.value || caller == st.attestations[p].attestor);
      && (r.Ok? <==> owns && st.attestations[p].status == Active && Seq(st, p) < 0xFFFF_FFFF_FFFF_FFFF)
      && (r == Err(ContractPaused) <==> st.paused)
      && (r == Err(AuthTrap) <==> !st.paused && caller !in auth)
      && (r == Err(AttestationNotFound) <==> !st.paused && caller in auth && p !in st.attestations)
      && (r == Err(NotInitialized) <==> found && st.admin.None?)
      && (r == Err(Unauthorized) <==> found && st.admin.Some? && !owns)
      && (r == Err(AttestationAlreadyRevoked) <==> owns && st.attestations[p].status == Revoked)
      && (r == Err(OverflowTrap) <==>
            owns && st.attestations[p].status == Active && Seq(st, p) >= 0xFFFF_FFFF_FFFF_FFFF)
  {
  }

  /** A renewal, paused or not, succeeds exactly for an authorised caller who is the admin or
      the original attestor of an existing attestation, revoked or not, and stores nothing new. */
  lemma RenewIff(st: State, auth: set<Address>, caller: Address, p: Pair, now: U64)
    ensures
      var r := Apply(st, auth, now, DoRenewAttestation(caller, p));
      var found := caller in auth && p in st.attestations;
      var owns := found && st.admin.Some? && (caller == st.admin.value || caller == st.attestations[p].attestor);
      && (r.Ok? <==> owns)
      && (r.Ok? ==> r.value == st)
      && (r == Err(AuthTrap) <==> caller !in auth)
      && (r == Err(AttestationNotFound) <==> caller in auth && p !in st.attestations)
      && (r == Err(NotInitialized) <==> found && st.admin.None?)
      && (r == Err(Unauthorized) <==> found && st.admin.Some? && !owns)
  {
    if p in st.attestations {
      assert st.attestations[p := st.attestations[p]] == st.attestations;
    }
  }

  // --- Administration ------------------------------------------------------------------

  predicate IsAdminCall(call: Call) {
    call.SetAdmin? || call.Pause? || call.Unpause? || call.AddAttestor? || call.RemoveAttestor?
    || call.RenewAttestor? || call.SetDefaultMaxTtl? || call.SetMaxTtl?
  }

  /** What a call asks for beyond the admin's authorisation. */
  predicate OwnCondition(st: State, call: Call) {
    match call
    case AddAttestor(a) => a !in st.attestors
    case RemoveAttestor(a) => a in st.attestors
    case RenewAttestor(a) => a in st.attestors
    case SetDefaultMaxTtl(seconds) => seconds > 0
    case SetMaxTtl(_, seconds) => seconds > 0
    case _ => true
  }

  function OwnError(call: Call): Error {
    match call
    case AddAttestor(_) => AttestorAlreadyRegistered
    case RemoveAttestor(_) => AttestorNotRegistered
    case RenewAttestor(_) => AttestorNotRegistered
    case _ => InvalidExpiration
  }

  /** Each of the eight administrative calls succeeds exactly with the admin's authorisation and
      if its own condition holds: not yet listed to add, listed to remove or renew, a positive
      lifetime for the maxima. It touches no attestation, no history, no count and no signer set. */
  lemma AdminCallIff(st: State, auth: set<Address>, now: U64, call: Call)
    requires IsAdminCall(call)
    ensures
      var r := Apply(st, auth, now, call);
      && (r.Ok? <==> st.admin.Some? && st.admin.value in auth && OwnCondition(st, call))
      && (r == Err(NotInitialized) <==> st.admin.None?)
      && (r == Err(AuthTrap) <==> st.admin.Some? && st.admin.value !in auth)
      && (st.admin.Some? && st.admin.value in auth && !OwnCondition(st, call) ==> r == Err(OwnError(call)))
      && (r.Ok? ==>
            var to := r.value;
            to == st.(admin := to.admin, paused := to.paused, attestors := to.attestors,
                      defaultMaxTtl := to.defaultMaxTtl, maxTtl := to.maxTtl))
  {
  }

  /** The contract is initialised once, by an admin who authorises it. */
  lemma InitializeIff(st: State, auth: set<Address>, now: U64, admin: Address)
    ensures
      var r := Apply(st, auth, now, Initialize(admin));
      && (r.Ok? <==> st.admin.None? && admin in auth)
      && (r.Ok? ==> r.value == st.(admin := Some(admin), paused := false))
      && (r == Err(AlreadyInitialized) <==> st.admin.Some?)
      && (r == Err(AuthTrap) <==> st.admin.None? && admin !in auth)
  {
  }

  /** Which error a refused rotation or installation gives; an accepted one changes the signer
      set alone. */
  lemma GovernErrors(st: State, auth: set<Address>, now: U64,
                     signers: seq<Address>, threshold: nat, listed: seq<Address>)
    ensures
      var install, rotate :=
        Apply(st, auth, now, InitializeMultisig(signers, threshold)),
        Apply(st, auth, now, DoRotateSigners(signers, threshold, listed));
      var counted := st.multisig.Some? && M.CountEntries(st.multisig.value, listed) >= st.multisig.value.threshold;
      && (install == Err(AlreadyInitialized) <==> st.admin.Some? && st.multisig.Some?)
      && (!(st.admin.Some? && st.multisig.Some?) && M.Objection(signers, threshold).Some? ==>
            install == Err(Governance(M.Objection(signers, threshold).value)))
      && (rotate == Err(Governance(M.NotInitialized)) <==> st.multisig.None?)
      && (rotate == Err(InsufficientSignatures) <==> st.multisig.Some? && !counted)
      && (counted && M.Objection(signers, threshold).Some? ==>
            rotate == Err(Governance(M.Objection(signers, threshold).value)))
      && (install.Ok? ==> install.value == st.(multisig := install.value.multisig))
      && (rotate.Ok? ==> rotate.value == st.(multisig := rotate.value.multisig))
  {
    M.ObjectionMeans(signers, threshold);
  }
}
