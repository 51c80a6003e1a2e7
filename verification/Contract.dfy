/** The entry points of `src/contract.rs` as they run: checks first, then writes to the
    ledger, and a host that restores the ledger when an invocation fails. */
module Contract {
  import opened Prelude
  import opened ContractModel
  import M = Multisig

  class Ledger {
    var admin: Option<Address>
    var paused: bool
    var attestors: set<Address>
    var attestations: map<Pair, Attestation>
    var seqs: map<Pair, nat>
    var history: map<(Pair, nat), HistoryEntry>
    var count: nat
    var defaultMaxTtl: Option<U64>
    var maxTtl: map<Symbol, U64>
    var multisig: Option<M.Config>

    ghost function Abstract(): State
      reads this
    {
      State(admin, paused, attestors, attestations, seqs, history, count, defaultMaxTtl, maxTtl, multisig)
    }

    constructor ()
      ensures Abstract() == DEPLOYED
    {
      admin, paused, attestors := None, false, {};
      attestations, seqs, history, count := map[], map[], map[], 0;
      defaultMaxTtl, maxTtl, multisig := None, map[], None;
    }

    // --- Storage ----------------------------------------------------------------

    method NextAttestationSeq(p: Pair) returns (next: nat)
      modifies this`seqs
      ensures next == old(Seq(Abstract(), p)) + 1 && seqs == old(seqs)[p := next]
    {
      var current := if p in seqs then seqs[p] else 0;
      next := current + 1;
      seqs := seqs[p := next];
    }

    method PushAttestationHistory(p: Pair, a: Attestation)
      modifies this`seqs, this`history
      ensures seqs == old(seqs)[p := old(Seq(Abstract(), p)) + 1]
      ensures history == old(history)[(p, old(Seq(Abstract(), p)) + 1) := EntryOf(a, old(Seq(Abstract(), p)) + 1)]
    {
      var seq' := NextAttestationSeq(p);
      history := history[(p, seq') := HistoryEntry(seq', a.attestor, a.payloadHash, a.issuedAt, a.expiresAt, a.status)];
    }

    method SetAttestation(p: Pair, a: Attestation)
      modifies this`attestations
      ensures attestations == old(attestations)[p := a]
    {
      attestations := attestations[p := a];
    }

    // --- Attesting ----------------------------------------------------------------

    /** Writes nothing when it objects; a full counter is found only in the middle of the write. */
    method RecordAttestation(attestor: Address, e: BatchEntry, now: U64) returns (error: Option<Error>)
      modifies this
      ensures error == Objection(old(Abstract()), e)
      ensures Abstract() == if error.Some? then Refused(old(Abstract()), attestor, e, now, error.value)
                            else Recorded(old(Abstract()), attestor, e, now)
    {
      if e.ttl == 0 {
        return Some(InvalidExpiration);
      }
      if |e.pair.kind| > MAX_ATTESTATION_TYPE_LEN {
        return Some(AttestationTypeTooLong);
      }
      var limit := if e.pair.kind in maxTtl then maxTtl[e.pair.kind]
                   else if defaultMaxTtl.Some? then defaultMaxTtl.value
                   else DEFAULT_MAX_ATTESTATION_TTL_SECONDS;
      if e.ttl > limit {
        return Some(ExceedsMaxTtl);
      }
      var expiresAt := SaturatingAdd(now, e.ttl);
      var a := Attestation(attestor, e.pair.subject, e.pair.kind, e.payloadHash, now, expiresAt, Active);
      error := StoreAttestation(e.pair, a);
    }

    /** The three writes, up to the first counter that is full. */
    method StoreAttestation(p: Pair, a: Attestation) returns (error: Option<Error>)
      modifies this`attestations, this`seqs, this`history, this`count
      ensures
        var st := old(Abstract());
        if Seq(st, p) >= U64_MAX || st.count >= U64_MAX
        then error == Some(OverflowTrap) && Abstract() == Trapped(st, p, a)
        else error == None && Abstract() == Write(st, p, a).(count := st.count + 1)
    {
      SetAttestation(p, a);
      if p in seqs && seqs[p] >= U64_MAX {
        return Some(OverflowTrap);
      }
      PushAttestationHistory(p, a);
      if count >= U64_MAX {
        return Some(OverflowTrap);
      }
      count := count + 1;
      return None;
    }

    method Attest(auth: set<Address>, attestor: Address, e: BatchEntry, now: U64) returns (error: Option<Error>)
      modifies this
      ensures
        var r := ContractModel.Attest(old(Abstract()), auth, attestor, e, now);
        if r.Ok? then error.None? && Abstract() == r.value
        else error == Some(r.error) && Abstract() == Refused(old(Abstract()), attestor, e, now, r.error)
    {
      if paused {
        return Some(ContractPaused);
      }
      if attestor !in auth {
        return Some(AuthTrap);
      }
      if attestor !in attestors {
        return Some(AttestorNotRegistered);
      }
      error := RecordAttestation(attestor, e, now);
    }

    /** On an error in the second loop the entries before it stay written; undoing them is
        left to the host. */
    method AttestBatch(auth: set<Address>, attestor: Address, entries: seq<BatchEntry>, now: U64)
      returns (error: Option<Error>)
      modifies this
      ensures (Abstract(), error) == RawBatch(old(Abstract()), auth, attestor, entries, now)
    {
      if paused {
        return Some(ContractPaused);
      }
      if attestor !in auth {
        return Some(AuthTrap);
      }
      if attestor !in attestors {
        return Some(AttestorNotRegistered);
      }
      if |entries| == 0 {
        return Some(EmptyBatch);
      }
      for i := 0 to |entries|
        invariant PreCheck(entries[i..]) == PreCheck(entries)
        invariant Abstract() == old(Abstract())
      {
        assert entries[i..][1..] == entries[i + 1..];
        if entries[i].ttl == 0 {
          return Some(InvalidExpiration);
        }
        if |entries[i].pair.kind| > MAX_ATTESTATION_TYPE_LEN {
          return Some(AttestationTypeTooLong);
        }
      }
      ghost var start := Abstract();
      for i := 0 to |entries|
        invariant RecordAll(Abstract(), attestor, entries[i..], now) == RecordAll(start, attestor, entries, now)
      {
        assert entries[i..][1..] == entries[i + 1..];
        error := RecordAttestation(attestor, entries[i], now);
        if error.Some? {
          return;
        }
      }
      return None;
    }

    method Revoke(auth: set<Address>, caller: Address, p: Pair) returns (error: Option<Error>)
      modifies this
      ensures
        var r := ContractModel.Revoke(old(Abstract()), auth, caller, p);
        if r.Ok? then error.None? && Abstract() == r.value
        else
          && error == Some(r.error)
          && (r.error != OverflowTrap ==> Abstract() == old(Abstract()))
          && (r.error == OverflowTrap ==>
                && p in old(attestations)
                && Abstract() == Trapped(old(Abstract()), p, old(attestations)[p].(status := Revoked)))
    {
      if paused {
        return Some(ContractPaused);
      }
      if caller !in auth {
        return Some(AuthTrap);
      }
      if p !in attestations {
        return Some(AttestationNotFound);
      }
      var a := attestations[p];
      if admin.None? {
        return Some(NotInitialized);
      }
      if caller != admin.value && caller != a.attestor {
        return Some(Unauthorized);
      }
      if a.status == Revoked {
        return Some(AttestationAlreadyRevoked);
      }
      a := a.(status := Revoked);
      SetAttestation(p, a);
      if p in seqs && seqs[p] >= U64_MAX {
        return Some(OverflowTrap);
      }
      PushAttestationHistory(p, a);
      return None;
    }

    method RenewAttestation(auth: set<Address>, caller: Address, p: Pair) returns (error: Option<Error>)
      modifies this
      ensures Abstract() == old(Abstract())
      ensures error.None? <==> ContractModel.RenewAttestation(old(Abstract()), auth, caller, p).Ok?
      ensures error.Some? ==> ContractModel.RenewAttestation(old(Abstract()), auth, caller, p) == Err(error.value)
    {
      if caller !in auth {
        return Some(AuthTrap);
      }
      if p !in attestations {
        return Some(AttestationNotFound);
      }
      var a := attestations[p];
      if admin.None? {
        return Some(NotInitialized);
      }
      if caller != admin.value && caller != a.attestor {
        return Some(Unauthorized);
      }
      SetAttestation(p, a);
      return None;
    }

    // --- Administration -------------------------------------------------------------

    method Initialize(auth: set<Address>, newAdmin: Address) returns (error: Option<Error>)
      modifies this
      ensures error == (if old(admin).Some? then Some(AlreadyInitialized)
                        else if newAdmin !in auth then Some(AuthTrap) else None)
      ensures Abstract() == if error.Some? then old(Abstract())
                            else old(Abstract()).(admin := Some(newAdmin), paused := false)
    {
      if admin.Some? {
        return Some(AlreadyInitialized);
      }
      if newAdmin !in auth {
        return Some(AuthTrap);
      }
      admin := Some(newAdmin);
      paused := false;
      return None;
    }

    /** The eight calls that only the admin may make. */
    method Administer(auth: set<Address>, call: Call) returns (error: Option<Error>)
      requires call.SetAdmin? || call.Pause? || call.Unpause? || call.AddAttestor? || call.RemoveAttestor?
            || call.RenewAttestor? || call.SetDefaultMaxTtl? || call.SetMaxTtl?
      modifies this
      ensures AdminGuard(old(Abstract()), auth).Some? ==>
        error == AdminGuard(old(Abstract()), auth) && Abstract() == old(Abstract())
      ensures AdminGuard(old(Abstract()), auth).None? ==>
        var r := AdminCall(old(Abstract()), call);
        if r.Ok? then error.None? && Abstract() == r.value else error == Some(r.error) && Abstract() == old(Abstract())
    {
      if admin.None? {
        return Some(NotInitialized);
      }
      if admin.value !in auth {
        return Some(AuthTrap);
      }
      match call {
      case SetAdmin(a) =>
        admin := Some(a);
      case Pause =>
        paused := true;
      case Unpause =>
        paused := false;
      case AddAttestor(a) =>
        if a in attestors {
          return Some(AttestorAlreadyRegistered);
        }
        attestors := attestors + {a};
      case RemoveAttestor(a) =>
        if a !in attestors {
          return Some(AttestorNotRegistered);
        }
        attestors := attestors - {a};
      case RenewAttestor(a) =>
        if a !in attestors {
          return Some(AttestorNotRegistered);
        }
      case SetDefaultMaxTtl(s) =>
        if s == 0 {
          return Some(InvalidExpiration);
        }
        defaultMaxTtl := Some(s);
      case SetMaxTtl(kind, s) =>
        if s == 0 {
          return Some(InvalidExpiration);
        }
        maxTtl := maxTtl[kind := s];
      }
      return None;
    }

    method Govern(call: Call, ghost auth: set<Address>, ghost now: U64) returns (error: Option<Error>)
      requires call.InitializeMultisig? || call.DoRotateSigners?
      modifies this`multisig
      ensures
        var r := Apply(old(Abstract()), auth, now, call);
        if r.Ok? then error.None? && Abstract() == r.value else error == Some(r.error) && Abstract() == old(Abstract())
    {
      match call {
      case InitializeMultisig(signers, threshold) =>
        if admin.Some? && multisig.Some? {
          return Some(AlreadyInitialized);
        }
        var objection := M.CheckSigners(signers, threshold);
        if objection.Some? {
          return Some(Governance(objection.value));
        }
        multisig := Some(M.Config(signers, threshold, 0));
      case DoRotateSigners(signers, threshold, listed) =>
        if multisig.None? {
          return Some(Governance(M.NotInitialized));
        }
        var validSigners := M.CountValidSigners(multisig.value, listed);
        if validSigners < multisig.value.threshold {
          return Some(InsufficientSignatures);
        }
        var objection := M.CheckSigners(signers, threshold);
        if objection.Some? {
          return Some(Governance(objection.value));
        }
        multisig := Some(M.Rotated(multisig.value, signers, threshold));
      }
      return None;
    }

    // --- The host ---------------------------------------------------------------------

    /** Runs one invocation and restores every field if it fails. */
    method Invoke(inv: Invocation) returns (error: Option<Error>)
      modifies this
      ensures Abstract() == Step(old(Abstract()), inv)
      ensures
        var r := Apply(old(Abstract()), inv.auth, inv.now, inv.call);
        error == if r.Ok? then None else Some(r.error)
    {
      var (admin0, paused0, attestors0) := (admin, paused, attestors);
      var (attestations0, seqs0, history0, count0) := (attestations, seqs, history, count);
      var (default0, maxTtl0, multisig0) := (defaultMaxTtl, maxTtl, multisig);
      error := Dispatch(inv);
      if error.Some? {
        admin, paused, attestors := admin0, paused0, attestors0;
        attestations, seqs, history, count := attestations0, seqs0, history0, count0;
        defaultMaxTtl, maxTtl, multisig := default0, maxTtl0, multisig0;
      }
    }

    method Dispatch(inv: Invocation) returns (error: Option<Error>)
      modifies this
      ensures
        var r := Apply(old(Abstract()), inv.auth, inv.now, inv.call);
        if r.Ok? then error.None? && Abstract() == r.value else error == Some(r.error)
    {
      match inv.call
      case Initialize(a) => error := Initialize(inv.auth, a);
      case DoAttest(attestor, e) => error := Attest(inv.auth, attestor, e, inv.now);
      case DoAttestBatch(attestor, entries) => error := AttestBatch(inv.auth, attestor, entries, inv.now);
      case DoRevoke(caller, p) => error := Revoke(inv.auth, caller, p);
      case DoRenewAttestation(caller, p) =>
        error := RenewAttestation(inv.auth, caller, p);
        assert error.None? ==> old(attestations)[p := old(attestations)[p]] == old(attestations);
      case InitializeMultisig(_, _) => error := Govern(inv.call, inv.auth, inv.now);
      case DoRotateSigners(_, _, _) => error := Govern(inv.call, inv.auth, inv.now);
      case _ => error := Administer(inv.auth, inv.call);
    }
  }
}
