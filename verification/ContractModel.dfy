/** The attestation contract of `src/contract.rs` over the storage of `src/storage.rs`, as a
    state machine: each invocation has the set of addresses that authorised it and the
    ledger time, and either commits or leaves the state as it was. */
module ContractModel {
  import opened Prelude
  import M = Multisig

  type Address = M.Address
  type Symbol = string
  type Hash = string

  const MAX_ATTESTATION_TYPE_LEN := 24
  const DEFAULT_MAX_ATTESTATION_TTL_SECONDS := 365 * 24 * 60 * 60

  datatype Error =
    | NotInitialized
    | AlreadyInitialized
    | Unauthorized
    | ContractPaused
    | AttestorAlreadyRegistered
    | AttestorNotRegistered
    | AttestationNotFound
    | AttestationAlreadyRevoked
    | InvalidExpiration
    | EmptyBatch
    | ExceedsMaxTtl
    | InvalidPagination
    | AttestationTypeTooLong
    | InsufficientSignatures
    | Governance(error: M.Error)
    | AuthTrap      // `require_auth` on an address that did not authorise
    | OverflowTrap  // a 64-bit counter is full; the build has overflow checks on

  datatype Status = Active | Revoked

  datatype Attestation = Attestation(
    attestor: Address, subject: Address, kind: Symbol, payloadHash: Hash,
    issuedAt: U64, expiresAt: U64, status: Status)

  datatype HistoryEntry = HistoryEntry(
    sequence: nat, attestor: Address, payloadHash: Hash, issuedAt: U64, expiresAt: U64, status: Status)

  datatype Pair = Pair(subject: Address, kind: Symbol)

  datatype BatchEntry = BatchEntry(pair: Pair, payloadHash: Hash, ttl: U64)

  datatype State = State(
    admin: Option<Address>,
    paused: bool,
    attestors: set<Address>,
    attestations: map<Pair, Attestation>,
    seqs: map<Pair, nat>,
    history: map<(Pair, nat), HistoryEntry>,
    count: nat,
    defaultMaxTtl: Option<U64>,
    maxTtl: map<Symbol, U64>,
    multisig: Option<M.Config>)

  const DEPLOYED := State(None, false, {}, map[], map[], map[], 0, None, map[], None)

  // --- Storage --------------------------------------------------------------

  function Seq(st: State, p: Pair): nat {
    if p in st.seqs then st.seqs[p] else 0
  }

  function MaxTtl(st: State, kind: Symbol): U64 {
    if kind in st.maxTtl then st.maxTtl[kind]
    else if st.defaultMaxTtl.Some? then st.defaultMaxTtl.value
    else DEFAULT_MAX_ATTESTATION_TTL_SECONDS
  }

  function EntryOf(a: Attestation, seq': nat): HistoryEntry {
    HistoryEntry(seq', a.attestor, a.payloadHash, a.issuedAt, a.expiresAt, a.status)
  }

  /** Overwrites the latest record of the pair and appends it to the pair's history. */
  function Write(st: State, p: Pair, a: Attestation): State {
    var n := Seq(st, p) + 1;
    st.(attestations := st.attestations[p := a],
        seqs := st.seqs[p := n],
        history := st.history[(p, n) := EntryOf(a, n)])
  }

  // --- Entry points ---------------------------------------------------------

  /** What `record_attestation` objects to. */
  function Objection(st: State, e: BatchEntry): Option<Error> {
    if e.ttl == 0 then Some(InvalidExpiration)
    else if |e.pair.kind| > MAX_ATTESTATION_TYPE_LEN then Some(AttestationTypeTooLong)
    else if e.ttl > MaxTtl(st, e.pair.kind) then Some(ExceedsMaxTtl)
    else if Seq(st, e.pair) >= U64_MAX || st.count >= U64_MAX then Some(OverflowTrap)
    else None
  }

  function Issued(attestor: Address, e: BatchEntry, now: U64): Attestation {
    Attestation(attestor, e.pair.subject, e.pair.kind, e.payloadHash, now, SaturatingAdd(now, e.ttl), Active)
  }

  function Recorded(st: State, attestor: Address, e: BatchEntry, now: U64): State {
    var written := Write(st, e.pair, Issued(attestor, e, now));
    written.(count := written.count + 1)
  }

  /** What is stored when a 64-bit counter overflows in the middle of a write: the latest
      record, and the history entry too if it is the running count that is full. */
  function Trapped(st: State, p: Pair, a: Attestation): State {
    if Seq(st, p) >= U64_MAX then st.(attestations := st.attestations[p := a]) else Write(st, p, a)
  }

  /** What an entry that is refused leaves behind. */
  function Refused(st: State, attestor: Address, e: BatchEntry, now: U64, error: Error): State {
    if error.OverflowTrap? then Trapped(st, e.pair, Issued(attestor, e, now)) else st
  }

  function Record(st: State, attestor: Address, e: BatchEntry, now: U64): Result<State, Error> {
    var objection := Objection(st, e);
    if objection.Some? then Err(objection.value) else Ok(Recorded(st, attestor, e, now))
  }

  /** Shared head of `attest` and `attest_batch`. */
  function AttestGuard(st: State, auth: set<Address>, attestor: Address): Option<Error> {
    if st.paused then Some(ContractPaused)
    else if attestor !in auth then Some(AuthTrap)
    else if attestor !in st.attestors then Some(AttestorNotRegistered)
    else None
  }

  function Attest(st: State, auth: set<Address>, attestor: Address, e: BatchEntry, now: U64): Result<State, Error> {
    var stop := AttestGuard(st, auth, attestor);
    if stop.Some? then Err(stop.value) else Record(st, attestor, e, now)
  }

  /** The first loop of `attest_batch`: the first entry with a zero lifetime or too long a type. */
  function PreCheck(entries: seq<BatchEntry>): Option<Error> {
    if entries == [] then None
    else if entries[0].ttl == 0 then Some(InvalidExpiration)
    else if |entries[0].pair.kind| > MAX_ATTESTATION_TYPE_LEN then Some(AttestationTypeTooLong)
    else PreCheck(entries[1..])
  }

  /** The second loop, writes and all, up to the first entry that is refused. */
  function RecordAll(st: State, attestor: Address, entries: seq<BatchEntry>, now: U64): (State, Option<Error>)
    decreases |entries|
  {
    if entries == [] then (st, None)
    else
      match Record(st, attestor, entries[0], now)
      case Err(e) => (Refused(st, attestor, entries[0], now, e), Some(e))
      case Ok(st') => RecordAll(st', attestor, entries[1..], now)
  }

  /** State and error as `attest_batch` itself leaves them, before the host rolls back. */
  function RawBatch(st: State, auth: set<Address>, attestor: Address, entries: seq<BatchEntry>, now: U64)
    : (State, Option<Error>)
  {
    var stop := AttestGuard(st, auth, attestor);
    if stop.Some? then (st, stop)
    else if entries == [] then (st, Some(EmptyBatch))
    else if PreCheck(entries).Some? then (st, PreCheck(entries))
    else RecordAll(st, attestor, entries, now)
  }

  /** May `caller` revoke or renew this attestation? */
  function OwnerGuard(st: State, caller: Address, a: Attestation): Option<Error> {
    if st.admin.None? then Some(NotInitialized)
    else if caller != st.admin.value && caller != a.attestor then Some(Unauthorized)
    else None
  }

  function Revoke(st: State, auth: set<Address>, caller: Address, p: Pair): Result<State, Error> {
    if st.paused then Err(ContractPaused)
    else if caller !in auth then Err(AuthTrap)
    else if p !in st.attestations then Err(AttestationNotFound)
    else
      var a := st.attestations[p];
      var stop := OwnerGuard(st, caller, a);
      if stop.Some? then Err(stop.value)
      else if a.status == Revoked then Err(AttestationAlreadyRevoked)
      else if Seq(st, p) >= U64_MAX then Err(OverflowTrap)
      else Ok(Write(st, p, a.(status := Revoked)))
  }

  /** Rewrites the same record; only the rent window of the entry changes. */
  function RenewAttestation(st: State, auth: set<Address>, caller: Address, p: Pair): Result<State, Error> {
    if caller !in auth then Err(AuthTrap)
    else if p !in st.attestations then Err(AttestationNotFound)
    else
      var stop := OwnerGuard(st, caller, st.attestations[p]);
      if stop.Some? then Err(stop.value)
      else Ok(st.(attestations := st.attestations[p := st.attestations[p]]))
  }

  function AdminGuard(st: State, auth: set<Address>): Option<Error> {
    if st.admin.None? then Some(NotInitialized)
    else if st.admin.value !in auth then Some(AuthTrap)
    else None
  }

  function RotateSigners(st: State, signers: seq<Address>, threshold: nat, listed: seq<Address>): Result<State, Error> {
    if st.multisig.None? then Err(Governance(M.NotInitialized))
    else if M.CountEntries(st.multisig.value, listed) < st.multisig.value.threshold then Err(InsufficientSignatures)
    else if M.Objection(signers, threshold).Some? then Err(Governance(M.Objection(signers, threshold).value))
    else Ok(st.(multisig := Some(M.Rotated(st.multisig.value, signers, threshold))))
  }

  datatype Call =
    | Initialize(newAdmin: Address)
    | SetAdmin(newAdmin: Address)
    | Pause
    | Unpause
    | AddAttestor(attestor: Address)
    | RemoveAttestor(attestor: Address)
    | RenewAttestor(attestor: Address)
    | SetDefaultMaxTtl(seconds: U64)
    | SetMaxTtl(kind: Symbol, seconds: U64)
    | DoAttest(attestor: Address, entry: BatchEntry)
    | DoAttestBatch(attestor: Address, entries: seq<BatchEntry>)
    | DoRevoke(caller: Address, pair: Pair)
    | DoRenewAttestation(caller: Address, pair: Pair)
    | InitializeMultisig(signers: seq<Address>, threshold: nat)
    | DoRotateSigners(signers: seq<Address>, threshold: nat, listed: seq<Address>)

  function Apply(st: State, auth: set<Address>, now: U64, call: Call): Result<State, Error> {
    match call
    case Initialize(admin) =>
      if st.admin.Some? then Err(AlreadyInitialized)
      else if admin !in auth then Err(AuthTrap)
      else Ok(st.(admin := Some(admin), paused := false))
    case DoAttest(attestor, e) => Attest(st, auth, attestor, e, now)
    case DoAttestBatch(attestor, entries) =>
      var (st', e) := RawBatch(st, auth, attestor, entries, now);
      if e.Some? then Err(e.value) else Ok(st')
    case DoRevoke(caller, p) => Revoke(st, auth, caller, p)
    case DoRenewAttestation(caller, p) => RenewAttestation(st, auth, caller, p)
    case InitializeMultisig(signers, threshold) =>
      if st.admin.Some? && st.multisig.Some? then Err(AlreadyInitialized)
      else if M.Objection(signers, threshold).Some? then Err(Governance(M.Objection(signers, threshold).value))
      else Ok(st.(multisig := Some(M.Config(signers, threshold, 0))))
    case DoRotateSigners(signers, threshold, listed) => RotateSigners(st, signers, threshold, listed)
    case _ =>
      var stop := AdminGuard(st, auth);
      if stop.Some? then Err(stop.value) else AdminCall(st, call)
  }

  /** The calls only the admin may make, once authorised. */
  function AdminCall(st: State, call: Call): Result<State, Error>
    requires call.SetAdmin? || call.Pause? || call.Unpause? || call.AddAttestor? || call.RemoveAttestor?
          || call.RenewAttestor? || call.SetDefaultMaxTtl? || call.SetMaxTtl?
  {
    match call
    case SetAdmin(admin) => Ok(st.(admin := Some(admin)))
    case Pause => Ok(st.(paused := true))
    case Unpause => Ok(st.(paused := false))
    case AddAttestor(a) =>
      if a in st.attestors then Err(AttestorAlreadyRegistered) else Ok(st.(attestors := st.attestors + {a}))
    case RemoveAttestor(a) =>
      if a !in st.attestors then Err(AttestorNotRegistered) else Ok(st.(attestors := st.attestors - {a}))
    case RenewAttestor(a) =>
      if a !in st.attestors then Err(AttestorNotRegistered) else Ok(st)
    case SetDefaultMaxTtl(s) =>
      if s == 0 then Err(InvalidExpiration) else Ok(st.(defaultMaxTtl := Some(s)))
    case SetMaxTtl(kind, s) =>
      if s == 0 then Err(InvalidExpiration) else Ok(st.(maxTtl := st.maxTtl[kind := s]))
  }

  predicate IsValid(st: State, p: Pair, now: U64) {
    p in st.attestations && st.attestations[p].status == Active && now < st.attestations[p].expiresAt
  }

  // --- Runs -----------------------------------------------------------------

  datatype Invocation = Invocation(auth: set<Address>, now: U64, call: Call)

  /** Commits or rolls back. */
  function Step(st: State, inv: Invocation): State {
    var r := Apply(st, inv.auth, inv.now, inv.call);
    if r.Ok? then r.value else st
  }

  function Run(st: State, invs: seq<Invocation>): State {
    if invs == [] then st else Step(Run(st, invs[..|invs| - 1]), invs[|invs| - 1])
  }

  function Latest(t: U64, invs: seq<Invocation>): U64 {
    if invs == [] then t else invs[|invs| - 1].now
  }

  /** Ledger time never goes back. */
  predicate Ordered(t: U64, invs: seq<Invocation>) {
    invs == [] || (Ordered(t, invs[..|invs| - 1]) && Latest(t, invs[..|invs| - 1]) <= invs[|invs| - 1].now)
  }
}
