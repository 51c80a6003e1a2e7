/** The rent window of a persistent entry (`src/storage.rs`): how a remaining lifetime in
    seconds becomes a number of ledgers, and what a bump leaves. */
module Rent {
  import opened Prelude
  import opened ContractModel
  import opened ContractProofs

  const SECONDS_PER_LEDGER := 5
  const LEDGERS_PER_DAY := 17_280
  const MAX_ENTRY_TTL_LEDGERS := 6_312_000
  const MIN_ATTESTATION_TTL_EXTEND_TO := LEDGERS_PER_DAY * 30
  const U32_MAX := 0xFFFF_FFFF

  type U32 = x: int | 0 <= x <= U32_MAX

  /** Checked conversion to 32 bits, falling back to the largest value, then a clamp. */
  function AttestationExtendTo(remainingSeconds: U64): U32 {
    var wide := remainingSeconds / SECONDS_PER_LEDGER;
    var ledgers: U32 := if wide <= U32_MAX then wide else U32_MAX;
    if ledgers < MIN_ATTESTATION_TTL_EXTEND_TO then MIN_ATTESTATION_TTL_EXTEND_TO
    else if ledgers > MAX_ENTRY_TTL_LEDGERS then MAX_ENTRY_TTL_LEDGERS
    else ledgers
  }

  /** Threshold and target of a bump. */
  function AttestationTtlWindow(remainingSeconds: U64): (U32, U32) {
    var extendTo := AttestationExtendTo(remainingSeconds);
    (extendTo / 2, extendTo)
  }

  /** `expires_at.saturating_sub(now)`. */
  function Remaining(a: Attestation, now: U64): U64 {
    if a.expiresAt < now then 0 else a.expiresAt - now
  }

  /** `extend_ttl`: nothing while more than the threshold is left, else up to the target. */
  function ExtendTtl(ttl: nat, threshold: nat, extendTo: nat): nat {
    if ttl > threshold || ttl >= extendTo then ttl else extendTo
  }

  /** The clamp of the unbounded quotient. */
  function Clamp(x: int, lo: int, hi: int): int {
    if x < lo then lo else if x > hi then hi else x
  }

  /** The narrow conversion never shows: it is the clamp of the exact quotient for every
      64-bit lifetime, and longer lifetimes never get shorter windows. */
  lemma ExtendToIsClamp(a: U64, b: U64)
    ensures AttestationExtendTo(a) == Clamp(a / 5, 30 * 17_280, 6_312_000)
    ensures a <= b ==> AttestationExtendTo(a) <= AttestationExtendTo(b)
  {
    if a <= b {
      assert a / SECONDS_PER_LEDGER <= b / SECONDS_PER_LEDGER;
    }
  }

  /** The window falls short of the remaining life by a whole ledger or more exactly when the
      network ceiling cuts it. */
  lemma CoversIff(remaining: U64)
    ensures SECONDS_PER_LEDGER * (AttestationExtendTo(remaining) + 1) > remaining
       <==> remaining / SECONDS_PER_LEDGER <= MAX_ENTRY_TTL_LEDGERS
  {
    ExtendToIsClamp(remaining, remaining);
  }

  /** A write leaves at least half of the window it asks for, and costs nothing while more
      than half of that window is left. */
  lemma BumpLeavesHalf(ttl: nat, remaining: U64)
    ensures
      var (threshold, extendTo) := AttestationTtlWindow(remaining);
      var after := ExtendTtl(ttl, threshold, extendTo);
      && 2 * threshold <= extendTo <= 2 * threshold + 1
      && after == (if ttl <= threshold then extendTo else ttl)
      && after >= ttl && 2 * after >= extendTo
  {
  }

  // --- Lifetimes over runs --------------------------------------------------------

  /** No invocation of the run configures a maximum above 365 days. */
  ghost predicate ModestMaxima(invs: seq<Invocation>) {
    forall i :: 0 <= i < |invs| ==>
      && (invs[i].call.SetDefaultMaxTtl? || invs[i].call.SetMaxTtl? ==>
            invs[i].call.seconds <= DEFAULT_MAX_ATTESTATION_TTL_SECONDS)
  }

  ghost predicate Modest(st: State) {
    && (st.defaultMaxTtl.Some? ==> st.defaultMaxTtl.value <= DEFAULT_MAX_ATTESTATION_TTL_SECONDS)
    && (forall k :: k in st.maxTtl ==> st.maxTtl[k] <= DEFAULT_MAX_ATTESTATION_TTL_SECONDS)
    && (forall p :: p in st.attestations ==>
          st.attestations[p].expiresAt - st.attestations[p].issuedAt <= DEFAULT_MAX_ATTESTATION_TTL_SECONDS)
  }

  lemma RecordedModest(st: State, attestor: Address, e: BatchEntry, now: U64)
    requires Modest(st) && Objection(st, e).None?
    ensures Modest(Recorded(st, attestor, e, now))
  {
    assert MaxTtl(st, e.pair.kind) <= DEFAULT_MAX_ATTESTATION_TTL_SECONDS;
  }

  lemma {:induction false} RecordAllModest(st: State, attestor: Address, entries: seq<BatchEntry>, now: U64)
    requires Modest(st)
    ensures RecordAll(st, attestor, entries, now).1.None? ==> Modest(RecordAll(st, attestor, entries, now).0)
    decreases |entries|
  {
    if entries != [] && Record(st, attestor, entries[0], now).Ok? {
      RecordedModest(st, attestor, entries[0], now);
      RecordAllModest(Recorded(st, attestor, entries[0], now), attestor, entries[1..], now);
    }
  }

  lemma StepModest(st: State, inv: Invocation)
    requires Modest(st)
    requires inv.call.SetDefaultMaxTtl? || inv.call.SetMaxTtl? ==>
      inv.call.seconds <= DEFAULT_MAX_ATTESTATION_TTL_SECONDS
    ensures Modest(Step(st, inv))
  {
    if Apply(st, inv.auth, inv.now, inv.call).Ok? {
      if inv.call.DoAttest? {
        RecordedModest(st, inv.call.attestor, inv.call.entry, inv.now);
      } else if inv.call.DoAttestBatch? {
        RecordAllModest(st, inv.call.attestor, inv.call.entries, inv.now);
      } else {
        QuietModest(st, inv.auth, inv.now, inv.call);
      }
    }
  }

  lemma QuietModest(st: State, auth: set<Address>, now: U64, call: Call)
    requires Modest(st) && !call.DoAttest? && !call.DoAttestBatch? && Apply(st, auth, now, call).Ok?
    requires call.SetDefaultMaxTtl? || call.SetMaxTtl? ==> call.seconds <= DEFAULT_MAX_ATTESTATION_TTL_SECONDS
    ensures Modest(Apply(st, auth, now, call).value)
  {
  }

  lemma {:induction false} RunModest(invs: seq<Invocation>)
    requires ModestMaxima(invs)
    ensures Modest(Run(DEPLOYED, invs))
    decreases |invs|
  {
    if invs == [] {
    } else {
      var prefix := invs[..|invs| - 1];
      assert ModestMaxima(prefix);
      RunModest(prefix);
      StepModest(Run(DEPLOYED, prefix), invs[|invs| - 1]);
    }
  }

  lemma WindowOf(a: Attestation, now: U64)
    requires a.expiresAt - now <= 365 * 86_400
    ensures
      var window := AttestationExtendTo(Remaining(a, now));
      window < 6_312_000 && now + 5 * (window + 1) > a.expiresAt && 5 * window <= Most(a.expiresAt - now, 30 * 86_400)
  {
    ExtendToIsClamp(Remaining(a, now), 0);
  }

  /** While no maximum above 365 days is configured, the network ceiling never binds: at any
      time from its issue on, the window computed for a stored attestation is below the
      ceiling, covers its whole remaining life to within one ledger, and does not go beyond it
      or beyond 30 days. */
  lemma WindowCoversLife(t: U64, invs: seq<Invocation>, p: Pair, now: U64)
    requires Ordered(t, invs) && ModestMaxima(invs) && Latest(t, invs) <= now
    requires p in Run(DEPLOYED, invs).attestations
    ensures
      var a := Run(DEPLOYED, invs).attestations[p];
      var window := AttestationExtendTo(Remaining(a, now));
      && window < 6_312_000
      && now + 5 * (window + 1) > a.expiresAt
      && 5 * window <= Most(a.expiresAt - now, 30 * 86_400)
  {
    RunModest(invs);
    DeployedInv(t);
    RunInv(DEPLOYED, t, invs);
    var st := Run(DEPLOYED, invs);
    assert PairOk(st, p, Latest(t, invs));
    var a := st.attestations[p];
    assert a.issuedAt <= now;
    WindowOf(a, now);
  }
}
