/** What every run of the contract keeps: a well-formed append-only log per pair, the count
    of attestations, and who may add to a log. */
module ContractProofs {
  import opened Prelude
  import opened ContractModel
  import M = Multisig

  // --- Histories as sequences -------------------------------------------------

  /** The history keys of each pair are exactly 1..seq. */
  ghost predicate Keyed(st: State) {
    forall p, n :: (p, n) in st.history <==> 1 <= n <= Seq(st, p)
  }

  ghost function HistoryOf(st: State, p: Pair): (h: seq<HistoryEntry>)
    requires Keyed(st)
    ensures |h| == Seq(st, p)
    ensures forall i :: 0 <= i < |h| ==> (p, i + 1) in st.history && h[i] == st.history[(p, i + 1)]
  {
    seq(Seq(st, p), i requires 0 <= i < Seq(st, p) =>
      assert (p, i + 1) in st.history; st.history[(p, i + 1)])
  }

  ghost predicate SameTerms(a: HistoryEntry, b: HistoryEntry) {
    a.attestor == b.attestor && a.payloadHash == b.payloadHash && a.issuedAt == b.issuedAt && a.expiresAt == b.expiresAt
  }

  /** A log as an auditor expects it: numbered 1, 2, ...; every revocation directly follows
      the active entry it revokes, with the same terms; issue times never decrease and none
      is later than t. */
  ghost predicate GoodLog(h: seq<HistoryEntry>, t: int) {
    && (forall i :: 0 <= i < |h| ==> h[i].sequence == i + 1 && h[i].issuedAt <= t && h[i].issuedAt <= h[i].expiresAt)
    && (forall i :: 0 <= i < |h| && h[i].status == Revoked ==>
          i > 0 && h[i - 1].status == Active && SameTerms(h[i - 1], h[i]))
    && (forall i, j :: 0 <= i < j < |h| ==> h[i].issuedAt <= h[j].issuedAt)
  }

  ghost predicate Mirrors(a: Attestation, p: Pair, e: HistoryEntry) {
    && a.subject == p.subject && a.kind == p.kind
    && e.attestor == a.attestor && e.payloadHash == a.payloadHash
    && e.issuedAt == a.issuedAt && e.expiresAt == a.expiresAt && e.status == a.status
  }

  /** The stored attestation exists iff the log has entries, and is its last entry. */
  ghost predicate PairOk(st: State, p: Pair, t: int)
    requires Keyed(st)
  {
    var h := HistoryOf(st, p);
    && GoodLog(h, t)
    && (p in st.attestations <==> h != [])
    && (h != [] ==> Mirrors(st.attestations[p], p, h[|h| - 1]))
  }

  /** Where the active entries of all logs are. */
  ghost function ActiveKeys(st: State): set<(Pair, nat)> {
    ActiveIn(st.history)
  }

  ghost predicate Inv(st: State, t: int) {
    && Keyed(st)
    && (forall p :: PairOk(st, p, t))
    && st.count == |ActiveKeys(st)|
    && (st.attestors != {} || st.attestations != map[] ==> st.admin.Some?)
    && (st.multisig.Some? ==> M.ValidConfig(st.multisig.value))
  }

  // --- One write ------------------------------------------------------------

  lemma WriteKeyed(st: State, p: Pair, a: Attestation)
    requires Keyed(st)
    ensures
      var st' := Write(st, p, a);
      && Keyed(st')
      && HistoryOf(st', p) == HistoryOf(st, p) + [EntryOf(a, Seq(st, p) + 1)]
      && forall q :: q != p ==> HistoryOf(st', q) == HistoryOf(st, q)
  {
    var st', k := Write(st, p, a), Seq(st, p) + 1;
    forall q, n ensures (q, n) in st'.history <==> 1 <= n <= Seq(st', q) {
      assert (q, n) in st'.history <==> (q, n) in st.history || (q, n) == (p, k);
    }
  }

  /** An entry that may follow the log h at time now. */
  ghost predicate MayFollow(h: seq<HistoryEntry>, e: HistoryEntry, now: int) {
    && e.sequence == |h| + 1 && e.issuedAt <= now && e.issuedAt <= e.expiresAt
    && (e.status == Active ==> e.issuedAt == now)
    && (e.status == Revoked ==> h != [] && h[|h| - 1].status == Active && SameTerms(h[|h| - 1], e))
  }

  lemma GoodLogGrows(h: seq<HistoryEntry>, t: int, e: HistoryEntry, now: int)
    requires GoodLog(h, t) && t <= now && MayFollow(h, e, now)
    ensures GoodLog(h + [e], now)
  {
  }

  lemma WritePairs(st: State, t: int, p: Pair, a: Attestation, now: int)
    requires Inv(st, t) && t <= now && a.subject == p.subject && a.kind == p.kind
    requires MayFollow(HistoryOf(st, p), EntryOf(a, Seq(st, p) + 1), now)
    ensures Keyed(Write(st, p, a)) && forall q :: PairOk(Write(st, p, a), q, now)
  {
    var st' := Write(st, p, a);
    WriteKeyed(st, p, a);
    forall q ensures PairOk(st', q, now) {
      assert PairOk(st, q, t);
      if q == p {
        GoodLogGrows(HistoryOf(st, p), t, EntryOf(a, Seq(st, p) + 1), now);
      }
    }
  }

  ghost function ActiveIn(m: map<(Pair, nat), HistoryEntry>): set<(Pair, nat)> {
    set k | k in m && m[k].status == Active
  }

  lemma ActiveInsert(m: map<(Pair, nat), HistoryEntry>, k: (Pair, nat), e: HistoryEntry)
    requires k !in m
    ensures |ActiveIn(m[k := e])| == |ActiveIn(m)| + if e.status == Active then 1 else 0
  {
    assert k !in ActiveIn(m);
    assert ActiveIn(m[k := e]) == ActiveIn(m) + if e.status == Active then {k} else {};
  }

  lemma WriteActiveKeys(st: State, p: Pair, a: Attestation)
    requires Keyed(st)
    ensures |ActiveKeys(Write(st, p, a))| == |ActiveKeys(st)| + if a.status == Active then 1 else 0
  {
    var n := Seq(st, p) + 1;
    assert (p, n) !in st.history;
    ActiveInsert(st.history, (p, n), EntryOf(a, n));
  }

  lemma RecordedInv(st: State, t: int, attestor: Address, e: BatchEntry, now: U64)
    requires Inv(st, t) && t <= now && attestor in st.attestors
    ensures Inv(Recorded(st, attestor, e, now), now)
    ensures HistoryOf(Recorded(st, attestor, e, now), e.pair)
         == HistoryOf(st, e.pair) + [EntryOf(Issued(attestor, e, now), Seq(st, e.pair) + 1)]
    ensures forall q :: q != e.pair ==> HistoryOf(Recorded(st, attestor, e, now), q) == HistoryOf(st, q)
  {
    var a := Issued(attestor, e, now);
    WritePairs(st, t, e.pair, a, now);
    WriteActiveKeys(st, e.pair, a);
    WriteKeyed(st, e.pair, a);
    var written := Write(st, e.pair, a);
    SameLog(written, Recorded(st, attestor, e, now), now);
  }

  /** Only the log fields matter to the log part of the invariant. */
  ghost predicate LogUnchanged(st: State, st': State) {
    st'.attestations == st.attestations && st'.seqs == st.seqs && st'.history == st.history
  }

  lemma SameLog(st: State, st': State, t: int)
    requires LogUnchanged(st, st') && Keyed(st)
    ensures Keyed(st')
    ensures forall p :: HistoryOf(st', p) == HistoryOf(st, p)
    ensures (forall p :: PairOk(st, p, t)) ==> forall p :: PairOk(st', p, t)
    ensures ActiveKeys(st') == ActiveKeys(st)
  {
    assert forall p :: Seq(st', p) == Seq(st, p);
    forall p, n ensures (p, n) in st'.history <==> 1 <= n <= Seq(st', p) {
      assert (p, n) in st.history <==> 1 <= n <= Seq(st, p);
    }
    assert Keyed(st');
    if forall p :: PairOk(st, p, t) {
      forall p ensures PairOk(st', p, t) {
        assert PairOk(st, p, t);
        assert HistoryOf(st', p) == HistoryOf(st, p);
      }
    }
  }

  lemma LaterInv(st: State, t: int, now: int)
    requires Inv(st, t) && t <= now
    ensures Inv(st, now)
  {
    forall p ensures PairOk(st, p, now) {
      assert PairOk(st, p, t);
    }
  }

  lemma RevokeInv(st: State, t: int, p: Pair, now: int)
    requires Inv(st, t) && t <= now && p in st.attestations && st.attestations[p].status == Active
    ensures
      var st' := Write(st, p, st.attestations[p].(status := Revoked));
      && Inv(st', now)
      && HistoryOf(st', p) == HistoryOf(st, p) + [EntryOf(st.attestations[p].(status := Revoked), Seq(st, p) + 1)]
      && forall q :: q != p ==> HistoryOf(st', q) == HistoryOf(st, q)
  {
    var a := st.attestations[p].(status := Revoked);
    assert PairOk(st, p, t);
    WritePairs(st, t, p, a, now);
    WriteActiveKeys(st, p, a);
    WriteKeyed(st, p, a);
  }

  // --- One invocation ---------------------------------------------------------

  /** Why an entry may be appended by an invocation: not while paused; an active entry only
      by an allow-listed attestor who authorised it, dated now; a revocation only with the
      authority of the admin or of the entry's own attestor. */
  ghost predicate Justified(e: HistoryEntry, st: State, auth: set<Address>, now: int) {
    && !st.paused
    && (e.status == Active ==> e.attestor in auth && e.attestor in st.attestors && e.issuedAt == now)
    && (e.status == Revoked ==> e.attestor in auth || (st.admin.Some? && st.admin.value in auth))
  }

  /** The log of p only grew, by justified entries. */
  ghost predicate GrewAt(st: State, st': State, p: Pair, auth: set<Address>, now: int)
    requires Keyed(st) && Keyed(st')
  {
    var h, h' := HistoryOf(st, p), HistoryOf(st', p);
    && h <= h'
    && forall i :: |h| <= i < |h'| ==> Justified(h'[i], st, auth, now)
  }

  ghost predicate Grew(st: State, st': State, auth: set<Address>, now: int) {
    Keyed(st) && Keyed(st') && forall p :: GrewAt(st, st', p, auth, now)
  }

  lemma RecordedGrew(st: State, t: int, auth: set<Address>, attestor: Address, e: BatchEntry, now: U64)
    requires Inv(st, t) && t <= now && AttestGuard(st, auth, attestor).None?
    ensures Inv(Recorded(st, attestor, e, now), now) && Grew(st, Recorded(st, attestor, e, now), auth, now)
  {
    RecordedInv(st, t, attestor, e, now);
    var st' := Recorded(st, attestor, e, now);
    forall p ensures GrewAt(st, st', p, auth, now) {
      assert p != e.pair ==> HistoryOf(st', p) == HistoryOf(st, p);
    }
  }

  lemma GrewTrans(a: State, b: State, c: State, auth: set<Address>, now: int)
    requires Grew(a, b, auth, now) && Grew(b, c, auth, now)
    requires b.paused == a.paused && b.attestors == a.attestors && b.admin == a.admin
    ensures Grew(a, c, auth, now)
  {
    forall p ensures GrewAt(a, c, p, auth, now) {
      assert GrewAt(a, b, p, auth, now) && GrewAt(b, c, p, auth, now);
      var hb, hc := HistoryOf(b, p), HistoryOf(c, p);
      forall i | |HistoryOf(a, p)| <= i < |hc| ensures Justified(hc[i], a, auth, now) {
        if i < |hb| {
          assert hc[i] == hb[i];
        }
      }
    }
  }

  /** Configuration a write leaves alone. */
  ghost predicate SameSettings(st: State, st': State) {
    && st'.admin == st.admin && st'.paused == st.paused && st'.attestors == st.attestors
    && st'.defaultMaxTtl == st.defaultMaxTtl && st'.maxTtl == st.maxTtl && st'.multisig == st.multisig
  }

  lemma {:induction false} RecordAllInv(st: State, t: int, auth: set<Address>, attestor: Address,
                                        entries: seq<BatchEntry>, now: U64)
    requires Inv(st, t) && t <= now && AttestGuard(st, auth, attestor).None?
    ensures
      var st' := RecordAll(st, attestor, entries, now).0;
      && SameSettings(st, st')
      && (RecordAll(st, attestor, entries, now).1.None? ==> Inv(st', now) && Grew(st, st', auth, now))
    decreases |entries|
  {
    LaterInv(st, t, now);
    if entries != [] && Record(st, attestor, entries[0], now).Ok? {
      var next := Recorded(st, attestor, entries[0], now);
      RecordedGrew(st, t, auth, attestor, entries[0], now);
      RecordAllInv(next, now, auth, attestor, entries[1..], now);
      if RecordAll(next, attestor, entries[1..], now).1.None? {
        GrewTrans(st, next, RecordAll(next, attestor, entries[1..], now).0, auth, now);
      }
    }
  }

  lemma QuietInv(st: State, t: int, st': State, auth: set<Address>, now: int)
    requires Inv(st, t) && t <= now && LogUnchanged(st, st') && st'.count == st.count
    requires st.admin.Some? ==> st'.admin.Some?
    requires st'.attestors != {} ==> st'.admin.Some?
    requires st'.multisig.Some? ==> M.ValidConfig(st'.multisig.value)
    ensures Inv(st', now) && Grew(st, st', auth, now)
  {
    LaterInv(st, t, now);
    SameLog(st, st', now);
    forall p ensures GrewAt(st, st', p, auth, now) {
      assert HistoryOf(st', p) == HistoryOf(st, p);
    }
  }

  lemma RevokeGrew(st: State, t: int, auth: set<Address>, caller: Address, p: Pair, now: int)
    requires Inv(st, t) && t <= now && Revoke(st, auth, caller, p).Ok?
    ensures
      var st' := Revoke(st, auth, caller, p).value;
      Inv(st', now) && Grew(st, st', auth, now)
  {
    RevokeInv(st, t, p, now);
    var st' := Revoke(st, auth, caller, p).value;
    forall q ensures GrewAt(st, st', q, auth, now) {
      assert q != p ==> HistoryOf(st', q) == HistoryOf(st, q);
    }
  }

  predicate Writes(call: Call) {
    call.DoAttest? || call.DoAttestBatch? || call.DoRevoke?
  }

  /** The other calls leave the logs and the count alone. */
  lemma OthersAreQuiet(st: State, auth: set<Address>, now: U64, call: Call)
    requires !Writes(call) && Apply(st, auth, now, call).Ok?
    ensures
      var st' := Apply(st, auth, now, call).value;
      LogUnchanged(st, st') && st'.count == st.count
  {
    if call.DoRenewAttestation? {
      assert Apply(st, auth, now, call).value.attestations == st.attestations;
    }
  }

  /** Once there is an admin there always is, attestors come only after, and a signer set is
      stored only when it is valid. */
  lemma OthersKeepGuards(st: State, auth: set<Address>, now: U64, call: Call)
    requires !Writes(call) && Apply(st, auth, now, call).Ok?
    requires st.attestors != {} ==> st.admin.Some?
    requires st.multisig.Some? ==> M.ValidConfig(st.multisig.value)
    ensures
      var st' := Apply(st, auth, now, call).value;
      && (st.admin.Some? ==> st'.admin.Some?)
      && (st'.attestors != {} ==> st'.admin.Some?)
      && (st'.multisig.Some? ==> M.ValidConfig(st'.multisig.value))
  {
  }

  /** Every invocation, committed or rolled back, keeps the invariant, and appends to a log
      only what it is entitled to. */
  lemma StepInv(st: State, t: int, inv: Invocation)
    requires Inv(st, t) && t <= inv.now
    ensures Inv(Step(st, inv), inv.now) && Grew(st, Step(st, inv), inv.auth, inv.now)
  {
    var st' := Step(st, inv);
    if Apply(st, inv.auth, inv.now, inv.call).Err? {
      QuietInv(st, t, st, inv.auth, inv.now);
    } else if !Writes(inv.call) {
      OthersAreQuiet(st, inv.auth, inv.now, inv.call);
      OthersKeepGuards(st, inv.auth, inv.now, inv.call);
      QuietInv(st, t, st', inv.auth, inv.now);
    } else {
      match inv.call
      case DoAttest(attestor, e) => RecordedGrew(st, t, inv.auth, attestor, e, inv.now);
      case DoAttestBatch(attestor, entries) => RecordAllInv(st, t, inv.auth, attestor, entries, inv.now);
      case DoRevoke(caller, p) => RevokeGrew(st, t, inv.auth, caller, p, inv.now);
    }
  }

  // --- Every run --------------------------------------------------------------

  lemma DeployedInv(t: int)
    ensures Inv(DEPLOYED, t)
  {
    assert ActiveKeys(DEPLOYED) == {};
  }

  lemma {:induction false} RunInv(st: State, t: U64, invs: seq<Invocation>)
    requires Inv(st, t) && Ordered(t, invs)
    ensures Inv(Run(st, invs), Latest(t, invs))
    ensures forall p :: HistoryOf(st, p) <= HistoryOf(Run(st, invs), p)
    decreases |invs|
  {
    if invs == [] {
    } else {
      var prefix, last := invs[..|invs| - 1], invs[|invs| - 1];
      RunInv(st, t, prefix);
      StepInv(Run(st, prefix), Latest(t, prefix), last);
      forall p ensures HistoryOf(st, p) <= HistoryOf(Run(st, invs), p) {
        assert GrewAt(Run(st, prefix), Run(st, invs), p, last.auth, last.now);
      }
    }
  }

  /** The log invariant, in every state any run reaches: for each pair the history keys are
      exactly 1..seq and entry n carries number n; the stored attestation exists iff seq > 0
      and agrees with entry seq in every field; the first entry is active and a revocation
      directly follows the active entry it revokes, with the same terms; issue times never
      decrease. An attestation implies an admin, and stored signer sets are valid. */
  lemma LogInvariant(t: U64, invs: seq<Invocation>, p: Pair)
    requires Ordered(t, invs)
    ensures
      var st := Run(DEPLOYED, invs);
      && (forall n :: (p, n) in st.history <==> 1 <= n <= Seq(st, p))
      && (forall n :: 1 <= n <= Seq(st, p) ==> st.history[(p, n)].sequence == n)
      && (p in st.attestations <==> Seq(st, p) > 0)
      && (p in st.attestations ==>
            && st.history[(p, Seq(st, p))] == EntryOf(st.attestations[p], Seq(st, p))
            && st.attestations[p].subject == p.subject && st.attestations[p].kind == p.kind)
      && (forall n :: 1 <= n <= Seq(st, p) && st.history[(p, n)].status == Revoked ==>
            n > 1 && st.history[(p, n - 1)].status == Active && SameTerms(st.history[(p, n - 1)], st.history[(p, n)]))
      && (forall m, n :: 1 <= m < n <= Seq(st, p) ==> st.history[(p, m)].issuedAt <= st.history[(p, n)].issuedAt)
      && (p in st.attestations ==> st.admin.Some?)
      && (st.multisig.Some? ==> M.ValidConfig(st.multisig.value))
  {
    DeployedInv(t);
    RunInv(DEPLOYED, t, invs);
    var st := Run(DEPLOYED, invs);
    assert PairOk(st, p, Latest(t, invs));
    assert forall n :: (p, n) in st.history <==> 1 <= n <= Seq(st, p);
    StoredLog(st, p, HistoryOf(st, p), Latest(t, invs));
  }

  /** The log invariant of a sequence, said of the stored map. */
  lemma StoredLog(st: State, p: Pair, h: seq<HistoryEntry>, t: int)
    requires GoodLog(h, t) && |h| == Seq(st, p)
    requires forall i :: 0 <= i < |h| ==> (p, i + 1) in st.history && h[i] == st.history[(p, i + 1)]
    ensures forall n :: 1 <= n <= Seq(st, p) ==> (p, n) in st.history && st.history[(p, n)].sequence == n
    ensures forall n :: 1 <= n <= Seq(st, p) && st.history[(p, n)].status == Revoked ==>
      n > 1 && st.history[(p, n - 1)].status == Active && SameTerms(st.history[(p, n - 1)], st.history[(p, n)])
    ensures forall m, n :: 1 <= m < n <= Seq(st, p) ==> st.history[(p, m)].issuedAt <= st.history[(p, n)].issuedAt
  {
    forall n | 1 <= n <= Seq(st, p)
      ensures (p, n) in st.history && st.history[(p, n)] == h[n - 1]
    {
      var i := n - 1;
      var e := h[i];
      assert (p, i + 1) in st.history && e == st.history[(p, i + 1)];
    }
  }

  /** Earlier histories are prefixes of later ones: nothing is rewritten or removed. */
  lemma HistoriesOnlyGrow(t: U64, invs: seq<Invocation>, n: nat, p: Pair)
    requires Ordered(t, invs) && n <= |invs|
    ensures Keyed(Run(DEPLOYED, invs[..n])) && Keyed(Run(DEPLOYED, invs))
    ensures HistoryOf(Run(DEPLOYED, invs[..n]), p) <= HistoryOf(Run(DEPLOYED, invs), p)
  {
    SplitRun(DEPLOYED, t, invs, n);
    DeployedInv(t);
    RunInv(DEPLOYED, t, invs[..n]);
    RunInv(Run(DEPLOYED, invs[..n]), Latest(t, invs[..n]), invs[n..]);
  }

  lemma {:induction false} SplitRun(st: State, t: U64, invs: seq<Invocation>, n: nat)
    requires Ordered(t, invs) && n <= |invs|
    ensures Ordered(t, invs[..n]) && Ordered(Latest(t, invs[..n]), invs[n..])
    ensures Run(st, invs) == Run(Run(st, invs[..n]), invs[n..])
    ensures Latest(t, invs) == Latest(Latest(t, invs[..n]), invs[n..])
    decreases |invs|
  {
    if n == |invs| {
      assert invs[..n] == invs && invs[n..] == [];
    } else {
      var prefix := invs[..|invs| - 1];
      SplitRun(st, t, prefix, n);
      assert prefix[..n] == invs[..n];
      assert invs[n..][..|invs| - n - 1] == prefix[n..];
    }
  }

  // --- Conservation -----------------------------------------------------------

  ghost function RevokedKeys(st: State): set<(Pair, nat)> {
    set k | k in st.history && st.history[k].status == Revoked
  }

  lemma {:induction false} ShiftDown(ks: set<(Pair, nat)>) returns (shifted: set<(Pair, nat)>)
    requires forall k :: k in ks ==> k.1 > 0
    ensures |shifted| == |ks|
    ensures forall k :: k in shifted ==> (k.0, k.1 + 1) in ks
    decreases |ks|
  {
    if ks == {} {
      shifted := {};
    } else {
      var k :| k in ks;
      var rest := ShiftDown(ks - {k});
      assert (k.0, k.1 - 1) !in rest;
      shifted := rest + {(k.0, k.1 - 1)};
    }
  }

  /** Conservation: the global count is the number of active entries over all pairs, and each
      revocation uses up one of them, so the logs together hold between count and 2 * count
      entries. */
  lemma Conservation(t: U64, invs: seq<Invocation>)
    requires Ordered(t, invs)
    ensures
      var st := Run(DEPLOYED, invs);
      && st.count == |ActiveKeys(st)|
      && st.count <= |st.history| <= 2 * st.count
  {
    DeployedInv(t);
    RunInv(DEPLOYED, t, invs);
    HistorySize(Run(DEPLOYED, invs), Latest(t, invs));
  }

  lemma RevokedAfterActive(st: State, t: int, k: (Pair, nat))
    requires Inv(st, t) && k in RevokedKeys(st)
    ensures k.1 > 1 && (k.0, k.1 - 1) in ActiveKeys(st)
  {
    var (p, n) := k;
    assert PairOk(st, p, t);
    assert (p, n) in st.history;
    var h := HistoryOf(st, p);
    assert h[n - 1] == st.history[(p, n)];
    assert h[n - 2] == st.history[(p, n - 1)];
  }

  lemma HistorySize(st: State, t: int)
    requires Inv(st, t)
    ensures st.count <= |st.history| <= 2 * st.count
  {
    var active, revoked := ActiveKeys(st), RevokedKeys(st);
    assert st.history.Keys == active + revoked;
    assert |st.history| == |active| + |revoked|;
    forall k | k in revoked ensures k.1 > 1 && (k.0, k.1 - 1) in active {
      RevokedAfterActive(st, t, k);
    }
    var shifted := ShiftDown(revoked);
    forall k | k in shifted ensures k in active {
      assert (k.0, k.1 + 1) in revoked;
    }
    SubsetSize(shifted, active);
  }
}
