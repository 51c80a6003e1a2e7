/** M-of-N governance of `src/multisig.rs`: what a stored configuration guarantees and what
    an accepted list of signers proves. Signature bytes are only measured, as in the source. */
module Multisig {
  import opened Prelude

  type Address = string

  datatype Error =
    | NotInitialized
    | InvalidThreshold
    | SignerNotFound
    | DuplicateSigner
    | InsufficientSignatures
    | InvalidSignature
    | EmptySignerList

  datatype Config = Config(signers: seq<Address>, threshold: nat, nonce: U64)

  /** Signers as listed by the caller, with the length of each signature. */
  datatype SignatureInfo = SignatureInfo(signers: seq<Address>, signatureLengths: seq<nat>)

  predicate Distinct(xs: seq<Address>) {
    forall i, j :: 0 <= i < j < |xs| ==> xs[i] != xs[j]
  }

  predicate ValidConfig(c: Config) {
    Distinct(c.signers) && 1 <= c.threshold <= |c.signers|
  }

  /** What is wrong with a proposed signer set, if anything. */
  function Objection(signers: seq<Address>, threshold: nat): Option<Error> {
    if |signers| == 0 then Some(EmptySignerList)
    else if threshold == 0 || threshold > |signers| then Some(InvalidThreshold)
    else if !Distinct(signers) then Some(DuplicateSigner)
    else None
  }

  function Rotated(c: Config, signers: seq<Address>, threshold: nat): Config {
    Config(signers, threshold, SaturatingAdd(c.nonce, 1))
  }

  /** The outcome of `verify_multisig`, check by check in the source's order. */
  function Verdict(stored: Option<Config>, info: SignatureInfo): Option<Error> {
    if stored.None? then Some(NotInitialized)
    else
      var c, n := stored.value, |info.signers|;
      if n != |info.signatureLengths| then Some(InvalidSignature)
      else if n < c.threshold then Some(InsufficientSignatures)
      else if !Distinct(info.signers) then Some(DuplicateSigner)
      else if exists i :: 0 <= i < n && info.signers[i] !in c.signers then Some(SignerNotFound)
      else if exists i :: 0 <= i < n && (i == 0 || i < c.threshold) && info.signatureLengths[i] != 65
      then Some(InvalidSignature)
      else None
  }

  /** Each objection is the first check that fails. */
  lemma ObjectionMeans(signers: seq<Address>, threshold: nat)
    ensures
      var o := Objection(signers, threshold);
      && (o == Some(EmptySignerList) <==> signers == [])
      && (o == Some(InvalidThreshold) <==> signers != [] && !(1 <= threshold <= |signers|))
      && (o == Some(DuplicateSigner) <==>
            1 <= threshold <= |signers| && exists i, j :: 0 <= i < j < |signers| && signers[i] == signers[j])
      && (o.None? <==> ValidConfig(Config(signers, threshold, 0)))
      && o != Some(NotInitialized)
  {
  }

  /** Each refusal is the first check that fails; the length of the first signature is looked
      at whatever the threshold. */
  lemma VerdictMeans(stored: Option<Config>, info: SignatureInfo)
    ensures
      var v, n := Verdict(stored, info), |info.signers|;
      && (v == Some(NotInitialized) <==> stored.None?)
      && (stored.Some? && n != |info.signatureLengths| ==> v == Some(InvalidSignature))
      && (stored.Some? && n == |info.signatureLengths| ==>
            var c := stored.value;
            && (v == Some(InsufficientSignatures) <==> n < c.threshold)
            && (v == Some(DuplicateSigner) <==> n >= c.threshold && |ToSet(info.signers)| < n)
            && (v == Some(SignerNotFound) <==>
                  n >= c.threshold && |ToSet(info.signers)| == n && !(ToSet(info.signers) <= ToSet(c.signers)))
            && (v.None? <==>
                  && n >= c.threshold && |ToSet(info.signers)| == n && ToSet(info.signers) <= ToSet(c.signers)
                  && forall i :: 0 <= i < n && i < Most(1, c.threshold) ==> info.signatureLengths[i] == 65))
  {
    if Distinct(info.signers) {
      DistinctSize(info.signers);
    } else {
      RepeatShrinks(info.signers);
    }
    if stored.Some? && ToSet(info.signers) <= ToSet(stored.value.signers) {
      forall i | 0 <= i < |info.signers| ensures info.signers[i] in stored.value.signers {
        assert info.signers[i] in ToSet(info.signers);
      }
    }
  }

  // --- The loops ------------------------------------------------------------

  method CheckDistinct(signers: seq<Address>) returns (ok: bool)
    ensures ok <==> Distinct(signers)
  {
    for i := 0 to |signers|
      invariant forall a, b :: 0 <= a < i && a < b < |signers| ==> signers[a] != signers[b]
    {
      for j := i + 1 to |signers|
        invariant forall b :: i < b < j ==> signers[i] != signers[b]
      {
        if signers[i] == signers[j] {
          return false;
        }
      }
    }
    return true;
  }

  /** The checks that initialisation and rotation share. */
  method CheckSigners(signers: seq<Address>, threshold: nat) returns (e: Option<Error>)
    ensures e == Objection(signers, threshold)
    ensures e.None? <==> Distinct(signers) && 1 <= threshold <= |signers|
  {
    if |signers| == 0 {
      return Some(EmptySignerList);
    }
    if threshold == 0 || threshold > |signers| {
      return Some(InvalidThreshold);
    }
    var distinct := CheckDistinct(signers);
    if !distinct {
      return Some(DuplicateSigner);
    }
    return None;
  }

  method IsAuthorizedSigner(c: Config, signer: Address) returns (ok: bool)
    ensures ok <==> signer in c.signers
  {
    for i := 0 to |c.signers|
      invariant forall k :: 0 <= k < i ==> c.signers[k] != signer
    {
      if c.signers[i] == signer {
        return true;
      }
    }
    return false;
  }

  /** None is acceptance. */
  method VerifyMultisig(stored: Option<Config>, info: SignatureInfo) returns (e: Option<Error>)
    ensures e == Verdict(stored, info)
  {
    if stored.None? {
      return Some(NotInitialized);
    }
    var c := stored.value;
    if |info.signers| != |info.signatureLengths| {
      return Some(InvalidSignature);
    }
    var n := |info.signers|;
    if n < c.threshold {
      return Some(InsufficientSignatures);
    }
    var distinct := CheckDistinct(info.signers);
    if !distinct {
      return Some(DuplicateSigner);
    }
    for i := 0 to n
      invariant forall k :: 0 <= k < i ==> info.signers[k] in c.signers
    {
      var known := IsAuthorizedSigner(c, info.signers[i]);
      if !known {
        return Some(SignerNotFound);
      }
    }
    var validCount := 0;
    for i := 0 to n
      invariant validCount == i
      invariant i > 0 ==> i < c.threshold
      invariant forall k :: 0 <= k < i ==> info.signatureLengths[k] == 65
    {
      if info.signatureLengths[i] == 65 {
        validCount := validCount + 1;
      } else {
        return Some(InvalidSignature);
      }
      if validCount >= c.threshold {
        return None;
      }
    }
    if validCount >= c.threshold {
      return None;
    }
    return Some(InsufficientSignatures);
  }

  class MultisigStore {
    var config: Option<Config>

    constructor ()
      ensures config == None
    {
      config := None;
    }

    method InitializeMultisig(signers: seq<Address>, threshold: nat) returns (e: Option<Error>)
      modifies this
      ensures e == Objection(signers, threshold)
      ensures config == if e.None? then Some(Config(signers, threshold, 0)) else old(config)
    {
      e := CheckSigners(signers, threshold);
      if e.Some? {
        return;
      }
      config := Some(Config(signers, threshold, 0));
      return None;
    }

    method RotateSigners(signers: seq<Address>, threshold: nat) returns (e: Option<Error>)
      modifies this
      ensures Objection(signers, threshold).Some? ==> e == Objection(signers, threshold)
      ensures Objection(signers, threshold).None? ==> e == if old(config).None? then Some(NotInitialized) else None
      ensures config == if e.None? then Some(Rotated(old(config).value, signers, threshold)) else old(config)
    {
      e := CheckSigners(signers, threshold);
      if e.Some? {
        return;
      }
      if config.None? {
        return Some(NotInitialized);
      }
      var c := config.value;
      c := c.(signers := signers, threshold := threshold, nonce := SaturatingAdd(c.nonce, 1));
      config := Some(c);
      return None;
    }

    method IncrementNonce() returns (e: Option<Error>)
      modifies this
      ensures old(config).None? ==> e == Some(NotInitialized) && config.None?
      ensures old(config).Some? ==>
        e == None && config == Some(old(config).value.(nonce := SaturatingAdd(old(config).value.nonce, 1)))
    {
      if config.None? {
        return Some(NotInitialized);
      }
      config := Some(config.value.(nonce := SaturatingAdd(config.value.nonce, 1)));
      return None;
    }
  }

  // --- What acceptance proves -------------------------------------------------

  function ToSet(xs: seq<Address>): set<Address> {
    set x | x in xs
  }

  lemma {:induction false} DistinctSize(xs: seq<Address>)
    requires Distinct(xs)
    ensures |ToSet(xs)| == |xs|
  {
    if xs == [] {
      assert ToSet(xs) == {};
    } else {
      var rest := xs[..|xs| - 1];
      DistinctSize(rest);
      assert ToSet(xs) == ToSet(rest) + {xs[|xs| - 1]};
    }
  }

  /** Under a valid configuration, acceptance means: as many signatures as signers, at least
      threshold signers, all different and all authorised, and the first threshold signatures
      65 bytes long. */
  lemma VerifyIff(c: Config, info: SignatureInfo)
    requires ValidConfig(c)
    ensures Verdict(Some(c), info).None? <==>
      && |info.signers| == |info.signatureLengths|
      && c.threshold <= |info.signers| == |ToSet(info.signers)|
      && ToSet(info.signers) <= ToSet(c.signers)
      && (forall i :: 0 <= i < c.threshold ==> info.signatureLengths[i] == 65)
  {
    if Distinct(info.signers) {
      DistinctSize(info.signers);
    } else {
      RepeatShrinks(info.signers);
    }
    if ToSet(info.signers) <= ToSet(c.signers) {
      forall i | 0 <= i < |info.signers| ensures info.signers[i] in c.signers {
        assert info.signers[i] in ToSet(info.signers);
      }
    }
  }

  lemma {:induction false} ToSetSize(xs: seq<Address>)
    ensures |ToSet(xs)| <= |xs|
  {
    if xs == [] {
      assert ToSet(xs) == {};
    } else {
      ToSetSize(xs[..|xs| - 1]);
      assert ToSet(xs) == ToSet(xs[..|xs| - 1]) + {xs[|xs| - 1]};
    }
  }

  lemma {:induction false} RepeatShrinks(xs: seq<Address>)
    requires !Distinct(xs)
    ensures |ToSet(xs)| < |xs|
  {
    var rest, last := xs[..|xs| - 1], xs[|xs| - 1];
    assert ToSet(xs) == ToSet(rest) + {last};
    if last in rest {
      assert ToSet(xs) == ToSet(rest);
      ToSetSize(rest);
    } else {
      RepeatShrinks(rest);
    }
  }

  /** Any two accepted lists share a configured signer. */
  ghost predicate QuorumsMeet(c: Config) {
    forall a: SignatureInfo, b: SignatureInfo :: Verdict(Some(c), a).None? && Verdict(Some(c), b).None? ==>
      exists s :: s in a.signers && s in b.signers && s in c.signers
  }

  lemma MajoritiesMeet(c: Config, a: SignatureInfo, b: SignatureInfo)
    requires ValidConfig(c) && 2 * c.threshold > |c.signers|
    requires Verdict(Some(c), a).None? && Verdict(Some(c), b).None?
    ensures exists s :: s in a.signers && s in b.signers && s in c.signers
  {
    VerifyIff(c, a);
    VerifyIff(c, b);
    DistinctSize(c.signers);
    var sa, sb := ToSet(a.signers), ToSet(b.signers);
    if sa * sb == {} {
      SubsetSize(sa + sb, ToSet(c.signers));
    }
    var s :| s in sa * sb;
    assert s in a.signers && s in b.signers && s in ToSet(c.signers);
  }

  /** Some threshold of the configured signers, with signatures of the right length. */
  lemma SliceAccepted(c: Config, from: nat)
    requires ValidConfig(c) && from + c.threshold <= |c.signers|
    ensures Verdict(Some(c), SignatureInfo(c.signers[from..from + c.threshold], seq(c.threshold, _ => 65))).None?
  {
  }

  /** Quorums always meet if and only if the threshold is a majority. */
  lemma QuorumsIntersectIff(c: Config)
    requires ValidConfig(c)
    ensures QuorumsMeet(c) <==> 2 * c.threshold > |c.signers|
  {
    if 2 * c.threshold > |c.signers| {
      forall a: SignatureInfo, b: SignatureInfo | Verdict(Some(c), a).None? && Verdict(Some(c), b).None?
        ensures exists s :: s in a.signers && s in b.signers && s in c.signers
      {
        MajoritiesMeet(c, a, b);
      }
    } else {
      var n := c.threshold;
      var a, b := SignatureInfo(c.signers[0..n], seq(n, _ => 65)), SignatureInfo(c.signers[n..n + n], seq(n, _ => 65));
      SliceAccepted(c, 0);
      SliceAccepted(c, n);
      assert forall s :: s in a.signers ==> s !in b.signers;
    }
  }

  // --- The count that authorises a rotation ------------------------------------

  /** Entries of the list that name an authorised signer, as the loop in `rotate_signers` of
      `src/contract.rs` counts them: once per entry. */
  function CountEntries(c: Config, listed: seq<Address>): nat {
    if listed == [] then 0
    else CountEntries(c, listed[..|listed| - 1]) + if listed[|listed| - 1] in c.signers then 1 else 0
  }

  method CountValidSigners(c: Config, listed: seq<Address>) returns (n: nat)
    ensures n == CountEntries(c, listed)
  {
    n := 0;
    for i := 0 to |listed|
      invariant n == CountEntries(c, listed[..i])
    {
      assert listed[..i + 1][..i] == listed[..i];
      for j := 0 to |c.signers|
        invariant n == CountEntries(c, listed[..i])
        invariant forall k :: 0 <= k < j ==> c.signers[k] != listed[i]
      {
        if c.signers[j] == listed[i] {
          n := n + 1;
          break;
        }
      }
      assert n == CountEntries(c, listed[..i + 1]);
    }
    assert listed[..|listed|] == listed;
  }

  /** The positions of the list that name an authorised signer. */
  function Hits(c: Config, listed: seq<Address>): set<int> {
    set i | 0 <= i < |listed| && listed[i] in c.signers
  }

  /** The count is the number of those positions, whoever they name. */
  lemma {:induction false} EntriesAreHits(c: Config, listed: seq<Address>)
    ensures CountEntries(c, listed) == |Hits(c, listed)|
  {
    if listed == [] {
      assert Hits(c, listed) == {};
    } else {
      var rest, n := listed[..|listed| - 1], |listed| - 1;
      EntriesAreHits(c, rest);
      assert Hits(c, listed) == Hits(c, rest) + if listed[n] in c.signers then {n} else {};
    }
  }

  /** The authorised signers the list names. */
  function Named(c: Config, listed: seq<Address>): set<Address> {
    set x | x in listed && x in c.signers
  }

  /** No authorised signer is listed twice. */
  predicate NoAuthorisedRepeat(c: Config, listed: seq<Address>) {
    forall i, j :: 0 <= i < j < |listed| && listed[i] in c.signers ==> listed[i] != listed[j]
  }

  /** The entry count is never below the number of signers named, and equals it exactly when
      no authorised signer is listed twice. */
  lemma {:induction false} EntriesVersusSigners(c: Config, listed: seq<Address>)
    ensures CountEntries(c, listed) >= |Named(c, listed)|
    ensures CountEntries(c, listed) == |Named(c, listed)| <==> NoAuthorisedRepeat(c, listed)
  {
    if listed == [] {
      assert Named(c, listed) == {};
    } else {
      var rest, last := listed[..|listed| - 1], listed[|listed| - 1];
      EntriesVersusSigners(c, rest);
      RepeatSplit(c, listed);
      if last !in c.signers || last in rest {
        assert Named(c, listed) == Named(c, rest);
      } else {
        assert Named(c, listed) == Named(c, rest) + {last};
      }
    }
  }

  lemma RepeatSplit(c: Config, listed: seq<Address>)
    requires listed != []
    ensures
      var rest, last := listed[..|listed| - 1], listed[|listed| - 1];
      NoAuthorisedRepeat(c, listed) <==> NoAuthorisedRepeat(c, rest) && !(last in c.signers && last in rest)
  {
    var rest, last := listed[..|listed| - 1], listed[|listed| - 1];
    if last in c.signers && last in rest {
      var i :| 0 <= i < |rest| && rest[i] == last;
      assert listed[i] == listed[|listed| - 1];
    }
    if !NoAuthorisedRepeat(c, rest) {
      var i, j :| 0 <= i < j < |rest| && rest[i] in c.signers && rest[i] == rest[j];
      assert listed[i] == listed[j];
    }
  }

  /** Enough entries always mean enough different signers. */
  ghost predicate EntriesProveQuorum(c: Config) {
    forall listed :: CountEntries(c, listed) >= c.threshold ==> |Named(c, listed)| >= c.threshold
  }

  function Repeated(a: Address, n: nat): seq<Address> {
    if n == 0 then [] else Repeated(a, n - 1) + [a]
  }

  lemma {:induction false} RepeatedCounts(c: Config, a: Address, n: nat)
    requires a in c.signers
    ensures CountEntries(c, Repeated(a, n)) == n
    ensures forall x :: x in Repeated(a, n) ==> x == a
    decreases n
  {
    if n == 0 {
    } else {
      RepeatedCounts(c, a, n - 1);
      assert Repeated(a, n)[..|Repeated(a, n)| - 1] == Repeated(a, n - 1);
    }
  }

  /** Counting entries proves a quorum for every list exactly when the threshold is one; for
      a larger threshold the caller has to list each signer once. */
  lemma EntriesProveQuorumIff(c: Config)
    requires ValidConfig(c)
    ensures EntriesProveQuorum(c) <==> c.threshold == 1
  {
    if c.threshold == 1 {
      forall listed | CountEntries(c, listed) >= 1 ensures |Named(c, listed)| >= 1 {
        var x := FirstNamed(c, listed);
        assert x in Named(c, listed);
      }
    } else {
      var a := c.signers[0];
      var listed := Repeated(a, c.threshold);
      RepeatedCounts(c, a, c.threshold);
      assert Named(c, listed) <= {a};
      SubsetSize(Named(c, listed), {a});
    }
  }

  lemma {:induction false} FirstNamed(c: Config, listed: seq<Address>) returns (x: Address)
    requires CountEntries(c, listed) >= 1
    ensures x in listed && x in c.signers
  {
    var rest, last := listed[..|listed| - 1], listed[|listed| - 1];
    if last in c.signers {
      x := last;
    } else {
      x := FirstNamed(c, rest);
    }
  }
}
