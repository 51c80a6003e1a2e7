/** The one-pass hostname scanner of `src/domain_validator.rs` against a label grammar
    (sections 2.3.1 and 2.3.4 of RFC 1035, section 2.1 of RFC 1123). */
module DomainValidator {
  import opened Prelude

  type Byte = x: int | 0 <= x < 256

  const DASH: Byte := 45
  const DOT: Byte := 46
  const MAX_DOMAIN_LEN := 255
  const MAX_LABEL_LEN := 63
  const TWO_TO_32 := 0x1_0000_0000

  /** `is_ascii_alphanumeric`. */
  predicate IsAlnum(c: Byte) {
    48 <= c <= 57 || 65 <= c <= 90 || 97 <= c <= 122
  }

  predicate LetterOrDigit(c: Byte) {
    '0' as int <= c <= '9' as int || 'A' as int <= c <= 'Z' as int || 'a' as int <= c <= 'z' as int
  }

  // --- The grammar ----------------------------------------------------------

  /** The labels between the dots. */
  function Labels(s: seq<Byte>): (labels: seq<seq<Byte>>)
    ensures |labels| > 0
  {
    if s == [] then [[]]
    else
      var c, before := s[|s| - 1], Labels(s[..|s| - 1]);
      var n := |before| - 1;
      if c == '.' as int then before + [[]] else before[..n] + [before[n] + [c]]
  }

  /** 1 to 63 letters, digits and hyphens, no hyphen at either end. */
  predicate ValidLabel(part: seq<Byte>) {
    && 1 <= |part| <= 63
    && (forall i :: 0 <= i < |part| ==> LetterOrDigit(part[i]) || part[i] == '-' as int)
    && part[0] != '-' as int && part[|part| - 1] != '-' as int
  }

  /** At least two labels, all valid. */
  predicate ValidLabels(s: seq<Byte>) {
    && |Labels(s)| >= 2
    && forall i :: 0 <= i < |Labels(s)| ==> ValidLabel(Labels(s)[i])
  }

  predicate Hostname(s: seq<Byte>) {
    3 <= |s| <= 255 && ValidLabels(s)
  }

  function Join(labels: seq<seq<Byte>>): seq<Byte>
    requires |labels| > 0
  {
    if |labels| == 1 then labels[0]
    else Join(labels[..|labels| - 1]) + [DOT] + labels[|labels| - 1]
  }

  /** `Labels` is splitting on dots: dot-free pieces that join back to the input. */
  lemma LabelsSplit(s: seq<Byte>)
    ensures Join(Labels(s)) == s
    ensures forall i :: 0 <= i < |Labels(s)| ==> DOT !in Labels(s)[i]
  {
    LabelsJoin(s);
    LabelsDotFree(s);
  }

  lemma {:induction false} LabelsJoin(s: seq<Byte>)
    ensures Join(Labels(s)) == s
  {
    if s == [] {
    } else {
      LabelsJoin(s[..|s| - 1]);
      var c, before := s[|s| - 1], Labels(s[..|s| - 1]);
      assert s == s[..|s| - 1] + [c];
      if c == DOT {
        JoinDot(before);
      } else {
        JoinGrow(before, c);
      }
    }
  }

  lemma {:induction false} LabelsDotFree(s: seq<Byte>)
    ensures forall i :: 0 <= i < |Labels(s)| ==> DOT !in Labels(s)[i]
  {
    if s == [] {
    } else {
      LabelsDotFree(s[..|s| - 1]);
    }
  }

  lemma JoinDot(labels: seq<seq<Byte>>)
    requires |labels| > 0
    ensures Join(labels + [[]]) == Join(labels) + [DOT]
  {
    assert (labels + [[]])[..|labels|] == labels;
  }

  lemma JoinGrow(labels: seq<seq<Byte>>, c: Byte)
    requires |labels| > 0
    ensures
      var n := |labels| - 1;
      Join(labels[..n] + [labels[n] + [c]]) == Join(labels) + [c]
  {
    var n := |labels| - 1;
    var grown := labels[..n] + [labels[n] + [c]];
    assert grown[..n] == labels[..n];
    if n > 0 {
      assert Join(labels[..n]) + [DOT] + (labels[n] + [c]) == Join(labels[..n]) + [DOT] + labels[n] + [c];
    }
  }

  // --- What the scanner knows part way ---------------------------------------

  /** A label that may still grow into a valid one. */
  predicate OpenLabel(part: seq<Byte>) {
    && |part| <= 63
    && (forall i :: 0 <= i < |part| ==> LetterOrDigit(part[i]) || part[i] == '-' as int)
    && (part != [] ==> part[0] != '-' as int)
  }

  /** Every finished label is valid and the last may still become so. */
  predicate Viable(s: seq<Byte>) {
    var n := |Labels(s)| - 1;
    && (forall i :: 0 <= i < n ==> ValidLabel(Labels(s)[i]))
    && OpenLabel(Labels(s)[n])
  }

  function Last(s: seq<Byte>): seq<Byte> {
    Labels(s)[|Labels(s)| - 1]
  }

  /** Taking one more byte. */
  lemma LabelsSnoc(s: seq<Byte>, c: Byte)
    ensures
      var n := |Labels(s)| - 1;
      Labels(s + [c]) == if c == DOT then Labels(s) + [[]] else Labels(s)[..n] + [Last(s) + [c]]
  {
    assert (s + [c])[..|s|] == s;
  }

  lemma ViableSnoc(s: seq<Byte>, c: Byte)
    ensures Viable(s + [c]) ==> Viable(s)
    ensures Viable(s) ==>
      (Viable(s + [c]) <==>
         if c == DOT then Last(s) != [] && Last(s)[|Last(s)| - 1] != DASH
         else (IsAlnum(c) || (c == DASH && Last(s) != [])) && |Last(s)| < MAX_LABEL_LEN)
  {
    LabelsSnoc(s, c);
    var n := |Labels(s)| - 1;
    if c == DOT {
      assert Labels(s + [c])[n] == Last(s);
      assert forall i :: 0 <= i <= n ==> Labels(s + [c])[i] == Labels(s)[i];
      assert ValidLabel(Last(s)) ==> OpenLabel(Last(s));
    } else {
      assert forall i :: 0 <= i < n ==> Labels(s + [c])[i] == Labels(s)[i];
      GrowLabel(Last(s), c);
    }
  }

  lemma GrowLabel(part: seq<Byte>, c: Byte)
    ensures OpenLabel(part + [c]) <==>
      OpenLabel(part) && |part| < MAX_LABEL_LEN && (IsAlnum(c) || (c == DASH && part != []))
  {
    var grown := part + [c];
    if OpenLabel(grown) {
      assert grown[|part|] == c;
      forall i | 0 <= i < |part| ensures IsAlnum(part[i]) || part[i] == DASH {
        assert grown[i] == part[i];
      }
    }
  }

  /** A valid hostname is viable at every prefix. */
  lemma {:induction false} ViablePrefix(s: seq<Byte>, n: nat)
    requires Viable(s) && n <= |s|
    ensures Viable(s[..n])
    decreases |s|
  {
    if n < |s| {
      assert s == s[..|s| - 1] + [s[|s| - 1]];
      ViableSnoc(s[..|s| - 1], s[|s| - 1]);
      ViablePrefix(s[..|s| - 1], n);
      assert s[..|s| - 1][..n] == s[..n];
    } else {
      assert s[..n] == s;
    }
  }

  lemma ValidIsViable(s: seq<Byte>, n: nat)
    requires n <= |s|
    ensures ValidLabels(s) ==> Viable(s[..n])
  {
    if ValidLabels(s) {
      ViablePrefix(s, n);
    }
  }

  // --- The scanner ----------------------------------------------------------

  /** What the three scanner variables say about the prefix read so far. */
  ghost predicate Scanned(s: seq<Byte>, hasDot: bool, labelLen: nat, prev: Option<Byte>) {
    && Viable(s)
    && (hasDot <==> |Labels(s)| >= 2)
    && labelLen == |Last(s)|
    && (labelLen > 0 ==> prev == Some(Last(s)[labelLen - 1]))
  }

  /** Whether the scanner takes byte c next. */
  predicate Takes(c: Byte, labelLen: nat, prev: Option<Byte>) {
    if c == DOT then labelLen > 0 && prev != Some(DASH)
    else (IsAlnum(c) || (c == DASH && labelLen > 0)) && labelLen < MAX_LABEL_LEN
  }

  lemma ScanStep(s: seq<Byte>, c: Byte, hasDot: bool, labelLen: nat, prev: Option<Byte>)
    requires Scanned(s, hasDot, labelLen, prev)
    ensures Takes(c, labelLen, prev) <==> Viable(s + [c])
    ensures Takes(c, labelLen, prev) ==>
      Scanned(s + [c], hasDot || c == DOT, if c == DOT then 0 else labelLen + 1, Some(c))
  {
    LabelsSnoc(s, c);
    ViableSnoc(s, c);
  }

  /** At the end the labels are valid iff there is a dot and the last label is closed. */
  lemma ScanEnd(s: seq<Byte>, hasDot: bool, labelLen: nat, prev: Option<Byte>)
    requires Scanned(s, hasDot, labelLen, prev)
    ensures ValidLabels(s) <==> hasDot && labelLen > 0 && prev != Some(DASH)
  {
    var n := |Labels(s)| - 1;
    if hasDot && labelLen > 0 && prev != Some(DASH) {
      assert ValidLabel(Labels(s)[n]);
    } else if labelLen == 0 || prev == Some(DASH) {
      assert !ValidLabel(Labels(s)[n]);
    }
  }

  /** `len` is the length as the caller reports it. */
  method IsValidDomainSyntax(len: nat, bytes: seq<Byte>) returns (ok: bool)
    ensures ok <==> 3 <= len <= 255 && ValidLabels(bytes)
  {
    if !(3 <= len <= MAX_DOMAIN_LEN) {
      return false;
    }
    var hasDot := false;
    var labelLen := 0;
    var prev: Option<Byte> := None;

    for i := 0 to |bytes|
      invariant Scanned(bytes[..i], hasDot, labelLen, prev)
    {
      var c := bytes[i];
      assert bytes[..i + 1] == bytes[..i] + [c];
      ScanStep(bytes[..i], c, hasDot, labelLen, prev);
      ValidIsViable(bytes, i + 1);
      var isAlnum := IsAlnum(c);
      var isDash := c == DASH;
      var isDot := c == DOT;
      if !isAlnum && !isDash && !isDot {
        return false;
      }
      if isDot {
        hasDot := true;
        if labelLen == 0 || prev == Some(DASH) {
          return false;
        }
        labelLen := 0;
      } else {
        if isDash && labelLen == 0 {
          return false;
        }
        labelLen := labelLen + 1;
        if labelLen > MAX_LABEL_LEN {
          return false;
        }
      }
      prev := Some(c);
    }
    assert bytes[..|bytes|] == bytes;
    ScanEnd(bytes, hasDot, labelLen, prev);
    if labelLen == 0 || prev == Some(DASH) {
      return false;
    }
    return hasDot;
  }

  /** On-chain bytes know their length as a 32-bit number. */
  method ValidateAnchorDomain(domain: seq<Byte>) returns (ok: bool)
    requires |domain| < TWO_TO_32
    ensures ok <==> Hostname(domain)
  {
    ok := IsValidDomainSyntax(|domain|, domain);
  }

  /** A string's length is cut down to 32 bits first, so only the residue is checked. */
  method ValidateDomainSyntax(domain: seq<Byte>) returns (ok: bool)
    ensures ok <==> 3 <= |domain| % 0x1_0000_0000 <= 255 && ValidLabels(domain)
    ensures |domain| < TWO_TO_32 ==> (ok <==> Hostname(domain))
  {
    ok := IsValidDomainSyntax(|domain| % TWO_TO_32, domain);
  }

  // --- Where the cut shows ---------------------------------------------------

  /** a.a.a... of the given length. */
  function Alternating(n: nat): (s: seq<Byte>)
    ensures |s| == n
  {
    if n == 0 then [] else Alternating(n - 1) + [if n % 2 == 1 then 97 else DOT]
  }

  /** One more label "a". */
  lemma OneMoreLabel(s: seq<Byte>)
    ensures Labels(s + [DOT] + [97]) == Labels(s) + [[97]]
  {
    LabelsSnoc(s, DOT);
    LabelsSnoc(s + [DOT], 97);
    var dotted, n := Labels(s + [DOT]), |Labels(s)|;
    assert dotted == Labels(s) + [[]] && dotted[..n] == Labels(s) && dotted[n] == [];
    assert [] + [97] == [97];
  }

  predicate AllA(labels: seq<seq<Byte>>) {
    forall i :: 0 <= i < |labels| ==> labels[i] == [97]
  }

  lemma SingleLabel()
    ensures Labels(Alternating(1)) == [[97]]
  {
    assert Alternating(1) == Alternating(0) + [97] == [] + [97];
    LabelsSnoc([], 97);
    assert Labels([]) == [[]] && [] + [97] == [97];
  }

  lemma AlternatingStep(n: nat)
    requires n % 2 == 1
    ensures Alternating(n + 2) == Alternating(n) + [DOT] + [97]
  {
    assert Alternating(n + 1) == Alternating(n) + [DOT];
    assert Alternating(n + 2) == Alternating(n + 1) + [97];
  }

  lemma {:induction false} AlternatingLabels(m: nat)
    ensures |Labels(Alternating(2 * m + 1))| == m + 1 && AllA(Labels(Alternating(2 * m + 1)))
    decreases m
  {
    if m == 0 {
      SingleLabel();
    } else {
      AlternatingLabels(m - 1);
      var shorter := Alternating(2 * (m - 1) + 1);
      AlternatingStep(2 * (m - 1) + 1);
      OneMoreLabel(shorter);
      assert Labels(Alternating(2 * m + 1)) == Labels(shorter) + [[97]];
    }
  }

  /** What is accepted and the grammar disagree exactly on the strings of 2^32 bytes or more
      whose length has a residue in range and whose labels are valid; and there are some. */
  lemma CutExactly(domain: seq<Byte>)
    ensures (3 <= |domain| % TWO_TO_32 <= MAX_DOMAIN_LEN && ValidLabels(domain) <==> Hostname(domain))
       <==> |domain| < TWO_TO_32 || !(3 <= |domain| % TWO_TO_32 <= MAX_DOMAIN_LEN) || !ValidLabels(domain)
    ensures
      var long := Alternating(TWO_TO_32 + 3);
      3 <= |long| % TWO_TO_32 <= MAX_DOMAIN_LEN && ValidLabels(long) && !Hostname(long)
  {
    AlternatingLabels(0x8000_0001);
  }
}
