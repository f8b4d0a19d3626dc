/** The basic constraints policy (x509-validator/src/rfc5280/basic_constraints_policy.rs). */
module BasicConstraintsPolicy {
  import opened Wrappers
  import opened Certificates
  import opened PolicyBuilder

  // ----- what the certificates of a chain must be

  /** A version 1 certificate may issue; any other must be marked as a CA. */
  predicate MayIssue(c: Certificate) {
    c.isV1 || (c.basicConstraints.Present? && c.basicConstraints.value.ca)
  }

  predicate IsConstrained(c: Certificate) {
    !c.isV1 && c.basicConstraints.Present? && c.basicConstraints.value.ca
    && c.basicConstraints.value.pathLength.Some?
  }

  function PathLength(c: Certificate): U32
    requires IsConstrained(c)
  {
    c.basicConstraints.value.pathLength.value
  }

  /** The certificates at positions 1 up to i, exclusive, that are not self-issued. */
  ghost function SubCas(chain: Chain, i: nat): nat
    requires i <= |chain|
  {
    if i <= 1 then 0 else SubCas(chain, i - 1) + (if chain[i - 1].IsSelfIssued() then 0 else 1)
  }

  /** Every issuer may issue and has no more sub-CAs under it than its path length allows. */
  ghost predicate IssuersAreInOrder(chain: Chain) {
    forall i :: 1 <= i < |chain| ==>
      MayIssue(chain[i]) && (IsConstrained(chain[i]) ==> SubCas(chain, i) <= PathLength(chain[i]))
  }

  /** What the counter loop decides, the counter wrapping around at 2^32. */
  ghost predicate IssuersPass(chain: Chain, n: nat)
    requires n <= |chain|
  {
    forall i :: 1 <= i < n ==>
      MayIssue(chain[i]) && (IsConstrained(chain[i]) ==> SubCas(chain, i) % U32_LIMIT <= PathLength(chain[i]))
  }

  lemma CountStep(chain: Chain, i: nat)
    requires 1 <= i < |chain|
    ensures var counted := SubCas(chain, i) % U32_LIMIT;
      SubCas(chain, i + 1) % U32_LIMIT == if chain[i].IsSelfIssued() then counted else (counted + 1) % U32_LIMIT
  {
    WrappingIncrement(SubCas(chain, i));
  }

  lemma WrappingIncrement(n: nat)
    ensures (n + 1) % U32_LIMIT == (n % U32_LIMIT + 1) % U32_LIMIT
  {
  }

  /** What disqualifies an issuer with this many sub-CAs under it, if anything does. */
  method CheckIssuer(cert: Certificate, subCaCount: U32) returns (reason: Option<Reason>)
    ensures reason.None? <==> MayIssue(cert) && (IsConstrained(cert) ==> subCaCount <= PathLength(cert))
  {
    if cert.isV1 {
      return None;
    }
    match cert.basicConstraints {
      case Malformed => return Some("undecodable constraints");
      case Absent => return Some("not marked as a CA");
      case Present(bc) =>
        if !bc.ca {
          return Some("not marked as a CA");
        }
        if bc.pathLength.Some? && bc.pathLength.value < subCaCount {
          return Some("too many sub-CAs");
        }
        return None;
    }
  }

  /** What the policy accepts: its verdict. */
  ghost predicate IsAccepted(chain: Chain) {
    && chain != []
    && (|chain| == 1 ==> MayIssue(chain[0]))
    && IssuersPass(chain, |chain|)
  }

  method ChainMeetsPolicyRequirements(chain: Chain) returns (result: PolicyEvaluationResult)
    ensures result.Ok? <==> IsAccepted(chain)
  {
    if chain == [] {
      return Err("empty chain");
    }
    var leaf := chain[0];
    if |chain| == 1 && !leaf.isV1 {
      match leaf.basicConstraints {
        case Malformed => return Err("undecodable constraints");
        case Present(bc) =>
          if bc.ca {
            return Ok(());
          }
          return Err("not marked as a CA");
        case Absent => return Err("not marked as a CA");
      }
    }
    var subCaCount: U32 := 0;
    for i := 1 to |chain|
      invariant IssuersPass(chain, i)
      invariant subCaCount == SubCas(chain, i) % U32_LIMIT
    {
      var cert := chain[i];
      var reason := CheckIssuer(cert, subCaCount);
      if reason.Some? {
        return Err(reason.value);
      }
      CountStep(chain, i);
      if cert.issuer != cert.subject {
        subCaCount := (subCaCount + 1) % U32_LIMIT;
      }
    }
    return Ok(());
  }

  // ----- the root-to-leaf machine of section 6.1 of RFC 5280

  /**
   * The certificates at positions i down to 1 are processed in turn: step (l) of section 6.1.4 takes one
   * from max_path_length for a certificate that is not self-issued, failing at zero, and step (m) then
   * lowers max_path_length to the certificate's own path length constraint.
   */
  ghost predicate PathLengthsHold(chain: Chain, i: nat, maxPathLength: nat)
    requires i < |chain|
  {
    if i == 0 then true
    else
      var c := chain[i];
      if !c.IsSelfIssued() && maxPathLength == 0 then false
      else
        var left := if c.IsSelfIssued() then maxPathLength else maxPathLength - 1;
        var next := if IsConstrained(c) && PathLength(c) < left then PathLength(c) else left;
        PathLengthsHold(chain, i - 1, next)
  }

  lemma {:induction false} SubCasGrow(chain: Chain, i: nat, j: nat)
    requires i <= j <= |chain|
    ensures SubCas(chain, i) <= SubCas(chain, j)
    ensures SubCas(chain, j) <= j
  {
    if i < j {
      SubCasGrow(chain, i, j - 1);
    } else if i > 1 {
      SubCasGrow(chain, i - 1, i - 1);
    }
  }

  /** From position i on, the machine succeeds when every limit still in force covers the sub-CAs below it. */
  lemma {:induction false} MachineCountsSubCas(chain: Chain, i: nat, maxPathLength: nat)
    requires i < |chain|
    ensures PathLengthsHold(chain, i, maxPathLength)
      <==> (SubCas(chain, i + 1) <= maxPathLength
        && forall k :: 1 <= k <= i && IsConstrained(chain[k]) ==> SubCas(chain, k) <= PathLength(chain[k]))
  {
    if i > 0 {
      var c := chain[i];
      if c.IsSelfIssued() || maxPathLength > 0 {
        var left := if c.IsSelfIssued() then maxPathLength else maxPathLength - 1;
        var next := if IsConstrained(c) && PathLength(c) < left then PathLength(c) else left;
        MachineCountsSubCas(chain, i - 1, next);
      }
    }
  }

  /** Some issuer with a limit is checked after the counter has wrapped around. */
  ghost predicate CounterWraps(chain: Chain) {
    exists i :: 1 <= i < |chain| && IsConstrained(chain[i]) && SubCas(chain, i) >= U32_LIMIT
  }

  /**
   * What the policy's documentation promises is what the loop accepts without wrapping around, so the loop keeps
   * the promise except when it accepts a chain on which the counter wraps.
   */
  lemma LoopIsInOrder(chain: Chain)
    ensures IssuersAreInOrder(chain) <==> IssuersPass(chain, |chain|) && !CounterWraps(chain)
    ensures (IssuersPass(chain, |chain|) <==> IssuersAreInOrder(chain))
      <==> !(IssuersPass(chain, |chain|) && CounterWraps(chain))
  {
    forall i | 1 <= i < |chain|
      ensures SubCas(chain, i) < U32_LIMIT ==> SubCas(chain, i) % U32_LIMIT == SubCas(chain, i)
    {
    }
  }

  /** The machine, started at the chain's length, accepts exactly what the loop accepts without wrapping. */
  lemma LoopIsMachine(chain: Chain)
    requires chain != []
    ensures (forall i :: 1 <= i < |chain| ==> MayIssue(chain[i])) && PathLengthsHold(chain, |chain| - 1, |chain|)
      <==> IssuersPass(chain, |chain|) && !CounterWraps(chain)
  {
    MachineCountsSubCas(chain, |chain| - 1, |chain|);
    SubCasGrow(chain, |chain|, |chain|);
    LoopIsInOrder(chain);
  }

  lemma ShortChainsDoNotWrap(chain: Chain)
    requires |chain| <= U32_LIMIT
    ensures !CounterWraps(chain)
  {
    forall i | 1 <= i < |chain| ensures SubCas(chain, i) < U32_LIMIT {
      SubCasGrow(chain, i, i);
    }
  }

  // ----- the verdict over the fields

  /** The positions between the leaf and position i of certificates that name different issuers and subjects. */
  ghost function Between(chain: Chain, i: nat): set<nat>
    requires i <= |chain|
  {
    set k: nat | 1 <= k < i && chain[k].issuer != chain[k].subject
  }

  lemma {:induction false} SubCasAreBetween(chain: Chain, i: nat)
    requires i <= |chain|
    ensures SubCas(chain, i) == |Between(chain, i)|
  {
    if i <= 1 {
      assert Between(chain, i) == {};
    } else {
      SubCasAreBetween(chain, i - 1);
      if chain[i - 1].issuer != chain[i - 1].subject {
        assert Between(chain, i) == Between(chain, i - 1) + {i - 1};
      } else {
        assert Between(chain, i) == Between(chain, i - 1);
      }
    }
  }

  /** A certificate of version 1, or a CA; of the latter a limit, if it sets one, must cover the count. */
  ghost predicate MayIssueOver(c: Certificate, count: nat) {
    c.isV1 || match c.basicConstraints
      case Absent => false
      case Malformed => false
      case Present(BasicConstraints(ca, limit)) => ca && (limit.Some? ==> count <= limit.value)
  }

  /** A lone certificate may issue itself, and each issuer may issue over those between the leaf and it, modulo 2^32. */
  lemma AcceptedExactly(chain: Chain)
    ensures IsAccepted(chain) <==>
      && chain != []
      && (|chain| == 1 ==> MayIssueOver(chain[0], 0))
      && forall i :: 1 <= i < |chain| ==> MayIssueOver(chain[i], |Between(chain, i)| % 0x1_0000_0000)
  {
    forall i | 1 <= i < |chain|
      ensures MayIssueOver(chain[i], |Between(chain, i)| % 0x1_0000_0000) <==>
        MayIssue(chain[i]) && (IsConstrained(chain[i]) ==> SubCas(chain, i) % U32_LIMIT <= PathLength(chain[i]))
    {
      SubCasAreBetween(chain, i);
    }
  }

  // ----- the counter does wrap

  ghost function Ca(pathLength: Option<U32>): Certificate {
    var constraints := Present(BasicConstraints(true, pathLength));
    Certificate(false, [1], [2], [], [], Absent, None, None, constraints, Absent, [], [], [], [])
  }

  /**
   * A root allowing no sub-CAs above 2^32 of them. Nothing links its certificates: it can be handed to the policy
   * as a chain, whose constructor is public, but the search would not build it.
   */
  ghost function WrappingChain(): Chain {
    seq(U32_LIMIT + 1, _ => Ca(None)) + [Ca(Some(0))]
  }

  lemma {:induction false} CaChainCounts(chain: Chain, i: nat)
    requires 1 <= i <= |chain| && forall k :: 1 <= k < i ==> !chain[k].IsSelfIssued()
    ensures SubCas(chain, i) == i - 1
  {
    if i > 1 {
      CaChainCounts(chain, i - 1);
    }
  }

  /** The loop accepts a chain its limits forbid. */
  lemma WrappedCounterIsTooLenient()
    ensures IssuersPass(WrappingChain(), |WrappingChain()|) && !IssuersAreInOrder(WrappingChain())
  {
    var chain, n := WrappingChain(), U32_LIMIT + 1;
    CaChainCounts(chain, n);
    assert chain[n] == Ca(Some(0));
    assert forall i :: 1 <= i < n ==> chain[i] == Ca(None);
    assert SubCas(chain, n) == U32_LIMIT && SubCas(chain, n) % U32_LIMIT == 0;
  }
}
