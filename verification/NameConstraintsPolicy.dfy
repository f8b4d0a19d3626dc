/** The name constraints policy (x509-validator/src/rfc5280/name_constraints_policy.rs). */
module NameConstraintsPolicy {
  import opened Wrappers
  import opened Bytes
  import opened Certificates
  import opened PolicyBuilder
  import opened DnsNames
  import opened IpConstraints
  import opened UriConstraints

  // ----- one name against one subtree

  /** A subtree's base of a form the policy cannot compare against. */
  predicate ConstraintKindIsUnsupported(base: GeneralName) {
    !(base.DNSName? || base.IPAddress? || base.URI? || base.DirectoryName?)
  }

  /** The subtrees that can be evaluated; a directory name subtree is refused along with the chain. */
  predicate CanBeEvaluated(base: GeneralName) {
    base.DNSName? || base.IPAddress? || base.URI?
  }

  /** The name and the subtree are of one of the forms that are compared. */
  predicate AreComparable(name: GeneralName, base: GeneralName) {
    || (name.DNSName? && base.DNSName?)
    || (name.IPAddress? && base.IPAddress?)
    || (name.URI? && base.URI?)
  }

  ghost predicate IsInSubtree(name: GeneralName, base: GeneralName, isIpAddress: IpAddressTest) {
    if name.DNSName? && base.DNSName? then DnsNameMatches(name.value, base.value)
    else if name.IPAddress? && base.IPAddress? then IpAddressMatchesConstraint(name.value, base.value)
    else if name.URI? && base.URI? then UriNameMatches(name.value, base.value, isIpAddress)
    else false
  }

  method CheckIsInSubtree(name: GeneralName, base: GeneralName, isIpAddress: IpAddressTest) returns (inside: bool)
    ensures inside == IsInSubtree(name, base, isIpAddress)
  {
    if name.DNSName? && base.DNSName? {
      inside := DnsNameMatchesConstraint(name.value, base.value);
    } else if name.IPAddress? && base.IPAddress? {
      inside := CheckIpAddressMatchesConstraint(name.value, base.value);
    } else if name.URI? && base.URI? {
      inside := UriNameMatchesConstraint(name.value, base.value, isIpAddress);
    } else {
      inside := false;
    }
  }

  /** Meeting this subtree refuses the chain, whether or not the name is in it. */
  predicate IsRefused(name: GeneralName, base: GeneralName) {
    (base.DirectoryName? && name.DirectoryName?) || ConstraintKindIsUnsupported(base)
  }

  // ----- the scans

  /** What scanning permitted subtrees decides; a match ends the scan before the subtrees after it are looked at. */
  ghost predicate PermittedScan(subtrees: seq<GeneralName>, name: GeneralName, evaluatedOne: bool,
                                isIpAddress: IpAddressTest) {
    if subtrees == [] then !evaluatedOne
    else
      var base := subtrees[0];
      if IsRefused(name, base) then false
      else if !AreComparable(name, base) then PermittedScan(subtrees[1..], name, evaluatedOne, isIpAddress)
      else IsInSubtree(name, base, isIpAddress) || PermittedScan(subtrees[1..], name, true, isIpAddress)
  }

  method ValidatePermittedSubtrees(permitted: seq<GeneralName>, name: GeneralName, isIpAddress: IpAddressTest)
    returns (result: PolicyEvaluationResult)
    ensures result.Ok? <==> PermittedScan(permitted, name, false, isIpAddress)
  {
    var evaluatedAtLeastOneConstraint := false;
    for i := 0 to |permitted|
      invariant PermittedScan(permitted, name, false, isIpAddress)
        == PermittedScan(permitted[i..], name, evaluatedAtLeastOneConstraint, isIpAddress)
    {
      var base := permitted[i];
      assert permitted[i..][1..] == permitted[i + 1..];
      if base.DirectoryName? && name.DirectoryName? {
        return Err("directoryName constraint");
      }
      if ConstraintKindIsUnsupported(base) {
        return Err("unsupported constraint kind");
      }
      if AreComparable(name, base) {
        evaluatedAtLeastOneConstraint := true;
        var matched := CheckIsInSubtree(name, base, isIpAddress);
        if matched {
          return Ok(());
        }
      }
    }
    if !evaluatedAtLeastOneConstraint {
      return Ok(());
    }
    return Err("no permitted match");
  }

  ghost predicate IsClearOf(base: GeneralName, name: GeneralName, isIpAddress: IpAddressTest) {
    !IsRefused(name, base) && !IsInSubtree(name, base, isIpAddress)
  }

  /** What an excluded subtree has against a name, if anything. */
  method CheckExcludedSubtree(base: GeneralName, name: GeneralName, isIpAddress: IpAddressTest)
    returns (reason: Option<Reason>)
    ensures reason.None? <==> IsClearOf(base, name, isIpAddress)
  {
    if base.DirectoryName? && name.DirectoryName? {
      return Some("directoryName constraint");
    }
    if ConstraintKindIsUnsupported(base) {
      return Some("unsupported constraint kind");
    }
    var matched := CheckIsInSubtree(name, base, isIpAddress);
    return if matched then Some("excluded") else None;
  }

  ghost predicate IsNotExcluded(subtrees: seq<GeneralName>, name: GeneralName, isIpAddress: IpAddressTest) {
    forall base :: base in subtrees ==> IsClearOf(base, name, isIpAddress)
  }

  method ValidateExcludedSubtrees(excluded: seq<GeneralName>, name: GeneralName, isIpAddress: IpAddressTest)
    returns (result: PolicyEvaluationResult)
    ensures result.Ok? <==> IsNotExcluded(excluded, name, isIpAddress)
  {
    for i := 0 to |excluded|
      invariant forall k :: 0 <= k < i ==> IsClearOf(excluded[k], name, isIpAddress)
    {
      assert excluded[i] in excluded;
      var reason := CheckExcludedSubtree(excluded[i], name, isIpAddress);
      if reason.Some? {
        return Err(reason.value);
      }
    }
    return Ok(());
  }

  ghost predicate NamesDecode(cert: Certificate) {
    !cert.subjectAltName.Malformed? && forall name :: name in cert.SubjectAlternativeNames() ==> !name.Invalid?
  }

  /** The subject and then every subject alternative name. */
  method Names(cert: Certificate) returns (names: Result<seq<GeneralName>, Reason>)
    ensures names.Ok? <==> NamesDecode(cert)
    ensures names.Ok? <==>
      !cert.subjectAltName.Malformed?
      && (cert.subjectAltName.Present? ==> forall name :: name in cert.subjectAltName.value ==> !name.Invalid?)
    ensures names.Ok? ==>
      names.value == [DirectoryName(cert.subject)]
        + (if cert.subjectAltName.Present? then cert.subjectAltName.value else [])
  {
    if cert.subjectAltName.Malformed? {
      return Err("undecodable names");
    }
    var all := [DirectoryName(cert.subject)];
    var sans := cert.SubjectAlternativeNames();
    for i := 0 to |sans|
      invariant all == [DirectoryName(cert.subject)] + sans[..i]
      invariant forall name :: name in sans[..i] ==> !name.Invalid?
    {
      assert sans[..i + 1] == sans[..i] + [sans[i]];
      if sans[i].Invalid? {
        assert sans[i] in sans;
        return Err("undecodable name");
      }
      all := all + [sans[i]];
    }
    assert sans[..|sans|] == sans;
    return Ok(all);
  }

  function Bases(subtrees: Option<seq<GeneralName>>): seq<GeneralName> {
    if subtrees.Some? then subtrees.value else []
  }

  /** Both scans pass for a name. */
  ghost predicate NamePasses(constraints: NameConstraints, name: GeneralName, isIpAddress: IpAddressTest) {
    && PermittedScan(Bases(constraints.permitted), name, false, isIpAddress)
    && IsNotExcluded(Bases(constraints.excluded), name, isIpAddress)
  }

  method CheckName(constraints: NameConstraints, name: GeneralName, isIpAddress: IpAddressTest)
    returns (result: PolicyEvaluationResult)
    ensures result.Ok? <==> NamePasses(constraints, name, isIpAddress)
  {
    if constraints.permitted.Some? {
      var r := ValidatePermittedSubtrees(constraints.permitted.value, name, isIpAddress);
      if r.Err? {
        return r;
      }
    }
    if constraints.excluded.Some? {
      var r := ValidateExcludedSubtrees(constraints.excluded.value, name, isIpAddress);
      if r.Err? {
        return r;
      }
    }
    return Ok(());
  }

  /** Every name of the certificate passes both scans. */
  ghost predicate CertificatePasses(constraints: NameConstraints, cert: Certificate, isIpAddress: IpAddressTest) {
    && NamesDecode(cert)
    && NamePasses(constraints, DirectoryName(cert.subject), isIpAddress)
    && forall name :: name in cert.SubjectAlternativeNames() ==> NamePasses(constraints, name, isIpAddress)
  }

  method CheckCertificate(constraints: NameConstraints, cert: Certificate, isIpAddress: IpAddressTest)
    returns (result: PolicyEvaluationResult)
    ensures result.Ok? <==> CertificatePasses(constraints, cert, isIpAddress)
  {
    var decoded := Names(cert);
    if decoded.Err? {
      return Err(decoded.error);
    }
    var names := decoded.value;
    assert names[0] == DirectoryName(cert.subject);
    assert forall name :: name in cert.SubjectAlternativeNames() ==> name in names;
    assert forall name :: name in names ==> name == names[0] || name in cert.SubjectAlternativeNames();
    for i := 0 to |names|
      invariant forall name :: name in names[..i] ==> NamePasses(constraints, name, isIpAddress)
    {
      assert names[..i + 1] == names[..i] + [names[i]];
      result := CheckName(constraints, names[i], isIpAddress);
      if result.Err? {
        assert names[i] in names;
        return result;
      }
    }
    assert names[..|names|] == names;
    return Ok(());
  }

  /** The issuer's constraints, if it has any, are passed by the subjects at these positions. */
  ghost predicate IssuerConstrains(chain: Chain, issuer: Certificate, subjects: seq<nat>, isIpAddress: IpAddressTest)
    requires forall m :: 0 <= m < |subjects| ==> subjects[m] < |chain|
  {
    match issuer.nameConstraints
    case Malformed => false
    case Absent => true
    case Present(constraints) =>
      forall m :: 0 <= m < |subjects| ==> CertificatePasses(constraints, chain[subjects[m]], isIpAddress)
  }

  method ValidateNameConstraints(chain: Chain, issuer: Certificate, subjects: seq<nat>, isIpAddress: IpAddressTest)
    returns (result: PolicyEvaluationResult)
    requires forall m :: 0 <= m < |subjects| ==> subjects[m] < |chain|
    ensures result.Ok? <==> IssuerConstrains(chain, issuer, subjects, isIpAddress)
  {
    match issuer.nameConstraints {
      case Malformed => return Err("undecodable constraints");
      case Absent => return Ok(());
      case Present(constraints) =>
        for k := 0 to |subjects|
          invariant forall m :: 0 <= m < k ==> CertificatePasses(constraints, chain[subjects[m]], isIpAddress)
        {
          result := CheckCertificate(constraints, chain[subjects[k]], isIpAddress);
          if result.Err? {
            return result;
          }
        }
        return Ok(());
    }
  }

  // ----- section 4.2.1.10 of RFC 5280

  ghost predicate AllCanBeEvaluated(constraints: NameConstraints) {
    EachCanBeEvaluated(Bases(constraints.permitted)) && EachCanBeEvaluated(Bases(constraints.excluded))
  }

  ghost predicate EachCanBeEvaluated(subtrees: seq<GeneralName>) {
    forall base :: base in subtrees ==> CanBeEvaluated(base)
  }

  ghost predicate SomeIsComparable(subtrees: seq<GeneralName>, name: GeneralName) {
    exists base :: base in subtrees && AreComparable(name, base)
  }

  ghost predicate SomeContains(subtrees: seq<GeneralName>, name: GeneralName, isIpAddress: IpAddressTest) {
    exists base :: base in subtrees && IsInSubtree(name, base, isIpAddress)
  }

  /** A name with permitted subtrees of its own kind is in one of them. */
  ghost predicate IsPermitted(constraints: NameConstraints, name: GeneralName, isIpAddress: IpAddressTest) {
    var permitted := Bases(constraints.permitted);
    SomeIsComparable(permitted, name) ==> SomeContains(permitted, name, isIpAddress)
  }

  /** A name is in no excluded subtree of its own kind. */
  ghost predicate IsOutside(constraints: NameConstraints, name: GeneralName, isIpAddress: IpAddressTest) {
    !SomeContains(Bases(constraints.excluded), name, isIpAddress)
  }

  /** Every name decodes, every subtree can be evaluated, and every alternative name is permitted and not excluded. */
  ghost predicate Allows(constraints: NameConstraints, cert: Certificate, isIpAddress: IpAddressTest) {
    && NamesDecode(cert)
    && AllCanBeEvaluated(constraints)
    && forall name :: name in cert.SubjectAlternativeNames() ==>
      IsPermitted(constraints, name, isIpAddress) && IsOutside(constraints, name, isIpAddress)
  }

  ghost predicate IssuerAllows(issuer: Certificate, cert: Certificate, isIpAddress: IpAddressTest) {
    match issuer.nameConstraints
    case Malformed => false
    case Absent => true
    case Present(constraints) => Allows(constraints, cert, isIpAddress)
  }

  /** Every issuer allows every certificate below it; a lone certificate allows itself. */
  ghost predicate ChainIsAllowed(chain: Chain, isIpAddress: IpAddressTest)
    requires chain != []
  {
    if |chain| == 1 then IssuerAllows(chain[0], chain[0], isIpAddress)
    else forall i, j :: 0 <= i < j < |chain| ==> IssuerAllows(chain[j], chain[i], isIpAddress)
  }

  lemma InSubtreeIsComparable(name: GeneralName, base: GeneralName, isIpAddress: IpAddressTest)
    requires IsInSubtree(name, base, isIpAddress)
    ensures AreComparable(name, base)
  {
  }

  lemma HeadOrRest(subtrees: seq<GeneralName>, name: GeneralName, isIpAddress: IpAddressTest)
    requires subtrees != []
    ensures EachCanBeEvaluated(subtrees) <==> CanBeEvaluated(subtrees[0]) && EachCanBeEvaluated(subtrees[1..])
    ensures SomeIsComparable(subtrees, name)
      <==> (AreComparable(name, subtrees[0]) || SomeIsComparable(subtrees[1..], name))
    ensures SomeContains(subtrees, name, isIpAddress)
      <==> (IsInSubtree(name, subtrees[0], isIpAddress) || SomeContains(subtrees[1..], name, isIpAddress))
  {
    assert subtrees[0] in subtrees;
    assert forall b :: b in subtrees <==> b == subtrees[0] || b in subtrees[1..];
  }

  /** Against subtrees that can all be evaluated, the order of the scan does not matter. */
  lemma {:induction false} PermittedScanIsOrderless(subtrees: seq<GeneralName>, name: GeneralName, evaluatedOne: bool,
                                                    isIpAddress: IpAddressTest)
    requires EachCanBeEvaluated(subtrees)
    ensures PermittedScan(subtrees, name, evaluatedOne, isIpAddress)
      <==> (evaluatedOne || SomeIsComparable(subtrees, name) ==> SomeContains(subtrees, name, isIpAddress))
  {
    if subtrees != [] {
      HeadOrRest(subtrees, name, isIpAddress);
      var base := subtrees[0];
      PermittedScanIsOrderless(subtrees[1..], name, evaluatedOne || AreComparable(name, base), isIpAddress);
      if IsInSubtree(name, base, isIpAddress) {
        InSubtreeIsComparable(name, base, isIpAddress);
      }
    }
  }

  /** The subject, a directory name, passes the permitted scan exactly when every subtree can be evaluated. */
  lemma {:induction false} SubjectChecksKinds(subtrees: seq<GeneralName>, subject: Bytes, isIpAddress: IpAddressTest)
    ensures PermittedScan(subtrees, DirectoryName(subject), false, isIpAddress) <==> EachCanBeEvaluated(subtrees)
  {
    if subtrees != [] {
      SubjectChecksKinds(subtrees[1..], subject, isIpAddress);
      HeadOrRest(subtrees, DirectoryName(subject), isIpAddress);
    }
  }

  lemma NamePassesExactly(constraints: NameConstraints, name: GeneralName, isIpAddress: IpAddressTest)
    requires AllCanBeEvaluated(constraints)
    ensures NamePasses(constraints, name, isIpAddress)
      <==> IsPermitted(constraints, name, isIpAddress) && IsOutside(constraints, name, isIpAddress)
  {
    PermittedScanIsOrderless(Bases(constraints.permitted), name, false, isIpAddress);
    forall base | base in Bases(constraints.excluded) ensures !IsRefused(name, base) {
      assert CanBeEvaluated(base);
    }
  }

  lemma SubjectPassesExactly(constraints: NameConstraints, subject: Bytes, isIpAddress: IpAddressTest)
    ensures NamePasses(constraints, DirectoryName(subject), isIpAddress) <==> AllCanBeEvaluated(constraints)
  {
    SubjectChecksKinds(Bases(constraints.permitted), subject, isIpAddress);
    forall base | base in Bases(constraints.excluded)
      ensures CanBeEvaluated(base) <==>
        !IsRefused(DirectoryName(subject), base) && !IsInSubtree(DirectoryName(subject), base, isIpAddress)
    {
    }
  }

  /** The scans with their early exits accept exactly what the constraints allow: the subject is always scanned too. */
  lemma CertificatePassesExactly(constraints: NameConstraints, cert: Certificate, isIpAddress: IpAddressTest)
    ensures CertificatePasses(constraints, cert, isIpAddress) <==> Allows(constraints, cert, isIpAddress)
  {
    SubjectPassesExactly(constraints, cert.subject, isIpAddress);
    if AllCanBeEvaluated(constraints) {
      forall name | name in cert.SubjectAlternativeNames()
        ensures NamePasses(constraints, name, isIpAddress)
          <==> IsPermitted(constraints, name, isIpAddress) && IsOutside(constraints, name, isIpAddress)
      {
        NamePassesExactly(constraints, name, isIpAddress);
      }
    }
  }

  lemma IssuerConstrainsExactly(chain: Chain, issuer: Certificate, subjects: seq<nat>, isIpAddress: IpAddressTest)
    requires subjects != [] && forall m :: 0 <= m < |subjects| ==> subjects[m] < |chain|
    ensures IssuerConstrains(chain, issuer, subjects, isIpAddress)
      <==> forall m :: 0 <= m < |subjects| ==> IssuerAllows(issuer, chain[subjects[m]], isIpAddress)
  {
    if issuer.nameConstraints.Present? {
      forall m | 0 <= m < |subjects|
        ensures CertificatePasses(issuer.nameConstraints.value, chain[subjects[m]], isIpAddress)
          <==> IssuerAllows(issuer, chain[subjects[m]], isIpAddress)
      {
        CertificatePassesExactly(issuer.nameConstraints.value, chain[subjects[m]], isIpAddress);
      }
    } else {
      assert IssuerAllows(issuer, chain[subjects[0]], isIpAddress) <==> issuer.nameConstraints.Absent?;
    }
  }

  /** The positions below an issuer. */
  function Below(issuerIndex: nat): (positions: seq<nat>)
    ensures |positions| == issuerIndex
    ensures forall m :: 0 <= m < issuerIndex ==> positions[m] == m
  {
    seq(issuerIndex, m requires 0 <= m < issuerIndex => m)
  }

  lemma ConstrainsAllBelow(chain: Chain, issuerIndex: nat, isIpAddress: IpAddressTest)
    requires 0 < issuerIndex < |chain|
    ensures IssuerConstrains(chain, chain[issuerIndex], Below(issuerIndex), isIpAddress)
      <==> forall i :: 0 <= i < issuerIndex ==> IssuerAllows(chain[issuerIndex], chain[i], isIpAddress)
  {
    var issuer, subjects := chain[issuerIndex], Below(issuerIndex);
    IssuerConstrainsExactly(chain, issuer, subjects, isIpAddress);
    if IssuerConstrains(chain, issuer, subjects, isIpAddress) {
      forall i | 0 <= i < issuerIndex ensures IssuerAllows(issuer, chain[i], isIpAddress) {
        assert IssuerAllows(issuer, chain[subjects[i]], isIpAddress);
      }
    }
  }

  /** Accepts exactly the chains whose name constraints are met, whatever the order of subtrees and names. */
  method ChainMeetsPolicyRequirements(chain: Chain, isIpAddress: IpAddressTest) returns (result: PolicyEvaluationResult)
    requires chain != []
    ensures result.Ok? <==> ChainIsAllowed(chain, isIpAddress)
  {
    if |chain| == 1 {
      IssuerConstrainsExactly(chain, chain[0], [0], isIpAddress);
      assert [0][0] == 0;
      result := ValidateNameConstraints(chain, chain[0], [0], isIpAddress);
      return;
    }
    var issuerIndex := |chain|;
    while issuerIndex > 1
      invariant 1 <= issuerIndex <= |chain|
      invariant forall i, j :: 0 <= i < j < |chain| && issuerIndex <= j ==>
        IssuerAllows(chain[j], chain[i], isIpAddress)
    {
      issuerIndex := issuerIndex - 1;
      var subjects := Below(issuerIndex);
      ConstrainsAllBelow(chain, issuerIndex, isIpAddress);
      result := ValidateNameConstraints(chain, chain[issuerIndex], subjects, isIpAddress);
      if result.Err? {
        return result;
      }
    }
    return Ok(());
  }

  /** Two lists of subtrees or names that hold the same ones, in any order and number. */
  ghost predicate SameMembers(a: seq<GeneralName>, b: seq<GeneralName>) {
    forall x :: x in a <==> x in b
  }

  lemma OrderDoesNotMatter(constraints: NameConstraints, cert: Certificate,
                           constraints': NameConstraints, cert': Certificate, isIpAddress: IpAddressTest)
    requires SameMembers(Bases(constraints.permitted), Bases(constraints'.permitted))
    requires SameMembers(Bases(constraints.excluded), Bases(constraints'.excluded))
    requires SameMembers(cert.SubjectAlternativeNames(), cert'.SubjectAlternativeNames())
    requires cert.subjectAltName.Malformed? <==> cert'.subjectAltName.Malformed?
    ensures CertificatePasses(constraints, cert, isIpAddress) <==> CertificatePasses(constraints', cert', isIpAddress)
  {
    CertificatePassesExactly(constraints, cert, isIpAddress);
    CertificatePassesExactly(constraints', cert', isIpAddress);
  }
}
