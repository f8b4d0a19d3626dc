/** What name constraints demand of a chain, over the fields of its certificates (section 4.2.1.10 of RFC 5280). */
module NameConstraintLaws {
  import opened Wrappers
  import opened Bytes
  import opened Certificates
  import opened DnsNames
  import opened DnsNameText
  import opened IpConstraints
  import opened UriConstraints
  import opened NameConstraintsPolicy

  /** The name is of the subtree's form and within it. */
  ghost predicate Contains(base: GeneralName, name: GeneralName, isIpAddress: IpAddressTest) {
    match base
    case DNSName(constraint) => name.DNSName? && DnsNameMatches(name.value, constraint)
    case IPAddress(block) =>
      name.IPAddress? && (|name.value| == 4 || |name.value| == 16) && IsInCidrBlock(name.value, block)
    case URI(constraint) =>
      name.URI? && exists host ::
        ExtractHost(name.value) == Some(host) && !isIpAddress(host) && DnsNameMatches(host, constraint)
    case _ => false
  }

  ghost predicate IsSupported(base: GeneralName) {
    base.DNSName? || base.IPAddress? || base.URI?
  }

  ghost predicate HasSameForm(base: GeneralName, name: GeneralName) {
    (base.DNSName? && name.DNSName?) || (base.IPAddress? && name.IPAddress?) || (base.URI? && name.URI?)
  }

  /** A name against the two lists of subtrees: one of its form must contain it, and no excluded one. */
  ghost predicate IsWithin(name: GeneralName, permitted: seq<GeneralName>, excluded: seq<GeneralName>,
                           isIpAddress: IpAddressTest) {
    && ((exists base :: base in permitted && HasSameForm(base, name)) ==>
      exists base :: base in permitted && Contains(base, name, isIpAddress))
    && forall base :: base in excluded ==> !Contains(base, name, isIpAddress)
  }

  /** Readable constraints that can all be evaluated, and every alternative name readable and within them. */
  ghost predicate MayHaveIssued(issuer: Certificate, cert: Certificate, isIpAddress: IpAddressTest) {
    match issuer.nameConstraints
    case Absent => true
    case Malformed => false
    case Present(NameConstraints(permitted, excluded)) =>
      var inside := if permitted.Some? then permitted.value else [];
      var outside := if excluded.Some? then excluded.value else [];
      && (forall base :: base in inside || base in outside ==> IsSupported(base))
      && match cert.subjectAltName
         case Absent => true
         case Malformed => false
         case Present(names) =>
           forall name :: name in names ==> !name.Invalid? && IsWithin(name, inside, outside, isIpAddress)
  }

  lemma ContainsExactly(base: GeneralName, name: GeneralName, isIpAddress: IpAddressTest)
    ensures Contains(base, name, isIpAddress) <==> IsInSubtree(name, base, isIpAddress)
  {
    if base.IPAddress? && name.IPAddress? {
      IpConstraintIsCidr(name.value, base.value);
    }
  }

  lemma WithinExactly(constraints: NameConstraints, name: GeneralName, isIpAddress: IpAddressTest)
    ensures IsWithin(name, Bases(constraints.permitted), Bases(constraints.excluded), isIpAddress)
      <==> IsPermitted(constraints, name, isIpAddress) && IsOutside(constraints, name, isIpAddress)
  {
    forall base ensures Contains(base, name, isIpAddress) <==> IsInSubtree(name, base, isIpAddress) {
      ContainsExactly(base, name, isIpAddress);
    }
    forall base ensures HasSameForm(base, name) <==> AreComparable(name, base) {
    }
  }

  lemma MayHaveIssuedExactly(issuer: Certificate, cert: Certificate, isIpAddress: IpAddressTest)
    ensures MayHaveIssued(issuer, cert, isIpAddress) <==> IssuerAllows(issuer, cert, isIpAddress)
  {
    if issuer.nameConstraints.Present? {
      var constraints := issuer.nameConstraints.value;
      SupportedExactly(constraints);
      forall name
        ensures IsWithin(name, Bases(constraints.permitted), Bases(constraints.excluded), isIpAddress)
          <==> IsPermitted(constraints, name, isIpAddress) && IsOutside(constraints, name, isIpAddress)
      {
        WithinExactly(constraints, name, isIpAddress);
      }
    }
  }

  lemma SupportedExactly(constraints: NameConstraints)
    ensures AllCanBeEvaluated(constraints) <==>
      forall base :: base in Bases(constraints.permitted) || base in Bases(constraints.excluded) ==> IsSupported(base)
  {
  }

  /** A chain is allowed exactly when each certificate may have issued all below it, a lone one itself. */
  lemma AllowedExactly(chain: Chain, isIpAddress: IpAddressTest)
    requires chain != []
    ensures ChainIsAllowed(chain, isIpAddress) <==>
      && (|chain| == 1 ==> MayHaveIssued(chain[0], chain[0], isIpAddress))
      && forall i, j :: 0 <= i < j < |chain| ==> MayHaveIssued(chain[j], chain[i], isIpAddress)
  {
    MayHaveIssuedExactly(chain[0], chain[0], isIpAddress);
    forall i, j | 0 <= i < j < |chain|
      ensures MayHaveIssued(chain[j], chain[i], isIpAddress) <==> IssuerAllows(chain[j], chain[i], isIpAddress)
    {
      MayHaveIssuedExactly(chain[j], chain[i], isIpAddress);
    }
  }

  // ----- single names

  /** In an allowed chain no alternative name of any certificate escapes a constraint above it. */
  lemma NoNameEscapes(chain: Chain, i: nat, j: nat, name: GeneralName, isIpAddress: IpAddressTest)
    requires i < j < |chain| && ChainIsAllowed(chain, isIpAddress)
    requires chain[j].nameConstraints.Present?
    requires chain[i].subjectAltName.Present? && name in chain[i].subjectAltName.value
    ensures var constraints := chain[j].nameConstraints.value;
      && !name.Invalid?
      && (constraints.excluded.Some? ==>
        forall base :: base in constraints.excluded.value ==> !Contains(base, name, isIpAddress))
      && (constraints.permitted.Some? && (exists base :: base in constraints.permitted.value && HasSameForm(base, name))
        ==> exists base :: base in constraints.permitted.value && Contains(base, name, isIpAddress))
  {
    AllowedExactly(chain, isIpAddress);
    assert MayHaveIssued(chain[j], chain[i], isIpAddress);
  }

  /** An empty excluded dNSName subtree refuses every certificate with a valid dNSName. */
  lemma EmptyExcludedNameRefusesAll(issuer: Certificate, cert: Certificate, name: Bytes, isIpAddress: IpAddressTest)
    requires issuer.nameConstraints.Present? && issuer.nameConstraints.value.excluded.Some?
    requires DNSName([]) in issuer.nameConstraints.value.excluded.value
    requires cert.subjectAltName.Present? && DNSName(name) in cert.subjectAltName.value
    requires IsValidDnsName(name, false)
    ensures !IssuerAllows(issuer, cert, isIpAddress)
  {
    EmptyConstraintMatchesAll(name);
    MayHaveIssuedExactly(issuer, cert, isIpAddress);
    assert Contains(DNSName([]), DNSName(name), isIpAddress);
  }

  /** An empty permitted dNSName subtree has every valid dNSName in it. */
  lemma EmptyPermittedNameAdmitsAll(constraints: NameConstraints, name: Bytes, isIpAddress: IpAddressTest)
    requires constraints.permitted.Some? && DNSName([]) in constraints.permitted.value
    requires IsValidDnsName(name, false)
    ensures IsPermitted(constraints, DNSName(name), isIpAddress)
  {
    EmptyConstraintMatchesAll(name);
    assert IsInSubtree(DNSName(name), DNSName([]), isIpAddress);
  }
}
