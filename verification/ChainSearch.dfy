/**
 * What the chain search of x509-validator/src/validator.rs is to compute, over plain lists of
 * certificates: a recursive enumeration of the candidate chains, and the recursive preorder trace
 * of diagnostics of a search that never stops early.
 */
module ChainSearch {
  import opened Wrappers
  import opened Bytes
  import opened Certificates
  import opened PolicyBuilder
  import opened Stores
  import opened Suitability

  /** (algorithm, public key, message, signature) */
  type SignatureVerifier = (Bytes, Bytes, Bytes, Bytes) -> bool

  datatype PolicyFailure = PolicyFailure(chain: Chain, reason: Reason)

  type ChainValidationResult = Result<Chain, seq<PolicyFailure>>

  datatype VerificationDiagnostic =
    | LeafCertificateHasUnhandledCriticalExtension(leaf: Certificate, handled: seq<Bytes>)
    | LeafCertificateIsInTheRootStoreButDoesNotMeetPolicy(leaf: Certificate, reason: Reason)
    | ChainFailsToMeetPolicy(chain: Chain, reason: Reason)
    | IssuerHasUnhandledCriticalExtension(issuer: Certificate, partial: Chain, handled: seq<Bytes>)
    | IssuerHasNotSignedCertificate(issuer: Certificate, partial: Chain)
    | SearchingForIssuerOfPartialChain(partial: Chain)
    | FoundCandidateIssuersInRootStore(partial: Chain, issuers: seq<Certificate>)
    | FoundCandidateIssuersInIntermediateStore(partial: Chain, issuers: seq<Certificate>)
    | FoundValidCertificateChain(chain: Chain)
    | CouldNotValidateLeafCertificate(leaf: Certificate)
    | IssuerIsAlreadyInTheChain(partial: Chain, issuer: Certificate)

  type Trace = seq<VerificationDiagnostic>

  predicate HasUnhandledCriticalExtensions(certificate: Certificate, policy: Policy) {
    var handled := policy.VerifyingCriticalExtensions();
    exists ext :: ext in certificate.extensions && ext.critical && ext.oid !in handled
  }

  /** Everything a search depends on besides the leaf. */
  datatype SearchSpace = SearchSpace(
    roots: seq<Certificate>,
    intermediates: seq<Certificate>,
    verify: SignatureVerifier,
    policy: Policy)
  {
    predicate IsSignedBy(child: Certificate, issuer: Certificate) {
      verify(child.signatureAlgorithm, issuer.publicKey, child.tbs, child.signature)
    }

    predicate ShouldSkip(candidate: Certificate, partial: Chain)
      requires partial != []
    {
      || HasUnhandledCriticalExtensions(candidate, policy)
      || candidate.Id() in Identities(partial)
      || !IsSignedBy(Tip(partial), candidate)
    }

    function SkipReason(candidate: Certificate, partial: Chain): VerificationDiagnostic
      requires partial != []
      requires ShouldSkip(candidate, partial)
    {
      if HasUnhandledCriticalExtensions(candidate, policy) then
        IssuerHasUnhandledCriticalExtension(candidate, partial, policy.VerifyingCriticalExtensions())
      else if candidate.Id() in Identities(partial) then
        IssuerIsAlreadyInTheChain(partial, candidate)
      else
        IssuerHasNotSignedCertificate(candidate, partial)
    }

    // ----- the candidate chains

    /** The candidates a store offers as issuers of the chain's tip, most suitable first. */
    ghost function Offered(store: seq<Certificate>, partial: Chain): seq<Certificate>
      requires partial != []
    {
      Ranked(WithSubject(store, Tip(partial).issuer), Tip(partial))
    }

    /** The candidates that survive the skip test, in order. */
    ghost function Usable(candidates: seq<Certificate>, partial: Chain): seq<Certificate>
      requires partial != []
    {
      if candidates == [] then []
      else (if ShouldSkip(candidates[0], partial) then [] else [candidates[0]]) + Usable(candidates[1..], partial)
    }

    ghost function Issuers(store: seq<Certificate>, partial: Chain): seq<Certificate>
      requires partial != []
    {
      Usable(Offered(store, partial), partial)
    }

    lemma {:induction false} UsableMembers(candidates: seq<Certificate>, partial: Chain, c: Certificate)
      requires partial != []
      ensures c in Usable(candidates, partial) <==> c in candidates && !ShouldSkip(c, partial)
    {
      if candidates != [] {
        UsableMembers(candidates[1..], partial, c);
      }
    }

    lemma IssuerMembers(store: seq<Certificate>, partial: Chain, c: Certificate)
      requires partial != []
      ensures c in Issuers(store, partial)
        <==> c in store && c.subject == Tip(partial).issuer && !ShouldSkip(c, partial)
    {
      UsableMembers(Offered(store, partial), partial, c);
      RankedMembers(WithSubject(store, Tip(partial).issuer), Tip(partial), c);
    }

    /** How many distinct intermediate identities the chain has not used yet. */
    ghost function Unused(partial: Chain): nat {
      CountDistinct(intermediates, Identities(partial))
    }

    /** Every certificate is an intermediate whose identity the chain has not used. */
    ghost predicate Fresh(certificates: seq<Certificate>, partial: Chain) {
      || certificates == []
      || (IsFresh(certificates[0], partial) && Fresh(certificates[1..], partial))
    }

    ghost predicate IsFresh(c: Certificate, partial: Chain) {
      c in intermediates && c.Id() !in Identities(partial)
    }

    lemma {:induction false} FreshFromMembers(certificates: seq<Certificate>, partial: Chain)
      requires forall c :: c in certificates ==> IsFresh(c, partial)
      ensures Fresh(certificates, partial)
    {
      if certificates != [] {
        assert certificates[0] in certificates;
        FreshFromMembers(certificates[1..], partial);
      }
    }

    lemma {:induction false} FreshSuffix(certificates: seq<Certificate>, partial: Chain, i: nat)
      requires Fresh(certificates, partial) && i <= |certificates|
      ensures Fresh(certificates[i..], partial)
    {
      if i == 0 {
        assert certificates[0..] == certificates;
      } else {
        FreshSuffix(certificates[1..], partial, i - 1);
        assert certificates[1..][i - 1..] == certificates[i..];
      }
    }

    lemma IssuersAreFresh(partial: Chain)
      requires partial != []
      ensures Fresh(Issuers(intermediates, partial), partial)
    {
      forall c | c in Issuers(intermediates, partial) ensures IsFresh(c, partial) {
        IssuerMembers(intermediates, partial, c);
      }
      FreshFromMembers(Issuers(intermediates, partial), partial);
    }

    /** One chain for each issuer. */
    ghost function Extended(partial: Chain, issuers: seq<Certificate>): (chains: seq<Chain>)
      ensures forall chain :: chain in chains <==> exists c :: c in issuers && chain == partial + [c]
    {
      if issuers == [] then [] else [partial + [issuers[0]]] + Extended(partial, issuers[1..])
    }

    /** Every candidate chain that grows out of `partial`: those ending at a root now, then each intermediate's. */
    ghost function Enumerate(partial: Chain): seq<Chain>
      requires partial != []
      decreases Unused(partial), 1, 0
    {
      IssuersAreFresh(partial);
      Extended(partial, Issuers(roots, partial)) + EnumerateEach(partial, Issuers(intermediates, partial))
    }

    ghost function EnumerateEach(partial: Chain, issuers: seq<Certificate>): seq<Chain>
      requires partial != []
      requires Fresh(issuers, partial)
      decreases Unused(partial), 0, |issuers|
    {
      if issuers == [] then []
      else
        UnusedShrinks(partial, issuers[0]);
        Enumerate(partial + [issuers[0]]) + EnumerateEach(partial, issuers[1..])
    }

    /** The leaf on its own, when the root store holds that very certificate, then all grown chains. */
    ghost function Candidates(leaf: Certificate): seq<Chain> {
      TrustedLeaf(leaf) + Enumerate([leaf])
    }

    ghost function TrustedLeaf(leaf: Certificate): seq<Chain> {
      if leaf in WithSubject(roots, leaf.subject) then [[leaf]] else []
    }

    /** The first chain the policy accepts; failing that, every chain with the reason it was rejected. */
    ghost function Decide(chains: seq<Chain>): ChainValidationResult {
      if chains == [] then Err([])
      else
        var verdict := policy.ChainMeetsPolicyRequirements(chains[0]);
        if verdict.Ok? then Ok(chains[0])
        else
          var rest := Decide(chains[1..]);
          if rest.Ok? then rest else Err([PolicyFailure(chains[0], verdict.error)] + rest.error)
    }

    // ----- the diagnostics of a search that never stops early

    ghost function RootEvent(partial: Chain, candidate: Certificate): VerificationDiagnostic
      requires partial != []
    {
      if ShouldSkip(candidate, partial) then SkipReason(candidate, partial)
      else
        var chain := partial + [candidate];
        var verdict := policy.ChainMeetsPolicyRequirements(chain);
        if verdict.Ok? then FoundValidCertificateChain(chain) else ChainFailsToMeetPolicy(chain, verdict.error)
    }

    ghost function RootEvents(partial: Chain, candidates: seq<Certificate>): Trace
      requires partial != []
    {
      if candidates == [] then []
      else [RootEvent(partial, candidates[0])] + RootEvents(partial, candidates[1..])
    }

    /** The intermediates are tried for pushing last to first. */
    ghost function PushEvents(partial: Chain, candidates: seq<Certificate>): Trace
      requires partial != []
    {
      if candidates == [] then []
      else
        PushEvents(partial, candidates[1..])
        + if ShouldSkip(candidates[0], partial) then [SkipReason(candidates[0], partial)] else []
    }

    ghost function AnnounceRoots(partial: Chain): Trace
      requires partial != []
    {
      var offered := Offered(roots, partial);
      [SearchingForIssuerOfPartialChain(partial)]
      + if offered == [] then [] else [FoundCandidateIssuersInRootStore(partial, offered)]
    }

    ghost function AnnounceIntermediates(partial: Chain): Trace
      requires partial != []
    {
      var offered := Offered(intermediates, partial);
      if offered == [] then [] else [FoundCandidateIssuersInIntermediateStore(partial, offered)]
    }

    /** What visiting one partial chain reports about the root store. */
    ghost function RootVisitEvents(partial: Chain): Trace
      requires partial != []
    {
      AnnounceRoots(partial) + RootEvents(partial, Offered(roots, partial))
    }

    /** What visiting one partial chain reports about the intermediate store. */
    ghost function IntermediateVisitEvents(partial: Chain): Trace
      requires partial != []
    {
      AnnounceIntermediates(partial) + PushEvents(partial, Offered(intermediates, partial))
    }

    /** The visit of one partial chain, then that of each of its continuations. */
    ghost function SearchEvents(partial: Chain): Trace
      requires partial != []
      decreases Unused(partial), 2, 0
    {
      RootVisitEvents(partial) + (IntermediateVisitEvents(partial) + ContinuationEvents(partial))
    }

    ghost function ContinuationEvents(partial: Chain): Trace
      requires partial != []
      decreases Unused(partial), 1, 0
    {
      IssuersAreFresh(partial);
      SearchEventsEach(partial, Issuers(intermediates, partial))
    }

    ghost function SearchEventsEach(partial: Chain, issuers: seq<Certificate>): Trace
      requires partial != []
      requires Fresh(issuers, partial)
      decreases Unused(partial), 0, |issuers|
    {
      if issuers == [] then []
      else
        UnusedShrinks(partial, issuers[0]);
        SearchEvents(partial + [issuers[0]]) + SearchEventsEach(partial, issuers[1..])
    }

    ghost function LeafInRootStoreEvents(leaf: Certificate): Trace {
      if leaf !in WithSubject(roots, leaf.subject) then []
      else
        var verdict := policy.ChainMeetsPolicyRequirements([leaf]);
        if verdict.Ok? then [FoundValidCertificateChain([leaf])]
        else [LeafCertificateIsInTheRootStoreButDoesNotMeetPolicy(leaf, verdict.error)]
    }

    ghost function FullTrace(leaf: Certificate): Trace {
      LeafInRootStoreEvents(leaf) + (SearchEvents([leaf]) + [CouldNotValidateLeafCertificate(leaf)])
    }

    // ----- a whole run

    ghost function RunResult(leaf: Certificate): ChainValidationResult {
      if HasUnhandledCriticalExtensions(leaf, policy) then
        Err([PolicyFailure([leaf], UNHANDLED_LEAF_EXTENSION)])
      else
        Decide(Candidates(leaf))
    }

    /** What a callback sees: the full trace up to and including the first valid chain. */
    ghost function RunEvents(leaf: Certificate): Trace {
      if HasUnhandledCriticalExtensions(leaf, policy) then
        [LeafCertificateHasUnhandledCriticalExtension(leaf, policy.VerifyingCriticalExtensions())]
      else
        UpToFirstValid(FullTrace(leaf))
    }

    lemma UnusedShrinks(partial: Chain, issuer: Certificate)
      requires IsFresh(issuer, partial)
      ensures Unused(partial + [issuer]) < Unused(partial)
    {
      IdentitiesAppend(partial, issuer);
      IdentitiesInclude(intermediates, issuer);
      CountDistinctIsCardinality(intermediates, Identities(partial));
      CountDistinctIsCardinality(intermediates, Identities(partial + [issuer]));
      var before := Identities(intermediates) - Identities(partial);
      assert Identities(intermediates) - Identities(partial + [issuer]) == before - {issuer.Id()};
    }
  }

  const UNHANDLED_LEAF_EXTENSION: Reason := "leaf certificate has unhandled critical extension"

  ghost function UpToFirstValid(trace: Trace): Trace {
    if trace == [] then []
    else if trace[0].FoundValidCertificateChain? then [trace[0]]
    else [trace[0]] + UpToFirstValid(trace[1..])
  }

  /** The policy rejection a diagnostic reports, if it reports one. */
  ghost function Rejection(e: VerificationDiagnostic): seq<PolicyFailure> {
    match e
    case LeafCertificateIsInTheRootStoreButDoesNotMeetPolicy(leaf, reason) => [PolicyFailure([leaf], reason)]
    case ChainFailsToMeetPolicy(chain, reason) => [PolicyFailure(chain, reason)]
    case _ => []
  }

  /** The chain a diagnostic says the policy was asked about, if it does. */
  ghost function Asked(e: VerificationDiagnostic): seq<Chain> {
    match e
    case LeafCertificateIsInTheRootStoreButDoesNotMeetPolicy(leaf, _) => [[leaf]]
    case ChainFailsToMeetPolicy(chain, _) => [chain]
    case FoundValidCertificateChain(chain) => [chain]
    case _ => []
  }

  ghost function Rejections(trace: Trace): seq<PolicyFailure> {
    if trace == [] then [] else Rejection(trace[0]) + Rejections(trace[1..])
  }

  ghost function Considered(trace: Trace): seq<Chain> {
    if trace == [] then [] else Asked(trace[0]) + Considered(trace[1..])
  }

  /** How many partial chains were popped off the work stack. */
  ghost function Searches(trace: Trace): nat {
    if trace == [] then 0
    else (if trace[0].SearchingForIssuerOfPartialChain? then 1 else 0) + Searches(trace[1..])
  }
}
