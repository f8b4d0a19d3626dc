/** Every diagnostic is true, and every certificate that a search skips is reported. */
module DiagnosticLaws {
  import opened Wrappers
  import opened Certificates
  import opened PolicyBuilder
  import opened Stores
  import opened Suitability
  import opened ChainSearch
  import opened SearchTraces
  import opened SearchProperties
  import opened SearchOrder
  import opened Sequences
  import opened ValidChains

  /** The chain has a certificate that denotes the same. */
  ghost predicate IsKnown(c: Certificate, partial: Chain) {
    exists existing :: existing in partial && DenoteTheSame(existing, c)
  }

  ghost predicate AreCandidates(issuers: seq<Certificate>, store: seq<Certificate>, partial: Chain) {
    && issuers != [] && partial != []
    && forall c :: c in issuers <==> c in store && c.subject == partial[|partial| - 1].issuer
  }

  /** What a diagnostic says is so; of several reasons to skip a certificate it names the first. */
  ghost predicate IsTrue(s: SearchSpace, leaf: Certificate, e: VerificationDiagnostic) {
    var understood := s.policy.VerifyingCriticalExtensions();
    match e
    case LeafCertificateHasUnhandledCriticalExtension(c, handled) =>
      c == leaf && handled == understood && !IsHandled(leaf, understood)
    case LeafCertificateIsInTheRootStoreButDoesNotMeetPolicy(c, reason) =>
      c == leaf && leaf in s.roots && s.policy.ChainMeetsPolicyRequirements([leaf]) == Err(reason)
    case ChainFailsToMeetPolicy(chain, reason) =>
      && IsCertificationPath(s.roots, s.intermediates, s.verify, leaf, chain)
      && s.policy.ChainMeetsPolicyRequirements(chain) == Err(reason)
    case IssuerHasUnhandledCriticalExtension(issuer, partial, handled) =>
      handled == understood && !IsHandled(issuer, understood)
    case IssuerIsAlreadyInTheChain(partial, issuer) => IsHandled(issuer, understood) && IsKnown(issuer, partial)
    case IssuerHasNotSignedCertificate(issuer, partial) =>
      && IsHandled(issuer, understood) && !IsKnown(issuer, partial)
      && partial != []
      && var tip := partial[|partial| - 1];
         !s.verify(tip.signatureAlgorithm, issuer.publicKey, tip.tbs, tip.signature)
    case SearchingForIssuerOfPartialChain(partial) => partial != []
    case FoundCandidateIssuersInRootStore(partial, issuers) => AreCandidates(issuers, s.roots, partial)
    case FoundCandidateIssuersInIntermediateStore(partial, issuers) => AreCandidates(issuers, s.intermediates, partial)
    case FoundValidCertificateChain(chain) =>
      IsValidChain(s.roots, s.intermediates, s.verify, s.policy, leaf, chain)
    case CouldNotValidateLeafCertificate(c) =>
      c == leaf && forall chain :: !IsValidChain(s.roots, s.intermediates, s.verify, s.policy, leaf, chain)
  }

  /** What the policy was asked about, or the end of the whole run. */
  ghost predicate IsVerdict(e: VerificationDiagnostic) {
    e.FoundValidCertificateChain? || e.ChainFailsToMeetPolicy? || e.CouldNotValidateLeafCertificate?
  }

  lemma KnownExactly(c: Certificate, partial: Chain)
    ensures IsKnown(c, partial) <==> c.Id() in Identities(partial)
  {
    if existing :| existing in partial && DenoteTheSame(existing, c) {
      IdentitiesInclude(partial, existing);
    }
    if c.Id() in Identities(partial) {
      var existing := IdentityBearer(partial, c.Id());
      assert DenoteTheSame(existing, c);
    }
  }

  lemma SkipReasonIsTrue(s: SearchSpace, leaf: Certificate, c: Certificate, partial: Chain)
    requires partial != [] && s.ShouldSkip(c, partial)
    ensures IsTrue(s, leaf, s.SkipReason(c, partial)) && !IsVerdict(s.SkipReason(c, partial))
  {
    HandledIsNotUnhandled(c, s.policy);
    KnownExactly(c, partial);
  }

  lemma OfferedAreCandidates(s: SearchSpace, store: seq<Certificate>, partial: Chain)
    requires partial != [] && s.Offered(store, partial) != []
    ensures AreCandidates(s.Offered(store, partial), store, partial)
  {
    forall c ensures c in s.Offered(store, partial) <==> c in store && c.subject == partial[|partial| - 1].issuer {
      RankedMembers(WithSubject(store, Tip(partial).issuer), Tip(partial), c);
    }
  }

  lemma {:induction false} RootEventsAreTrue(s: SearchSpace, leaf: Certificate, partial: Chain,
                                             candidates: seq<Certificate>, e: VerificationDiagnostic)
    requires partial != [] && e in s.RootEvents(partial, candidates)
    ensures !e.CouldNotValidateLeafCertificate? && (IsVerdict(e) || IsTrue(s, leaf, e))
  {
    if e == s.RootEvent(partial, candidates[0]) {
      if s.ShouldSkip(candidates[0], partial) {
        SkipReasonIsTrue(s, leaf, candidates[0], partial);
      }
    } else {
      RootEventsAreTrue(s, leaf, partial, candidates[1..], e);
    }
  }

  lemma {:induction false} PushEventsAreTrue(s: SearchSpace, leaf: Certificate, partial: Chain,
                                             candidates: seq<Certificate>, e: VerificationDiagnostic)
    requires partial != [] && e in s.PushEvents(partial, candidates)
    ensures !IsVerdict(e) && IsTrue(s, leaf, e)
  {
    if e in s.PushEvents(partial, candidates[1..]) {
      PushEventsAreTrue(s, leaf, partial, candidates[1..], e);
    } else {
      SkipReasonIsTrue(s, leaf, candidates[0], partial);
    }
  }

  lemma VisitEventsAreTrue(s: SearchSpace, leaf: Certificate, partial: Chain, e: VerificationDiagnostic)
    requires partial != [] && e in s.RootVisitEvents(partial) + s.IntermediateVisitEvents(partial)
    ensures !e.CouldNotValidateLeafCertificate? && (IsVerdict(e) || IsTrue(s, leaf, e))
  {
    var roots, issuers := s.Offered(s.roots, partial), s.Offered(s.intermediates, partial);
    if e in s.RootEvents(partial, roots) {
      RootEventsAreTrue(s, leaf, partial, roots, e);
    } else if e in s.PushEvents(partial, issuers) {
      PushEventsAreTrue(s, leaf, partial, issuers, e);
    } else if e in s.AnnounceRoots(partial) {
      RootsAnnouncedAreTrue(s, leaf, partial, e);
    } else {
      IntermediatesAnnouncedAreTrue(s, leaf, partial, e);
    }
  }

  lemma RootsAnnouncedAreTrue(s: SearchSpace, leaf: Certificate, partial: Chain, e: VerificationDiagnostic)
    requires partial != [] && e in s.AnnounceRoots(partial)
    ensures !IsVerdict(e) && IsTrue(s, leaf, e)
  {
    if s.Offered(s.roots, partial) != [] {
      OfferedAreCandidates(s, s.roots, partial);
    }
  }

  lemma IntermediatesAnnouncedAreTrue(s: SearchSpace, leaf: Certificate, partial: Chain, e: VerificationDiagnostic)
    requires partial != [] && e in s.AnnounceIntermediates(partial)
    ensures !IsVerdict(e) && IsTrue(s, leaf, e)
  {
    OfferedAreCandidates(s, s.intermediates, partial);
  }

  lemma {:induction false} SearchEventsAreTrue(s: SearchSpace, leaf: Certificate, partial: Chain,
                                               e: VerificationDiagnostic)
    requires partial != [] && e in s.SearchEvents(partial)
    ensures !e.CouldNotValidateLeafCertificate? && (IsVerdict(e) || IsTrue(s, leaf, e))
    decreases s.Unused(partial), 1, 0
  {
    s.IssuersAreFresh(partial);
    if e in s.ContinuationEvents(partial) {
      SearchEventsEachAreTrue(s, leaf, partial, s.Issuers(s.intermediates, partial), e);
    } else {
      VisitEventsAreTrue(s, leaf, partial, e);
    }
  }

  lemma {:induction false} SearchEventsEachAreTrue(s: SearchSpace, leaf: Certificate, partial: Chain,
                                                   issuers: seq<Certificate>, e: VerificationDiagnostic)
    requires partial != [] && s.Fresh(issuers, partial) && e in s.SearchEventsEach(partial, issuers)
    ensures !e.CouldNotValidateLeafCertificate? && (IsVerdict(e) || IsTrue(s, leaf, e))
    decreases s.Unused(partial), 0, |issuers|
  {
    s.UnusedShrinks(partial, issuers[0]);
    if e in s.SearchEvents(partial + [issuers[0]]) {
      SearchEventsAreTrue(s, leaf, partial + [issuers[0]], e);
    } else {
      SearchEventsEachAreTrue(s, leaf, partial, issuers[1..], e);
    }
  }

  // ----- verdicts

  lemma {:induction false} AskedIsConsidered(trace: Trace, e: VerificationDiagnostic, policy: Policy)
    requires e in trace && AllHonest(trace, policy)
    ensures Honest(e, policy)
    ensures forall chain :: chain in Asked(e) ==> chain in Considered(trace)
  {
    if e != trace[0] {
      AskedIsConsidered(trace[1..], e, policy);
    }
  }

  lemma {:induction false} ToldIsInTrace(trace: Trace, e: VerificationDiagnostic)
    requires e in UpToFirstValid(trace)
    ensures e in trace
  {
    if e != trace[0] {
      ToldIsInTrace(trace[1..], e);
    }
  }

  lemma {:induction false} NoneValidIsToldWhole(trace: Trace)
    requires NoneValid(trace)
    ensures UpToFirstValid(trace) == trace
  {
    if trace != [] {
      NoneValidIsToldWhole(trace[1..]);
    }
  }

  lemma {:induction false} EndIsNotTold(trace: Trace, end: VerificationDiagnostic)
    requires !NoneValid(trace)
    ensures UpToFirstValid(trace + [end]) == UpToFirstValid(trace)
  {
    Uncons(trace, [end]);
    if !trace[0].FoundValidCertificateChain? {
      EndIsNotTold(trace[1..], end);
    }
  }

  /** The end is reported only when nothing was found. */
  lemma EndIsTrue(s: SearchSpace, leaf: Certificate)
    requires !HasUnhandledCriticalExtensions(leaf, s.policy)
    requires CouldNotValidateLeafCertificate(leaf) in s.RunEvents(leaf)
    ensures s.RunResult(leaf).Err?
  {
    var end := CouldNotValidateLeafCertificate(leaf);
    var trace := s.LeafInRootStoreEvents(leaf) + s.SearchEvents([leaf]);
    Reassociate(s.LeafInRootStoreEvents(leaf), s.SearchEvents([leaf]), [end]);
    DiagnosticsAreFaithful(s, leaf);
    if NoneValid(trace) {
      CheckConcat(trace, [end]);
      NoneValidIsToldWhole(trace + [end]);
    } else {
      EndIsNotTold(trace, end);
      ToldIsInTrace(trace, end);
      if end in s.SearchEvents([leaf]) {
        SearchEventsAreTrue(s, leaf, [leaf], end);
      }
    }
  }

  lemma ConsideredIsTrue(s: SearchSpace, leaf: Certificate, e: VerificationDiagnostic)
    requires !HasUnhandledCriticalExtensions(leaf, s.policy)
    requires e in s.SearchEvents([leaf]) && IsVerdict(e)
    ensures IsTrue(s, leaf, e)
  {
    SearchEventsAreTrue(s, leaf, [leaf], e);
    SearchConsiders(s, [leaf]);
    AskedIsConsidered(s.SearchEvents([leaf]), e, s.policy);
    EnumerationIsExact(s, leaf, e.chain);
    SimplePathsAreCertificationPaths(s, leaf, e.chain);
    ValidChainsExactly(s, leaf, e.chain);
  }

  /** Every reported diagnostic is true. */
  lemma DiagnosticsAreTrue(s: SearchSpace, leaf: Certificate, e: VerificationDiagnostic)
    requires e in s.RunEvents(leaf)
    ensures IsTrue(s, leaf, e)
  {
    HandledIsNotUnhandled(leaf, s.policy);
    if !HasUnhandledCriticalExtensions(leaf, s.policy) {
      ToldIsInTrace(s.FullTrace(leaf), e);
      if e in s.SearchEvents([leaf]) {
        if IsVerdict(e) {
          ConsideredIsTrue(s, leaf, e);
        } else {
          SearchEventsAreTrue(s, leaf, [leaf], e);
        }
      } else if e == CouldNotValidateLeafCertificate(leaf) {
        EndIsTrue(s, leaf);
        ValidatesExactly(s, leaf);
      } else {
        assert e in s.LeafInRootStoreEvents(leaf);
        ValidChainsExactly(s, leaf, [leaf]);
      }
    }
  }

  // ----- nothing goes unreported

  ghost predicate HoldsVisit(s: SearchSpace, trace: Trace, partial: Chain)
    requires partial != []
  {
    forall e :: e in s.RootVisitEvents(partial) || e in s.IntermediateVisitEvents(partial) ==> e in trace
  }

  lemma {:induction false} SearchedIsVisited(s: SearchSpace, from: Chain, partial: Chain)
    requires from != [] && partial != []
    requires SearchingForIssuerOfPartialChain(partial) in s.SearchEvents(from)
    ensures HoldsVisit(s, s.SearchEvents(from), partial)
    decreases s.Unused(from), 1, 0
  {
    s.IssuersAreFresh(from);
    if SearchingForIssuerOfPartialChain(partial) in s.ContinuationEvents(from) {
      SearchedIsVisitedEach(s, from, s.Issuers(s.intermediates, from), partial);
    } else {
      OneSearchAVisit(s, from, partial);
    }
  }

  lemma {:induction false} SearchedIsVisitedEach(s: SearchSpace, from: Chain, issuers: seq<Certificate>, partial: Chain)
    requires from != [] && partial != [] && s.Fresh(issuers, from)
    requires SearchingForIssuerOfPartialChain(partial) in s.SearchEventsEach(from, issuers)
    ensures HoldsVisit(s, s.SearchEventsEach(from, issuers), partial)
    decreases s.Unused(from), 0, |issuers|
  {
    s.UnusedShrinks(from, issuers[0]);
    if SearchingForIssuerOfPartialChain(partial) in s.SearchEvents(from + [issuers[0]]) {
      SearchedIsVisited(s, from + [issuers[0]], partial);
    } else {
      SearchedIsVisitedEach(s, from, issuers[1..], partial);
    }
  }

  /** The one search a visit announces is its own. */
  lemma OneSearchAVisit(s: SearchSpace, from: Chain, partial: Chain)
    requires from != []
    requires SearchingForIssuerOfPartialChain(partial) in s.RootVisitEvents(from) + s.IntermediateVisitEvents(from)
    ensures partial == from
  {
    var e := SearchingForIssuerOfPartialChain(partial);
    var roots, issuers := s.Offered(s.roots, from), s.Offered(s.intermediates, from);
    if e in s.RootEvents(from, roots) {
      NoSearchAmongRoots(s, from, roots, e);
    } else if e in s.PushEvents(from, issuers) {
      NoSearchAmongPushed(s, from, issuers, e);
    }
  }

  lemma {:induction false} NoSearchAmongRoots(s: SearchSpace, from: Chain, candidates: seq<Certificate>,
                                              e: VerificationDiagnostic)
    requires from != [] && e in s.RootEvents(from, candidates)
    ensures !e.SearchingForIssuerOfPartialChain?
  {
    if e != s.RootEvent(from, candidates[0]) {
      NoSearchAmongRoots(s, from, candidates[1..], e);
    }
  }

  lemma {:induction false} NoSearchAmongPushed(s: SearchSpace, from: Chain, candidates: seq<Certificate>,
                                               e: VerificationDiagnostic)
    requires from != [] && e in s.PushEvents(from, candidates)
    ensures !e.SearchingForIssuerOfPartialChain?
  {
    if e in s.PushEvents(from, candidates[1..]) {
      NoSearchAmongPushed(s, from, candidates[1..], e);
    }
  }

  lemma {:induction false} RootIsReported(s: SearchSpace, partial: Chain, candidates: seq<Certificate>, c: Certificate)
    requires partial != [] && c in candidates
    ensures s.RootEvent(partial, c) in s.RootEvents(partial, candidates)
  {
    if c != candidates[0] {
      RootIsReported(s, partial, candidates[1..], c);
    }
  }

  lemma {:induction false} PushIsReported(s: SearchSpace, partial: Chain, candidates: seq<Certificate>, c: Certificate)
    requires partial != [] && c in candidates && s.ShouldSkip(c, partial)
    ensures s.SkipReason(c, partial) in s.PushEvents(partial, candidates)
  {
    if c != candidates[0] {
      PushIsReported(s, partial, candidates[1..], c);
    }
  }

  /** Why the certificate was not added to the partial chain. */
  ghost predicate ReportsSkip(e: VerificationDiagnostic, c: Certificate, partial: Chain) {
    match e
    case IssuerHasUnhandledCriticalExtension(issuer, of, _) => issuer == c && of == partial
    case IssuerIsAlreadyInTheChain(of, issuer) => issuer == c && of == partial
    case IssuerHasNotSignedCertificate(issuer, of) => issuer == c && of == partial
    case _ => false
  }

  /** The certificate may not be put on the partial chain. */
  ghost predicate IsUnfit(s: SearchSpace, c: Certificate, partial: Chain)
    requires partial != []
  {
    || !IsHandled(c, s.policy.VerifyingCriticalExtensions())
    || IsKnown(c, partial)
    || !HasIssued(c, partial[|partial| - 1], s.verify)
  }

  lemma UnfitIsSkipped(s: SearchSpace, c: Certificate, partial: Chain)
    requires partial != [] && c.subject == partial[|partial| - 1].issuer
    ensures IsUnfit(s, c, partial) <==> s.ShouldSkip(c, partial)
  {
    HandledIsNotUnhandled(c, s.policy);
    KnownExactly(c, partial);
  }

  /** In a run that finds nothing, every unfit issuer of every partial chain searched is reported as such. */
  lemma SkippedIsReported(s: SearchSpace, leaf: Certificate, partial: Chain, c: Certificate)
    requires s.RunResult(leaf).Err? && partial != []
    requires SearchingForIssuerOfPartialChain(partial) in s.RunEvents(leaf)
    requires c in s.roots || c in s.intermediates
    requires c.subject == partial[|partial| - 1].issuer && IsUnfit(s, c, partial)
    ensures exists e :: e in s.RunEvents(leaf) && ReportsSkip(e, c, partial)
  {
    UnfitIsSkipped(s, c, partial);
    SearchIsVisitedInRun(s, leaf, partial);
    SkipIsInVisit(s, partial, c);
    SkipReasonReports(s, c, partial);
  }

  lemma SkipReasonReports(s: SearchSpace, c: Certificate, partial: Chain)
    requires partial != [] && s.ShouldSkip(c, partial)
    ensures ReportsSkip(s.SkipReason(c, partial), c, partial)
  {
  }

  lemma SearchIsVisitedInRun(s: SearchSpace, leaf: Certificate, partial: Chain)
    requires s.RunResult(leaf).Err? && partial != []
    requires SearchingForIssuerOfPartialChain(partial) in s.RunEvents(leaf)
    ensures HoldsVisit(s, s.RunEvents(leaf), partial)
  {
    FailedRunIsToldWhole(s, leaf);
    assert SearchingForIssuerOfPartialChain(partial) in s.SearchEvents([leaf]);
    SearchedIsVisited(s, [leaf], partial);
    forall e | e in s.SearchEvents([leaf]) ensures e in s.RunEvents(leaf) {
    }
  }

  lemma SkipIsInVisit(s: SearchSpace, partial: Chain, c: Certificate)
    requires partial != [] && (c in s.roots || c in s.intermediates)
    requires c.subject == partial[|partial| - 1].issuer && s.ShouldSkip(c, partial)
    ensures s.SkipReason(c, partial) in s.RootVisitEvents(partial)
      || s.SkipReason(c, partial) in s.IntermediateVisitEvents(partial)
  {
    if c in s.roots {
      RankedMembers(WithSubject(s.roots, Tip(partial).issuer), Tip(partial), c);
      RootIsReported(s, partial, s.Offered(s.roots, partial), c);
    } else {
      RankedMembers(WithSubject(s.intermediates, Tip(partial).issuer), Tip(partial), c);
      PushIsReported(s, partial, s.Offered(s.intermediates, partial), c);
    }
  }

  lemma FailedRunIsToldWhole(s: SearchSpace, leaf: Certificate)
    requires s.RunResult(leaf).Err? && !HasUnhandledCriticalExtensions(leaf, s.policy)
    ensures s.RunEvents(leaf) == s.FullTrace(leaf)
  {
    DiagnosticsAreFaithful(s, leaf);
    ToldWithoutValid(s.FullTrace(leaf));
  }

  lemma {:induction false} ToldWithoutValid(trace: Trace)
    requires NoneValid(UpToFirstValid(trace))
    ensures UpToFirstValid(trace) == trace
  {
    if trace != [] && !trace[0].FoundValidCertificateChain? {
      assert UpToFirstValid(trace)[1..] == UpToFirstValid(trace[1..]);
      ToldWithoutValid(trace[1..]);
    }
  }
}
