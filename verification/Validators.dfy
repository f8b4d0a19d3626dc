/** The chain validator (x509-validator/src/validator.rs): a depth-first search with an explicit work stack. */
module Validators {
  import opened Wrappers
  import opened Certificates
  import opened PolicyBuilder
  import opened Stores
  import opened Suitability
  import opened ChainSearch
  import opened SearchTraces
  import opened ValidChains
  import opened Sequences

  /** A diagnostic callback: it keeps what it is told. */
  class DiagnosticLog {
    var events: Trace

    constructor ()
      ensures events == []
    {
      events := [];
    }

    method Report(event: VerificationDiagnostic)
      modifies this
      ensures events == old(events) + [event]
    {
      events := events + [event];
    }
  }

  /** What has been reported so far; nothing when there is no callback. */
  ghost function EventsOf(diagnostics: DiagnosticLog?): Trace
    reads diagnostics
  {
    if diagnostics == null then [] else diagnostics.events
  }

  /** Reports a diagnostic to an optional callback. */
  method Diagnose(diagnostics: DiagnosticLog?, event: VerificationDiagnostic)
    modifies diagnostics
    ensures diagnostics != null ==> diagnostics.events == old(diagnostics.events) + [event]
  {
    if diagnostics != null {
      diagnostics.Report(event);
    }
  }

  ghost predicate NoneEmpty(stack: seq<Chain>) {
    forall i :: 0 <= i < |stack| ==> stack[i] != []
  }

  /** What the search still has to report when `stack` is its work stack, top at the end. */
  ghost function Pending(s: SearchSpace, stack: seq<Chain>): Trace
    requires NoneEmpty(stack)
  {
    if stack == [] then []
    else
      var n := |stack| - 1;
      s.SearchEvents(stack[n]) + Pending(s, stack[..n])
  }

  /** `base` with a continuation for each usable candidate pushed on top of it, the last candidate's first. */
  ghost function StackAfter(s: SearchSpace, partial: Chain, candidates: seq<Certificate>, base: seq<Chain>): seq<Chain>
    requires partial != []
  {
    if candidates == [] then base
    else
      var stack := StackAfter(s, partial, candidates[1..], base);
      if s.ShouldSkip(candidates[0], partial) then stack else stack + [partial + [candidates[0]]]
  }

  lemma HeadCandidate(s: SearchSpace, partial: Chain, candidates: seq<Certificate>)
    requires partial != [] && candidates != []
    ensures var c, later := candidates[0], candidates[1..];
      if s.ShouldSkip(c, partial) then
        && s.PushEvents(partial, candidates) == s.PushEvents(partial, later) + [s.SkipReason(c, partial)]
        && s.Usable(candidates, partial) == s.Usable(later, partial)
      else
        && s.PushEvents(partial, candidates) == s.PushEvents(partial, later)
        && s.Usable(candidates, partial) == [c] + s.Usable(later, partial)
  {
    if s.ShouldSkip(candidates[0], partial) {
      assert s.Usable(candidates, partial) == s.Usable(candidates[1..], partial);
    } else {
      assert s.PushEvents(partial, candidates) == s.PushEvents(partial, candidates[1..]);
    }
  }

  lemma PendingPush(s: SearchSpace, stack: seq<Chain>, partial: Chain)
    requires NoneEmpty(stack) && partial != []
    ensures NoneEmpty(stack + [partial])
    ensures Pending(s, stack + [partial]) == s.SearchEvents(partial) + Pending(s, stack)
  {
    assert (stack + [partial])[..|stack|] == stack;
  }

  /** The candidate before those already handled. */
  lemma PushStep(s: SearchSpace, partial: Chain, candidates: seq<Certificate>, i: nat, base: seq<Chain>)
    requires partial != [] && 0 < i <= |candidates|
    ensures var c, from, later := candidates[i - 1], candidates[i - 1..], candidates[i..];
      if s.ShouldSkip(c, partial) then
        && s.PushEvents(partial, from) == s.PushEvents(partial, later) + [s.SkipReason(c, partial)]
        && StackAfter(s, partial, from, base) == StackAfter(s, partial, later, base)
      else
        && s.PushEvents(partial, from) == s.PushEvents(partial, later)
        && StackAfter(s, partial, from, base) == StackAfter(s, partial, later, base) + [partial + [c]]
  {
    assert candidates[i - 1..][1..] == candidates[i..];
    HeadCandidate(s, partial, candidates[i - 1..]);
  }

  /** What the pushed continuations have to report is what the usable candidates have, in order. */
  lemma {:induction false} StackAfterIsPending(s: SearchSpace, partial: Chain, candidates: seq<Certificate>,
                                               base: seq<Chain>)
    requires partial != [] && NoneEmpty(base) && s.Fresh(s.Usable(candidates, partial), partial)
    ensures NoneEmpty(StackAfter(s, partial, candidates, base))
    ensures Pending(s, StackAfter(s, partial, candidates, base))
      == s.SearchEventsEach(partial, s.Usable(candidates, partial)) + Pending(s, base)
  {
    if candidates == [] {
      NothingAdded(Pending(s, base));
    } else {
      var c, later := candidates[0], candidates[1..];
      HeadCandidate(s, partial, candidates);
      if s.ShouldSkip(c, partial) {
        StackAfterIsPending(s, partial, later, base);
      } else {
        var issuers := s.Usable(candidates, partial);
        assert issuers[1..] == s.Usable(later, partial);
        StackAfterIsPending(s, partial, later, base);
        PendingPush(s, StackAfter(s, partial, later, base), partial + [c]);
        Reassociate(s.SearchEvents(partial + [c]), s.SearchEventsEach(partial, issuers[1..]), Pending(s, base));
      }
    }
  }

  lemma AllPushed(s: SearchSpace, partial: Chain, candidates: seq<Certificate>, i: nat, base: seq<Chain>)
    requires partial != [] && NoneEmpty(base) && candidates == s.Offered(s.intermediates, partial) && i == 0
    ensures candidates[i..] == candidates
    ensures NoneEmpty(StackAfter(s, partial, candidates, base))
    ensures Pending(s, StackAfter(s, partial, candidates, base)) == s.ContinuationEvents(partial) + Pending(s, base)
  {
    s.IssuersAreFresh(partial);
    StackAfterIsPending(s, partial, candidates, base);
  }

  class Validator {
    const rootCertificates: CertificateStore
    const verify: SignatureVerifier
    const policy: Policy

    constructor (rootCertificates: CertificateStore, policy: Policy, verify: SignatureVerifier)
      ensures this.rootCertificates == rootCertificates && this.policy == policy && this.verify == verify
    {
      this.rootCertificates := rootCertificates;
      this.policy := policy;
      this.verify := verify;
    }

    /** What this validator searches when given `intermediates`. */
    ghost function Space(intermediates: CertificateStore): SearchSpace
      reads rootCertificates, intermediates
    {
      SearchSpace(rootCertificates.contents, intermediates.contents, verify, policy)
    }

    ghost predicate Serves(s: SearchSpace) {
      s.verify == verify && s.policy == policy
    }

    method ShouldSkipAddingCertificate(candidate: Certificate, partial: Chain, diagnostics: DiagnosticLog?,
                                       ghost s: SearchSpace)
      returns (skip: bool)
      requires Serves(s) && partial != []
      modifies diagnostics
      ensures skip == s.ShouldSkip(candidate, partial)
      ensures diagnostics != null ==>
        diagnostics.events == old(diagnostics.events) + (if skip then [s.SkipReason(candidate, partial)] else [])
    {
      if HasUnhandledCriticalExtensions(candidate, policy) {
        Diagnose(diagnostics,
          IssuerHasUnhandledCriticalExtension(candidate, partial, policy.VerifyingCriticalExtensions()));
        return true;
      }
      SameIdentityIsSharedId(candidate, partial);
      if exists existing :: existing in partial && existing.HasSameIdentityAs(candidate) {
        Diagnose(diagnostics, IssuerIsAlreadyInTheChain(partial, candidate));
        return true;
      }
      var tip := partial[|partial| - 1];
      var signatureVerifies := verify(tip.signatureAlgorithm, candidate.publicKey, tip.tbs, tip.signature);
      if !signatureVerifies {
        Diagnose(diagnostics, IssuerHasNotSignedCertificate(candidate, partial));
      }
      return !signatureVerifies;
    }

    /** The candidates a store offers as issuers of the chain's tip, most suitable first. */
    method SortedCandidates(store: CertificateStore, partial: Chain) returns (candidates: seq<Certificate>)
      requires store.Valid() && partial != []
      ensures candidates == Ranked(WithSubject(store.contents, Tip(partial).issuer), Tip(partial))
    {
      var tip := partial[|partial| - 1];
      var found := store.FindBySubject(tip.issuer);
      var buffer := new Certificate[|found|](i requires 0 <= i < |found| => found[i]);
      assert buffer[..] == found;
      SortBySuitabilityForIssuing(buffer, tip);
      candidates := buffer[..];
    }

    /** Puts a root on top of the partial chain and asks the policy, unless the root is to be skipped. */
    method TryRoot(partial: Chain, candidate: Certificate, diagnostics: DiagnosticLog?, ghost s: SearchSpace)
      returns (found: Option<Chain>, failure: seq<PolicyFailure>)
      requires Serves(s) && partial != []
      modifies diagnostics
      ensures var event := s.RootEvent(partial, candidate);
        && (diagnostics != null ==> diagnostics.events == old(diagnostics.events) + [event])
        && found == (if event.FoundValidCertificateChain? then Some(event.chain) else None)
        && failure == Rejection(event)
    {
      var skip := ShouldSkipAddingCertificate(candidate, partial, diagnostics, s);
      if skip {
        return None, [];
      }
      var chain := partial + [candidate];
      var verdict := policy.ChainMeetsPolicyRequirements(chain);
      if verdict.Ok? {
        Diagnose(diagnostics, FoundValidCertificateChain(chain));
        return Some(chain), [];
      }
      Diagnose(diagnostics, ChainFailsToMeetPolicy(chain, verdict.error));
      return None, [PolicyFailure(chain, verdict.error)];
    }

    /** Tries the roots in order until the policy accepts. */
    method TryRoots(partial: Chain, candidates: seq<Certificate>, diagnostics: DiagnosticLog?, ghost s: SearchSpace)
      returns (found: Option<Chain>, failures: seq<PolicyFailure>, ghost told: Trace, ghost rest: Trace)
      requires Serves(s) && partial != []
      modifies diagnostics
      ensures diagnostics != null ==> diagnostics.events == old(diagnostics.events) + told
      ensures Progress(s.RootEvents(partial, candidates), found, failures, told, rest)
      ensures found.None? ==> rest == []
    {
      found, failures, told, rest := None, [], [], s.RootEvents(partial, candidates);
      for i := 0 to |candidates|
        invariant diagnostics != null ==> diagnostics.events == old(diagnostics.events) + told
        invariant rest == s.RootEvents(partial, candidates[i..])
        invariant found.None? && Progress(s.RootEvents(partial, candidates), None, failures, told, rest)
      {
        ghost var event := s.RootEvent(partial, candidates[i]);
        assert candidates[i..][1..] == candidates[i + 1..];
        var failure;
        found, failure := TryRoot(partial, candidates[i], diagnostics, s);
        ghost var after := s.RootEvents(partial, candidates[i + 1..]);
        SingleProgress(event);
        ComposeProgress(s.RootEvents(partial, candidates), failures, told, [event], found, failure, [event], [], after);
        failures, told, rest := failures + failure, told + [event], [] + after;
        if found.Some? {
          return;
        }
      }
    }

    /** Pushes each usable intermediate, last to first, so that the most suitable is popped first. */
    method PushIntermediates(partial: Chain, candidates: seq<Certificate>, base: seq<Chain>,
                             diagnostics: DiagnosticLog?, ghost s: SearchSpace)
      returns (stack: seq<Chain>)
      requires Serves(s) && partial != [] && NoneEmpty(base)
      requires candidates == s.Offered(s.intermediates, partial)
      modifies diagnostics
      ensures diagnostics != null ==> diagnostics.events == old(diagnostics.events) + s.PushEvents(partial, candidates)
      ensures NoneEmpty(stack)
      ensures Pending(s, stack) == s.ContinuationEvents(partial) + Pending(s, base)
    {
      stack := base;
      ghost var start := EventsOf(diagnostics);
      var i := |candidates|;
      NothingAdded(start);
      while i > 0
        invariant 0 <= i <= |candidates|
        invariant diagnostics != null ==> diagnostics.events == start + s.PushEvents(partial, candidates[i..])
        invariant stack == StackAfter(s, partial, candidates[i..], base)
      {
        PushStep(s, partial, candidates, i, base);
        ghost var told := s.PushEvents(partial, candidates[i..]);
        i := i - 1;
        var candidate := candidates[i];
        var skip := ShouldSkipAddingCertificate(candidate, partial, diagnostics, s);
        if skip {
          Reassociate(start, told, [s.SkipReason(candidate, partial)]);
        } else {
          stack := stack + [partial + [candidate]];
        }
      }
      AllPushed(s, partial, candidates, i, base);
    }

    /** The second check: a leaf that the root store holds exactly as it is may be trusted directly. */
    method TryLeaf(leaf: Certificate, diagnostics: DiagnosticLog?, ghost s: SearchSpace)
      returns (found: Option<Chain>, failures: seq<PolicyFailure>)
      requires rootCertificates.Valid()
      requires Serves(s) && s.roots == rootCertificates.contents
      modifies diagnostics
      ensures diagnostics != null ==> diagnostics.events == old(diagnostics.events) + s.LeafInRootStoreEvents(leaf)
      ensures Progress(s.LeafInRootStoreEvents(leaf), found, failures, s.LeafInRootStoreEvents(leaf), [])
    {
      found, failures := None, [];
      if leaf in rootCertificates.FindBySubject(leaf.subject) {
        var verdict := policy.ChainMeetsPolicyRequirements([leaf]);
        ghost var event := s.LeafInRootStoreEvents(leaf)[0];
        SingleProgress(event);
        if verdict.Ok? {
          Diagnose(diagnostics, FoundValidCertificateChain([leaf]));
          return Some([leaf]), [];
        }
        Diagnose(diagnostics, LeafCertificateIsInTheRootStoreButDoesNotMeetPolicy(leaf, verdict.error));
        failures := [PolicyFailure([leaf], verdict.error)];
      }
    }

    /** Offers the roots that name the tip's issuer. */
    method OfferRoots(partial: Chain, diagnostics: DiagnosticLog?, ghost s: SearchSpace)
      returns (candidates: seq<Certificate>)
      requires rootCertificates.Valid()
      requires s.roots == rootCertificates.contents && partial != []
      modifies diagnostics
      ensures candidates == s.Offered(s.roots, partial)
      ensures diagnostics != null ==> diagnostics.events == old(diagnostics.events) + s.AnnounceRoots(partial)
    {
      Diagnose(diagnostics, SearchingForIssuerOfPartialChain(partial));
      candidates := SortedCandidates(rootCertificates, partial);
      if candidates != [] {
        Diagnose(diagnostics, FoundCandidateIssuersInRootStore(partial, candidates));
      }
    }

    /** Looks for issuers of the tip in the root store. */
    method VisitRoots(partial: Chain, diagnostics: DiagnosticLog?, ghost s: SearchSpace)
      returns (found: Option<Chain>, failures: seq<PolicyFailure>, ghost told: Trace, ghost rest: Trace)
      requires rootCertificates.Valid()
      requires Serves(s) && s.roots == rootCertificates.contents && partial != []
      modifies diagnostics
      ensures diagnostics != null ==> diagnostics.events == old(diagnostics.events) + told
      ensures Progress(s.RootVisitEvents(partial), found, failures, told, rest)
      ensures found.None? ==> rest == []
      ensures Searches(told) == 1
    {
      ghost var start := EventsOf(diagnostics);
      var candidates := OfferRoots(partial, diagnostics, s);
      found, failures, told, rest := TryRoots(partial, candidates, diagnostics, s);
      Reassociate(start, s.AnnounceRoots(partial), told);
      AnnouncedProgress(s, partial, found, failures, told, rest);
      AnnouncedOnce(s, partial, told, rest);
      told := s.AnnounceRoots(partial) + told;
    }

    /** Offers the intermediates that name the tip's issuer. */
    method OfferIntermediates(partial: Chain, intermediates: CertificateStore,
                              diagnostics: DiagnosticLog?, ghost s: SearchSpace)
      returns (candidates: seq<Certificate>)
      requires intermediates.Valid()
      requires s.intermediates == intermediates.contents && partial != []
      modifies diagnostics
      ensures candidates == s.Offered(s.intermediates, partial)
      ensures diagnostics != null ==> diagnostics.events == old(diagnostics.events) + s.AnnounceIntermediates(partial)
    {
      candidates := SortedCandidates(intermediates, partial);
      if candidates != [] {
        Diagnose(diagnostics, FoundCandidateIssuersInIntermediateStore(partial, candidates));
      }
    }

    /** Looks for issuers of the tip among the intermediates. */
    method VisitIntermediates(partial: Chain, base: seq<Chain>, intermediates: CertificateStore,
                              diagnostics: DiagnosticLog?, ghost s: SearchSpace)
      returns (stack: seq<Chain>)
      requires intermediates.Valid()
      requires Serves(s) && s.intermediates == intermediates.contents && partial != [] && NoneEmpty(base)
      modifies diagnostics
      ensures diagnostics != null ==> diagnostics.events == old(diagnostics.events) + s.IntermediateVisitEvents(partial)
      ensures NoneEmpty(stack)
      ensures Pending(s, stack) == s.ContinuationEvents(partial) + Pending(s, base)
    {
      ghost var start := EventsOf(diagnostics);
      var candidates := OfferIntermediates(partial, intermediates, diagnostics, s);
      Reassociate(start, s.AnnounceIntermediates(partial), s.PushEvents(partial, candidates));
      stack := PushIntermediates(partial, candidates, base, diagnostics, s);
    }

    /** One turn of the search: the popped partial chain is either completed or replaced by its continuations. */
    method Visit(partial: Chain, base: seq<Chain>, intermediates: CertificateStore,
                 diagnostics: DiagnosticLog?, ghost s: SearchSpace)
      returns (found: Option<Chain>, failures: seq<PolicyFailure>, stack: seq<Chain>,
               ghost told: Trace, ghost rest: Trace)
      requires rootCertificates.Valid() && intermediates.Valid() && s == Space(intermediates)
      requires partial != [] && NoneEmpty(base)
      modifies diagnostics
      ensures diagnostics != null ==> diagnostics.events == old(diagnostics.events) + told
      ensures Progress(Pending(s, base + [partial]), found, failures, told, rest)
      ensures NoneEmpty(stack)
      ensures found.None? ==> rest == Pending(s, stack)
      ensures Searches(told) == 1
    {
      ghost var start := EventsOf(diagnostics);
      found, failures, told, rest := VisitRoots(partial, diagnostics, s);
      ghost var later := s.IntermediateVisitEvents(partial) + (s.ContinuationEvents(partial) + Pending(s, base));
      RootsVisited(s, partial, base, found, failures, told, rest);
      rest := rest + later;
      if found.Some? {
        return found, failures, base, told, rest;
      }
      stack := VisitIntermediates(partial, base, intermediates, diagnostics, s);
      Reassociate(start, told, s.IntermediateVisitEvents(partial));
      SilentProgress(s, partial, Pending(s, base + [partial]), failures, told, Pending(s, stack));
      told, rest := told + s.IntermediateVisitEvents(partial), Pending(s, stack);
    }

    /** Searches depth first until the work stack is empty or the policy accepts; `pops` counts the turns. */
    method Search(leaf: Certificate, intermediates: CertificateStore, rejected: seq<PolicyFailure>,
                  diagnostics: DiagnosticLog?, ghost s: SearchSpace, ghost before: Trace)
      returns (result: ChainValidationResult, ghost told: Trace, ghost pops: nat)
      requires rootCertificates.Valid() && intermediates.Valid() && s == Space(intermediates)
      requires !HasUnhandledCriticalExtensions(leaf, policy)
      requires NoneEmpty([[leaf]])
      requires Progress(s.FullTrace(leaf), None, rejected, before, Pending(s, [[leaf]]) + Ending(leaf))
      modifies diagnostics
      ensures diagnostics != null ==> diagnostics.events == old(diagnostics.events) + told
      ensures result == s.RunResult(leaf)
      ensures s.RunEvents(leaf) == before + told
      ensures pops == Searches(told)
    {
      var policyFailures := rejected;
      var stack: seq<Chain> := [[leaf]];
      ghost var start := EventsOf(diagnostics);
      told, pops := [], 0;
      NothingAdded(before);
      while stack != []
        invariant NoneEmpty(stack)
        invariant pops == Searches(told)
        invariant diagnostics != null ==> diagnostics.events == start + told
        invariant Progress(s.FullTrace(leaf), None, policyFailures, before + told, Pending(s, stack) + Ending(leaf))
        decreases |Pending(s, stack)|
      {
        var partial, base := stack[|stack| - 1], stack[..|stack| - 1];
        PopLast(stack);
        var found, failures;
        ghost var toldNow, rest;
        ghost var pending := Pending(s, stack);
        found, failures, stack, toldNow, rest := Visit(partial, base, intermediates, diagnostics, s);
        SearchStep(s, leaf, policyFailures, before, told, pending, found, failures, toldNow, rest);
        Reassociate(start, told, toldNow);
        pops := pops + 1;
        policyFailures, told := policyFailures + failures, told + toldNow;
        if found.Some? {
          return Ok(found.value), told, pops;
        }
      }
      Diagnose(diagnostics, CouldNotValidateLeafCertificate(leaf));
      Reassociate(start, told, Ending(leaf));
      EndSearch(s, leaf, policyFailures, before, told);
      return Err(policyFailures), told + Ending(leaf), pops;
    }

    /** Builds and checks chains; `pops` counts the partial chains taken off the work stack. */
    method ValidateInner(leaf: Certificate, intermediates: CertificateStore, diagnostics: DiagnosticLog?)
      returns (result: ChainValidationResult, ghost pops: nat)
      requires rootCertificates.Valid() && intermediates.Valid()
      modifies diagnostics
      ensures result == Space(intermediates).RunResult(leaf)
      ensures diagnostics != null ==>
        diagnostics.events == old(diagnostics.events) + Space(intermediates).RunEvents(leaf)
      ensures pops == Searches(Space(intermediates).RunEvents(leaf))
    {
      ghost var s := Space(intermediates);
      if HasUnhandledCriticalExtensions(leaf, policy) {
        Diagnose(diagnostics,
          LeafCertificateHasUnhandledCriticalExtension(leaf, policy.VerifyingCriticalExtensions()));
        assert s.RunEvents(leaf)[1..] == [];
        return Err([PolicyFailure([leaf], UNHANDLED_LEAF_EXTENSION)]), 0;
      }
      var found, policyFailures := TryLeaf(leaf, diagnostics, s);
      ghost var start, before := EventsOf(diagnostics), s.LeafInRootStoreEvents(leaf);
      StartSearch(s, leaf, found, policyFailures);
      NothingSearchedYet(s, leaf);
      if found.Some? {
        return Ok(found.value), 0;
      }
      ghost var told;
      result, told, pops := Search(leaf, intermediates, policyFailures, diagnostics, s, before);
      CheckConcat(before, told);
      Reassociate(old(EventsOf(diagnostics)), before, told);
    }

    method Validate(leaf: Certificate, intermediates: CertificateStore) returns (result: ChainValidationResult)
      requires rootCertificates.Valid() && intermediates.Valid()
      ensures result == Space(intermediates).RunResult(leaf)
      ensures match result
        case Ok(chain) =>
          IsValidChain(rootCertificates.contents, intermediates.contents, verify, policy, leaf, chain)
        case Err(_) => forall chain ::
          !IsValidChain(rootCertificates.contents, intermediates.contents, verify, policy, leaf, chain)
    {
      ValidatesExactly(Space(intermediates), leaf);
      ghost var pops;
      result, pops := ValidateInner(leaf, intermediates, null);
    }

    method ValidateWithDiagnostics(leaf: Certificate, intermediates: CertificateStore, diagnostics: DiagnosticLog)
      returns (result: ChainValidationResult)
      requires rootCertificates.Valid() && intermediates.Valid()
      modifies diagnostics
      ensures result == Space(intermediates).RunResult(leaf)
      ensures diagnostics.events == old(diagnostics.events) + Space(intermediates).RunEvents(leaf)
    {
      ghost var pops;
      result, pops := ValidateInner(leaf, intermediates, diagnostics);
    }
  }

  ghost function Ending(leaf: Certificate): Trace {
    [CouldNotValidateLeafCertificate(leaf)]
  }

  lemma RootsVisited(s: SearchSpace, partial: Chain, base: seq<Chain>, found: Option<Chain>,
                     failures: seq<PolicyFailure>, told: Trace, rest: Trace)
    requires partial != [] && NoneEmpty(base)
    requires Progress(s.RootVisitEvents(partial), found, failures, told, rest)
    ensures var later := s.IntermediateVisitEvents(partial) + (s.ContinuationEvents(partial) + Pending(s, base));
      && Progress(Pending(s, base + [partial]), found, failures, told, rest + later)
      && (rest == [] ==> Progress(Pending(s, base + [partial]), found, failures, told, later))
  {
    var all := Pending(s, base + [partial]);
    var later := s.IntermediateVisitEvents(partial) + (s.ContinuationEvents(partial) + Pending(s, base));
    PopStep(s, partial, base);
    assert all == [] + (s.RootVisitEvents(partial) + later);
    ComposeProgress(all, [], [], s.RootVisitEvents(partial), found, failures, told, rest, later);
    NothingAdded(failures);
    NothingAdded(told);
    NothingAdded(later);
  }

  lemma StackOfLeaf(s: SearchSpace, leaf: Certificate)
    ensures NoneEmpty([[leaf]])
    ensures Pending(s, [[leaf]]) == s.SearchEvents([leaf])
  {
    PendingPush(s, [], [leaf]);
    assert [] + [[leaf]] == [[leaf]];
    NothingAdded(s.SearchEvents([leaf]));
  }

  lemma StartSearch(s: SearchSpace, leaf: Certificate, found: Option<Chain>, failures: seq<PolicyFailure>)
    requires !HasUnhandledCriticalExtensions(leaf, s.policy)
    requires Progress(s.LeafInRootStoreEvents(leaf), found, failures, s.LeafInRootStoreEvents(leaf), [])
    ensures NoneEmpty([[leaf]])
    ensures Progress(s.FullTrace(leaf), found, failures, s.LeafInRootStoreEvents(leaf),
                     Pending(s, [[leaf]]) + Ending(leaf))
    ensures found.Some? ==>
      s.RunResult(leaf) == Ok(found.value) && s.RunEvents(leaf) == s.LeafInRootStoreEvents(leaf)
  {
    StackOfLeaf(s, leaf);
    if found.Some? {
      SearchDecides(s, leaf, found, failures, s.LeafInRootStoreEvents(leaf), s.SearchEvents([leaf]) + Ending(leaf));
    }
  }

  lemma NothingSearchedYet(s: SearchSpace, leaf: Certificate)
    ensures Searches(s.LeafInRootStoreEvents(leaf)) == 0
  {
    LeafInRootStoreConsiders(s, leaf);
  }

  /** One turn of the search, seen from the whole run. */
  lemma SearchStep(s: SearchSpace, leaf: Certificate, policyFailures: seq<PolicyFailure>, before: Trace, told: Trace,
                   pending: Trace, found: Option<Chain>, failures: seq<PolicyFailure>, toldNow: Trace, rest: Trace)
    requires !HasUnhandledCriticalExtensions(leaf, s.policy)
    requires Progress(s.FullTrace(leaf), None, policyFailures, before + told, pending + Ending(leaf))
    requires Progress(pending, found, failures, toldNow, rest)
    ensures found.None? ==>
      Progress(s.FullTrace(leaf), None, policyFailures + failures, before + (told + toldNow), rest + Ending(leaf))
    ensures Searches(told + toldNow) == Searches(told) + Searches(toldNow)
    ensures found.Some? ==> s.RunResult(leaf) == Ok(found.value) && s.RunEvents(leaf) == before + (told + toldNow)
  {
    ComposeProgress(s.FullTrace(leaf), policyFailures, before + told, pending, found, failures, toldNow, rest,
                    Ending(leaf));
    CheckConcat(told, toldNow);
    Reassociate(before, told, toldNow);
    if found.Some? {
      SearchDecides(s, leaf, found, policyFailures + failures, before + told + toldNow, rest + Ending(leaf));
    }
  }

  lemma AnnouncedProgress(s: SearchSpace, partial: Chain, found: Option<Chain>, failures: seq<PolicyFailure>,
                          told: Trace, rest: Trace)
    requires partial != []
    requires Progress(s.RootEvents(partial, s.Offered(s.roots, partial)), found, failures, told, rest)
    ensures Progress(s.RootVisitEvents(partial), found, failures, s.AnnounceRoots(partial) + told, rest)
  {
    AnnouncementsAreSilent(s, partial);
    SilentInFront(s.AnnounceRoots(partial), s.RootEvents(partial, s.Offered(s.roots, partial)),
                  found, failures, told, rest);
  }

  lemma AnnouncedOnce(s: SearchSpace, partial: Chain, told: Trace, rest: Trace)
    requires partial != []
    requires s.RootEvents(partial, s.Offered(s.roots, partial)) == told + rest
    ensures Searches(s.AnnounceRoots(partial) + told) == 1
  {
    AnnouncementsAreSilent(s, partial);
    RootEventsConsider(s, partial, s.Offered(s.roots, partial));
    CheckConcat(told, rest);
    CheckConcat(s.AnnounceRoots(partial), told);
  }

  /** Popping the top of the stack leaves its visit, its continuations and the rest of the stack to be told. */
  lemma PopStep(s: SearchSpace, partial: Chain, base: seq<Chain>)
    requires partial != [] && NoneEmpty(base)
    ensures NoneEmpty(base + [partial])
    ensures Pending(s, base + [partial])
      == s.RootVisitEvents(partial)
        + (s.IntermediateVisitEvents(partial) + (s.ContinuationEvents(partial) + Pending(s, base)))
    ensures |s.RootVisitEvents(partial)| > 0
  {
    PendingPush(s, base, partial);
    Regroup(s.RootVisitEvents(partial), s.IntermediateVisitEvents(partial), s.ContinuationEvents(partial),
            Pending(s, base));
  }

  lemma SilentProgress(s: SearchSpace, partial: Chain, all: Trace, failures: seq<PolicyFailure>,
                       told: Trace, rest: Trace)
    requires partial != []
    requires Progress(all, None, failures, told, s.IntermediateVisitEvents(partial) + rest)
    ensures Progress(all, None, failures, told + s.IntermediateVisitEvents(partial), rest)
    ensures Searches(told + s.IntermediateVisitEvents(partial)) == Searches(told)
  {
    VisitConsiders(s, partial);
    var t := s.IntermediateVisitEvents(partial);
    CheckConcat(told, t);
    ComposeProgress(all, failures, told, t, None, [], t, [], rest);
    NothingAdded(failures);
    NothingAdded(rest);
  }

  lemma EndSearch(s: SearchSpace, leaf: Certificate, failures: seq<PolicyFailure>, before: Trace, told: Trace)
    requires !HasUnhandledCriticalExtensions(leaf, s.policy)
    requires Progress(s.FullTrace(leaf), None, failures, before + told, Pending(s, []) + Ending(leaf))
    ensures s.RunResult(leaf) == Err(failures)
    ensures s.RunEvents(leaf) == before + (told + Ending(leaf))
    ensures Searches(told + Ending(leaf)) == Searches(told)
  {
    SingleSilent(Ending(leaf)[0], s.policy);
    CheckConcat(told, Ending(leaf));
    SingleProgress(Ending(leaf)[0]);
    NothingAdded(Ending(leaf));
    ComposeProgress(s.FullTrace(leaf), failures, before + told, Ending(leaf), None, [], Ending(leaf), [], []);
    NothingAdded(failures);
    Reassociate(before, told, Ending(leaf));
    SearchDecides(s, leaf, None, failures, before + told + Ending(leaf), [] + []);
  }

  lemma SameIdentityIsSharedId(candidate: Certificate, partial: Chain)
    ensures (exists existing :: existing in partial && existing.HasSameIdentityAs(candidate))
      <==> candidate.Id() in Identities(partial)
  {
    if candidate.Id() in Identities(partial) {
      var existing := IdentityBearer(partial, candidate.Id());
      assert existing.HasSameIdentityAs(candidate);
    } else {
      forall existing | existing in partial ensures !existing.HasSameIdentityAs(candidate) {
        IdentitiesInclude(partial, existing);
      }
    }
  }
}
