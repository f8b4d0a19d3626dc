/** How the diagnostics of a search relate to its candidate chains and to its result. */
module SearchTraces {
  import opened Wrappers
  import opened Certificates
  import opened PolicyBuilder
  import opened ChainSearch
  import opened Sequences

  ghost predicate NoneValid(trace: Trace) {
    trace == [] || (!trace[0].FoundValidCertificateChain? && NoneValid(trace[1..]))
  }

  /** The event says of its chain what the policy says of it. */
  ghost predicate Honest(e: VerificationDiagnostic, policy: Policy) {
    match e
    case LeafCertificateIsInTheRootStoreButDoesNotMeetPolicy(leaf, reason) =>
      policy.ChainMeetsPolicyRequirements([leaf]) == Err(reason)
    case ChainFailsToMeetPolicy(chain, reason) => policy.ChainMeetsPolicyRequirements(chain) == Err(reason)
    case FoundValidCertificateChain(chain) => policy.ChainMeetsPolicyRequirements(chain).Ok?
    case _ => true
  }

  ghost predicate AllHonest(trace: Trace, policy: Policy) {
    trace == [] || (Honest(trace[0], policy) && AllHonest(trace[1..], policy))
  }

  lemma {:induction false} ConsideredConcat(a: Trace, b: Trace)
    ensures Considered(a + b) == Considered(a) + Considered(b)
  {
    if a == [] {
      NothingAdded(b);
      NothingAdded(Considered(b));
    } else {
      ConsideredConcat(a[1..], b);
      Uncons(a, b);
      Reassociate(Asked(a[0]), Considered(a[1..]), Considered(b));
    }
  }

  lemma {:induction false} RejectionsConcat(a: Trace, b: Trace)
    ensures Rejections(a + b) == Rejections(a) + Rejections(b)
  {
    if a == [] {
      NothingAdded(b);
      NothingAdded(Rejections(b));
    } else {
      RejectionsConcat(a[1..], b);
      Uncons(a, b);
      Reassociate(Rejection(a[0]), Rejections(a[1..]), Rejections(b));
    }
  }

  lemma {:induction false} CheckConcat(a: Trace, b: Trace)
    ensures Searches(a + b) == Searches(a) + Searches(b)
    ensures NoneValid(a + b) <==> NoneValid(a) && NoneValid(b)
  {
    if a == [] {
      NothingAdded(b);
    } else {
      CheckConcat(a[1..], b);
      Uncons(a, b);
    }
  }

  lemma {:induction false} HonestConcat(a: Trace, b: Trace, policy: Policy)
    ensures AllHonest(a + b, policy) <==> AllHonest(a, policy) && AllHonest(b, policy)
  {
    if a == [] {
      NothingAdded(b);
    } else {
      HonestConcat(a[1..], b, policy);
      Uncons(a, b);
    }
  }

  /** Every reading of a trace distributes over concatenation. */
  lemma TraceConcat(a: Trace, b: Trace, policy: Policy)
    ensures Considered(a + b) == Considered(a) + Considered(b)
    ensures Rejections(a + b) == Rejections(a) + Rejections(b)
    ensures Searches(a + b) == Searches(a) + Searches(b)
    ensures AllHonest(a + b, policy) <==> AllHonest(a, policy) && AllHonest(b, policy)
    ensures NoneValid(a + b) <==> NoneValid(a) && NoneValid(b)
  {
    ConsideredConcat(a, b);
    RejectionsConcat(a, b);
    CheckConcat(a, b);
    HonestConcat(a, b, policy);
  }

  lemma {:induction false} UpToFirstValidStops(before: Trace, valid: VerificationDiagnostic, after: Trace)
    requires NoneValid(before) && valid.FoundValidCertificateChain?
    ensures UpToFirstValid(before + [valid] + after) == before + [valid]
  {
    if before == [] {
      assert before + [valid] + after == [valid] + after;
    } else {
      UpToFirstValidStops(before[1..], valid, after);
      assert (before + [valid] + after)[1..] == before[1..] + [valid] + after;
    }
  }

  lemma {:induction false} UpToFirstValidKeeps(trace: Trace)
    requires NoneValid(trace)
    ensures UpToFirstValid(trace) == trace
  {
    if trace != [] {
      UpToFirstValidKeeps(trace[1..]);
    }
  }

  /** With no valid chain among them, the considered chains are decided into every rejection, in order. */
  lemma {:induction false} DecideFromTrace(s: SearchSpace, trace: Trace)
    requires AllHonest(trace, s.policy)
    requires NoneValid(trace)
    ensures s.Decide(Considered(trace)) == Err(Rejections(trace))
  {
    if trace != [] {
      DecideFromTrace(s, trace[1..]);
      if Asked(trace[0]) != [] {
        assert Considered(trace)[1..] == Considered(trace[1..]);
      } else {
        assert Considered(trace) == Considered(trace[1..]);
        assert Rejections(trace) == Rejections(trace[1..]);
      }
    }
  }

  /** With a valid chain among them, the considered chains are decided into the first valid one. */
  lemma {:induction false} DecideStops(s: SearchSpace, before: Trace, valid: VerificationDiagnostic, after: Trace)
    requires AllHonest(before + [valid] + after, s.policy)
    requires NoneValid(before) && valid.FoundValidCertificateChain?
    ensures s.Decide(Considered(before + [valid] + after)) == Ok(valid.chain)
  {
    var trace := before + [valid] + after;
    if before == [] {
      assert trace[0] == valid;
      assert Considered(trace) == [valid.chain] + Considered(trace[1..]);
    } else {
      assert trace[1..] == before[1..] + [valid] + after;
      DecideStops(s, before[1..], valid, after);
      if Asked(trace[0]) != [] {
        assert Considered(trace)[1..] == Considered(trace[1..]);
      } else {
        assert Considered(trace) == Considered(trace[1..]);
      }
    }
  }

  /** After `told` of `all` the search has given `found` and `failures`; `rest` is still to be told. */
  ghost predicate Progress(all: Trace, found: Option<Chain>, failures: seq<PolicyFailure>, told: Trace, rest: Trace) {
    && all == told + rest
    && failures == Rejections(told)
    && match found
       case None => NoneValid(told)
       case Some(chain) =>
         && told != [] && told[|told| - 1] == FoundValidCertificateChain(chain)
         && NoneValid(told[..|told| - 1])
  }

  /** What is said before the first question leaves the progress what it is. */
  lemma SilentInFront(front: Trace, part: Trace, found: Option<Chain>, failures: seq<PolicyFailure>, told: Trace,
                      rest: Trace)
    requires Rejections(front) == [] && NoneValid(front)
    requires Progress(part, found, failures, told, rest)
    ensures Progress(front + part, found, failures, front + told, rest)
  {
    NothingAdded(part);
    ComposeProgress(front + part, [], front, part, found, failures, told, rest, []);
    NothingAdded(failures);
    NothingAdded(rest);
  }

  lemma SingleProgress(e: VerificationDiagnostic)
    ensures Progress([e], if e.FoundValidCertificateChain? then Some(e.chain) else None, Rejection(e), [e], [])
  {
    assert [e][1..] == [];
  }

  /** Progress through the next part of a trace is progress through the trace. */
  lemma ComposeProgress(all: Trace, failures: seq<PolicyFailure>, told: Trace,
                        part: Trace, found: Option<Chain>, failures': seq<PolicyFailure>, told': Trace, rest': Trace,
                        rest: Trace)
    requires Progress(all, None, failures, told, part + rest)
    requires Progress(part, found, failures', told', rest')
    ensures Progress(all, found, failures + failures', told + told', rest' + rest)
  {
    RejectionsConcat(told, told');
    CheckConcat(told, told');
    if found.Some? {
      var n := |told'| - 1;
      CheckConcat(told, told'[..n]);
      assert (told + told')[..|told| + n] == told + told'[..n];
    }
  }

  /** An honest trace told up to its first valid chain decides the chains it considers. */
  lemma ProgressDecides(s: SearchSpace, all: Trace, found: Option<Chain>, failures: seq<PolicyFailure>,
                        told: Trace, rest: Trace)
    requires AllHonest(all, s.policy)
    requires Progress(all, found, failures, told, rest)
    requires found.None? ==> rest == []
    ensures s.Decide(Considered(all)) == if found.Some? then Ok(found.value) else Err(failures)
    ensures UpToFirstValid(all) == told
  {
    if found.Some? {
      var before, valid := told[..|told| - 1], told[|told| - 1];
      assert all == before + [valid] + rest;
      DecideStops(s, before, valid, rest);
      UpToFirstValidStops(before, valid, rest);
    } else {
      assert all == told;
      DecideFromTrace(s, told);
      UpToFirstValidKeeps(told);
    }
  }

  // ----- the full trace considers the enumerated chains, honestly

  /** An event about no chain and no pop. */
  ghost predicate Silent(e: VerificationDiagnostic) {
    Asked(e) == [] && Rejection(e) == [] && !e.SearchingForIssuerOfPartialChain?
  }

  lemma SingleSilent(e: VerificationDiagnostic, policy: Policy)
    requires Silent(e)
    ensures Considered([e]) == [] && Rejections([e]) == [] && Searches([e]) == 0
    ensures AllHonest([e], policy) && NoneValid([e])
  {
  }

  lemma {:induction false} RootEventsConsider(s: SearchSpace, partial: Chain, cs: seq<Certificate>)
    requires partial != []
    ensures Considered(s.RootEvents(partial, cs)) == s.Extended(partial, s.Usable(cs, partial))
    ensures Searches(s.RootEvents(partial, cs)) == 0
    ensures AllHonest(s.RootEvents(partial, cs), s.policy)
  {
    if cs != [] {
      RootEventsConsider(s, partial, cs[1..]);
      var e, rest := s.RootEvent(partial, cs[0]), s.RootEvents(partial, cs[1..]);
      assert s.RootEvents(partial, cs)[0] == e && s.RootEvents(partial, cs)[1..] == rest;
      if s.ShouldSkip(cs[0], partial) {
        assert Asked(e) == [] && Considered([e] + rest) == Considered(rest);
        assert s.Usable(cs, partial) == s.Usable(cs[1..], partial);
      } else {
        assert Asked(e) == [partial + [cs[0]]];
        assert s.Usable(cs, partial)[1..] == s.Usable(cs[1..], partial);
      }
    }
  }

  lemma {:induction false} PushEventsAreSilent(s: SearchSpace, partial: Chain, cs: seq<Certificate>)
    requires partial != []
    ensures var t := s.PushEvents(partial, cs);
      Considered(t) == [] && Rejections(t) == [] && Searches(t) == 0 && AllHonest(t, s.policy) && NoneValid(t)
  {
    if cs != [] {
      PushEventsAreSilent(s, partial, cs[1..]);
      if s.ShouldSkip(cs[0], partial) {
        SingleSilent(s.SkipReason(cs[0], partial), s.policy);
        TraceConcat(s.PushEvents(partial, cs[1..]), [s.SkipReason(cs[0], partial)], s.policy);
      } else {
        assert s.PushEvents(partial, cs) == s.PushEvents(partial, cs[1..]);
      }
    }
  }

  lemma AnnouncementsAreSilent(s: SearchSpace, partial: Chain)
    requires partial != []
    ensures var t := s.AnnounceRoots(partial);
      Considered(t) == [] && Rejections(t) == [] && Searches(t) == 1 && AllHonest(t, s.policy) && NoneValid(t)
    ensures var t := s.AnnounceIntermediates(partial);
      Considered(t) == [] && Rejections(t) == [] && Searches(t) == 0 && AllHonest(t, s.policy) && NoneValid(t)
  {
    var e, more := SearchingForIssuerOfPartialChain(partial), s.AnnounceRoots(partial)[1..];
    SearchingAlone(e, s.policy);
    AtMostOneSilent(more, s.policy);
    TraceConcat([e], more, s.policy);
    assert s.AnnounceRoots(partial) == [e] + more;
    AtMostOneSilent(s.AnnounceIntermediates(partial), s.policy);
  }

  lemma AtMostOneSilent(t: Trace, policy: Policy)
    requires t == [] || (Silent(t[0]) && t == [t[0]])
    ensures Considered(t) == [] && Rejections(t) == [] && Searches(t) == 0 && AllHonest(t, policy) && NoneValid(t)
  {
  }

  lemma SearchingAlone(e: VerificationDiagnostic, policy: Policy)
    requires e.SearchingForIssuerOfPartialChain?
    ensures Considered([e]) == [] && Rejections([e]) == [] && Searches([e]) == 1
    ensures AllHonest([e], policy) && NoneValid([e])
  {
  }

  lemma VisitConsiders(s: SearchSpace, partial: Chain)
    requires partial != []
    ensures Considered(s.RootVisitEvents(partial)) == s.Extended(partial, s.Issuers(s.roots, partial))
    ensures Searches(s.RootVisitEvents(partial)) == 1
    ensures AllHonest(s.RootVisitEvents(partial), s.policy)
    ensures var t := s.IntermediateVisitEvents(partial);
      Considered(t) == [] && Rejections(t) == [] && Searches(t) == 0 && AllHonest(t, s.policy) && NoneValid(t)
  {
    AnnouncementsAreSilent(s, partial);
    RootEventsConsider(s, partial, s.Offered(s.roots, partial));
    PushEventsAreSilent(s, partial, s.Offered(s.intermediates, partial));
    TraceConcat(s.AnnounceRoots(partial), s.RootEvents(partial, s.Offered(s.roots, partial)), s.policy);
    TraceConcat(s.AnnounceIntermediates(partial), s.PushEvents(partial, s.Offered(s.intermediates, partial)), s.policy);
  }

  lemma ThreeParts(t1: Trace, t2: Trace, t3: Trace, policy: Policy)
    requires Considered(t2) == [] && Searches(t2) == 0
    requires AllHonest(t1, policy) && AllHonest(t2, policy) && AllHonest(t3, policy)
    ensures Considered(t1 + (t2 + t3)) == Considered(t1) + Considered(t3)
    ensures Searches(t1 + (t2 + t3)) == Searches(t1) + Searches(t3)
    ensures AllHonest(t1 + (t2 + t3), policy)
  {
    ConsideredOfThree(t1, t2, t3);
    SearchesOfThree(t1, t2, t3);
    HonestConcat(t2, t3, policy);
    HonestConcat(t1, t2 + t3, policy);
  }

  lemma ConsideredOfThree(t1: Trace, t2: Trace, t3: Trace)
    requires Considered(t2) == []
    ensures Considered(t1 + (t2 + t3)) == Considered(t1) + Considered(t3)
  {
    ConsideredConcat(t2, t3);
    ConsideredConcat(t1, t2 + t3);
    NothingAdded(Considered(t3));
  }

  lemma SearchesOfThree(a: Trace, b: Trace, c: Trace)
    ensures Searches(a + (b + c)) == Searches(a) + Searches(b) + Searches(c)
  {
    CheckConcat(a, b + c);
    CheckConcat(b, c);
  }

  lemma {:induction false} SearchConsiders(s: SearchSpace, partial: Chain)
    requires partial != []
    ensures Considered(s.SearchEvents(partial)) == s.Enumerate(partial)
    ensures AllHonest(s.SearchEvents(partial), s.policy)
    decreases s.Unused(partial), 1, 0
  {
    s.IssuersAreFresh(partial);
    VisitConsiders(s, partial);
    SearchEachConsiders(s, partial, s.Issuers(s.intermediates, partial));
    ThreeParts(s.RootVisitEvents(partial), s.IntermediateVisitEvents(partial), s.ContinuationEvents(partial), s.policy);
  }

  lemma {:induction false} SearchEachConsiders(s: SearchSpace, partial: Chain, issuers: seq<Certificate>)
    requires partial != []
    requires s.Fresh(issuers, partial)
    ensures Considered(s.SearchEventsEach(partial, issuers)) == s.EnumerateEach(partial, issuers)
    ensures AllHonest(s.SearchEventsEach(partial, issuers), s.policy)
    decreases s.Unused(partial), 0, |issuers|
  {
    if issuers != [] {
      s.UnusedShrinks(partial, issuers[0]);
      SearchConsiders(s, partial + [issuers[0]]);
      SearchEachConsiders(s, partial, issuers[1..]);
      TraceConcat(s.SearchEvents(partial + [issuers[0]]), s.SearchEventsEach(partial, issuers[1..]), s.policy);
    }
  }

  lemma LeafInRootStoreConsiders(s: SearchSpace, leaf: Certificate)
    ensures Considered(s.LeafInRootStoreEvents(leaf)) == s.TrustedLeaf(leaf)
    ensures AllHonest(s.LeafInRootStoreEvents(leaf), s.policy)
    ensures Searches(s.LeafInRootStoreEvents(leaf)) == 0
  {
    var t := s.LeafInRootStoreEvents(leaf);
    if t != [] {
      assert t[1..] == [];
    }
  }

  lemma SilentEnding(a: Trace, b: Trace, e: VerificationDiagnostic, first: seq<Chain>, second: seq<Chain>)
    requires Silent(e) && Considered(a) == first && Considered(b) == second
    ensures Considered(a + (b + [e])) == first + second
  {
    assert Considered([e]) == [];
    ConsideredConcat(b, [e]);
    ConsideredConcat(a, b + [e]);
    NothingAdded(Considered(b));
  }

  lemma HonestEnding(a: Trace, b: Trace, e: VerificationDiagnostic, policy: Policy)
    requires Silent(e) && AllHonest(a, policy) && AllHonest(b, policy)
    ensures AllHonest(a + (b + [e]), policy)
  {
    SingleSilent(e, policy);
    HonestConcat(b, [e], policy);
    HonestConcat(a, b + [e], policy);
  }

  lemma PartsAreHonest(s: SearchSpace, leaf: Certificate)
    ensures AllHonest(s.LeafInRootStoreEvents(leaf), s.policy)
    ensures AllHonest(s.SearchEvents([leaf]), s.policy)
  {
    LeafInRootStoreConsiders(s, leaf);
    SearchConsiders(s, [leaf]);
  }

  lemma FullTraceIsHonest(s: SearchSpace, leaf: Certificate)
    ensures AllHonest(s.FullTrace(leaf), s.policy)
  {
    PartsAreHonest(s, leaf);
    HonestEnding(s.LeafInRootStoreEvents(leaf), s.SearchEvents([leaf]), CouldNotValidateLeafCertificate(leaf),
                 s.policy);
  }

  lemma PartsConsider(s: SearchSpace, leaf: Certificate)
    ensures Considered(s.LeafInRootStoreEvents(leaf)) == s.TrustedLeaf(leaf)
    ensures Considered(s.SearchEvents([leaf])) == s.Enumerate([leaf])
  {
    LeafInRootStoreConsiders(s, leaf);
    SearchConsiders(s, [leaf]);
  }

  /** A search that never stops early asks the policy about exactly the candidate chains, in order. */
  lemma FullTraceConsiders(s: SearchSpace, leaf: Certificate)
    ensures Considered(s.FullTrace(leaf)) == s.Candidates(leaf)
  {
    PartsConsider(s, leaf);
    SilentEnding(s.LeafInRootStoreEvents(leaf), s.SearchEvents([leaf]), CouldNotValidateLeafCertificate(leaf),
                 s.TrustedLeaf(leaf), s.Enumerate([leaf]));
  }

  /** A search that has told everything up to its first valid chain has its result. */
  lemma SearchDecides(s: SearchSpace, leaf: Certificate, found: Option<Chain>, failures: seq<PolicyFailure>,
                      told: Trace, rest: Trace)
    requires !HasUnhandledCriticalExtensions(leaf, s.policy)
    requires Progress(s.FullTrace(leaf), found, failures, told, rest)
    requires found.None? ==> rest == []
    ensures s.RunResult(leaf) == if found.Some? then Ok(found.value) else Err(failures)
    ensures s.RunEvents(leaf) == told
  {
    FullTraceConsiders(s, leaf);
    FullTraceIsHonest(s, leaf);
    ProgressDecides(s, s.FullTrace(leaf), found, failures, told, rest);
  }
}
