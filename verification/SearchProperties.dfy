/** What the result of a search means, whatever the order in which it was found. */
module SearchProperties {
  import opened Wrappers
  import opened Certificates
  import opened PolicyBuilder
  import opened ChainSearch

  // ----- which chains are candidates

  ghost predicate Linked(s: SearchSpace, child: Certificate, issuer: Certificate) {
    && issuer.subject == child.issuer
    && s.IsSignedBy(child, issuer)
    && !HasUnhandledCriticalExtensions(issuer, s.policy)
  }

  /** A path from the leaf through intermediates to a root; identities may repeat. */
  ghost predicate IsPath(s: SearchSpace, leaf: Certificate, chain: Chain) {
    && |chain| >= 2
    && chain[0] == leaf
    && (forall k :: 1 <= k < |chain| ==> Linked(s, chain[k - 1], chain[k]))
    && (forall k :: 1 <= k < |chain| - 1 ==> chain[k] in s.intermediates)
    && Tip(chain) in s.roots
  }

  ghost predicate IsSimplePath(s: SearchSpace, leaf: Certificate, chain: Chain) {
    IsPath(s, leaf, chain) && DistinctIdentities(chain)
  }

  /** The chain continues `partial`, each certificate being a usable issuer of the part before it. */
  ghost predicate Grows(s: SearchSpace, partial: Chain, chain: Chain)
    requires partial != []
  {
    && |partial| < |chain| && chain[..|partial|] == partial
    && forall k :: |partial| <= k < |chain| ==> Attaches(s, chain, k)
  }

  ghost predicate Attaches(s: SearchSpace, chain: Chain, k: nat)
    requires 0 < k < |chain|
  {
    && chain[k] in (if k == |chain| - 1 then s.roots else s.intermediates)
    && chain[k].subject == chain[k - 1].issuer
    && !s.ShouldSkip(chain[k], chain[..k])
  }

  lemma AttachesAsIssuer(s: SearchSpace, chain: Chain, k: nat)
    requires 0 < k < |chain|
    ensures Attaches(s, chain, k)
      <==> chain[k] in s.Issuers(if k == |chain| - 1 then s.roots else s.intermediates, chain[..k])
  {
    s.IssuerMembers(if k == |chain| - 1 then s.roots else s.intermediates, chain[..k], chain[k]);
    assert Tip(chain[..k]) == chain[k - 1];
  }

  lemma GrowsByOne(s: SearchSpace, partial: Chain, chain: Chain)
    requires partial != [] && |partial| < |chain| && chain[..|partial|] == partial
    ensures Grows(s, partial, chain)
      <==> Attaches(s, chain, |partial|) && (|chain| > |partial| + 1 ==> Grows(s, chain[..|partial| + 1], chain))
  {
  }

  lemma ExtendedExactly(s: SearchSpace, partial: Chain, issuers: seq<Certificate>, chain: Chain)
    ensures chain in s.Extended(partial, issuers)
      <==> |chain| == |partial| + 1 && chain[..|partial|] == partial && chain[|partial|] in issuers
  {
    if chain in s.Extended(partial, issuers) {
      var c :| c in issuers && chain == partial + [c];
    }
    if |chain| == |partial| + 1 && chain[..|partial|] == partial && chain[|partial|] in issuers {
      assert chain == partial + [chain[|partial|]];
    }
  }

  /** The chain continues `partial` by at least two certificates, the first being one of the issuers. */
  ghost predicate GrowsThrough(s: SearchSpace, partial: Chain, issuers: seq<Certificate>, chain: Chain)
    requires partial != []
  {
    var n := |partial|;
    && n + 1 < |chain| && chain[..n] == partial
    && chain[n] in issuers
    && Grows(s, chain[..n + 1], chain)
  }

  lemma {:induction false} EnumerateExactly(s: SearchSpace, partial: Chain, chain: Chain)
    requires partial != []
    ensures chain in s.Enumerate(partial) <==> Grows(s, partial, chain)
    decreases s.Unused(partial), 1, 0
  {
    s.IssuersAreFresh(partial);
    var roots, issuers := s.Issuers(s.roots, partial), s.Issuers(s.intermediates, partial);
    EnumerateEachExactly(s, partial, issuers, chain);
    ExtendedExactly(s, partial, roots, chain);
    assert chain in s.Enumerate(partial)
      <==> chain in s.Extended(partial, roots) || GrowsThrough(s, partial, issuers, chain);
    if |partial| < |chain| && chain[..|partial|] == partial {
      GrowsByOne(s, partial, chain);
      AttachesAsIssuer(s, chain, |partial|);
    }
  }

  lemma {:induction false} EnumerateEachExactly(s: SearchSpace, partial: Chain, issuers: seq<Certificate>, chain: Chain)
    requires partial != []
    requires s.Fresh(issuers, partial)
    ensures chain in s.EnumerateEach(partial, issuers) <==> GrowsThrough(s, partial, issuers, chain)
    decreases s.Unused(partial), 0, |issuers|
  {
    if issuers != [] {
      s.UnusedShrinks(partial, issuers[0]);
      EnumerateExactly(s, partial + [issuers[0]], chain);
      EnumerateEachExactly(s, partial, issuers[1..], chain);
      GrowsThroughHead(s, partial, issuers, chain);
    }
  }

  lemma GrowsThroughHead(s: SearchSpace, partial: Chain, issuers: seq<Certificate>, chain: Chain)
    requires partial != [] && issuers != []
    ensures GrowsThrough(s, partial, issuers, chain)
      <==> Grows(s, partial + [issuers[0]], chain) || GrowsThrough(s, partial, issuers[1..], chain)
  {
    var n := |partial|;
    if Grows(s, partial + [issuers[0]], chain) {
      assert chain[..n] == chain[..n + 1][..n] == partial;
      assert chain[n] == chain[..n + 1][n] == issuers[0];
    }
    if GrowsThrough(s, partial, issuers, chain) && chain[n] !in issuers[1..] {
      assert chain[n] == issuers[0];
      assert chain[..n + 1] == partial + [issuers[0]];
    }
  }

  lemma GrownChainsAreSimple(s: SearchSpace, leaf: Certificate, chain: Chain)
    requires Grows(s, [leaf], chain)
    ensures IsSimplePath(s, leaf, chain)
  {
    assert chain[0] == chain[..1][0];
    forall k | 1 <= k < |chain|
      ensures Linked(s, chain[k - 1], chain[k])
      ensures k < |chain| - 1 ==> chain[k] in s.intermediates
      ensures forall i :: 0 <= i < k ==> chain[i].Id() != chain[k].Id()
    {
      assert Attaches(s, chain, k);
      assert Tip(chain[..k]) == chain[k - 1];
      forall i | 0 <= i < k ensures chain[i].Id() != chain[k].Id() {
        assert chain[i] == chain[..k][i];
        IdentitiesInclude(chain[..k], chain[i]);
      }
    }
    assert Attaches(s, chain, |chain| - 1);
  }

  lemma IdentityIsNew(chain: Chain, k: nat)
    requires DistinctIdentities(chain) && k < |chain|
    ensures chain[k].Id() !in Identities(chain[..k])
  {
    forall i | 0 <= i < k ensures chain[..k][i].Id() != chain[k].Id() {
      assert chain[i].Id() != chain[k].Id();
    }
    NotAnIdentity(chain[..k], chain[k].Id());
  }

  lemma {:induction false} NotAnIdentity(certificates: seq<Certificate>, id: Identity)
    requires forall i :: 0 <= i < |certificates| ==> certificates[i].Id() != id
    ensures id !in Identities(certificates)
  {
    if certificates != [] {
      NotAnIdentity(certificates[..|certificates| - 1], id);
    }
  }

  lemma SimplePathsGrow(s: SearchSpace, leaf: Certificate, chain: Chain)
    requires IsSimplePath(s, leaf, chain)
    ensures Grows(s, [leaf], chain)
  {
    assert chain[..1] == [leaf];
    forall k | 1 <= k < |chain| ensures Attaches(s, chain, k) {
      assert Linked(s, chain[k - 1], chain[k]);
      assert Tip(chain[..k]) == chain[k - 1];
      IdentityIsNew(chain, k);
    }
  }

  /** The enumerated chains are exactly the simple paths. */
  lemma EnumerationIsExact(s: SearchSpace, leaf: Certificate, chain: Chain)
    ensures chain in s.Enumerate([leaf]) <==> IsSimplePath(s, leaf, chain)
  {
    EnumerateExactly(s, [leaf], chain);
    if Grows(s, [leaf], chain) {
      GrownChainsAreSimple(s, leaf, chain);
    }
    if IsSimplePath(s, leaf, chain) {
      SimplePathsGrow(s, leaf, chain);
    }
  }

  ghost predicate IsTrustedLeaf(s: SearchSpace, leaf: Certificate, chain: Chain) {
    chain == [leaf] && leaf in s.roots
  }

  lemma CandidatesExactly(s: SearchSpace, leaf: Certificate, chain: Chain)
    ensures chain in s.Candidates(leaf) <==> IsTrustedLeaf(s, leaf, chain) || IsSimplePath(s, leaf, chain)
  {
    EnumerationIsExact(s, leaf, chain);
  }

  // ----- deciding among them

  ghost predicate IsFirstAccepted(s: SearchSpace, chains: seq<Chain>, i: nat, chain: Chain) {
    && i < |chains| && chains[i] == chain && s.policy.Accepts(chain)
    && forall j :: 0 <= j < i ==> !s.policy.Accepts(chains[j])
  }

  /** The failures are the chains, in order, each with the reason the policy gives for rejecting it. */
  ghost predicate ListsRejections(s: SearchSpace, chains: seq<Chain>, failures: seq<PolicyFailure>) {
    && |failures| == |chains|
    && (forall i :: 0 <= i < |chains| ==> failures[i].chain == chains[i])
    && (forall f :: f in failures ==> s.policy.ChainMeetsPolicyRequirements(f.chain) == Err(f.reason))
  }

  lemma {:induction false} DecideExactly(s: SearchSpace, chains: seq<Chain>)
    ensures match s.Decide(chains)
      case Ok(chain) => exists i: nat :: IsFirstAccepted(s, chains, i, chain)
      case Err(failures) => ListsRejections(s, chains, failures)
  {
    if chains == [] {
    } else if s.policy.Accepts(chains[0]) {
      assert s.Decide(chains) == Ok(chains[0]);
      FirstAcceptedHere(s, chains);
    } else {
      DecideExactly(s, chains[1..]);
      var rest := s.Decide(chains[1..]);
      if rest.Ok? {
        assert s.Decide(chains) == Ok(rest.value);
        FirstAcceptedLater(s, chains, rest.value);
      } else {
        RejectionsExtend(s, chains, rest.error, s.Decide(chains).error);
      }
    }
  }

  lemma FirstAcceptedHere(s: SearchSpace, chains: seq<Chain>)
    requires chains != [] && s.policy.Accepts(chains[0])
    ensures exists i: nat :: IsFirstAccepted(s, chains, i, chains[0])
  {
    var i: nat := 0;
    assert IsFirstAccepted(s, chains, i, chains[0]);
  }

  lemma FirstAcceptedLater(s: SearchSpace, chains: seq<Chain>, chain: Chain)
    requires chains != [] && !s.policy.Accepts(chains[0])
    requires exists i: nat :: IsFirstAccepted(s, chains[1..], i, chain)
    ensures exists i: nat :: IsFirstAccepted(s, chains, i, chain)
  {
    var i: nat :| IsFirstAccepted(s, chains[1..], i, chain);
    forall j | 0 <= j < i + 1 ensures !s.policy.Accepts(chains[j]) {
      assert j > 0 ==> chains[j] == chains[1..][j - 1] && !s.policy.Accepts(chains[1..][j - 1]);
    }
    var next: nat := i + 1;
    assert IsFirstAccepted(s, chains, next, chain);
  }

  lemma RejectionsExtend(s: SearchSpace, chains: seq<Chain>, rest: seq<PolicyFailure>, failures: seq<PolicyFailure>)
    requires chains != [] && failures != [] && failures[1..] == rest
    requires failures[0].chain == chains[0]
    requires s.policy.ChainMeetsPolicyRequirements(chains[0]) == Err(failures[0].reason)
    requires ListsRejections(s, chains[1..], rest)
    ensures ListsRejections(s, chains, failures)
  {
    forall i | 0 <= i < |chains| ensures failures[i].chain == chains[i] {
      assert i > 0 ==> failures[i] == rest[i - 1] && chains[i] == chains[1..][i - 1];
    }
    forall f | f in failures ensures s.policy.ChainMeetsPolicyRequirements(f.chain) == Err(f.reason) {
      assert f == failures[0] || f in rest;
    }
  }

  /**
   * Every returned chain is a trusted leaf or a simple path, free of unhandled critical extensions, that the policy
   * accepts.
   */
  lemma ReturnedChainIsSound(s: SearchSpace, leaf: Certificate, chain: Chain)
    requires s.RunResult(leaf) == Ok(chain)
    ensures IsTrustedLeaf(s, leaf, chain) || IsSimplePath(s, leaf, chain)
    ensures s.policy.Accepts(chain)
    ensures forall c :: c in chain ==> !HasUnhandledCriticalExtensions(c, s.policy)
  {
    DecideExactly(s, s.Candidates(leaf));
    CandidatesExactly(s, leaf, chain);
    forall c | c in chain ensures !HasUnhandledCriticalExtensions(c, s.policy) {
      var k :| 0 <= k < |chain| && chain[k] == c;
      if k > 0 {
        assert Linked(s, chain[k - 1], chain[k]);
      }
    }
  }

  /** The search succeeds exactly when some candidate is accepted: none is missed. */
  lemma SucceedsExactly(s: SearchSpace, leaf: Certificate)
    requires !HasUnhandledCriticalExtensions(leaf, s.policy)
    ensures s.RunResult(leaf).Ok? <==> exists chain ::
      (IsTrustedLeaf(s, leaf, chain) || IsSimplePath(s, leaf, chain)) && s.policy.Accepts(chain)
  {
    if s.RunResult(leaf).Ok? {
      ReturnedChainIsSound(s, leaf, s.RunResult(leaf).value);
    }
    forall chain | (IsTrustedLeaf(s, leaf, chain) || IsSimplePath(s, leaf, chain)) && s.policy.Accepts(chain)
      ensures s.RunResult(leaf).Ok?
    {
      CandidatesExactly(s, leaf, chain);
      AcceptedIsDecided(s, s.Candidates(leaf), chain);
    }
  }

  lemma {:induction false} AcceptedIsDecided(s: SearchSpace, chains: seq<Chain>, chain: Chain)
    requires chain in chains && s.policy.Accepts(chain)
    ensures s.Decide(chains).Ok?
  {
    if !s.policy.Accepts(chains[0]) {
      AcceptedIsDecided(s, chains[1..], chain);
    }
  }

  /** A failed search lists every candidate, once per way of reaching it, with the policy's reason. */
  lemma FailureListsEveryCandidate(s: SearchSpace, leaf: Certificate, failures: seq<PolicyFailure>)
    requires !HasUnhandledCriticalExtensions(leaf, s.policy)
    requires s.RunResult(leaf) == Err(failures)
    ensures ListsRejections(s, s.Candidates(leaf), failures)
    ensures forall chain ::
      (IsTrustedLeaf(s, leaf, chain) || IsSimplePath(s, leaf, chain) <==> exists f :: f in failures && f.chain == chain)
  {
    DecideExactly(s, s.Candidates(leaf));
    forall chain
      ensures IsTrustedLeaf(s, leaf, chain) || IsSimplePath(s, leaf, chain)
        <==> exists f :: f in failures && f.chain == chain
    {
      CandidatesExactly(s, leaf, chain);
      if chain in s.Candidates(leaf) {
        var i :| 0 <= i < |s.Candidates(leaf)| && s.Candidates(leaf)[i] == chain;
        assert failures[i].chain == chain;
      }
      if f :| f in failures && f.chain == chain {
        var i :| 0 <= i < |failures| && failures[i] == f;
        assert s.Candidates(leaf)[i] == chain;
      }
    }
  }

  /**
   * Every critical extension of every certificate in a returned chain was enforced by a leaf policy accepting the
   * chain.
   */
  lemma CriticalExtensionsAreEnforced(s: SearchSpace, leaf: Certificate, chain: Chain, c: Certificate, ext: Extension)
    requires s.RunResult(leaf) == Ok(chain)
    requires c in chain && ext in c.extensions && ext.critical
    ensures exists p :: p in s.policy.Leaves() && ext.oid in p.claims && p.verdict(chain).Ok?
  {
    ReturnedChainIsSound(s, leaf, chain);
    assert !HasUnhandledCriticalExtensions(c, s.policy);
    var p := ClaimsAreEnforced(s.policy, chain, ext.oid);
  }
}
