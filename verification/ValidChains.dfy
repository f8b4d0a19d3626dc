/** What validation decides, over the fields of the certificates alone. */
module ValidChains {
  import opened Bytes
  import opened Certificates
  import opened PolicyBuilder
  import opened ChainSearch
  import opened SearchProperties

  // ----- valid chains

  /** Whatever extension must be understood is. */
  ghost predicate IsHandled(c: Certificate, understood: seq<Bytes>) {
    forall ext :: ext in c.extensions && ext.critical ==> ext.oid in understood
  }

  /** The same subject, key and alternative names, no names being as good as unreadable ones. */
  ghost predicate DenoteTheSame(a: Certificate, b: Certificate) {
    && a.subject == b.subject && a.publicKey == b.publicKey
    && (if a.subjectAltName.Present? then a.subjectAltName.value else [])
      == (if b.subjectAltName.Present? then b.subjectAltName.value else [])
  }

  ghost predicate HasIssued(issuer: Certificate, child: Certificate, verify: SignatureVerifier) {
    && issuer.subject == child.issuer
    && verify(child.signatureAlgorithm, issuer.publicKey, child.tbs, child.signature)
  }

  /** From the leaf through intermediates to a root, each certificate issued by the next, none denoting another. */
  ghost predicate IsCertificationPath(roots: seq<Certificate>, intermediates: seq<Certificate>,
                                      verify: SignatureVerifier, leaf: Certificate, chain: Chain) {
    && |chain| >= 2
    && chain[0] == leaf
    && (forall k :: 1 <= k < |chain| - 1 ==> chain[k] in intermediates)
    && chain[|chain| - 1] in roots
    && (forall k :: 1 <= k < |chain| ==> HasIssued(chain[k], chain[k - 1], verify))
    && (forall i, j :: 0 <= i < j < |chain| ==> !DenoteTheSame(chain[i], chain[j]))
  }

  /** A root on its own or a path to one, every critical extension understood, accepted by the policy. */
  ghost predicate IsValidChain(roots: seq<Certificate>, intermediates: seq<Certificate>, verify: SignatureVerifier,
                               policy: Policy, leaf: Certificate, chain: Chain) {
    && ((chain == [leaf] && leaf in roots) || IsCertificationPath(roots, intermediates, verify, leaf, chain))
    && (forall c :: c in chain ==> IsHandled(c, policy.VerifyingCriticalExtensions()))
    && policy.ChainMeetsPolicyRequirements(chain).Ok?
  }

  lemma HandledIsNotUnhandled(c: Certificate, policy: Policy)
    ensures IsHandled(c, policy.VerifyingCriticalExtensions()) <==> !HasUnhandledCriticalExtensions(c, policy)
  {
  }

  lemma SameIsSameId(a: Certificate, b: Certificate)
    ensures DenoteTheSame(a, b) <==> a.Id() == b.Id()
  {
  }

  lemma SimplePathsAreCertificationPaths(s: SearchSpace, leaf: Certificate, chain: Chain)
    ensures IsSimplePath(s, leaf, chain) <==>
      && IsCertificationPath(s.roots, s.intermediates, s.verify, leaf, chain)
      && forall k :: 1 <= k < |chain| ==> IsHandled(chain[k], s.policy.VerifyingCriticalExtensions())
  {
    DistinctExactly(chain);
    if IsSimplePath(s, leaf, chain) {
      forall k | 1 <= k < |chain|
        ensures HasIssued(chain[k], chain[k - 1], s.verify)
        ensures IsHandled(chain[k], s.policy.VerifyingCriticalExtensions())
      {
        assert Linked(s, chain[k - 1], chain[k]);
      }
    } else if IsCertificationPath(s.roots, s.intermediates, s.verify, leaf, chain) {
      if forall k :: 1 <= k < |chain| ==> IsHandled(chain[k], s.policy.VerifyingCriticalExtensions()) {
        forall k | 1 <= k < |chain| ensures Linked(s, chain[k - 1], chain[k]) {
          assert HasIssued(chain[k], chain[k - 1], s.verify);
        }
      }
    }
  }

  lemma DistinctExactly(chain: Chain)
    ensures DistinctIdentities(chain)
      <==> forall i, j :: 0 <= i < j < |chain| ==> !DenoteTheSame(chain[i], chain[j])
  {
    forall i, j | 0 <= i < j < |chain| ensures DenoteTheSame(chain[i], chain[j]) <==> chain[i].Id() == chain[j].Id() {
      SameIsSameId(chain[i], chain[j]);
    }
  }

  lemma ValidChainsExactly(s: SearchSpace, leaf: Certificate, chain: Chain)
    ensures IsValidChain(s.roots, s.intermediates, s.verify, s.policy, leaf, chain)
      <==> && !HasUnhandledCriticalExtensions(leaf, s.policy)
           && (IsTrustedLeaf(s, leaf, chain) || IsSimplePath(s, leaf, chain))
           && s.policy.Accepts(chain)
  {
    SimplePathsAreCertificationPaths(s, leaf, chain);
    HandledIsNotUnhandled(leaf, s.policy);
    if |chain| >= 1 && chain[0] == leaf {
      AllFromFirst(chain, s.policy.VerifyingCriticalExtensions());
    }
  }

  lemma AllFromFirst(chain: Chain, understood: seq<Bytes>)
    requires chain != []
    ensures (forall c :: c in chain ==> IsHandled(c, understood))
      <==> IsHandled(chain[0], understood) && forall k :: 1 <= k < |chain| ==> IsHandled(chain[k], understood)
  {
    if IsHandled(chain[0], understood) && forall k :: 1 <= k < |chain| ==> IsHandled(chain[k], understood) {
      forall c | c in chain ensures IsHandled(c, understood) {
        var k :| 0 <= k < |chain| && chain[k] == c;
      }
    }
  }

  /** Validation returns valid chains only, and fails only when there is none. */
  lemma ValidatesExactly(s: SearchSpace, leaf: Certificate)
    ensures match s.RunResult(leaf)
      case Ok(chain) => IsValidChain(s.roots, s.intermediates, s.verify, s.policy, leaf, chain)
      case Err(_) => forall chain :: !IsValidChain(s.roots, s.intermediates, s.verify, s.policy, leaf, chain)
  {
    var result := s.RunResult(leaf);
    if result.Ok? {
      ReturnedChainIsSound(s, leaf, result.value);
      ValidChainsExactly(s, leaf, result.value);
    } else {
      forall chain ensures !IsValidChain(s.roots, s.intermediates, s.verify, s.policy, leaf, chain) {
        ValidChainsExactly(s, leaf, chain);
        if !HasUnhandledCriticalExtensions(leaf, s.policy) {
          SucceedsExactly(s, leaf);
        }
      }
    }
  }

  /** A leaf with a critical extension nobody claims fails alone, before any search. */
  lemma UnhandledLeafFailsAlone(s: SearchSpace, leaf: Certificate, ext: Extension)
    requires ext in leaf.extensions && ext.critical && ext.oid !in s.policy.VerifyingCriticalExtensions()
    ensures s.RunResult(leaf).Err? && |s.RunResult(leaf).error| == 1 && s.RunResult(leaf).error[0].chain == [leaf]
    ensures s.RunEvents(leaf)
      == [LeafCertificateHasUnhandledCriticalExtension(leaf, s.policy.VerifyingCriticalExtensions())]
  {
  }
}
