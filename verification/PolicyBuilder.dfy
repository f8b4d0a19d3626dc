/** Policies as the trees that the composition macros build (x509-validator/src/policy_builder.rs). */
module PolicyBuilder {
  import opened Wrappers
  import opened Bytes
  import opened Certificates

  type Reason = string
  type PolicyEvaluationResult = Result<(), Reason>

  /** A policy with no sub-policies: the extensions it claims to enforce and its verdict on a chain. */
  datatype LeafPolicy = LeafPolicy(claims: seq<Bytes>, verdict: Chain -> PolicyEvaluationResult)

  datatype Either<+A, +B> = First(first: A) | Second(second: B)

  datatype Policy =
    | Single(policy: LeafPolicy)
    | Tuple2(a: Policy, b: Policy)
    | Choice(chosen: Either<Policy, Policy>)
    | WrappedOptional(wrapped: Option<Policy>)
    | OneOfTuple2(a: Policy, b: Policy)
    | OneOfWrappedOptional(wrapped: Option<Policy>)
  {
    /** The extensions this policy understands: union under AND, intersection under OR. */
    function VerifyingCriticalExtensions(): seq<Bytes> {
      match this
      case Single(p) => p.claims
      case Tuple2(a, b) => a.VerifyingCriticalExtensions() + b.VerifyingCriticalExtensions()
      case Choice(First(a)) => a.VerifyingCriticalExtensions()
      case Choice(Second(b)) => b.VerifyingCriticalExtensions()
      case WrappedOptional(Some(p)) => p.VerifyingCriticalExtensions()
      case WrappedOptional(None) => []
      case OneOfTuple2(a, b) => Retain(a.VerifyingCriticalExtensions(), b.VerifyingCriticalExtensions())
      case OneOfWrappedOptional(Some(p)) => p.VerifyingCriticalExtensions()
      case OneOfWrappedOptional(None) => []
    }

    function ChainMeetsPolicyRequirements(chain: Chain): PolicyEvaluationResult {
      match this
      case Single(p) => p.verdict(chain)
      case Tuple2(a, b) =>
        var first := a.ChainMeetsPolicyRequirements(chain);
        if first.Err? then first else b.ChainMeetsPolicyRequirements(chain)
      case Choice(First(a)) => a.ChainMeetsPolicyRequirements(chain)
      case Choice(Second(b)) => b.ChainMeetsPolicyRequirements(chain)
      case WrappedOptional(Some(p)) => p.ChainMeetsPolicyRequirements(chain)
      case WrappedOptional(None) => Ok(())
      case OneOfTuple2(a, b) =>
        var first := a.ChainMeetsPolicyRequirements(chain);
        if first.Ok? then Ok(())
        else
          var second := b.ChainMeetsPolicyRequirements(chain);
          if second.Ok? then Ok(()) else Err(first.error + " and " + second.error)
      case OneOfWrappedOptional(Some(p)) => p.ChainMeetsPolicyRequirements(chain)
      case OneOfWrappedOptional(None) => Err("alternative is disabled")
    }

    ghost predicate Accepts(chain: Chain) {
      ChainMeetsPolicyRequirements(chain).Ok?
    }

    /** The leaf policies that are in force; an alternative not chosen at construction is not stored. */
    ghost function Leaves(): set<LeafPolicy> {
      match this
      case Single(p) => {p}
      case Tuple2(a, b) => a.Leaves() + b.Leaves()
      case Choice(First(a)) => a.Leaves()
      case Choice(Second(b)) => b.Leaves()
      case WrappedOptional(Some(p)) => p.Leaves()
      case WrappedOptional(None) => {}
      case OneOfTuple2(a, b) => a.Leaves() + b.Leaves()
      case OneOfWrappedOptional(Some(p)) => p.Leaves()
      case OneOfWrappedOptional(None) => {}
    }

    /** No alternative of a one_of! block has been switched off. */
    predicate NothingDisabled() {
      match this
      case Single(_) => true
      case Tuple2(a, b) => a.NothingDisabled() && b.NothingDisabled()
      case Choice(First(a)) => a.NothingDisabled()
      case Choice(Second(b)) => b.NothingDisabled()
      case WrappedOptional(Some(p)) => p.NothingDisabled()
      case WrappedOptional(None) => true
      case OneOfTuple2(a, b) => a.NothingDisabled() && b.NothingDisabled()
      case OneOfWrappedOptional(Some(p)) => p.NothingDisabled()
      case OneOfWrappedOptional(None) => false
    }

    /** Disabled alternatives leave the tree no way to accept, whatever its leaves say. */
    predicate Blocked() {
      match this
      case Single(_) => false
      case Tuple2(a, b) => a.Blocked() || b.Blocked()
      case Choice(First(a)) => a.Blocked()
      case Choice(Second(b)) => b.Blocked()
      case WrappedOptional(Some(p)) => p.Blocked()
      case WrappedOptional(None) => false
      case OneOfTuple2(a, b) => a.Blocked() && b.Blocked()
      case OneOfWrappedOptional(Some(p)) => p.Blocked()
      case OneOfWrappedOptional(None) => true
    }

    /** The claims this tree would make if an alternative that cannot accept had no say in them. */
    function ClaimsUnblocked(): seq<Bytes> {
      match this
      case Single(p) => p.claims
      case Tuple2(a, b) => a.ClaimsUnblocked() + b.ClaimsUnblocked()
      case Choice(First(a)) => a.ClaimsUnblocked()
      case Choice(Second(b)) => b.ClaimsUnblocked()
      case WrappedOptional(Some(p)) => p.ClaimsUnblocked()
      case WrappedOptional(None) => []
      case OneOfTuple2(a, b) =>
        if a.Blocked() then b.ClaimsUnblocked()
        else if b.Blocked() then a.ClaimsUnblocked()
        else Retain(a.ClaimsUnblocked(), b.ClaimsUnblocked())
      case OneOfWrappedOptional(Some(p)) => p.ClaimsUnblocked()
      case OneOfWrappedOptional(None) => []
    }

    /** The same tree over leaves that accept, whatever the chain, exactly when `votes` has them do so. */
    ghost function WithVotes(votes: LeafPolicy -> bool): Policy {
      match this
      case Single(p) => Single(LeafPolicy(p.claims, _ => if votes(p) then Ok(()) else Err("voted against")))
      case Tuple2(a, b) => Tuple2(a.WithVotes(votes), b.WithVotes(votes))
      case Choice(First(a)) => Choice(First(a.WithVotes(votes)))
      case Choice(Second(b)) => Choice(Second(b.WithVotes(votes)))
      case WrappedOptional(Some(p)) => WrappedOptional(Some(p.WithVotes(votes)))
      case WrappedOptional(None) => this
      case OneOfTuple2(a, b) => OneOfTuple2(a.WithVotes(votes), b.WithVotes(votes))
      case OneOfWrappedOptional(Some(p)) => OneOfWrappedOptional(Some(p.WithVotes(votes)))
      case OneOfWrappedOptional(None) => this
    }

    ghost predicate Passes(votes: LeafPolicy -> bool) {
      WithVotes(votes).Accepts([])
    }

    /** However its leaves vote, the tree accepts only when some accepting leaf claims `oid`. */
    ghost predicate Enforces(oid: Bytes) {
      forall votes: LeafPolicy -> bool :: Passes(votes) ==>
        exists leaf :: leaf in Leaves() && votes(leaf) && oid in leaf.claims
    }

    /** The tree claims `oid` if and only if it enforces it. */
    ghost predicate IsTightFor(oid: Bytes) {
      oid in VerifyingCriticalExtensions() <==> Enforces(oid)
    }

    /** The tree claims everything it enforces and nothing else. */
    ghost predicate IsTight() {
      forall oid :: IsTightFor(oid)
    }
  }

  /** The elements of `s` that also occur in `kept`, in order. */
  function Retain(s: seq<Bytes>, kept: seq<Bytes>): (r: seq<Bytes>)
    ensures forall x :: x in r <==> x in s && x in kept
  {
    if s == [] then []
    else (if s[0] in kept then [s[0]] else []) + Retain(s[1..], kept)
  }

  /** An accepted chain was accepted by some leaf policy claiming `oid`, for every `oid` the tree claims. */
  lemma {:induction false} ClaimsAreEnforced(p: Policy, chain: Chain, oid: Bytes) returns (leaf: LeafPolicy)
    requires p.Accepts(chain)
    requires oid in p.VerifyingCriticalExtensions()
    ensures leaf in p.Leaves()
    ensures oid in leaf.claims
    ensures leaf.verdict(chain).Ok?
  {
    match p
    case Single(q) => leaf := q;
    case Tuple2(a, b) =>
      if oid in a.VerifyingCriticalExtensions() {
        leaf := ClaimsAreEnforced(a, chain, oid);
      } else {
        leaf := ClaimsAreEnforced(b, chain, oid);
      }
    case Choice(First(a)) => leaf := ClaimsAreEnforced(a, chain, oid);
    case Choice(Second(b)) => leaf := ClaimsAreEnforced(b, chain, oid);
    case WrappedOptional(Some(q)) => leaf := ClaimsAreEnforced(q, chain, oid);
    case OneOfTuple2(a, b) =>
      if a.Accepts(chain) {
        leaf := ClaimsAreEnforced(a, chain, oid);
      } else {
        leaf := ClaimsAreEnforced(b, chain, oid);
      }
    case OneOfWrappedOptional(Some(q)) => leaf := ClaimsAreEnforced(q, chain, oid);
  }

  // ----- whether a tree claims all that it enforces

  /** The verdict of a tree is that of the tree whose leaves vote as the policies they stand for decide. */
  lemma {:induction false} VerdictsAreVotes(p: Policy, chain: Chain)
    ensures p.Accepts(chain) <==> p.Passes((leaf: LeafPolicy) => leaf.verdict(chain).Ok?)
  {
    match p
    case Single(_) =>
    case Tuple2(a, b) =>
      VerdictsAreVotes(a, chain);
      VerdictsAreVotes(b, chain);
    case Choice(First(a)) => VerdictsAreVotes(a, chain);
    case Choice(Second(b)) => VerdictsAreVotes(b, chain);
    case WrappedOptional(Some(q)) => VerdictsAreVotes(q, chain);
    case WrappedOptional(None) =>
    case OneOfTuple2(a, b) =>
      VerdictsAreVotes(a, chain);
      VerdictsAreVotes(b, chain);
    case OneOfWrappedOptional(Some(q)) => VerdictsAreVotes(q, chain);
    case OneOfWrappedOptional(None) =>
  }

  lemma {:induction false} MoreVotesPass(p: Policy, votes: LeafPolicy -> bool, more: LeafPolicy -> bool)
    requires p.Passes(votes)
    requires forall leaf :: leaf in p.Leaves() && votes(leaf) ==> more(leaf)
    ensures p.Passes(more)
  {
    match p
    case Single(_) =>
    case Tuple2(a, b) =>
      MoreVotesPass(a, votes, more);
      MoreVotesPass(b, votes, more);
    case Choice(First(a)) => MoreVotesPass(a, votes, more);
    case Choice(Second(b)) => MoreVotesPass(b, votes, more);
    case WrappedOptional(Some(q)) => MoreVotesPass(q, votes, more);
    case WrappedOptional(None) =>
    case OneOfTuple2(a, b) =>
      if a.Passes(votes) {
        MoreVotesPass(a, votes, more);
      } else {
        MoreVotesPass(b, votes, more);
      }
    case OneOfWrappedOptional(Some(q)) => MoreVotesPass(q, votes, more);
  }

  /** With exactly the leaves that do not claim `oid` in favour. */
  lemma {:induction false} PassesWithoutClaimants(p: Policy, oid: Bytes)
    ensures p.Passes((leaf: LeafPolicy) => oid !in leaf.claims) <==> !p.Blocked() && oid !in p.ClaimsUnblocked()
  {
    match p
    case Single(_) =>
    case Tuple2(a, b) =>
      PassesWithoutClaimants(a, oid);
      PassesWithoutClaimants(b, oid);
    case Choice(First(a)) => PassesWithoutClaimants(a, oid);
    case Choice(Second(b)) => PassesWithoutClaimants(b, oid);
    case WrappedOptional(Some(q)) => PassesWithoutClaimants(q, oid);
    case WrappedOptional(None) =>
    case OneOfTuple2(a, b) =>
      PassesWithoutClaimants(a, oid);
      PassesWithoutClaimants(b, oid);
    case OneOfWrappedOptional(Some(q)) => PassesWithoutClaimants(q, oid);
    case OneOfWrappedOptional(None) =>
  }

  /** A tree enforces everything if it can never accept, and otherwise what its unblocked alternatives claim. */
  lemma EnforcedExactly(p: Policy, oid: Bytes)
    ensures p.Enforces(oid) <==> p.Blocked() || oid in p.ClaimsUnblocked()
  {
    PassesWithoutClaimants(p, oid);
    var others := (leaf: LeafPolicy) => oid !in leaf.claims;
    assert p.Enforces(oid) ==> !p.Passes(others);
    if !p.Passes(others) {
      forall votes: LeafPolicy -> bool | p.Passes(votes)
        ensures exists leaf :: leaf in p.Leaves() && votes(leaf) && oid in leaf.claims
      {
        if forall leaf :: leaf in p.Leaves() && votes(leaf) ==> oid !in leaf.claims {
          MoreVotesPass(p, votes, others);
        }
      }
    }
  }

  /** What is claimed is enforced: the claims lose to blocked alternatives, but never gain. */
  lemma {:induction false} ClaimsAreUnblocked(p: Policy)
    ensures forall oid :: oid in p.VerifyingCriticalExtensions() ==> oid in p.ClaimsUnblocked() || p.Blocked()
  {
    match p
    case Single(_) =>
    case Tuple2(a, b) =>
      ClaimsAreUnblocked(a);
      ClaimsAreUnblocked(b);
    case Choice(First(a)) => ClaimsAreUnblocked(a);
    case Choice(Second(b)) => ClaimsAreUnblocked(b);
    case WrappedOptional(Some(q)) => ClaimsAreUnblocked(q);
    case WrappedOptional(None) =>
    case OneOfTuple2(a, b) =>
      ClaimsAreUnblocked(a);
      ClaimsAreUnblocked(b);
    case OneOfWrappedOptional(Some(q)) => ClaimsAreUnblocked(q);
    case OneOfWrappedOptional(None) =>
  }

  /** Some extension is not in the list. */
  lemma {:induction false} Unlisted(oids: seq<Bytes>) returns (oid: Bytes)
    ensures forall x :: x in oids ==> |x| < |oid|
  {
    if oids == [] {
      oid := [];
    } else {
      var shorter := Unlisted(oids[1..]);
      oid := shorter + oids[0] + [PERIOD];
    }
  }

  /**
   * The claimed extensions are as large as enforcement allows exactly when the tree can accept at all and
   * taking its blocked alternatives out would claim nothing more.
   */
  lemma ClaimsAreTight(p: Policy)
    ensures p.IsTight()
      <==> !p.Blocked() && forall oid :: oid in p.ClaimsUnblocked() ==> oid in p.VerifyingCriticalExtensions()
  {
    if p.Blocked() {
      var oid := Unlisted(p.VerifyingCriticalExtensions());
      TightForExactly(p, oid);
    } else if p.IsTight() {
      forall oid | oid in p.ClaimsUnblocked() ensures oid in p.VerifyingCriticalExtensions() {
        TightForExactly(p, oid);
        assert p.IsTightFor(oid);
      }
    } else {
      var oid :| !p.IsTightFor(oid);
      TightForExactly(p, oid);
    }
  }

  lemma TightForExactly(p: Policy, oid: Bytes)
    ensures p.IsTightFor(oid)
      <==> oid in p.VerifyingCriticalExtensions() || (!p.Blocked() && oid !in p.ClaimsUnblocked())
  {
    ClaimsAreUnblocked(p);
    EnforcedExactly(p, oid);
  }

  lemma {:induction false} NothingDisabledBlocksNothing(p: Policy)
    requires p.NothingDisabled()
    ensures !p.Blocked() && p.ClaimsUnblocked() == p.VerifyingCriticalExtensions()
  {
    match p
    case Single(_) =>
    case Tuple2(a, b) =>
      NothingDisabledBlocksNothing(a);
      NothingDisabledBlocksNothing(b);
    case Choice(First(a)) => NothingDisabledBlocksNothing(a);
    case Choice(Second(b)) => NothingDisabledBlocksNothing(b);
    case WrappedOptional(Some(q)) => NothingDisabledBlocksNothing(q);
    case WrappedOptional(None) =>
    case OneOfTuple2(a, b) =>
      NothingDisabledBlocksNothing(a);
      NothingDisabledBlocksNothing(b);
    case OneOfWrappedOptional(Some(q)) => NothingDisabledBlocksNothing(q);
  }

  /** In particular a tree with no alternative switched off claims all that it enforces. */
  lemma EnabledTreesAreTight(p: Policy)
    requires p.NothingDisabled()
    ensures p.IsTight()
  {
    NothingDisabledBlocksNothing(p);
    ClaimsAreTight(p);
  }

  lemma BesideDisabled(p: Policy)
    ensures var q := OneOfTuple2(p, OneOfWrappedOptional(None));
      && q.VerifyingCriticalExtensions() == []
      && q.Blocked() == p.Blocked()
      && (!p.Blocked() ==> q.ClaimsUnblocked() == p.ClaimsUnblocked())
  {
    RetainNothing(p.VerifyingCriticalExtensions());
    assert OneOfWrappedOptional(None).VerifyingCriticalExtensions() == [];
  }

  lemma {:induction false} RetainNothing(s: seq<Bytes>)
    ensures Retain(s, []) == []
  {
    if s != [] {
      RetainNothing(s[1..]);
    }
  }

  /** The failing inputs of one_of! with an alternative switched off: nothing is claimed, what the other enforces is. */
  lemma DisabledAlternativeDropsClaims(p: Policy, oid: Bytes)
    ensures var q := OneOfTuple2(p, OneOfWrappedOptional(None));
      && q.VerifyingCriticalExtensions() == []
      && (q.Enforces(oid) <==> p.Enforces(oid))
      && (q.IsTight() <==> !p.Blocked() && p.ClaimsUnblocked() == [])
  {
    var q := OneOfTuple2(p, OneOfWrappedOptional(None));
    BesideDisabled(p);
    EnforcedExactly(p, oid);
    EnforcedExactly(q, oid);
    ClaimsAreTight(q);
    if !p.Blocked() && p.ClaimsUnblocked() != [] {
      assert p.ClaimsUnblocked()[0] in q.ClaimsUnblocked();
    }
  }

  ghost function RejectingClaimant(oid: Bytes): LeafPolicy {
    LeafPolicy([oid], _ => Err("rejected"))
  }

  ghost function AcceptingBystander(): LeafPolicy {
    LeafPolicy([], _ => Ok(()))
  }

  /**
   * A remark on why alternatives intersect: had they united their claims, this chain would pass with `oid` enforced
   * by nobody.
   */
  lemma UnionOfAlternativesIsUnsound(oid: Bytes, chain: Chain)
    ensures var p := OneOfTuple2(Single(RejectingClaimant(oid)), Single(AcceptingBystander()));
      && p.Accepts(chain)
      && oid in RejectingClaimant(oid).claims + AcceptingBystander().claims
      && forall leaf :: leaf in p.Leaves() && leaf.verdict(chain).Ok? ==> oid !in leaf.claims
  {
    var p := OneOfTuple2(Single(RejectingClaimant(oid)), Single(AcceptingBystander()));
    assert p.Leaves() == {RejectingClaimant(oid), AcceptingBystander()};
    assert Single(AcceptingBystander()).Accepts(chain);
  }
}
