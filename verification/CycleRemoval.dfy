/**
 * Why the search may skip a certificate whose identity is already in the chain: linkage depends only
 * on an issuer's subject and public key, so a path that repeats an identity could have been shorter.
 */
module CycleRemoval {
  import opened Wrappers
  import opened Bytes
  import opened Certificates
  import opened PolicyBuilder
  import opened ChainSearch
  import opened SearchProperties
  import opened SearchOrder
  import opened BasicConstraintsPolicy
  import opened NameConstraintsPolicy
  import opened UriConstraints

  ghost predicate NeverReturnsToLeaf(chain: Chain)
    requires chain != []
  {
    forall k :: 1 <= k < |chain| ==> chain[k].Id() != chain[0].Id()
  }

  ghost predicate IsCycle(chain: Chain, i: nat, j: nat) {
    1 <= i < j < |chain| && chain[i].Id() == chain[j].Id()
  }

  ghost function WithoutCycle(chain: Chain, i: nat, j: nat): Chain
    requires IsCycle(chain, i, j)
  {
    chain[..i] + chain[j..]
  }

  /** What is accepted is still accepted when a cycle is left out of it. */
  ghost predicate SurvivesCuts(accepts: Chain -> bool) {
    forall chain: Chain, i: nat, j: nat :: IsCycle(chain, i, j) && accepts(chain) ==> accepts(WithoutCycle(chain, i, j))
  }

  /** Leaving out what lies between two certificates of one identity keeps a path a path. */
  lemma ShorterPath(s: SearchSpace, leaf: Certificate, chain: Chain, i: nat, j: nat)
    requires IsPath(s, leaf, chain) && NeverReturnsToLeaf(chain)
    requires IsCycle(chain, i, j)
    ensures IsPath(s, leaf, WithoutCycle(chain, i, j)) && NeverReturnsToLeaf(WithoutCycle(chain, i, j))
  {
    var shorter := WithoutCycle(chain, i, j);
    forall k | 1 <= k < |shorter|
      ensures Linked(s, shorter[k - 1], shorter[k])
      ensures shorter[k].Id() != shorter[0].Id()
      ensures k < |shorter| - 1 ==> shorter[k] in s.intermediates
    {
      if k < i {
        assert Linked(s, chain[k - 1], chain[k]);
      } else {
        assert Linked(s, chain[k - i + j - 1], chain[k - i + j]);
        assert Linked(s, chain[i - 1], chain[i]);
      }
    }
  }

  lemma {:induction false} SimplePath(s: SearchSpace, leaf: Certificate, chain: Chain, accepts: Chain -> bool)
    returns (simple: Chain)
    requires IsPath(s, leaf, chain) && NeverReturnsToLeaf(chain)
    requires SurvivesCuts(accepts) && accepts(chain)
    ensures IsSimplePath(s, leaf, simple)
    ensures accepts(simple)
    decreases |chain|
  {
    if i: nat, j: nat :| IsCycle(chain, i, j) {
      ShorterPath(s, leaf, chain, i, j);
      simple := SimplePath(s, leaf, WithoutCycle(chain, i, j), accepts);
    } else {
      simple := chain;
      forall i: nat, j: nat | i < j < |chain| ensures chain[i].Id() != chain[j].Id() {
        if i == 0 {
          assert chain[j].Id() != chain[0].Id();
        } else {
          assert !IsCycle(chain, i, j);
        }
      }
    }
  }

  ghost predicate PolicySurvivesCuts(policy: Policy) {
    SurvivesCuts((chain: Chain) => policy.Accepts(chain))
  }

  /** A path the policy accepts, cyclic or not, that never meets the leaf's identity again. */
  ghost predicate IsAcceptedPath(s: SearchSpace, leaf: Certificate, chain: Chain) {
    IsPath(s, leaf, chain) && NeverReturnsToLeaf(chain) && s.policy.Accepts(chain)
  }

  ghost predicate HasAcceptedPath(s: SearchSpace, leaf: Certificate) {
    exists chain :: IsAcceptedPath(s, leaf, chain)
  }

  /** The search succeeds exactly when the leaf is an accepted root or some accepted path exists. */
  ghost predicate IsCompleteUpToCycles(s: SearchSpace, leaf: Certificate) {
    s.RunResult(leaf).Ok? <==> (leaf in s.roots && s.policy.Accepts([leaf])) || HasAcceptedPath(s, leaf)
  }

  lemma SimplePathNeverReturns(s: SearchSpace, leaf: Certificate, chain: Chain)
    requires IsSimplePath(s, leaf, chain)
    ensures NeverReturnsToLeaf(chain)
  {
    forall k | 1 <= k < |chain| ensures chain[k].Id() != chain[0].Id() {
      assert chain[0].Id() != chain[k].Id();
    }
  }

  lemma CompleteWhenSimplePathsSuffice(s: SearchSpace, leaf: Certificate)
    requires !HasUnhandledCriticalExtensions(leaf, s.policy)
    ensures IsCompleteUpToCycles(s, leaf) <==> (HasAcceptedPath(s, leaf) ==> s.RunResult(leaf).Ok?)
  {
    SucceedsExactly(s, leaf);
    if s.RunResult(leaf).Ok? {
      var chain := s.RunResult(leaf).value;
      ReturnedChainIsSound(s, leaf, chain);
      if IsSimplePath(s, leaf, chain) {
        SimplePathNeverReturns(s, leaf, chain);
        assert IsAcceptedPath(s, leaf, chain);
      }
    }
    if leaf in s.roots && s.policy.Accepts([leaf]) {
      assert IsTrustedLeaf(s, leaf, [leaf]);
    }
  }

  /** A path accepted for reasons that survive cuts is not missed. */
  lemma FoundWhenCutsSurvive(s: SearchSpace, leaf: Certificate, chain: Chain, accepts: Chain -> bool)
    requires !HasUnhandledCriticalExtensions(leaf, s.policy)
    requires IsPath(s, leaf, chain) && NeverReturnsToLeaf(chain)
    requires SurvivesCuts(accepts) && accepts(chain)
    requires forall c: Chain :: accepts(c) ==> s.policy.Accepts(c)
    ensures s.RunResult(leaf).Ok?
  {
    var simple := SimplePath(s, leaf, chain, accepts);
    assert s.policy.Accepts(simple);
    SucceedsExactly(s, leaf);
  }

  /** The skip loses nothing under a policy that goes on accepting when cycles are left out. */
  lemma CompleteUpToCycles(s: SearchSpace, leaf: Certificate)
    requires PolicySurvivesCuts(s.policy)
    requires !HasUnhandledCriticalExtensions(leaf, s.policy)
    ensures IsCompleteUpToCycles(s, leaf)
  {
    CompleteWhenSimplePathsSuffice(s, leaf);
    if chain :| IsAcceptedPath(s, leaf, chain) {
      FoundWhenCutsSurvive(s, leaf, chain, (chain: Chain) => s.policy.Accepts(chain));
    }
  }

  // ----- which policies survive cuts

  /** A tree survives cuts when its leaves do. */
  lemma TreesSurviveCuts(policy: Policy)
    requires forall leaf :: leaf in policy.Leaves() ==> SurvivesCuts((chain: Chain) => leaf.verdict(chain).Ok?)
    ensures PolicySurvivesCuts(policy)
  {
    forall chain: Chain, i: nat, j: nat | IsCycle(chain, i, j) && policy.Accepts(chain)
      ensures policy.Accepts(WithoutCycle(chain, i, j))
    {
      var shorter := WithoutCycle(chain, i, j);
      VerdictsAreVotes(policy, chain);
      forall leaf | leaf in policy.Leaves() && leaf.verdict(chain).Ok? ensures leaf.verdict(shorter).Ok? {
        var accepts := (chain: Chain) => leaf.verdict(chain).Ok?;
        assert SurvivesCuts(accepts) && accepts(chain);
        assert accepts(shorter);
      }
      MoreVotesPass(policy, (p: LeafPolicy) => p.verdict(chain).Ok?, (p: LeafPolicy) => p.verdict(shorter).Ok?);
      VerdictsAreVotes(policy, shorter);
    }
  }

  lemma {:induction false} CutsLowerSubCas(chain: Chain, i: nat, j: nat, k: nat)
    requires IsCycle(chain, i, j) && k <= |WithoutCycle(chain, i, j)|
    ensures SubCas(WithoutCycle(chain, i, j), k) <= SubCas(chain, if k <= i then k else k - i + j)
    ensures k == i ==> SubCas(WithoutCycle(chain, i, j), k) <= SubCas(chain, j)
  {
    if k > 1 {
      CutsLowerSubCas(chain, i, j, k - 1);
    }
    if k == i {
      SubCasGrow(chain, i, j);
    }
  }

  /** Leaving out a cycle leaves every issuer at most the sub-CAs it had below it. */
  lemma OrderSurvivesCuts()
    ensures SurvivesCuts((chain: Chain) => IssuersAreInOrder(chain))
  {
    forall chain: Chain, i: nat, j: nat | IsCycle(chain, i, j) && IssuersAreInOrder(chain)
      ensures IssuersAreInOrder(WithoutCycle(chain, i, j))
    {
      var shorter := WithoutCycle(chain, i, j);
      forall k: nat | 1 <= k < |shorter|
        ensures MayIssue(shorter[k])
        ensures IsConstrained(shorter[k]) ==> SubCas(shorter, k) <= PathLength(shorter[k])
      {
        CutsLowerSubCas(chain, i, j, k);
        assert shorter[k] == chain[if k < i then k else k - i + j];
      }
    }
  }

  ghost predicate IsAcceptedUnwrapped(chain: Chain) {
    BasicConstraintsPolicy.IsAccepted(chain) && !CounterWraps(chain)
  }

  /** What the basic constraints policy accepts without its counter wrapping around. */
  lemma BasicConstraintsSurviveCuts()
    ensures SurvivesCuts((chain: Chain) => IsAcceptedUnwrapped(chain))
  {
    OrderSurvivesCuts();
    var inOrder := (chain: Chain) => IssuersAreInOrder(chain);
    forall chain: Chain, i: nat, j: nat | IsCycle(chain, i, j) && IsAcceptedUnwrapped(chain)
      ensures IsAcceptedUnwrapped(WithoutCycle(chain, i, j))
    {
      LoopIsInOrder(chain);
      assert inOrder(chain) && inOrder(WithoutCycle(chain, i, j));
      LoopIsInOrder(WithoutCycle(chain, i, j));
    }
  }

  ghost predicate IsBasicConstraintsPolicy(policy: Policy) {
    forall chain: Chain :: policy.Accepts(chain) <==> BasicConstraintsPolicy.IsAccepted(chain)
  }

  /** An accepted path with a reason to be found: the counter does not wrap around on it, or it has no cycles. */
  ghost predicate IsFindablePath(s: SearchSpace, leaf: Certificate, chain: Chain) {
    IsAcceptedPath(s, leaf, chain) && (!CounterWraps(chain) || DistinctIdentities(chain))
  }

  /** Under the basic constraints policy exactly the paths on which the counter wraps around may be missed. */
  lemma BasicConstraintsCompleteExactly(s: SearchSpace, leaf: Certificate)
    requires IsBasicConstraintsPolicy(s.policy) && !HasUnhandledCriticalExtensions(leaf, s.policy)
    ensures s.RunResult(leaf).Ok?
      <==> (leaf in s.roots && s.policy.Accepts([leaf])) || exists chain :: IsFindablePath(s, leaf, chain)
  {
    SucceedsExactly(s, leaf);
    if s.RunResult(leaf).Ok? {
      var chain := s.RunResult(leaf).value;
      ReturnedChainIsSound(s, leaf, chain);
      if IsSimplePath(s, leaf, chain) {
        SimplePathNeverReturns(s, leaf, chain);
        assert IsFindablePath(s, leaf, chain);
      }
    }
    if leaf in s.roots && s.policy.Accepts([leaf]) {
      assert IsTrustedLeaf(s, leaf, [leaf]);
    }
    if chain :| IsFindablePath(s, leaf, chain) {
      if DistinctIdentities(chain) {
        assert IsSimplePath(s, leaf, chain);
      } else {
        BasicConstraintsSurviveCuts();
        FoundWhenCutsSurvive(s, leaf, chain, (chain: Chain) => IsAcceptedUnwrapped(chain));
      }
    }
  }

  /** Leaving out a cycle leaves no issuer anything to constrain that it did not constrain before. */
  lemma NameConstraintsSurviveCuts(isIpAddress: IpAddressTest)
    ensures SurvivesCuts((chain: Chain) => chain != [] && ChainIsAllowed(chain, isIpAddress))
  {
    forall chain: Chain, i: nat, j: nat | IsCycle(chain, i, j) && ChainIsAllowed(chain, isIpAddress)
      ensures ChainIsAllowed(WithoutCycle(chain, i, j), isIpAddress)
    {
      var shorter := WithoutCycle(chain, i, j);
      forall below, above | 0 <= below < above < |shorter|
        ensures IssuerAllows(shorter[above], shorter[below], isIpAddress)
      {
        var from, to := if below < i then below else below - i + j, if above < i then above else above - i + j;
        assert shorter[below] == chain[from] && shorter[above] == chain[to];
      }
    }
  }

  // ----- exactly which policies lose nothing

  /** Certificates whose names chain up and whose critical extensions the policy handles. */
  ghost predicate IsChained(chain: Chain, policy: Policy) {
    && |chain| >= 2
    && (forall k :: 1 <= k < |chain| ==> chain[k].subject == chain[k - 1].issuer)
    && (forall c :: c in chain ==> !HasUnhandledCriticalExtensions(c, policy))
  }

  /** Some step of the chain has the same signed text under the same signature and key as `child` under `issuer`. */
  ghost predicate IsSignedIn(chain: Chain, algorithm: Bytes, key: Bytes, tbs: Bytes, signature: Bytes) {
    exists m :: 1 <= m < |chain| && chain[m].publicKey == key
      && chain[m - 1].signatureAlgorithm == algorithm && chain[m - 1].tbs == tbs && chain[m - 1].signature == signature
  }

  /** A chain of distinct identities between the same ends, with nothing but certificates and signatures of `chain`. */
  ghost predicate Rearranges(simple: Chain, chain: Chain)
    requires |chain| >= 2
  {
    && |simple| >= 2 && simple[0] == chain[0] && Tip(simple) == Tip(chain)
    && (forall k :: 1 <= k < |simple| - 1 ==> simple[k] in chain[1..|chain| - 1])
    && (forall k :: 1 <= k < |simple| ==> StepIsIn(chain, simple[k - 1], simple[k]))
    && DistinctIdentities(simple)
  }

  ghost predicate StepIsIn(chain: Chain, child: Certificate, issuer: Certificate) {
    && issuer.subject == child.issuer
    && IsSignedIn(chain, child.signatureAlgorithm, issuer.publicKey, child.tbs, child.signature)
  }

  /** Whatever chain the policy accepts, it accepts some rearrangement of it without repeated identities. */
  ghost predicate AcceptsRearranged(policy: Policy) {
    forall chain: Chain :: IsChained(chain, policy) && NeverReturnsToLeaf(chain) && policy.Accepts(chain) ==>
      exists simple :: Rearranges(simple, chain) && policy.Accepts(simple)
  }

  ghost predicate AlwaysComplete(policy: Policy) {
    forall s: SearchSpace, leaf: Certificate ::
      s.policy == policy && !HasUnhandledCriticalExtensions(leaf, policy) ==> IsCompleteUpToCycles(s, leaf)
  }

  lemma PathIsChained(s: SearchSpace, leaf: Certificate, chain: Chain)
    requires IsPath(s, leaf, chain) && !HasUnhandledCriticalExtensions(leaf, s.policy)
    ensures IsChained(chain, s.policy)
  {
    forall k | 1 <= k < |chain|
      ensures chain[k].subject == chain[k - 1].issuer && !HasUnhandledCriticalExtensions(chain[k], s.policy)
    {
      assert Linked(s, chain[k - 1], chain[k]);
    }
  }

  lemma RearrangedIsSimplePath(s: SearchSpace, leaf: Certificate, chain: Chain, simple: Chain)
    requires IsPath(s, leaf, chain) && IsChained(chain, s.policy) && Rearranges(simple, chain)
    ensures IsSimplePath(s, leaf, simple)
  {
    forall k | 1 <= k < |simple| ensures Linked(s, simple[k - 1], simple[k]) {
      assert StepIsIn(chain, simple[k - 1], simple[k]);
      var m :| 1 <= m < |chain| && chain[m].publicKey == simple[k].publicKey
        && chain[m - 1].signatureAlgorithm == simple[k - 1].signatureAlgorithm
        && chain[m - 1].tbs == simple[k - 1].tbs && chain[m - 1].signature == simple[k - 1].signature;
      assert Linked(s, chain[m - 1], chain[m]);
      assert simple[k] in chain;
    }
    forall k | 1 <= k < |simple| - 1 ensures simple[k] in s.intermediates {
      var m :| 0 <= m < |chain[1..|chain| - 1]| && chain[1..|chain| - 1][m] == simple[k];
      assert chain[m + 1] in s.intermediates;
    }
  }

  /** Stores and signatures made of a chain and nothing else. */
  ghost function MadeOf(chain: Chain, policy: Policy): SearchSpace
    requires |chain| >= 2
  {
    SearchSpace([Tip(chain)], chain[1..|chain| - 1],
      (algorithm, key, tbs, signature) => IsSignedIn(chain, algorithm, key, tbs, signature), policy)
  }

  lemma ChainedIsPath(chain: Chain, policy: Policy)
    requires IsChained(chain, policy)
    ensures IsPath(MadeOf(chain, policy), chain[0], chain)
  {
    forall k | 1 <= k < |chain|
      ensures Linked(MadeOf(chain, policy), chain[k - 1], chain[k])
    {
      var child, issuer := chain[k - 1], chain[k];
      assert IsSignedIn(chain, child.signatureAlgorithm, issuer.publicKey, child.tbs, child.signature);
    }
    forall k | 1 <= k < |chain| - 1 ensures chain[k] in MadeOf(chain, policy).intermediates {
      assert chain[k] == chain[1..|chain| - 1][k - 1];
    }
  }

  lemma SimplePathRearranges(chain: Chain, policy: Policy, simple: Chain)
    requires |chain| >= 2 && IsSimplePath(MadeOf(chain, policy), chain[0], simple)
    ensures Rearranges(simple, chain)
  {
    forall k | 1 <= k < |simple| ensures StepIsIn(chain, simple[k - 1], simple[k]) {
      assert Linked(MadeOf(chain, policy), simple[k - 1], simple[k]);
    }
  }

  /** Over all stores and signatures, the skip loses nothing exactly for the policies that accept chains rearranged. */
  lemma AlwaysCompleteExactly(policy: Policy)
    ensures AlwaysComplete(policy) <==> AcceptsRearranged(policy)
  {
    if AcceptsRearranged(policy) {
      forall s: SearchSpace, leaf: Certificate | s.policy == policy && !HasUnhandledCriticalExtensions(leaf, policy)
        ensures IsCompleteUpToCycles(s, leaf)
      {
        RearrangingCompletes(s, leaf);
      }
    }
    if AlwaysComplete(policy) {
      forall chain: Chain | IsChained(chain, policy) && NeverReturnsToLeaf(chain) && policy.Accepts(chain)
        ensures exists simple :: Rearranges(simple, chain) && policy.Accepts(simple)
      {
        var simple := CompletenessRearranges(chain, policy);
      }
    }
  }

  lemma RearrangingCompletes(s: SearchSpace, leaf: Certificate)
    requires AcceptsRearranged(s.policy) && !HasUnhandledCriticalExtensions(leaf, s.policy)
    ensures IsCompleteUpToCycles(s, leaf)
  {
    CompleteWhenSimplePathsSuffice(s, leaf);
    SucceedsExactly(s, leaf);
    if chain :| IsAcceptedPath(s, leaf, chain) {
      PathIsChained(s, leaf, chain);
      var simple :| Rearranges(simple, chain) && s.policy.Accepts(simple);
      RearrangedIsSimplePath(s, leaf, chain, simple);
    }
  }

  lemma CompletenessRearranges(chain: Chain, policy: Policy) returns (simple: Chain)
    requires IsChained(chain, policy) && NeverReturnsToLeaf(chain) && policy.Accepts(chain)
    requires IsCompleteUpToCycles(MadeOf(chain, policy), chain[0])
    ensures Rearranges(simple, chain) && policy.Accepts(simple)
  {
    var s := MadeOf(chain, policy);
    ChainedIsPath(chain, policy);
    assert IsAcceptedPath(s, chain[0], chain);
    simple := s.RunResult(chain[0]).value;
    ReturnedChainIsSound(s, chain[0], simple);
    assert chain[|chain| - 1].Id() != chain[0].Id();
    SimplePathRearranges(chain, policy, simple);
  }

  // ----- the proviso is needed

  ghost function Plain(subject: Bytes, issuer: Bytes): Certificate {
    Certificate(false, issuer, subject, [], [], Absent, None, None, Absent, Absent, [], [], [], [])
  }

  /** Leaf 1 is issued by 2, which is issued by 1; a cross-signed 1 is issued by the root 3. */
  ghost function CrossSigned(): SearchSpace {
    SearchSpace([Plain([3], [3])], [Plain([2], [1]), Plain([1], [3])], (_, _, _, _) => true, WrappedOptional(None))
  }

  lemma CrossSignedPathsReturn(leaf: Certificate, chain: Chain)
    requires leaf == Plain([1], [2]) && IsPath(CrossSigned(), leaf, chain)
    ensures |chain| > 2 && chain[2].Id() == chain[0].Id()
  {
    var s := CrossSigned();
    assert Linked(s, chain[0], chain[1]);
    assert chain[1] in s.intermediates + s.roots;
    assert chain[1] == Plain([2], [1]);
    assert Linked(s, chain[1], chain[2]);
    assert chain[2] in s.intermediates + s.roots;
  }

  ghost function RoundTrip(leaf: Certificate): Chain {
    [leaf, Plain([2], [1]), Plain([1], [3]), Plain([3], [3])]
  }

  lemma RoundTripIsPath(leaf: Certificate)
    requires leaf == Plain([1], [2])
    ensures IsPath(CrossSigned(), leaf, RoundTrip(leaf))
  {
    var s, path := CrossSigned(), RoundTrip(leaf);
    forall k | 1 <= k < 4 ensures Linked(s, path[k - 1], path[k]) {
      assert k == 1 || k == 2 || k == 3;
    }
  }

  /** A path that comes back to the leaf's identity is a path the search does not find. */
  lemma ReturnToLeafIsNotFound(leaf: Certificate)
    requires leaf == Plain([1], [2])
    ensures IsPath(CrossSigned(), leaf, RoundTrip(leaf))
    ensures CrossSigned().RunResult(leaf).Err?
  {
    RoundTripIsPath(leaf);
    SucceedsExactly(CrossSigned(), leaf);
    forall chain: Chain | IsPath(CrossSigned(), leaf, chain) ensures !DistinctIdentities(chain) {
      CrossSignedPathsReturn(leaf, chain);
      assert chain[0].Id() == chain[2].Id();
    }
  }

  // ----- and a policy that does not survive cuts can lose more

  ghost function AtLeastFive(): Policy {
    Single(LeafPolicy([], chain => if |chain| >= 5 then Ok(()) else Err("too short")))
  }

  /** 2 is issued by 3 and, cross-signed, by the root 4; 3 is issued by 2. */
  ghost function Looping(): SearchSpace {
    SearchSpace([Plain([4], [4])], [Plain([2], [3]), Plain([3], [2]), Plain([2], [4])],
                (_, _, _, _) => true, AtLeastFive())
  }

  ghost function Loop(leaf: Certificate): Chain {
    [leaf, Plain([2], [3]), Plain([3], [2]), Plain([2], [4]), Plain([4], [4])]
  }

  lemma LoopIsAcceptedPath(leaf: Certificate)
    requires leaf == Plain([1], [2])
    ensures IsAcceptedPath(Looping(), leaf, Loop(leaf))
  {
    var s, path := Looping(), Loop(leaf);
    forall k | 1 <= k < 5 ensures Linked(s, path[k - 1], path[k]) && path[k].Id() != path[0].Id() {
      assert k == 1 || k == 2 || k == 3 || k == 4;
    }
  }

  /** A policy for long chains only: a path that never returns to the leaf's identity is accepted but not found. */
  lemma LongChainIsNotFound(leaf: Certificate)
    requires leaf == Plain([1], [2])
    ensures IsAcceptedPath(Looping(), leaf, Loop(leaf))
    ensures Looping().RunResult(leaf).Err?
  {
    var s := Looping();
    LoopIsAcceptedPath(leaf);
    SucceedsExactly(s, leaf);
    LoopingHasTwoIdentities();
    forall chain: Chain | IsSimplePath(s, leaf, chain) ensures !s.policy.Accepts(chain) {
      SimplePathsAreShort(s, leaf, chain);
    }
  }

  lemma LoopingHasTwoIdentities()
    ensures |Identities(Looping().intermediates)| == 2
  {
    var a, b, c := Plain([2], [3]), Plain([3], [2]), Plain([2], [4]);
    TwoIdentities(a, b, c);
    assert a.Id().subject != b.Id().subject;
  }

  lemma TwoIdentities(a: Certificate, b: Certificate, c: Certificate)
    requires c.Id() == a.Id() || c.Id() == b.Id()
    ensures Identities([a, b, c]) == {a.Id(), b.Id()}
  {
    IdentitiesAppend([], a);
    IdentitiesAppend([a], b);
    IdentitiesAppend([a, b], c);
    assert [a] == [] + [a] && [a, b] == [a] + [b] && [a, b, c] == [a, b] + [c];
  }

  // ----- nor does the verdict of the basic constraints policy, once its counter wraps around

  ghost function BasicConstraintsOnly(): Policy {
    Single(LeafPolicy([], chain => if BasicConstraintsPolicy.IsAccepted(chain) then Ok(()) else Err("rejected")))
  }

  ghost function IssuedCa(subject: Bytes, issuer: Bytes, pathLength: Option<U32>): Certificate {
    var constraints := Present(BasicConstraints(true, pathLength));
    Certificate(false, issuer, subject, [], [], Absent, None, None, constraints, Absent, [], [], [], [])
  }

  /** 2 and 3 issue each other; the root 4, which allows no sub-CAs, has also issued 2. */
  ghost function CountingLoop(): SearchSpace {
    SearchSpace([IssuedCa([4], [4], Some(0))],
                [IssuedCa([3], [2], None), IssuedCa([2], [3], None), IssuedCa([2], [4], None)],
                (_, _, _, _) => true, BasicConstraintsOnly())
  }

  /** Around the loop until there are 2^32 sub-CAs. */
  ghost function Rounds(leaf: Certificate): Chain {
    seq(U32_LIMIT + 2, k requires 0 <= k => RoundsAt(leaf, k))
  }

  ghost function RoundsAt(leaf: Certificate, k: nat): Certificate {
    if k == 0 then leaf
    else if k == U32_LIMIT + 1 then IssuedCa([4], [4], Some(0))
    else if k == U32_LIMIT then IssuedCa([2], [4], None)
    else if k % 2 == 1 then IssuedCa([3], [2], None)
    else IssuedCa([2], [3], None)
  }

  lemma RoundsAreLinked(leaf: Certificate, k: nat)
    requires leaf == Plain([1], [3]) && 1 <= k < U32_LIMIT + 2
    ensures Linked(CountingLoop(), RoundsAt(leaf, k - 1), RoundsAt(leaf, k))
    ensures RoundsAt(leaf, k).Id() != leaf.Id()
  {
  }

  lemma RoundsAreAccepted(leaf: Certificate)
    ensures BasicConstraintsPolicy.IsAccepted(Rounds(leaf))
  {
    var chain, n := Rounds(leaf), U32_LIMIT + 1;
    CaChainCounts(chain, n);
    assert SubCas(chain, n) == U32_LIMIT && SubCas(chain, n) % U32_LIMIT == 0;
  }

  /** A simple path to the root has one or two sub-CAs below it. */
  lemma CountingLoopIsShort(leaf: Certificate, chain: Chain)
    requires leaf == Plain([1], [3]) && IsSimplePath(CountingLoop(), leaf, chain)
    ensures !BasicConstraintsPolicy.IsAccepted(chain)
  {
    var s, n := CountingLoop(), |chain| - 1;
    assert Linked(s, chain[0], chain[1]);
    assert n > 1;
    forall k | 1 <= k < n ensures !chain[k].IsSelfIssued() {
      assert chain[k] in s.intermediates;
    }
    CaChainCounts(chain, n);
    SimplePathsAreShort(s, leaf, chain);
    CountingLoopHasTwoIdentities();
    assert IsConstrained(chain[n]) && SubCas(chain, n) % U32_LIMIT > PathLength(chain[n]);
  }

  lemma CountingLoopHasTwoIdentities()
    ensures |Identities(CountingLoop().intermediates)| == 2
  {
    var a, b, c := IssuedCa([3], [2], None), IssuedCa([2], [3], None), IssuedCa([2], [4], None);
    TwoIdentities(a, b, c);
    assert a.Id().subject != b.Id().subject;
  }

  /** A linked path that the basic constraints policy accepts, for a wrapped counter, and the search does not find. */
  lemma WrappingPathIsNotFound(leaf: Certificate)
    requires leaf == Plain([1], [3])
    ensures IsAcceptedPath(CountingLoop(), leaf, Rounds(leaf))
    ensures CountingLoop().RunResult(leaf).Err?
    ensures !PolicySurvivesCuts(BasicConstraintsOnly())
  {
    var s := CountingLoop();
    forall k | 1 <= k < U32_LIMIT + 2
      ensures Linked(s, Rounds(leaf)[k - 1], Rounds(leaf)[k]) && Rounds(leaf)[k].Id() != leaf.Id()
    {
      RoundsAreLinked(leaf, k);
    }
    RoundsAreAccepted(leaf);
    assert IsAcceptedPath(s, leaf, Rounds(leaf));
    SucceedsExactly(s, leaf);
    forall chain: Chain | IsSimplePath(s, leaf, chain) ensures !s.policy.Accepts(chain) {
      CountingLoopIsShort(leaf, chain);
    }
    if PolicySurvivesCuts(s.policy) {
      CompleteUpToCycles(s, leaf);
    }
  }
}
