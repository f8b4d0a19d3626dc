/** In which order the search prefers chains, and how many partial chains it visits. */
module SearchOrder {
  import opened Wrappers
  import opened Certificates
  import opened Stores
  import opened Suitability
  import opened ChainSearch
  import opened SearchTraces
  import opened Sequences
  import opened SearchProperties

  /** The different certificates `x` and `y` are both listed, and `x` before any occurrence of `y`. */
  ghost predicate ListedBefore(list: seq<Certificate>, x: Certificate, y: Certificate) {
    && x != y && x in list && y in list
    && forall j :: 0 <= j < |list| && list[j] == y ==> x in list[..j]
  }

  lemma ListedBeforeIsAsymmetric(list: seq<Certificate>, x: Certificate, y: Certificate)
    requires ListedBefore(list, x, y)
    ensures !ListedBefore(list, y, x)
  {
    var i := First(list, x);
    var j := First(list, y);
  }

  lemma {:induction false} First(list: seq<Certificate>, x: Certificate) returns (i: nat)
    requires x in list
    ensures i < |list| && list[i] == x && x !in list[..i]
  {
    if list[0] == x {
      i := 0;
    } else {
      i := First(list[1..], x);
      i := i + 1;
      assert list[..i] == [list[0]] + list[1..][..i - 1];
    }
  }

  lemma InPrefix(list: seq<Certificate>, j: nat, m: nat)
    requires j < |list| && m <= |list|
    ensures j < m ==> list[j] in list[..m]
  {
    assert j < m ==> list[..m][j] == list[j];
  }

  lemma ListedFirst(list: seq<Certificate>, x: Certificate, y: Certificate, m: nat)
    requires m < |list| && list[m] == x && x != y
    requires y in list && y !in list[..m]
    ensures ListedBefore(list, x, y)
  {
    forall j | 0 <= j < |list| && list[j] == y ensures x in list[..j] {
      InPrefix(list, j, m);
      assert list[..j][m] == x;
    }
  }

  /**
   * The chains part ways at position k: there `a` ends at a root while `b` goes on, or both end and
   * `a`'s root is offered first, or both go on and `a`'s intermediate is offered first.
   */
  ghost predicate PreferredAt(s: SearchSpace, a: Chain, b: Chain, k: nat) {
    && 1 <= k < |a| && k < |b| && a[..k] == b[..k]
    && if |a| == k + 1 then
         |b| > k + 1 || ListedBefore(s.Issuers(s.roots, a[..k]), a[k], b[k])
       else
         |b| > k + 1 && ListedBefore(s.Issuers(s.intermediates, a[..k]), a[k], b[k])
  }

  lemma NotPreferredBack(s: SearchSpace, a: Chain, b: Chain, k: nat)
    requires PreferredAt(s, a, b, k)
    ensures !PreferredAt(s, b, a, k)
  {
    var store := if |a| == k + 1 then s.roots else s.intermediates;
    var list := s.Issuers(store, a[..k]);
    if ListedBefore(list, a[k], b[k]) {
      ListedBeforeIsAsymmetric(list, a[k], b[k]);
    }
  }

  /** Before the place where `a` is preferred the chains agree and both go on. */
  lemma AgreeBefore(s: SearchSpace, a: Chain, b: Chain, k: nat, i: nat)
    requires PreferredAt(s, a, b, k) && i < k
    ensures !PreferredAt(s, b, a, i)
  {
    assert a[i] == a[..k][i] == b[..k][i] == b[i];
  }

  /** No two chains are each preferred to the other, wherever one looks. */
  lemma PreferenceIsAsymmetric(s: SearchSpace, a: Chain, b: Chain, k: nat, m: nat)
    requires PreferredAt(s, a, b, k)
    ensures !PreferredAt(s, b, a, m)
  {
    if m == k {
      NotPreferredBack(s, a, b, k);
    } else if m < k {
      AgreeBefore(s, a, b, k, m);
    } else if PreferredAt(s, b, a, m) {
      AgreeBefore(s, b, a, m, k);
    }
  }

  lemma {:induction false} DecideConcat(s: SearchSpace, xs: seq<Chain>, ys: seq<Chain>)
    ensures s.Decide(xs).Ok? ==> s.Decide(xs + ys) == s.Decide(xs)
    ensures s.Decide(xs).Err? && s.Decide(ys).Ok? ==> s.Decide(xs + ys) == s.Decide(ys)
    ensures s.Decide(xs).Err? && s.Decide(ys).Err? ==> s.Decide(xs + ys).Err?
  {
    if xs == [] {
      assert xs + ys == ys;
    } else {
      DecideConcat(s, xs[1..], ys);
      assert (xs + ys)[1..] == xs[1..] + ys;
    }
  }

  lemma {:induction false} DecideMisses(s: SearchSpace, chains: seq<Chain>, b: Chain)
    requires s.Decide(chains).Err? && s.policy.Accepts(b)
    ensures b !in chains
  {
    if chains != [] {
      DecideMisses(s, chains[1..], b);
    }
  }

  lemma {:induction false} FirstRootIsPreferred(s: SearchSpace, partial: Chain, issuers: seq<Certificate>,
                                                a: Chain, b: Chain)
    requires s.Decide(s.Extended(partial, issuers)) == Ok(a)
    requires b in s.Extended(partial, issuers) && s.policy.Accepts(b) && a != b
    ensures |a| == |b| == |partial| + 1 && a[..|partial|] == b[..|partial|] == partial
    ensures ListedBefore(issuers, a[|partial|], b[|partial|])
  {
    var first := partial + [issuers[0]];
    var n := |partial|;
    assert s.Extended(partial, issuers)[1..] == s.Extended(partial, issuers[1..]);
    if s.policy.Accepts(first) {
      assert a == first;
      ExtendedExactly(s, partial, issuers, b);
      assert b == partial + [b[n]];
      ListedFirst(issuers, a[n], b[n], 0);
    } else {
      assert s.Decide(s.Extended(partial, issuers[1..])) == Ok(a);
      FirstRootIsPreferred(s, partial, issuers[1..], a, b);
      assert b != first;
      assert b == partial + [b[n]];
      ListedBeforeInTail(issuers, a[n], b[n]);
    }
  }

  lemma ListedBeforeInTail(list: seq<Certificate>, x: Certificate, y: Certificate)
    requires list != [] && list[0] != y && ListedBefore(list[1..], x, y)
    ensures ListedBefore(list, x, y)
  {
    forall j | 0 <= j < |list| && list[j] == y ensures x in list[..j] {
      assert list[1..][j - 1] == y;
      assert list[1..][..j - 1] == list[1..j];
    }
  }

  lemma {:induction false} FirstIsPreferred(s: SearchSpace, partial: Chain, a: Chain, b: Chain) returns (k: nat)
    requires partial != []
    requires s.Decide(s.Enumerate(partial)) == Ok(a)
    requires b in s.Enumerate(partial) && s.policy.Accepts(b) && a != b
    ensures |partial| <= k && PreferredAt(s, a, b, k)
    decreases s.Unused(partial), 1, 0
  {
    s.IssuersAreFresh(partial);
    var roots, issuers := s.Issuers(s.roots, partial), s.Issuers(s.intermediates, partial);
    var ending, continuing := s.Extended(partial, roots), s.EnumerateEach(partial, issuers);
    DecideConcat(s, ending, continuing);
    k := |partial|;
    EnumerateEachExactly(s, partial, issuers, b);
    if s.Decide(ending).Ok? {
      DecideExactly(s, ending);
      ExtendedExactly(s, partial, roots, a);
      if b in ending {
        FirstRootIsPreferred(s, partial, roots, a, b);
      }
    } else {
      DecideMisses(s, ending, b);
      assert issuers[0..] == issuers;
      k := FirstOfEachIsPreferred(s, partial, 0, issuers, a, b);
    }
  }

  /** The chain goes through none of the first n issuers. */
  ghost predicate AvoidsFirst(s: SearchSpace, partial: Chain, n: nat, chain: Chain)
    requires partial != [] && n <= |s.Issuers(s.intermediates, partial)|
  {
    forall q :: 0 <= q < n ==> !Grows(s, partial + [s.Issuers(s.intermediates, partial)[q]], chain)
  }

  /** `a` goes through the m-th issuer and `b` only through issuers listed later. */
  lemma PartWays(s: SearchSpace, partial: Chain, m: nat, a: Chain, b: Chain)
    requires partial != [] && m < |s.Issuers(s.intermediates, partial)|
    requires Grows(s, partial + [s.Issuers(s.intermediates, partial)[m]], a)
    requires AvoidsFirst(s, partial, m + 1, b)
    requires GrowsThrough(s, partial, s.Issuers(s.intermediates, partial)[m..][1..], b)
    ensures PreferredAt(s, a, b, |partial|)
  {
    var all, k := s.Issuers(s.intermediates, partial), |partial|;
    assert a[..k] == a[..k + 1][..k] == partial;
    assert a[k] == a[..k + 1][k] == all[m];
    assert b[..k + 1] == partial + [b[k]];
    assert b[k] in all;
    ListedFirst(all, a[k], b[k], m);
  }

  lemma {:induction false} FirstOfEachIsPreferred(s: SearchSpace, partial: Chain, m: nat, issuers: seq<Certificate>,
                                                  a: Chain, b: Chain) returns (k: nat)
    requires partial != [] && m <= |s.Issuers(s.intermediates, partial)|
    requires issuers == s.Issuers(s.intermediates, partial)[m..] && s.Fresh(issuers, partial)
    requires s.Decide(s.EnumerateEach(partial, issuers)) == Ok(a)
    requires b in s.EnumerateEach(partial, issuers) && s.policy.Accepts(b) && a != b
    requires AvoidsFirst(s, partial, m, b)
    ensures |partial| <= k && PreferredAt(s, a, b, k)
    decreases s.Unused(partial), 0, |issuers|
  {
    var longer, rest := partial + [issuers[0]], issuers[1..];
    s.UnusedShrinks(partial, issuers[0]);
    var here, later := s.Enumerate(longer), s.EnumerateEach(partial, rest);
    DecideConcat(s, here, later);
    assert rest == s.Issuers(s.intermediates, partial)[m + 1..];
    if s.Decide(here).Err? {
      DecideMisses(s, here, b);
      EnumerateExactly(s, longer, b);
      k := FirstOfEachIsPreferred(s, partial, m + 1, rest, a, b);
    } else if b in here {
      k := FirstIsPreferred(s, longer, a, b);
    } else {
      k := |partial|;
      DecideExactly(s, here);
      EnumerateExactly(s, longer, a);
      EnumerateExactly(s, longer, b);
      LaterIsThrough(s, partial, rest, here, b);
      PartWays(s, partial, m, a, b);
    }
  }

  lemma LaterIsThrough(s: SearchSpace, partial: Chain, rest: seq<Certificate>, here: seq<Chain>, b: Chain)
    requires partial != [] && s.Fresh(rest, partial)
    requires b in here + s.EnumerateEach(partial, rest) && b !in here
    ensures GrowsThrough(s, partial, rest, b)
  {
    EnumerateEachExactly(s, partial, rest, b);
  }

  /** A grown chain that is returned is preferred, where they part ways, to every other acceptable one. */
  lemma ReturnedChainIsPreferred(s: SearchSpace, leaf: Certificate, a: Chain, b: Chain)
    requires s.RunResult(leaf) == Ok(a) && |a| > 1
    requires IsSimplePath(s, leaf, b) && s.policy.Accepts(b) && a != b
    ensures exists k: nat :: PreferredAt(s, a, b, k)
    ensures !(leaf in s.roots && s.policy.Accepts([leaf]))
  {
    EnumerationIsExact(s, leaf, b);
    DecideConcat(s, s.TrustedLeaf(leaf), s.Enumerate([leaf]));
    var k := FirstIsPreferred(s, [leaf], a, b);
  }

  /** No chain was passed over that reaches a root straight from a proper part of the returned chain. */
  lemma NoShortcut(s: SearchSpace, leaf: Certificate, a: Chain, n: nat, root: Certificate)
    requires s.RunResult(leaf) == Ok(a)
    requires 1 <= n < |a| - 1
    requires IsSimplePath(s, leaf, a[..n] + [root])
    ensures !s.policy.Accepts(a[..n] + [root])
  {
    var b := a[..n] + [root];
    if s.policy.Accepts(b) {
      ReturnedChainIsPreferred(s, leaf, a, b);
      var k: nat :| PreferredAt(s, a, b, k);
      ShortcutIsNotPassedOver(s, a, n, root, k);
    }
  }

  lemma ShortcutIsNotPassedOver(s: SearchSpace, a: Chain, n: nat, root: Certificate, k: nat)
    requires 1 <= n < |a| - 1
    ensures !PreferredAt(s, a, a[..n] + [root], k)
  {
  }

  // ----- counting visits

  ghost function Power(base: nat, exponent: nat): nat {
    if exponent == 0 then 1 else base * Power(base, exponent - 1)
  }

  // Sums keep the multiplications of Power out of the induction over the search.

  ghost function Repeated(times: nat, n: nat): nat {
    if times == 0 then 0 else n + Repeated(times - 1, n)
  }

  ghost function Bound(base: nat, exponent: nat): nat {
    if exponent == 0 then 1 else Repeated(base, Bound(base, exponent - 1))
  }

  lemma {:induction false} RepeatedIsProduct(times: nat, n: nat)
    ensures Repeated(times, n) == times * n
  {
    if times > 0 {
      RepeatedIsProduct(times - 1, n);
      assert (times - 1) * n + n == times * n;
    }
  }

  lemma {:induction false} BoundIsPower(base: nat, exponent: nat)
    ensures Bound(base, exponent) == Power(base, exponent)
  {
    if exponent > 0 {
      BoundIsPower(base, exponent - 1);
      RepeatedIsProduct(base, Bound(base, exponent - 1));
    }
  }

  lemma {:induction false} RepeatedIsMonotonic(few: nat, many: nat, n: nat)
    requires few <= many
    ensures Repeated(few, n) <= Repeated(many, n)
  {
    if few < many {
      RepeatedIsMonotonic(few, many - 1, n);
    }
  }

  lemma {:induction false} BoundIsPositive(base: nat, exponent: nat)
    requires base > 0
    ensures 1 <= Bound(base, exponent)
  {
    if exponent > 0 {
      BoundIsPositive(base, exponent - 1);
    }
  }

  lemma {:induction false} UsableIsShorter(s: SearchSpace, candidates: seq<Certificate>, partial: Chain)
    requires partial != []
    ensures |s.Usable(candidates, partial)| <= |candidates|
  {
    if candidates != [] {
      UsableIsShorter(s, candidates[1..], partial);
    }
  }

  lemma IssuersAreFew(s: SearchSpace, partial: Chain)
    requires partial != []
    ensures |s.Issuers(s.intermediates, partial)| <= |s.intermediates|
  {
    var found := WithSubject(s.intermediates, Tip(partial).issuer);
    UsableIsShorter(s, s.Offered(s.intermediates, partial), partial);
    RankedIsPermutation(found, Tip(partial));
    assert |multiset(Ranked(found, Tip(partial)))| == |multiset(found)|;
  }

  lemma BoundStep(m: nat, u: nat, issuers: nat, pops: nat)
    requires u > 0 && issuers <= m && pops <= Repeated(issuers, Bound(m + 1, u - 1))
    ensures 1 + pops <= Bound(m + 1, u)
  {
    BoundIsPositive(m + 1, u - 1);
    RepeatedIsMonotonic(issuers, m, Bound(m + 1, u - 1));
  }

  /** The number of partial chains popped to exhaust everything below `partial`. */
  ghost function Pops(s: SearchSpace, partial: Chain): nat
    requires partial != []
    decreases s.Unused(partial), 1, 0
  {
    s.IssuersAreFresh(partial);
    1 + PopsEach(s, partial, s.Issuers(s.intermediates, partial))
  }

  ghost function PopsEach(s: SearchSpace, partial: Chain, issuers: seq<Certificate>): nat
    requires partial != [] && s.Fresh(issuers, partial)
    decreases s.Unused(partial), 0, |issuers|
  {
    if issuers == [] then 0
    else
      s.UnusedShrinks(partial, issuers[0]);
      Pops(s, partial + [issuers[0]]) + PopsEach(s, partial, issuers[1..])
  }

  lemma {:induction false} SearchesArePops(s: SearchSpace, partial: Chain)
    requires partial != []
    ensures Searches(s.SearchEvents(partial)) == Pops(s, partial)
    decreases s.Unused(partial), 1, 0
  {
    s.IssuersAreFresh(partial);
    VisitConsiders(s, partial);
    SearchesArePopsEach(s, partial, s.Issuers(s.intermediates, partial));
    CheckConcat(s.IntermediateVisitEvents(partial), s.ContinuationEvents(partial));
    CheckConcat(s.RootVisitEvents(partial), s.IntermediateVisitEvents(partial) + s.ContinuationEvents(partial));
  }

  lemma {:induction false} SearchesArePopsEach(s: SearchSpace, partial: Chain, issuers: seq<Certificate>)
    requires partial != [] && s.Fresh(issuers, partial)
    ensures Searches(s.SearchEventsEach(partial, issuers)) == PopsEach(s, partial, issuers)
    decreases s.Unused(partial), 0, |issuers|
  {
    if issuers != [] {
      s.UnusedShrinks(partial, issuers[0]);
      SearchesArePops(s, partial + [issuers[0]]);
      SearchesArePopsEach(s, partial, issuers[1..]);
      CheckConcat(s.SearchEvents(partial + [issuers[0]]), s.SearchEventsEach(partial, issuers[1..]));
    }
  }

  /** Exhausting everything below `partial` takes at most (M + 1)^U pops, U the unused identities, M the store size. */
  lemma {:induction false} PopsAreBounded(s: SearchSpace, partial: Chain, u: nat)
    requires partial != [] && s.Unused(partial) <= u
    ensures Pops(s, partial) <= Bound(|s.intermediates| + 1, u)
    decreases u, 1, 0
  {
    s.IssuersAreFresh(partial);
    var m, issuers := |s.intermediates|, s.Issuers(s.intermediates, partial);
    BoundIsPositive(m + 1, u);
    if issuers != [] {
      s.UnusedShrinks(partial, issuers[0]);
      var pops := PopsEachAreBounded(s, partial, issuers, u, |issuers|, Bound(m + 1, u - 1));
      IssuersAreFew(s, partial);
      BoundStep(m, u, |issuers|, pops);
    }
  }

  lemma {:induction false} PopsEachAreBounded(s: SearchSpace, partial: Chain, issuers: seq<Certificate>,
                                              u: nat, n: nat, p: nat) returns (pops: nat)
    requires partial != [] && s.Fresh(issuers, partial) && s.Unused(partial) <= u && u > 0
    requires n == |issuers| && p == Bound(|s.intermediates| + 1, u - 1)
    ensures pops == PopsEach(s, partial, issuers)
    ensures pops <= Repeated(n, p)
    decreases u, 0, |issuers|
  {
    if issuers == [] {
      pops := 0;
    } else {
      PopsOfHead(s, partial, issuers);
      s.UnusedShrinks(partial, issuers[0]);
      var head := Pops(s, partial + [issuers[0]]);
      PopsAreBounded(s, partial + [issuers[0]], u - 1);
      var tail := PopsEachAreBounded(s, partial, issuers[1..], u, n - 1, p);
      pops := head + tail;
    }
  }

  lemma PopsOfHead(s: SearchSpace, partial: Chain, issuers: seq<Certificate>)
    requires partial != [] && issuers != [] && s.Fresh(issuers, partial)
    ensures s.IsFresh(issuers[0], partial) && s.Fresh(issuers[1..], partial)
    ensures PopsEach(s, partial, issuers) == Pops(s, partial + [issuers[0]]) + PopsEach(s, partial, issuers[1..])
  {
  }

  lemma {:induction false} UpToFirstValidSearchesLess(trace: Trace)
    ensures Searches(UpToFirstValid(trace)) <= Searches(trace)
  {
    if trace != [] {
      UpToFirstValidSearchesLess(trace[1..]);
    }
  }

  /** However the stores cross-sign each other, a run pops at most (M + 1)^D partial chains. */
  lemma RunIsBounded(s: SearchSpace, leaf: Certificate)
    ensures Searches(s.RunEvents(leaf)) <= Power(|s.intermediates| + 1, |Identities(s.intermediates) - {leaf.Id()}|)
  {
    if !HasUnhandledCriticalExtensions(leaf, s.policy) {
      FullTraceSearches(s, leaf);
      BoundIsPower(|s.intermediates| + 1, s.Unused([leaf]));
      PopsAreBounded(s, [leaf], s.Unused([leaf]));
      SearchesArePops(s, [leaf]);
      assert Identities([leaf]) == {leaf.Id()};
      CountDistinctIsCardinality(s.intermediates, {leaf.Id()});
      UpToFirstValidSearchesLess(s.FullTrace(leaf));
    } else {
      assert s.RunEvents(leaf)[1..] == [];
      assert Searches(s.RunEvents(leaf)) == 0;
    }
  }

  lemma FullTraceSearches(s: SearchSpace, leaf: Certificate)
    ensures Searches(s.FullTrace(leaf)) == Searches(s.SearchEvents([leaf]))
  {
    LeafInRootStoreConsiders(s, leaf);
    SingleSilent(CouldNotValidateLeafCertificate(leaf), s.policy);
    SearchesOfThree(s.LeafInRootStoreEvents(leaf), s.SearchEvents([leaf]), [CouldNotValidateLeafCertificate(leaf)]);
  }

  lemma {:induction false} DistinctIdentitiesCount(chain: Chain)
    requires DistinctIdentities(chain)
    ensures |Identities(chain)| == |chain|
  {
    if chain != [] {
      var n := |chain| - 1;
      DistinctIdentitiesCount(chain[..n]);
      IdentitiesAppend(chain[..n], chain[n]);
      assert chain == chain[..n] + [chain[n]];
      IdentityIsNew(chain, n);
    }
  }

  /** A simple path has at most one certificate per intermediate identity, besides its leaf and its root. */
  lemma SimplePathsAreShort(s: SearchSpace, leaf: Certificate, chain: Chain)
    requires IsSimplePath(s, leaf, chain)
    ensures |chain| <= |Identities(s.intermediates)| + 2
  {
    var middle := chain[1..|chain| - 1];
    DistinctIdentitiesCount(middle);
    forall id | id in Identities(middle) ensures id in Identities(s.intermediates) {
      var c := IdentityBearer(middle, id);
      IdentitiesInclude(s.intermediates, c);
      assert c in s.intermediates;
    }
    SubsetIsSmaller(Identities(middle), Identities(s.intermediates));
  }

  lemma {:induction false} SubsetIsSmaller(a: set<Identity>, b: set<Identity>)
    requires a <= b
    ensures |a| <= |b|
  {
    assert b == a + (b - a);
  }

  // ----- what a callback can conclude

  ghost predicate EndsWithValid(trace: Trace, chain: Chain) {
    && trace != []
    && trace[|trace| - 1] == FoundValidCertificateChain(chain)
    && NoneValid(trace[..|trace| - 1])
  }

  lemma HonestTraceIsFaithful(s: SearchSpace, all: Trace)
    requires AllHonest(all, s.policy)
    ensures match s.Decide(Considered(all))
      case Err(failures) => Rejections(UpToFirstValid(all)) == failures && NoneValid(UpToFirstValid(all))
      case Ok(chain) => EndsWithValid(UpToFirstValid(all), chain)
  {
    var before, rest := SplitAtFirstValid(all);
    if rest == [] {
      ProgressDecides(s, all, None, Rejections(before), before, []);
    } else {
      var told := before + [rest[0]];
      PushLast(before, rest[0]);
      assert all == told + rest[1..];
      ProgressDecides(s, all, Some(rest[0].chain), Rejections(told), told, rest[1..]);
    }
  }

  /** On every searched run the reported rejections are, in order, the returned failures; a success is reported last. */
  lemma DiagnosticsAreFaithful(s: SearchSpace, leaf: Certificate)
    requires !HasUnhandledCriticalExtensions(leaf, s.policy)
    ensures match s.RunResult(leaf)
      case Err(failures) => Rejections(s.RunEvents(leaf)) == failures && NoneValid(s.RunEvents(leaf))
      case Ok(chain) => EndsWithValid(s.RunEvents(leaf), chain)
  {
    FullTraceConsiders(s, leaf);
    FullTraceIsHonest(s, leaf);
    HonestTraceIsFaithful(s, s.FullTrace(leaf));
  }

  lemma {:induction false} SplitAtFirstValid(trace: Trace) returns (before: Trace, rest: Trace)
    ensures trace == before + rest && NoneValid(before)
    ensures rest != [] ==> rest[0].FoundValidCertificateChain?
  {
    if trace == [] || trace[0].FoundValidCertificateChain? {
      before, rest := [], trace;
    } else {
      before, rest := SplitAtFirstValid(trace[1..]);
      before := [trace[0]] + before;
      assert before[1..] + rest == trace[1..];
    }
  }
}
