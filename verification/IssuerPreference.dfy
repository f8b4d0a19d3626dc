/** Which issuers a search prefers, by their key identifiers and the order in which the stores were filled. */
module IssuerPreference {
  import opened Wrappers
  import opened Bytes
  import opened Certificates
  import opened Stores
  import opened Suitability
  import opened ChainSearch
  import opened SearchProperties
  import opened SearchOrder
  import opened ValidChains
  import opened Sequences

  /** The key identifier the certificate was issued under, if it names one, is this issuer's. */
  ghost predicate IsAskedFor(issuer: Certificate, child: Certificate) {
    && child.authorityKeyIdentifier.Some? && issuer.subjectKeyIdentifier.Some?
    && issuer.subjectKeyIdentifier.value == child.authorityKeyIdentifier.value
  }

  /** The certificate was issued under another key identifier. */
  ghost predicate IsRuledOut(issuer: Certificate, child: Certificate) {
    && child.authorityKeyIdentifier.Some? && issuer.subjectKeyIdentifier.Some?
    && issuer.subjectKeyIdentifier.value != child.authorityKeyIdentifier.value
  }

  /** One issuer is asked for and the other is not, or the other is ruled out and it is not, or it is older. */
  ghost predicate IsPreferredTo(store: seq<Certificate>, child: Certificate, x: Certificate, y: Certificate) {
    || (IsAskedFor(x, child) && !IsAskedFor(y, child))
    || (!IsRuledOut(x, child) && IsRuledOut(y, child))
    || ((IsAskedFor(x, child) <==> IsAskedFor(y, child))
      && (IsRuledOut(x, child) <==> IsRuledOut(y, child))
      && ListedBefore(store, x, y))
  }

  // ----- what filtering and appending do to the order of a list

  lemma ListedBeforeHead(list: seq<Certificate>, x: Certificate, y: Certificate)
    requires list != []
    ensures ListedBefore(list, x, y) <==>
      x != y && (if list[0] == x then y in list else list[0] != y && ListedBefore(list[1..], x, y))
  {
    if list[0] != x && list[0] != y && ListedBefore(list, x, y) {
      forall j | 0 <= j < |list[1..]| && list[1..][j] == y ensures x in list[1..][..j] {
        assert list[j + 1] == y && x in list[..j + 1];
        assert list[..j + 1] == [list[0]] + list[1..][..j];
      }
    }
    if list[0] != y && list[0] != x && ListedBefore(list[1..], x, y) {
      ListedBeforeInTail(list, x, y);
    }
    if list[0] == x && y in list && x != y {
      ListedFirst(list, x, y, 0);
    }
  }

  lemma ListedBeforeLast(list: seq<Certificate>, c: Certificate, x: Certificate, y: Certificate)
    ensures ListedBefore(list + [c], x, y)
      <==> if y in list then ListedBefore(list, x, y) else c == y && x in list && x != y
  {
    var longer := list + [c];
    forall j | 0 <= j <= |list| ensures longer[..j] == list[..j] {
    }
    assert list[..|list|] == list;
    if y in list && ListedBefore(longer, x, y) {
      var j :| 0 <= j < |list| && list[j] == y;
      assert longer[j] == y && x in list[..j];
      forall i | 0 <= i < |list| && list[i] == y ensures x in list[..i] {
        assert longer[i] == y;
      }
    }
    if y in list && ListedBefore(list, x, y) {
      forall i | 0 <= i < |longer| && longer[i] == y ensures x in longer[..i] {
        assert i < |list| ==> list[i] == y;
      }
    }
  }

  lemma {:induction false} ListedBeforeConcat(a: seq<Certificate>, b: seq<Certificate>, x: Certificate, y: Certificate)
    requires ListedBefore(a + b, x, y)
    ensures if y in a then ListedBefore(a, x, y) else y in b && (x in a || ListedBefore(b, x, y))
  {
    if a == [] {
      assert a + b == b;
    } else {
      Uncons(a, b);
      ListedBeforeHead(a + b, x, y);
      ListedBeforeHead(a, x, y);
      if a[0] != x {
        ListedBeforeConcat(a[1..], b, x, y);
      }
    }
  }

  lemma {:induction false} LookupKeepsOrder(certificates: seq<Certificate>, subject: Bytes,
                                            x: Certificate, y: Certificate)
    requires ListedBefore(WithSubject(certificates, subject), x, y)
    ensures ListedBefore(certificates, x, y)
  {
    var n := |certificates| - 1;
    var init, last := certificates[..n], certificates[n];
    PopLast(certificates);
    WithSubjectAppend(init, last, subject);
    ListedBeforeLast(init, last, x, y);
    ListedBeforeLast(WithSubject(init, subject), last, x, y);
    if ListedBefore(WithSubject(init, subject), x, y) {
      LookupKeepsOrder(init, subject, x, y);
    }
  }

  lemma {:induction false} RankKeepsOrder(certificates: seq<Certificate>, aki: Option<Bytes>, r: nat,
                                          x: Certificate, y: Certificate)
    requires ListedBefore(OfRank(certificates, aki, r), x, y)
    ensures ListedBefore(certificates, x, y)
  {
    var n := |certificates| - 1;
    var init, last := certificates[..n], certificates[n];
    PopLast(certificates);
    OfRankAppend(init, aki, r, last);
    OfRankMembers(init, aki, r, x);
    OfRankMembers(init, aki, r, y);
    OfRankMembers(certificates, aki, r, y);
    ListedBeforeLast(init, last, x, y);
    ListedBeforeLast(OfRank(init, aki, r), last, x, y);
    if ListedBefore(OfRank(init, aki, r), x, y) {
      RankKeepsOrder(init, aki, r, x, y);
    }
  }

  lemma {:induction false} UsableKeepsOrder(s: SearchSpace, candidates: seq<Certificate>, partial: Chain,
                                            x: Certificate, y: Certificate)
    requires partial != [] && ListedBefore(s.Usable(candidates, partial), x, y)
    ensures ListedBefore(candidates, x, y)
  {
    var c, later := candidates[0], candidates[1..];
    s.UsableMembers(candidates, partial, x);
    s.UsableMembers(candidates, partial, y);
    ListedBeforeHead(candidates, x, y);
    if s.ShouldSkip(c, partial) {
      NothingAdded(s.Usable(later, partial));
      UsableKeepsOrder(s, later, partial, x, y);
    } else {
      var usable := s.Usable(candidates, partial);
      assert usable[0] == c && usable[1..] == s.Usable(later, partial);
      ListedBeforeHead(usable, x, y);
      if c != x {
        UsableKeepsOrder(s, later, partial, x, y);
      }
    }
  }

  // ----- preference

  /** The ranks say who is asked for and who is ruled out. */
  lemma RankMeans(child: Certificate, c: Certificate)
    ensures IsAskedFor(c, child) <==> Rank(child.authorityKeyIdentifier, c) == 0
    ensures IsRuledOut(c, child) <==> Rank(child.authorityKeyIdentifier, c) == 2
  {
  }

  lemma RankedByRank(candidates: seq<Certificate>, child: Certificate, x: Certificate, y: Certificate)
    requires ListedBefore(Ranked(candidates, child), x, y)
    ensures var aki := child.authorityKeyIdentifier;
      Rank(aki, x) < Rank(aki, y) || (Rank(aki, x) == Rank(aki, y) && ListedBefore(candidates, x, y))
  {
    var aki := child.authorityKeyIdentifier;
    var b0, b1, b2 := OfRank(candidates, aki, 0), OfRank(candidates, aki, 1), OfRank(candidates, aki, 2);
    ListedBeforeConcat(b0 + b1, b2, x, y);
    if y in b0 + b1 {
      ListedBeforeConcat(b0, b1, x, y);
    }
    forall r, c | 0 <= r <= 2 && (c == x || c == y)
      ensures c in OfRank(candidates, aki, r) ==> Rank(aki, c) == r
    {
      OfRankMembers(candidates, aki, r, c);
    }
    forall r: nat | r <= 2 && ListedBefore(OfRank(candidates, aki, r), x, y)
      ensures ListedBefore(candidates, x, y)
    {
      RankKeepsOrder(candidates, aki, r, x, y);
    }
  }

  lemma RankedPrefers(candidates: seq<Certificate>, child: Certificate, x: Certificate, y: Certificate)
    requires ListedBefore(Ranked(candidates, child), x, y)
    ensures IsPreferredTo(candidates, child, x, y)
  {
    RankedByRank(candidates, child, x, y);
    RankMeans(child, x);
    RankMeans(child, y);
  }

  /** Of two issuers the search tries the one asked for first, the one ruled out last, and else the older one first. */
  lemma IssuersArePreferred(s: SearchSpace, store: seq<Certificate>, partial: Chain, x: Certificate, y: Certificate)
    requires partial != [] && ListedBefore(s.Issuers(store, partial), x, y)
    ensures IsPreferredTo(store, partial[|partial| - 1], x, y)
  {
    var child := partial[|partial| - 1];
    var found := WithSubject(store, child.issuer);
    UsableKeepsOrder(s, s.Offered(store, partial), partial, x, y);
    RankedPrefers(found, child, x, y);
    if ListedBefore(found, x, y) {
      LookupKeepsOrder(store, child.issuer, x, y);
    }
  }

  /** The chains part ways at position k, where `a` has ended or has the preferred issuer. */
  ghost predicate IsPreferredFrom(s: SearchSpace, a: Chain, b: Chain, k: nat) {
    && 1 <= k < |a| && k < |b| && a[..k] == b[..k]
    && if |a| == k + 1 then
         |b| > k + 1 || IsPreferredTo(s.roots, a[k - 1], a[k], b[k])
       else
         |b| > k + 1 && IsPreferredTo(s.intermediates, a[k - 1], a[k], b[k])
  }

  /** Of all valid chains the search returns the leaf on its own or else the one preferred to every other. */
  lemma ReturnedChainIsPreferredAsStored(s: SearchSpace, leaf: Certificate, a: Chain, b: Chain)
    requires s.RunResult(leaf) == Ok(a)
    requires IsValidChain(s.roots, s.intermediates, s.verify, s.policy, leaf, b) && a != b
    ensures a == [leaf] || exists k: nat :: IsPreferredFrom(s, a, b, k)
  {
    ReturnedChainIsSound(s, leaf, a);
    ValidChainsExactly(s, leaf, b);
    if a != [leaf] {
      ReturnedChainIsPreferred(s, leaf, a, b);
      var k: nat :| PreferredAt(s, a, b, k);
      var store := if |a| == k + 1 then s.roots else s.intermediates;
      assert a[..k][k - 1] == a[k - 1];
      if ListedBefore(s.Issuers(store, a[..k]), a[k], b[k]) {
        IssuersArePreferred(s, store, a[..k], a[k], b[k]);
      }
      assert IsPreferredFrom(s, a, b, k);
    }
  }
}
