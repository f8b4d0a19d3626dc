/** Ranking candidate issuers by key identifier (x509-validator/src/validator.rs, sort_by_suitability_for_issuing). */
module Suitability {
  import opened Wrappers
  import opened Bytes
  import opened Certificates

  function Rank(subjectAki: Option<Bytes>, candidate: Certificate): (r: nat)
    ensures r <= 2
  {
    match (subjectAki, candidate.subjectKeyIdentifier)
    case (Some(aki), Some(ski)) => if aki == ski then 0 else 2
    case (_, None) => 1
    case (None, Some(_)) => 1
  }

  /** The candidates of rank `r`, in their original order. */
  ghost function OfRank(candidates: seq<Certificate>, subjectAki: Option<Bytes>, r: nat): seq<Certificate>
  {
    if candidates == [] then []
    else
      var last := candidates[|candidates| - 1];
      OfRank(candidates[..|candidates| - 1], subjectAki, r) + (if Rank(subjectAki, last) == r then [last] else [])
  }

  /** Matching candidates first, then those without a verdict, then mismatching ones; ties keep store order. */
  ghost function Ranked(candidates: seq<Certificate>, subject: Certificate): seq<Certificate>
  {
    var aki := subject.authorityKeyIdentifier;
    OfRank(candidates, aki, 0) + OfRank(candidates, aki, 1) + OfRank(candidates, aki, 2)
  }

  lemma {:induction false} OfRankMembers(candidates: seq<Certificate>, subjectAki: Option<Bytes>, r: nat,
                                         c: Certificate)
    ensures c in OfRank(candidates, subjectAki, r) <==> c in candidates && Rank(subjectAki, c) == r
  {
    if candidates != [] {
      OfRankMembers(candidates[..|candidates| - 1], subjectAki, r, c);
    }
  }

  lemma RankedMembers(candidates: seq<Certificate>, subject: Certificate, c: Certificate)
    ensures c in Ranked(candidates, subject) <==> c in candidates
  {
    var aki := subject.authorityKeyIdentifier;
    OfRankMembers(candidates, aki, 0, c);
    OfRankMembers(candidates, aki, 1, c);
    OfRankMembers(candidates, aki, 2, c);
  }

  ghost predicate SortedByRank(s: seq<Certificate>, subjectAki: Option<Bytes>) {
    forall i, j :: 0 <= i <= j < |s| ==> Rank(subjectAki, s[i]) <= Rank(subjectAki, s[j])
  }

  /** Where each rank begins and ends in the ranked list. */
  lemma RankByPosition(candidates: seq<Certificate>, subject: Certificate, i: nat)
    requires i < |Ranked(candidates, subject)|
    ensures var aki := subject.authorityKeyIdentifier;
      var n0, n1 := |OfRank(candidates, aki, 0)|, |OfRank(candidates, aki, 1)|;
      Rank(aki, Ranked(candidates, subject)[i]) == if i < n0 then 0 else if i < n0 + n1 then 1 else 2
  {
    var aki := subject.authorityKeyIdentifier;
    var s := Ranked(candidates, subject);
    var b0, b1, b2 := OfRank(candidates, aki, 0), OfRank(candidates, aki, 1), OfRank(candidates, aki, 2);
    if i < |b0| {
      assert s[i] == b0[i] && b0[i] in b0;
      OfRankMembers(candidates, aki, 0, s[i]);
    } else if i < |b0| + |b1| {
      assert s[i] == b1[i - |b0|] && b1[i - |b0|] in b1;
      OfRankMembers(candidates, aki, 1, s[i]);
    } else {
      assert s[i] == b2[i - |b0| - |b1|] && b2[i - |b0| - |b1|] in b2;
      OfRankMembers(candidates, aki, 2, s[i]);
    }
  }

  lemma RankedIsSorted(candidates: seq<Certificate>, subject: Certificate)
    ensures SortedByRank(Ranked(candidates, subject), subject.authorityKeyIdentifier)
  {
    forall i: nat | i < |Ranked(candidates, subject)| {
      RankByPosition(candidates, subject, i);
    }
  }

  /** The candidates whose key identifier the subject asks for come first, those it rules out come last. */
  lemma MatchingIssuersComeFirst(candidates: seq<Certificate>, subject: Certificate, i: nat, j: nat)
    requires i < j < |Ranked(candidates, subject)| && subject.authorityKeyIdentifier.Some?
    ensures var aki, ranked := subject.authorityKeyIdentifier, Ranked(candidates, subject);
      var earlier, later := ranked[i].subjectKeyIdentifier, ranked[j].subjectKeyIdentifier;
      && (later == aki ==> earlier == aki)
      && (earlier.Some? && earlier != aki ==> later.Some? && later != aki)
  {
    RankByPosition(candidates, subject, i);
    RankByPosition(candidates, subject, j);
  }

  lemma OfRankAppend(candidates: seq<Certificate>, aki: Option<Bytes>, r: nat, x: Certificate)
    ensures OfRank(candidates + [x], aki, r)
      == (if Rank(aki, x) == r then OfRank(candidates, aki, r) + [x] else OfRank(candidates, aki, r))
  {
    assert (candidates + [x])[..|candidates|] == candidates;
  }

  lemma {:induction false} RankedIsPermutation(candidates: seq<Certificate>, subject: Certificate)
    ensures multiset(Ranked(candidates, subject)) == multiset(candidates)
  {
    if candidates != [] {
      var n, aki := |candidates| - 1, subject.authorityKeyIdentifier;
      var init, x := candidates[..n], candidates[n];
      assert candidates == init + [x];
      RankedIsPermutation(init, subject);
      OfRankAppend(init, aki, 0, x);
      OfRankAppend(init, aki, 1, x);
      OfRankAppend(init, aki, 2, x);
      assert multiset(Ranked(init + [x], subject)) == multiset(Ranked(init, subject)) + multiset{x};
    }
  }

  lemma OfRankExtend(a: seq<Certificate>, b: seq<Certificate>, aki: Option<Bytes>, r: nat)
    requires b != []
    requires var init := b[..|b| - 1]; OfRank(a + init, aki, r) == OfRank(a, aki, r) + OfRank(init, aki, r)
    ensures OfRank(a + b, aki, r) == OfRank(a, aki, r) + OfRank(b, aki, r)
  {
    assert (a + b)[..|a + b| - 1] == a + b[..|b| - 1];
  }

  lemma {:induction false} OfRankConcat(a: seq<Certificate>, b: seq<Certificate>, aki: Option<Bytes>, r: nat)
    ensures OfRank(a + b, aki, r) == OfRank(a, aki, r) + OfRank(b, aki, r)
  {
    if b == [] {
      assert a + b == a;
    } else {
      OfRankConcat(a, b[..|b| - 1], aki, r);
      OfRankExtend(a, b, aki, r);
    }
  }

  lemma {:induction false} OfRankOfRank(candidates: seq<Certificate>, aki: Option<Bytes>, k: nat, r: nat)
    ensures OfRank(OfRank(candidates, aki, k), aki, r) == if k == r then OfRank(candidates, aki, k) else []
  {
    if candidates != [] {
      var init, last := candidates[..|candidates| - 1], candidates[|candidates| - 1];
      assert candidates == init + [last];
      OfRankOfRank(init, aki, k, r);
      OfRankAppend(init, aki, k, last);
      OfRankAppend(OfRank(init, aki, k), aki, r, last);
    }
  }

  /** Sorting is stable: the candidates of any one rank keep their order among themselves. */
  lemma RankedIsStable(candidates: seq<Certificate>, subject: Certificate, r: nat)
    ensures var aki := subject.authorityKeyIdentifier;
      OfRank(Ranked(candidates, subject), aki, r) == OfRank(candidates, aki, r)
  {
    var aki := subject.authorityKeyIdentifier;
    var b0, b1, b2 := OfRank(candidates, aki, 0), OfRank(candidates, aki, 1), OfRank(candidates, aki, 2);
    OfRankConcat(b0 + b1, b2, aki, r);
    OfRankConcat(b0, b1, aki, r);
    OfRankOfRank(candidates, aki, 0, r);
    OfRankOfRank(candidates, aki, 1, r);
    OfRankOfRank(candidates, aki, 2, r);
    if r > 2 {
      var other := OfRank(candidates, aki, r);
      if other != [] {
        OfRankMembers(candidates, aki, r, other[0]);
      }
    }
  }

  /** A subject without an authority key identifier leaves the candidates as the store lists them. */
  lemma {:induction false} RankedWithoutAki(candidates: seq<Certificate>, subject: Certificate)
    requires subject.authorityKeyIdentifier == None
    ensures Ranked(candidates, subject) == candidates
  {
    if candidates != [] {
      var n := |candidates| - 1;
      RankedWithoutAki(candidates[..n], subject);
      assert candidates == candidates[..n] + [candidates[n]];
      forall r | r == 0 || r == 2 ensures OfRank(candidates[..n], None, r) == [] {
        var b := OfRank(candidates[..n], None, r);
        if b != [] {
          OfRankMembers(candidates[..n], None, r, b[0]);
        }
      }
    }
  }

  /** Where the ranked list is split when a candidate of rank `r` is appended. */
  ghost function Cut(candidates: seq<Certificate>, subject: Certificate, r: nat): nat {
    var aki := subject.authorityKeyIdentifier;
    if r == 0 then |OfRank(candidates, aki, 0)|
    else if r == 1 then |OfRank(candidates, aki, 0)| + |OfRank(candidates, aki, 1)|
    else |Ranked(candidates, subject)|
  }

  lemma RankedSplit(b0: seq<Certificate>, b1: seq<Certificate>, b2: seq<Certificate>, x: Certificate)
    ensures var s := b0 + b1 + b2;
      && b0 + [x] + b1 + b2 == s[..|b0|] + [x] + s[|b0|..]
      && b0 + (b1 + [x]) + b2 == s[..|b0| + |b1|] + [x] + s[|b0| + |b1|..]
      && b0 + b1 + (b2 + [x]) == s[..|s|] + [x] + s[|s|..]
  {
  }

  lemma RankedAppend(candidates: seq<Certificate>, subject: Certificate, x: Certificate)
    ensures var s := Ranked(candidates, subject);
      var k := Cut(candidates, subject, Rank(subject.authorityKeyIdentifier, x));
      k <= |s| && Ranked(candidates + [x], subject) == s[..k] + [x] + s[k..]
  {
    var aki := subject.authorityKeyIdentifier;
    OfRankAppend(candidates, aki, 0, x);
    OfRankAppend(candidates, aki, 1, x);
    OfRankAppend(candidates, aki, 2, x);
    RankedSplit(OfRank(candidates, aki, 0), OfRank(candidates, aki, 1), OfRank(candidates, aki, 2), x);
  }

  /** Everything before position `j` ranks no worse than `x` and everything from there on ranks worse. */
  ghost predicate Separates(s: seq<Certificate>, subjectAki: Option<Bytes>, x: Certificate, j: nat) {
    && j <= |s|
    && (j > 0 ==> Rank(subjectAki, s[j - 1]) <= Rank(subjectAki, x))
    && (forall k :: j <= k < |s| ==> Rank(subjectAki, s[k]) > Rank(subjectAki, x))
  }

  /** Appending a candidate puts it after every candidate of its own or a better rank. */
  lemma InsertionPoint(candidates: seq<Certificate>, subject: Certificate, x: Certificate, j: nat)
    requires Separates(Ranked(candidates, subject), subject.authorityKeyIdentifier, x, j)
    ensures Ranked(candidates + [x], subject)
      == Ranked(candidates, subject)[..j] + [x] + Ranked(candidates, subject)[j..]
  {
    RankedAppend(candidates, subject, x);
    var s := Ranked(candidates, subject);
    var k := Cut(candidates, subject, Rank(subject.authorityKeyIdentifier, x));
    if j < k {
      RankByPosition(candidates, subject, j);
    } else if k < j {
      RankByPosition(candidates, subject, j - 1);
    }
  }

  lemma InsertedAt(now: seq<Certificate>, was: seq<Certificate>, x: Certificate, k: nat)
    requires |now| == |was| + 1 && k <= |was| && now[k] == x
    requires forall m :: 0 <= m < k ==> now[m] == was[m]
    requires forall m :: k < m < |now| ==> now[m] == was[m - 1]
    ensures now == was[..k] + [x] + was[k..]
  {
  }

  /** Walks the candidate at `i` left past every candidate that ranks worse, to position `j`. */
  method Insert(candidates: array<Certificate>, i: nat, subjectAki: Option<Bytes>) returns (ghost j: nat)
    requires i < candidates.Length
    modifies candidates
    ensures Separates(old(candidates[..i]), subjectAki, old(candidates[i]), j)
    ensures candidates[..i + 1] == old(candidates[..i])[..j] + [old(candidates[i])] + old(candidates[..i])[j..]
    ensures candidates[i + 1..] == old(candidates[i + 1..])
  {
    ghost var sorted := candidates[..i];
    ghost var rest := candidates[i + 1..];
    var x := candidates[i];
    var k := i;
    while k > 0 && Rank(subjectAki, candidates[k - 1]) > Rank(subjectAki, x)
      invariant 0 <= k <= i
      invariant forall m :: 0 <= m < k ==> candidates[m] == sorted[m]
      invariant forall m :: k < m <= i ==> candidates[m] == sorted[m - 1]
      invariant forall m :: k <= m < i ==> Rank(subjectAki, sorted[m]) > Rank(subjectAki, x)
      invariant candidates[i + 1..] == rest
    {
      candidates[k] := candidates[k - 1];
      k := k - 1;
    }
    candidates[k] := x;
    j := k;
    InsertedAt(candidates[..i + 1], sorted, x, k);
  }

  /** Sorts the candidates in place, keeping the order of candidates that rank alike. */
  method SortBySuitabilityForIssuing(candidates: array<Certificate>, subject: Certificate)
    modifies candidates
    ensures candidates[..] == Ranked(old(candidates[..]), subject)
  {
    ghost var was := candidates[..];
    for i := 0 to candidates.Length
      invariant candidates[..i] == Ranked(was[..i], subject)
      invariant candidates[i..] == was[i..]
    {
      assert candidates[i] == candidates[i..][0] == was[i];
      assert candidates[i + 1..] == candidates[i..][1..] == was[i + 1..];
      ghost var j := Insert(candidates, i, subject.authorityKeyIdentifier);
      InsertionPoint(was[..i], subject, was[i], j);
      assert was[..i + 1] == was[..i] + [was[i]];
    }
    assert candidates[..] == candidates[..candidates.Length];
    assert was == was[..candidates.Length];
  }
}
