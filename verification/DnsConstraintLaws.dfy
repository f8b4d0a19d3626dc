/** What satisfying a dNSName constraint means for the text of a name, and the laws that follow. */
module DnsConstraintLaws {
  import opened Bytes
  import opened LabelSplitting
  import opened DnsNames
  import opened Sequences

  // ----- as text

  ghost predicate IsLabelSuffix(x: Bytes, y: Bytes) {
    |Split(y)| <= |Split(x)| && Split(x)[|Split(x)| - |Split(y)|..] == Split(y)
  }

  lemma LabelSuffixIsTextSuffix(x: Bytes, y: Bytes)
    ensures IsLabelSuffix(x, y) <==> x == y || exists p :: x == p + ([PERIOD] + y)
  {
    JoinSplit(x);
    JoinSplit(y);
    if IsLabelSuffix(x, y) {
      var a := |Split(x)| - |Split(y)|;
      if a > 0 {
        assert Split(x) == Split(x)[..a] + Split(x)[a..];
        JoinConcat(Split(x)[..a], Split(y));
      } else {
        assert Split(x)[0..] == Split(x);
      }
    }
    if x == y {
      assert Split(x)[0..] == Split(y);
    }
    if p :| x == p + ([PERIOD] + y) {
      SplitConcat(p, y);
    }
  }

  lemma EndsInAsText(name: Bytes, suffix: Bytes)
    ensures EndsIn(Split(name), Split(suffix)) <==> IsLabelSuffix(Fold(name), Fold(suffix))
  {
    SplitFold(name);
    SplitFold(suffix);
    var a := |Split(name)| - |Split(suffix)|;
    if a >= 0 {
      assert FoldAll(Split(name)[a..]) == FoldAll(Split(name))[a..];
    }
  }

  lemma FirstLabelIsEmpty(s: Bytes)
    ensures Split(s)[0] == [] <==> s == [] || s[0] == PERIOD
  {
    var k := IndexOf(s, PERIOD);
    if s != [] && s[0] == PERIOD {
      IndexOfUnique(s, PERIOD, 0);
    }
  }

  /**
   * A constraint that names a host is satisfied by that name and by every name that adds labels on its
   * left, as section 4.2.1.10 of RFC 5280 has it.
   */
  lemma HostConstraintAsText(name: Bytes, constraint: Bytes)
    requires IsValidDnsName(name, false) && IsValidDnsName(constraint, true)
    requires constraint != [] && constraint[0] != PERIOD
    ensures DnsNameMatches(name, constraint)
      <==> var host := Fold(Relative(constraint));
        Fold(name) == host || exists p :: Fold(name) == p + ([PERIOD] + host)
  {
    var c := Relative(constraint);
    LabelsWithoutTrailingPeriod(constraint);
    FirstLabelIsEmpty(c);
    EndsInAsText(name, c);
    LabelSuffixIsTextSuffix(Fold(name), Fold(c));
  }

  /** The labels of a constraint that begins with a period: an empty one, then those of the rest. */
  lemma DomainConstraintLabels(constraint: Bytes) returns (rest: Bytes)
    requires IsValidDnsName(constraint, true) && constraint != [] && constraint[0] == PERIOD
    ensures Relative(constraint) == [PERIOD] + rest
    ensures Labels(constraint) == [[]] + Split(rest)
  {
    ValidConstraintIsNotPeriod(constraint);
    rest := Relative(constraint)[1..];
    SplitFirst([], rest);
    NothingAdded([PERIOD] + rest);
    LabelsWithoutTrailingPeriod(constraint);
  }

  lemma ProperSuffixAsText(name: Bytes, rest: Bytes, tail: Bytes)
    requires tail == [PERIOD] + Fold(rest)
    ensures |Split(rest)| < |Split(name)| && EndsIn(Split(name), Split(rest)) <==> exists p :: Fold(name) == p + tail
  {
    EndsInAsText(name, rest);
    LabelSuffixIsTextSuffix(Fold(name), Fold(rest));
    SplitFold(name);
    SplitFold(rest);
    if p :| Fold(name) == p + ([PERIOD] + Fold(rest)) {
      SplitConcat(p, Fold(rest));
    }
    if Fold(name) == Fold(rest) {
      assert |Split(rest)| == |Split(name)|;
    }
  }

  /** A constraint that begins with a period is satisfied by the names that put something before it. */
  lemma DomainConstraintAsText(name: Bytes, constraint: Bytes)
    requires IsValidDnsName(name, false) && IsValidDnsName(constraint, true)
    requires constraint != [] && constraint[0] == PERIOD
    ensures DnsNameMatches(name, constraint)
      <==> exists p :: p != [] && Fold(name) == p + Fold(Relative(constraint))
  {
    var rest := DomainConstraintLabels(constraint);
    assert Labels(constraint)[0] == [] && Labels(constraint)[1..] == Split(rest);
    var tail := Fold(Relative(constraint));
    assert tail == [PERIOD] + Fold(rest);
    ProperSuffixAsText(name, rest, tail);
    forall p | Fold(name) == p + tail ensures p != [] {
      NoPeriodInFront(name, p, Fold(rest));
    }
  }

  lemma NoPeriodInFront(name: Bytes, p: Bytes, tail: Bytes)
    requires IsValidDnsName(name, false) && Fold(name) == p + ([PERIOD] + tail)
    ensures p != []
  {
    NameDoesNotStartWithPeriod(name);
    FoldKeepsPeriods(name[0]);
  }

  lemma ValidConstraintIsNotPeriod(constraint: Bytes)
    requires IsValidDnsName(constraint, true) && constraint != [] && constraint[0] == PERIOD
    ensures |constraint| > 1 && Relative(constraint) != [] && Relative(constraint)[0] == PERIOD
  {
    if |constraint| == 1 {
      LabelsWithoutTrailingPeriod(constraint);
      SplitWhole([]);
      ValidNameLabels(constraint, true);
    }
  }

  lemma NameDoesNotStartWithPeriod(name: Bytes)
    requires IsValidDnsName(name, false) && name != []
    ensures name[0] != PERIOD
  {
    ValidNameLabels(name, false);
    FirstLabelIsEmpty(name);
    TrimmedLabels(name);
    LabelsAreEmptyOnlyWhenTextIs(name);
  }

  // ----- laws

  lemma FoldAllDrop(labels: seq<Bytes>, n: nat)
    requires n <= |labels|
    ensures FoldAll(labels[n..]) == FoldAll(labels)[n..]
  {
  }

  lemma EndsInTransitive(a: seq<Bytes>, b: seq<Bytes>, c: seq<Bytes>)
    requires EndsIn(a, b) && EndsIn(b, c)
    ensures EndsIn(a, c)
  {
    var e := |b| - |c|;
    FoldAllDrop(a[|a| - |b|..], e);
    FoldAllDrop(b, e);
    assert a[|a| - |b|..][e..] == a[|a| - |c|..];
  }

  lemma SatisfiedByLonger(constraint: seq<Bytes>, name: seq<Bytes>, longer: seq<Bytes>)
    requires SatisfiedBy(constraint, name) && EndsIn(longer, name)
    ensures SatisfiedBy(constraint, longer)
  {
    if constraint != [] && constraint[0] == [] {
      EndsInTransitive(longer, name, constraint[1..]);
    } else {
      EndsInTransitive(longer, name, constraint);
    }
  }

  /** A name that itself satisfies some constraint is not empty and has no trailing period. */
  lemma SatisfyingNameIsRelative(name: Bytes, constraint: Bytes)
    requires DnsNameMatches(name, constraint) && constraint != []
    ensures name != [] && Split(name) == Labels(name) && Split(name)[0] != []
  {
    LastLabelIsNotEmpty(name, constraint);
    ValidNameLabels(name, false);
    TrimmedLabels(name);
    SplitWhole([]);
  }

  lemma LastLabelIsNotEmpty(name: Bytes, constraint: Bytes)
    requires DnsNameMatches(name, constraint) && constraint != []
    ensures Last(Split(name)) != []
  {
    ValidNameLabels(constraint, true);
    LabelsAreEmptyOnlyWhenTextIs(constraint);
    LastOfSatisfying(Labels(constraint), Split(name));
  }

  lemma LastOfSatisfying(constraint: seq<Bytes>, name: seq<Bytes>)
    requires constraint != [] && constraint != [[]] && OnlyFirstEmpty(constraint)
    requires name != [] && SatisfiedBy(constraint, name)
    ensures Last(name) != []
  {
    if constraint[0] == [] {
      assert constraint == [[]] || |constraint| > 1;
      EndsInLast(name, constraint[1..]);
    } else {
      EndsInLast(name, constraint);
    }
  }

  /** If a name satisfies a constraint that, as a name, satisfies another, it satisfies the other. */
  lemma MatchingIsTransitive(name: Bytes, middle: Bytes, constraint: Bytes)
    requires DnsNameMatches(name, middle) && DnsNameMatches(middle, constraint)
    ensures DnsNameMatches(name, constraint)
  {
    if constraint != [] {
      SatisfyingNameIsRelative(middle, constraint);
      SatisfiedByLonger(Labels(constraint), Split(middle), Split(name));
    }
  }

  /** Adding labels on the left keeps a constraint satisfied, as long as the longer name is valid. */
  lemma AddingLabelsKeepsMatching(name: Bytes, constraint: Bytes, added: Bytes)
    requires DnsNameMatches(name, constraint)
    requires IsValidDnsName(added + ([PERIOD] + name), false)
    ensures DnsNameMatches(added + ([PERIOD] + name), constraint)
  {
    if constraint != [] {
      SplitConcat(added, name);
      var longer := Split(added) + Split(name);
      assert longer[|longer| - |Split(name)|..] == Split(name);
      SatisfiedByLonger(Labels(constraint), Split(name), longer);
    }
  }

  // ----- letter case

  lemma FoldKeepsByteClass(b: Byte)
    ensures IsLabelByte(FoldByte(b)) <==> IsLabelByte(b)
    ensures IsDigit(FoldByte(b)) <==> IsDigit(b)
    ensures FoldByte(b) == HYPHEN <==> b == HYPHEN
    ensures FoldByte(b) == ASTERISK <==> b == ASTERISK
    ensures FoldByte(b) == PERIOD <==> b == PERIOD
  {
  }

  lemma FoldKeepsLabelValidity(part: Bytes)
    ensures IsValidLabel(Fold(part)) <==> IsValidLabel(part)
    ensures AllDigits(Fold(part)) <==> AllDigits(part)
  {
    var f := Fold(part);
    forall i | 0 <= i < |part|
      ensures IsLabelByte(f[i]) <==> IsLabelByte(part[i])
      ensures IsDigit(f[i]) <==> IsDigit(part[i])
      ensures f[i] == HYPHEN <==> part[i] == HYPHEN
    {
      FoldKeepsByteClass(part[i]);
    }
    assert AllLabelBytes(f) <==> AllLabelBytes(part);
  }

  lemma FoldKeepsValidLabels(parts: seq<Bytes>, firstMayBeEmpty: bool)
    ensures AreValidLabels(FoldAll(parts), firstMayBeEmpty) <==> AreValidLabels(parts, firstMayBeEmpty)
  {
    var f := FoldAll(parts);
    forall i | 0 <= i < |parts|
      ensures IsValidLabel(f[i]) <==> IsValidLabel(parts[i])
      ensures AllDigits(f[i]) <==> AllDigits(parts[i])
      ensures f[i] == [] <==> parts[i] == []
    {
      FoldKeepsLabelValidity(parts[i]);
    }
  }

  lemma LabelsFold(s: Bytes)
    ensures Labels(Fold(s)) == FoldAll(Labels(s))
  {
    SplitFold(s);
    var parts := Split(s);
    assert FoldAll(parts)[..|parts| - 1] == FoldAll(parts[..|parts| - 1]);
  }

  lemma FoldKeepsValidity(name: Bytes, isConstraint: bool)
    ensures IsValidDnsName(Fold(name), isConstraint) <==> IsValidDnsName(name, isConstraint)
  {
    if name != [] {
      FoldKeepsByteClass(name[0]);
    }
    if IsWildcard(name) && |name| >= 2 {
      FoldKeepsByteClass(name[1]);
      assert Fold(name)[2..] == Fold(name[2..]);
      LabelsFold(name[2..]);
      FoldKeepsValidLabels(Labels(name[2..]), false);
    } else {
      LabelsFold(name);
      FoldKeepsValidLabels(Labels(name), isConstraint);
    }
  }

  lemma EndsInIgnoresCase(name: seq<Bytes>, suffix: seq<Bytes>)
    ensures EndsIn(FoldAll(name), suffix) <==> EndsIn(name, suffix)
  {
    var a := |name| - |suffix|;
    if a >= 0 {
      forall i | 0 <= i < |suffix| ensures FoldAll(FoldAll(name)[a..])[i] == FoldAll(name[a..])[i] {
        FoldIdempotent(name[a + i]);
      }
      assert FoldAll(FoldAll(name)[a..]) == FoldAll(name[a..]);
    }
  }

  /** The letter case of the name does not matter. */
  lemma MatchingIgnoresCase(name: Bytes, constraint: Bytes)
    ensures DnsNameMatches(Fold(name), constraint) <==> DnsNameMatches(name, constraint)
  {
    FoldKeepsValidity(name, false);
    SplitFold(name);
    if constraint != [] {
      var c := Labels(constraint);
      EndsInIgnoresCase(Split(name), c);
      if c != [] {
        EndsInIgnoresCase(Split(name), c[1..]);
      }
    }
  }
}
